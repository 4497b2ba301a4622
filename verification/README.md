# Despia Local, modelled in Dafny

Despia Local is a small data plane over SQLite: rows in declared stores, a declared query vocabulary,
savepoints, durable snapshots, vector indexes with provenance, and a JSON codec that every stored value
passes through twice. This project models its five hard parts as one stack and proves what they promise.

| part | files | form |
|---|---|---|
| JSON codec (`engine/src/json.hpp`) | `Strings`, `Json`, `Unicode`, `JsonParser`, `JsonGrammar`, `JsonComplete`, `JsonSound`, `JsonFaults`, `JsonUnique`, `Utf8Text`, `JsonCharacters`, `RfcStrings`, `RfcValues`, `JsonRfc`, `JsonRoundTrip`, `JsonCanonical` | classes `Parser` (fields `i`, `depth`, `err`) and `Printer` (an output buffer), proved against pure reading and printing functions; a grammar of syntax trees, with what each means by tables of the standards, as the independent reference |
| value order and queries (`engine/src/store.cpp`) | `StableSort`, `ValueOrder`, `Query` | a merge sort in place on arrays, nested filter loops, one sort per clause |
| contents, scopes, snapshots, indexes (`engine/src/store.cpp`) | `Database`, `IndexLayer`, `IndexActions`, `Scopes`, `Transactions`, `Answers`, `Nearest`, `StoreHandle` | class `Store`, each action a method that makes exactly one step of a state machine; theorems over whole runs |
| second string reader (`bindings/swift`) | `SwiftReader` | class `Reader`, compared with the C++ reader |
| second lane and agent protocol (`bindings/ts`, `conformance`) | `LocalStore`, `AgentProtocol` | classes `Local` (two caches beside a database, over the same scopes as the engine) and `Harness` (the snapshot-then-savepoint loop) |

Bytes are `char`s below 256 where the source has bytes; nothing proved depends on the bound. A double is a
`Number`: a real, or an infinity (what a number too large for a double reads as). The C library is a parameter
`F: Floats`, and what its standard promises of `strtod` and `%.*g` is the predicate `Faithful`, taken as a
precondition where it is needed (integers in the fast-path range read exactly, integers of 310 digits and more as
infinities, seventeen digits read back); `FaithfulExists` shows that it can be met. Integers in the fast-path range are
printed and read digit by digit. SQLite, sqlite-vec and the file system are not modelled as programs: a
connection is contents, open scopes and snapshot files, and each statement does what SQLite's documentation says
(`Scopes`, for any contents and any writes, so that both lanes share it). The rules used here: savepoint names
match whatever their letter case and innermost first; `ROLLBACK TO` keeps the savepoint; closing drops open scopes;
`VACUUM INTO` fails inside a scope and keeps row ids; a row id is the largest in use plus one.

The main results, bottom up:

1. Codec. The parser takes exactly the texts of one unambiguous grammar (`AcceptsExactly`, `DocsSame`), which holds
   every RFC 8259 text, each as the one value that the standard's own tables give it (`RfcTextsAccepted`, `MeansIs`,
   `DenotesIs`); a value has one text (`PrintedForm`); printing then parsing gives the value back exactly when it is
   at most 64 high and its numbers are finite (`RoundTrip`); printing after parsing is a canonical form
   (`CanonicalForm`, `CanonicalFormDecides`).
2. Queries. The value order is a total preorder (`ValuesTotalPreorder`) in the declared direction (`NumbersOrdered`,
   `KindsOrdered`, `TextsOrdered`), each operator keeps the rows it is named for (`KeepNumbers`, `KeepContains`), the
   passes give the one lexicographic arrangement (`SortAllUnique`), the filter fails exactly when an unknown operator
   meets a surviving row (`Filter`), and a limit gives the first rows of all that qualify (`AnswerIsFirst`,
   `AnswerDirected`).
3. Runs. Contents are a replay of the surviving writes (`ContentsAreSurvivors`, `ContentsSinceRestore`), so that a row
   is what its last surviving put or delete left (`PutLasts`, `DeleteLasts`, `RowLasts`), a restore brings back the
   snapshot (`RestoreReturns`), the index invariant holds in every reachable state (`RunKeepsInv`).
4. Indexes. The three tables refine one map (`UpsertView`, `ReindexView`, `ReindexIsUpserts`), and a search agrees
   with a full scan (`SearchIsScan`).
5. Lanes. Both string readers agree (`SameLiteral`), the lane's caches cover its tables (`CacheCovers`) and equal them
   exactly when all they were given since the last reload is backed by calls that were not rolled back
   (`CacheExactWhen`), and the agent protocol keeps its guarantee (`RunAgentTurn`).

Where the code and its documentation disagree, the model follows the code:

- A failed snapshot does not keep the old file, which is removed first: `SnapshotLost` is such a run, and
  `RefusedSnapshot` says when a failed one changes nothing.
- What is put is not always what is got: null comes back as `{}` and a number too large for a double as null
  (`NotWhatWasPut`); everything else that is low enough does come back (`PutComesBack`, `RoundTrip`), and
  `DumpInjective` says which values share a print.
- A refused reindex, or a first upsert with a vector of the wrong length, leaves changes behind (`ReindexLoses`,
  `FirstUpsertLeaves`); when it does not is `RefusedReindex` and `RefusedUpsert`.
- After a rollback the TypeScript caches can differ from the tables (`RolledBackDeclaration`, `RolledBackReindex`);
  they are exact exactly when `CacheExactWhen` says, one rollback at a time `RollbackExact`.
- The parser takes more than RFC 8259 (`MoreThanRfc`): looser numbers, and in strings control bytes and bytes that are
  no UTF-8. Which accepted texts are RFC 8259 texts, sequences of Unicode characters that its grammar gives, is
  `AcceptedIsRfcWhen`.

## Model

| member | source | states |
|---|---|---|
| `Strings.DecimalReadsBack` | engine/src/json.hpp:170-186 | a printed integer is an integer token that reads back, digit by digit, to the same integer |
| `Strings.DecimalInjective` | engine/src/store.cpp:565 | different integers print differently, which is what makes `vec_<n>` names distinct |
| `Strings.DecimalCanonical` | engine/src/json.hpp:170-186 | a printed integer has no zero in front and a minus sign only when it is negative |
| `Strings.DigitsPlaces` | engine/src/json.hpp:170-186 | digits denote each digit times the power of ten of its place |
| `Strings.CompareFirst` | engine/src/store.cpp:195-217 | one byte string comes before another exactly when, after a common part, it ends or has the smaller byte |
| `Strings.CompareTransitive` | engine/src/store.cpp:195-217 | the byte order of `std::string::compare` is transitive, strictly when either side is |
| `Strings.CompareZero` | engine/src/store.cpp:195-217 | byte strings compare as 0 exactly when they are equal |
| `Json.Printer.EscapeTo` | engine/src/json.hpp:145-168 | the escaping loop appends the quoted form of its input and leaves what was in the buffer |
| `Json.Printer.DumpNumberTo` | engine/src/json.hpp:170-186 | the number printer appends the integer, or the shortest precision from 1 to 17 that reads back, or `null` for an infinity |
| `Json.Printer.DumpTo` | engine/src/json.hpp:188-219 | the recursive printer appends exactly the printed form of the value |
| `Json.SetKeySorted` | engine/src/json.hpp:348-362 | setting a key keeps an object in sorted key order without repeats |
| `Json.LookupSetKey` | engine/src/json.hpp:348-362 | after setting a key, that key has the new value and every other key the old one |
| `Json.SetKeyAppends` | engine/src/json.hpp:188-219 | setting a key above all others appends it, so sorted members are rebuilt in order |
| `Json.SortedUnique` | engine/src/json.hpp:348-362 | two sorted maps with the same lookups are the same |
| `Unicode.Utf8IsTheEncoding` | engine/src/json.hpp:262-306 | the bytes pushed for a code point are the only sequence that the table of RFC 3629, section 3, decodes to it |
| `Unicode.Utf8Decodes` | engine/src/json.hpp:290-306 | the bytes pushed for a code point decode, by that table, to the code point |
| `Unicode.Utf8Examples` | engine/src/json.hpp:290-306 | the characters of the examples in RFC 3629, section 7, have the bytes given there |
| `Unicode.HexDigitOf` | engine/src/json.hpp:262-289 | a byte has the value d exactly when it is digit d of `0123456789abcdef` or of `0123456789ABCDEF` |
| `Unicode.HexDigitIs` | engine/src/json.hpp:262-289 | every byte that is none of these is refused as a digit |
| `Unicode.RepairIs` | bindings/swift/Sources/DespiaLocal/Json.swift:413-462 | place by place, a code point from D800 to DFFF becomes FFFD and any other stays |
| `JsonParser.Parser.SkipWs` | engine/src/json.hpp:231-233 | the loop stops at the first byte that is not space |
| `JsonParser.Parser.ParseUnicodeEscape` | engine/src/json.hpp:262-306 | one `\u` escape or one surrogate pair is read, and the cursor lands where the reading function says; which code point that is, is `RfcStrings.EscapeReads` and `PairReads` |
| `JsonParser.Parser.ParseString` | engine/src/json.hpp:243-312 | the string loop returns the bytes and the end the reading function gives, or fails with its reason at its place |
| `JsonParser.Parser.ParseNumber` | engine/src/json.hpp:314-331 | the number scanner takes the same token as the reading function and reads it once |
| `JsonParser.Parser.ParseValue` | engine/src/json.hpp:333-393 | from any depth, the descent lands as the reading function does with the room left, never past the end; a success gives its depth back |
| `JsonParser.Parser.ParseMembers` | engine/src/json.hpp:343-365 | the member loop collects what the reading function collects, later keys over earlier ones |
| `JsonParser.Parser.ParseElements` | engine/src/json.hpp:366-382 | the element loop collects the elements in order |
| `JsonParser.ParseText` | engine/src/json.hpp:397-411 | on every byte string the entry point ends, with the value and no error, or with null and a non-empty reason that names an offset |
| `RfcStrings.SpaceIs` | engine/src/json.hpp:231-233 | the bytes skipped as space are those of RFC 8259, section 2: 20, 09, 0A and 0D |
| `RfcStrings.EscapeStands` | engine/src/json.hpp:253-261 | the two-character escapes are the eight of RFC 8259, section 7, each for its byte |
| `RfcStrings.NumeralReads` | engine/src/json.hpp:262-289 | four bytes are read as u exactly when they are a numeral of u to the base 16, in either case or mixed |
| `RfcStrings.NumeralExists` | engine/src/json.hpp:262-289 | every number below 10000 (base 16) has a numeral in each choice of cases |
| `RfcStrings.EscapeReads` | engine/src/json.hpp:243-306 | a string of one `\u` escape reads as the UTF-8 form of the number its digits are a numeral of |
| `RfcStrings.PairReads` | engine/src/json.hpp:275-289 | a string of the two halves of a code point reads as the UTF-8 form of that code point |
| `RfcStrings.DenotesIs` | engine/src/json.hpp:243-312 | the bytes given to a string are what it denotes by the tables of RFC 8259, RFC 2781 and RFC 3629, and nothing else is |
| `RfcValues.MeansIs` | engine/src/json.hpp:333-393 | the value given to a tree is the one value it means: strings by their tables, arrays in order, objects as the sorted map of the last member of each key |
| `JsonGrammar.TreeAtText` | engine/src/json.hpp:333-393 | a syntax tree stands in a text at a place exactly when its own text does |
| `JsonGrammar.LastDuplicateWins` | engine/src/json.hpp:348-362 | the value of a key in a parsed object is that of the last member with this key, and null when there is none |
| `JsonComplete.StringComplete` | engine/src/json.hpp:243-312 | every legal literal is read to its closing quote as the bytes the grammar gives it, pairs joined |
| `JsonComplete.EscapeComplete` | engine/src/json.hpp:262-306 | an escape joins with the next one exactly when it is a high half and the next a low half |
| `JsonComplete.NumberComplete` | engine/src/json.hpp:314-331 | a number token followed by a byte no number holds is read whole |
| `JsonComplete.ValueComplete` | engine/src/json.hpp:333-393 | a tree written in a text is read as its meaning when it is at most as high as the room, and refused when it is higher |
| `JsonComplete.TextComplete` | engine/src/json.hpp:397-411 | every text of the grammar is read whole as its meaning, or refused when nested too deep |
| `JsonSound.StringSound` | engine/src/json.hpp:243-312 | whatever the string reader takes is the text of a legal literal and means what was returned |
| `JsonSound.ValueSound` | engine/src/json.hpp:333-393 | whatever the value reader takes is the text of a legal tree, no higher than the room, and means what was returned |
| `JsonSound.TextSound` | engine/src/json.hpp:397-411 | an accepted text is the text of one document of the grammar, taken to its last byte |
| `JsonSound.AcceptsExactly` | engine/src/json.hpp:333-411 | a text is accepted if and only if it is the text of a legal document nested at most as deep as allowed |
| `JsonRfc.NestingBound` | engine/src/json.hpp:333-336 | brackets in brackets, square and curly in any mixture, are accepted exactly when there are at most 64 |
| `JsonFaults.ParseFault` | engine/src/json.hpp:234-237 | whenever a text is refused, what stands at the offset in the message is what its reason says: the end of the text, a bad or unknown escape, a missing quote, colon, comma or bracket, no digit, or something after the value |
| `JsonSound.ParseGood` | engine/src/json.hpp:333-411 | every parsed value has sorted keys without repeats, numbers that are doubles, and a height within the bound |
| `JsonRfc.NumberTokensAre` | engine/src/json.hpp:314-331 | the tokens the scanner takes are exactly sign, digits, fraction and exponent with at least one digit before the exponent |
| `JsonRfc.RfcTextsAccepted` | engine/src/json.hpp:333-411 | every RFC 8259 text (sections 2 to 7, by tables of their own) at most 64 deep is accepted to its last byte, as the one value its tree means; a deeper one is refused |
| `JsonRfc.RfcDocsAre` | engine/src/json.hpp:333-393 | a document of the RFC 8259 tables is one of the parser's grammar with strict numbers and no raw control byte, and conversely |
| `JsonUnique.DocsSame` | engine/src/json.hpp:333-411 | a text of the parser's grammar has one syntax tree, every byte of space and every escape included |
| `JsonUnique.TreesSame` | engine/src/json.hpp:333-393 | two legal trees written at one place, neither running into what follows, are the same tree |
| `Utf8Text.WellFormedIs` | engine/src/json.hpp:290-306 | a byte string is the UTF-8 form of a sequence of Unicode scalars exactly when a scan finds one whole character after the other |
| `Utf8Text.CutsBetween` | engine/src/json.hpp:243-312 | before an ASCII byte a byte string cuts only between characters: both sides are well-formed UTF-8 exactly when the whole is |
| `JsonCharacters.DocCharacters` | engine/src/json.hpp:243-312 | a text of the parser's grammar is a sequence of Unicode characters exactly when each longest run of raw bytes in its strings and keys is well-formed UTF-8 |
| `JsonRfc.PiecesUnique` | engine/src/json.hpp:314-331 | a number token has one sign, whole part, fraction and exponent |
| `JsonRfc.RfcNumbersAre` | engine/src/json.hpp:314-331 | which tokens are RFC 8259 numbers: those whose pieces have no plus, no leading zero and no empty part |
| `JsonRfc.RfcTextExactly` | engine/src/json.hpp:333-411 | a text of the parser's grammar is an RFC 8259 text, characters included, exactly when every number in its one tree is strict, no string in it holds a raw byte below 0x20, and each longest run of raw bytes in a string is well-formed UTF-8 |
| `JsonRfc.AcceptedIsRfcWhen` | engine/src/json.hpp:397-411 | so an accepted text has one tree, which means the value read and no other, and those three conditions on its leaves decide whether the text is RFC 8259 |
| `JsonRfc.MoreThanRfc` | engine/src/json.hpp:243-331 | five texts that the parser takes and RFC 8259 does not: `+1`, `1.`, `1e`, a string with a raw newline, and a string of the byte FF |
| `JsonRoundTrip.NumberReadsBack` | engine/src/json.hpp:170-186 | a printed double is one number token and reads back to the same double |
| `JsonRoundTrip.FaithfulExists` | engine/src/json.hpp:170-186 | the assumptions on number printing and reading can be met together, off the fast path too: one half prints at its second precision, where the first does not read back |
| `JsonRoundTrip.RoundTripAny` | engine/src/json.hpp:188-219 | for any value and any room, its print parses, to the value with infinities as null, exactly when the value is low enough |
| `JsonRoundTrip.RoundTrip` | engine/src/json.hpp:188-219 | any value, any bytes as strings and keys: its print is accepted exactly when it is at most 64 high, and comes back whole and the same exactly when it moreover holds no infinity |
| `JsonRoundTrip.DumpInjective` | engine/src/json.hpp:188-219 | two values print alike exactly when they are equal up to infinities as null, at any height |
| `JsonRoundTrip.CanonicalForm` | engine/src/json.hpp:397-411 | printing an accepted text gives an accepted text that prints as itself |
| `JsonRoundTrip.CanonicalFormDecides` | engine/src/json.hpp:397-411 | two accepted texts print alike exactly when they denote the same value up to infinities as null, and with finite numbers exactly when they denote the same value |
| `JsonRoundTrip.DumpVisible` | engine/src/json.hpp:145-168 | no print holds a byte below 0x20 |
| `JsonCanonical.PrintedForm` | engine/src/json.hpp:145-219 | the text of a value is that of one tree: no space, members in key order, the seven short escapes, lower-case digits for other control bytes, every other byte for itself, whole numbers below nine million billion in digits and other doubles in the fewest digits that read back |
| `SwiftReader.Reader.AppendUtf16` | bindings/swift/Sources/DespiaLocal/Json.swift:466-474 | a scalar is appended as its one or two UTF-16 units |
| `SwiftReader.Reader.HexUnit` | bindings/swift/Sources/DespiaLocal/Json.swift:431-443 | four hex digits are read as their value, or the read fails |
| `SwiftReader.Reader.Escape` | bindings/swift/Sources/DespiaLocal/Json.swift:425-457 | from after a backslash, an escape gives its one unit, or the read fails |
| `SwiftReader.Reader.Str` | bindings/swift/Sources/DespiaLocal/Json.swift:413-462 | from a quote the loop collects units to the closing one and decodes them at the end, or fails; anywhere else it refuses |
| `SwiftReader.ReadersAgree` | bindings/swift/Sources/DespiaLocal/Json.swift:413-462 | from any place inside a literal, both readers accept or both refuse, end at the same scalar, and the C++ bytes are the UTF-8 form of the decoded units |
| `SwiftReader.SameLiteral` | bindings/swift/Sources/DespiaLocal/Json.swift:413-462 | on one literal the two readers accept alike, and the C++ text is the UTF-8 form of one list of code points and no other, which the Swift text repeats with U+FFFD for each lone surrogate |
| `Utf8Text.Utf8AllInjective` | engine/src/json.hpp:290-306 | a byte string is the UTF-8 form of at most one list of code points |
| `SwiftReader.HexAgree` | bindings/swift/Sources/DespiaLocal/Json.swift:476-483 | hex digits stand in the scalars exactly where they stand in the bytes, with the same value |
| `StableSort.Sort` | engine/src/store.cpp:772-778 | the sort in place leaves the stable arrangement of what was there |
| `StableSort.MergeRuns` | engine/src/store.cpp:772-778 | the merge loop computes the stable merge, left before right among equals |
| `StableSort.MergeSorted` | engine/src/store.cpp:772-778 | merging two stable arrangements gives the stable arrangement of the whole |
| `StableSort.SortedPermutes` | engine/src/store.cpp:772-778 | nothing is lost or made by a sort |
| `StableSort.SortedIncreasing` | engine/src/store.cpp:769-778 | a stable sort of rows increasing in one order is increasing in the comparison first and that order among equals |
| `StableSort.IncreasingUnique` | engine/src/store.cpp:769-778 | two arrangements of the same rows increasing in a strict order are the same |
| `ValueOrder.ValuesFlip` | engine/src/store.cpp:195-217 | the comparison changes sign when its sides change places |
| `ValueOrder.ValuesTransitive` | engine/src/store.cpp:195-217 | the comparison is transitive across kinds, strictly when either side is |
| `ValueOrder.NumbersOrdered` | engine/src/store.cpp:204-207 | finite numbers compare as below, equal or above exactly when they are, minus infinity below and plus infinity above them |
| `ValueOrder.KindsOrdered` | engine/src/store.cpp:183-203 | null is below false, false below true, those below numbers, numbers below strings, strings below arrays, arrays below objects |
| `ValueOrder.TextsOrdered` | engine/src/store.cpp:208-216 | strings come by the first byte that differs, a proper prefix first; arrays among arrays and objects among objects by their prints in the same way |
| `ValueOrder.ValuesTotalPreorder` | engine/src/store.cpp:183-217 | ascending and descending, the comparison is a total preorder, which is what a stable sort needs; its direction is `NumbersOrdered`, `KindsOrdered` and `TextsOrdered` |
| `ValueOrder.ValuesEqual` | engine/src/store.cpp:195-217 | exactly which values compare as equal: equal ones, and compounds equal up to infinities as null |
| `ValueOrder.ValuesAntisymmetric` | engine/src/store.cpp:195-217 | over finite numbers the comparison is 0 only for equal values |
| `Query.MatchesCondition` | engine/src/store.cpp:230-243 | an operator is unknown exactly when it is none of the seven, and otherwise the answer is what the filter keeps by it, which is `KeepNumbers`, `KeepStrings`, `KeepEqual` and `KeepContains` |
| `Query.KeepNumbers` | engine/src/store.cpp:230-237 | a row with the number x is kept under the number y exactly when it was there and x > y, x >= y, x < y, x <= y, x = y, x is not y, for `gt`, `gte`, `lt`, `lte`, `eq`, `ne` |
| `Query.KeepStrings` | engine/src/store.cpp:230-237 | the four comparisons on strings keep by the first byte that differs |
| `Query.KeepEqual` | engine/src/store.cpp:232-233 | `eq` and `ne` keep, over values without infinities, by equality |
| `Query.KeepContains` | engine/src/store.cpp:219-238 | `contains` keeps exactly when the one text is a + part + b for some a and b; null counts as no text, a string as itself, anything else as its print |
| `Query.KeepUnknown` | engine/src/store.cpp:239-243 | an operator that is none of the seven keeps nothing |
| `Query.KeepsAll` | engine/src/store.cpp:750-767 | several conditions keep exactly the rows that each of them keeps |
| `Query.ConditionsAre` | engine/src/store.cpp:750-751 | the conditions are the operators of those fields of `where` whose value is an object, and no others |
| `Query.ConditionsOrdered` | engine/src/store.cpp:750-751 | they are taken in the order of the fields and, within a field, of its operators |
| `Query.StuckIs` | engine/src/store.cpp:750-767 | a query is stuck on a condition exactly when its operator is none of the seven and some row satisfies all conditions before it |
| `Query.AsIntIs` | engine/src/json.hpp:72-74 | a number is cast to the whole number next to it on the side of zero |
| `Query.KeepMembers` | engine/src/store.cpp:750-767 | the filter keeps a row exactly when it was there and satisfies every condition |
| `Query.KeepUnordered` | engine/src/store.cpp:750-767 | what the filter keeps does not depend on the order of the conditions |
| `Query.KeepIncreasing` | engine/src/store.cpp:750-767 | what the filter keeps stays in key order |
| `Query.Filter` | engine/src/store.cpp:750-767 | the loops end well with the rows that satisfy everything and no unknown operator reached while a row was left, or with the first such operator in field and operator order |
| `Query.SortRows` | engine/src/store.cpp:769-778 | the reverse loop over the clauses leaves the rows as the passes say |
| `Query.SortAllLexicographic` | engine/src/store.cpp:769-778 | on rows in key order the passes give a permutation ordered by the first clause, then the second, and so on, then the key, each in its direction |
| `Query.SortAllUnique` | engine/src/store.cpp:769-778 | an arrangement is the answer of the passes if and only if it is a permutation in that order |
| `Query.FirstClause` | engine/src/store.cpp:769-778 | in rows ordered by clauses the first field never goes up for "desc" and never down otherwise, and a tie under one clause goes by key |
| `Query.Answering` | engine/src/store.cpp:750-790 | a query answers the filtered, ordered rows, cut to a positive limit as a prefix, or names the unknown operator first reached |
| `StoreHandle.AnswerIsFirst` | engine/src/store.cpp:735-791 | over a table in key order a query answers rows that satisfy every condition, in the declared order; a satisfying row it leaves out comes after every row it gives; without an effective limit it gives them all |
| `StoreHandle.AnswerDirected` | engine/src/store.cpp:769-778 | in the answer to a query no later row has a smaller number in the first ordered field, or, for "desc", a larger one |
| `StoreHandle.TableInKeyOrder` | engine/src/store.cpp:741-748 | the rows a query reads are in strict key order |
| `StoreHandle.TableUnique` | engine/src/store.cpp:741-748 | there is one such reading of a store |
| `Database.NamesAre` | engine/src/store.cpp:135-172 | which names are legal, in code points and lengths: stores and indexes, labels, savepoints |
| `Database.EmbeddingIs` | engine/src/store.cpp:275-292 | a provenance is read exactly from a string model, a dimension that cuts to 1 to 8192, and a revision that counts when it is a string |
| `Database.VectorIs` | engine/src/store.cpp:254-269 | a vector is read exactly from an array of numbers, place by place |
| `Database.MismatchIs` | engine/src/store.cpp:309-335 | two provenances differ by dimension, else by model, else by revision, and by none exactly when equal |
| `IndexLayer.TablesDistinct` | engine/src/store.cpp:565-602 | distinct indexes own distinct physical tables |
| `IndexLayer.CreatedInv` | engine/src/store.cpp:567-602 | a new index gets a table no other index has, and the rest of the map stays |
| `IndexLayer.DroppedInv` | engine/src/store.cpp:604-624 | dropping an index takes it off the map, with its table and payloads, and nothing else |
| `IndexLayer.WrittenInv` | engine/src/store.cpp:626-653 | writing a vector of the recorded width sets one entry of one index, vector and payload together |
| `IndexLayer.ErasedInv` | engine/src/store.cpp:971-987 | deleting an entry takes one key from one index; without the index nothing changes |
| `IndexActions.UpsertView` | engine/src/store.cpp:989-1017 | an upsert on the map: refused early, with the reason that differs first, it changes nothing; a wrong length leaves a first-seen index behind empty; a success sets one entry |
| `IndexActions.ReindexView` | engine/src/store.cpp:1091-1123 | a reindex sets the index to the rows before the first bad one under the new provenance, whatever was there, touches no other index, and answers that row's error |
| `IndexActions.EntriesLast` | engine/src/store.cpp:1091-1123 | of the rows of a reindex with one key the last is left, with its vector and its text |
| `IndexActions.EntriesKeep` | engine/src/store.cpp:1091-1123 | a key no row has is not touched by them |
| `IndexActions.EraseView` | engine/src/store.cpp:971-987 | deleting an entry under a legal name always succeeds and takes the key from the index, when there is one |
| `IndexActions.BadNames` | engine/src/store.cpp:951-956 | an index name that is not legal is refused by each write, and nothing happens |
| `IndexActions.RefusedUpsert` | engine/src/store.cpp:989-1017 | a refused upsert changes nothing exactly when it is refused before the index is looked at, or the index is there already |
| `IndexActions.FirstUpsertLeaves` | engine/src/store.cpp:989-1017 | a first upsert, refused for its length, that leaves an empty index behind |
| `IndexActions.RefusedReindex` | engine/src/store.cpp:1091-1123 | a refused reindex leaves every index alone exactly when it is refused before the drop, or the index held just the rows before the bad one under that provenance |
| `IndexActions.ReindexLoses` | engine/src/store.cpp:1091-1123 | a refused reindex that loses the entry there was |
| `IndexActions.ReindexIsUpserts` | engine/src/store.cpp:1091-1123 | a successful reindex equals upserts in list order into a fresh index |
| `IndexActions.EffectKeepsInv` | engine/src/store.cpp:565-653 | every write action keeps the link between the three tables, typed errors partway included |
| `Scopes.FindScope` | engine/src/store.cpp:839-857 | the open savepoint a name means: the innermost that matches, or none when none does |
| `Scopes.SameNameIs` | engine/src/store.cpp:839-857 | two names mean one savepoint exactly when they are equal up to the case of ASCII letters |
| `Scopes.ContentsAreSurvivors` | engine/src/store.cpp:839-857 | over any run without restores, contents are a replay of exactly the writes in no rolled-back scope and in no scope open at a reopen |
| `Scopes.ContentsSinceRestore` | engine/src/store.cpp:861-917 | over any run, contents are the last restored snapshot and a replay of the writes since that survive |
| `Scopes.UnknownScope` | engine/src/store.cpp:839-857 | a release or a rollback changes nothing exactly when no open scope has the name |
| `Scopes.RestoreReturns` | engine/src/store.cpp:861-917 | whatever runs between a snapshot and a restore of its label without naming it again, the restore gives back its contents with no scope open |
| `Scopes.SnapshotInScopeLoses` | engine/src/store.cpp:872-892 | inside a scope a snapshot fails, loses the older file of its label, and changes nothing else |
| `Scopes.RefusedSnapshot` | engine/src/store.cpp:861-892 | a snapshot that fails changes nothing exactly when its label is refused or had no file |
| `Transactions.SnapshotLost` | engine/src/store.cpp:861-892 | a run from an empty store in which a failing snapshot loses the one before it |
| `Scopes.UnknownLabel` | engine/src/store.cpp:897-917 | a restore changes nothing exactly when its label has no snapshot or what is there is already the snapshot with no scope open |
| `Transactions.RunKeepsInv` | engine/src/store.cpp:565-653 | in every state any run reaches, in its open scopes and in its snapshots, the index tables stay linked |
| `Transactions.FreshStoreLinked` | engine/src/store.cpp:501-515 | so it is in every run of a new store |
| `Answers.GetReparses` | engine/src/store.cpp:708-720 | the answer of a get can be read again exactly when the value is at most 63 high |
| `Answers.QueryReparses` | engine/src/store.cpp:735-791 | the answer of a query can be read again exactly when every returned value is at most 61 high |
| `Answers.PutThenGet` | engine/src/api.cpp:56-73 | a value that comes in with accepted arguments is at most 63 high, reads back the same exactly when it is not null and holds no infinity, and its answer survives a NUL-terminated crossing and reads again |
| `Answers.PutComesBack` | engine/src/store.cpp:693-720 | what is put is what is got exactly when it is not null, holds no infinity and is at most 64 high; and what it reads back as otherwise |
| `Answers.NotWhatWasPut` | engine/src/store.cpp:693-720 | null comes back as an empty object, and the number ten to the 309th, written out in the arguments of a put, as null |
| `Answers.PutLasts` | engine/src/store.cpp:693-706 | a surviving put with no later surviving write of its row is what the run leaves in the row |
| `Answers.DeleteLasts` | engine/src/store.cpp:722-733 | after a surviving delete with no later surviving write of its row there is no such row |
| `Answers.RowLasts` | engine/src/store.cpp:693-733 | a row that no surviving write touches is what it was |
| `Answers.TouchesIs` | engine/src/store.cpp:693-733 | the actions that touch a row are exactly those that change it in some contents |
| `Answers.DeclaredStores` | engine/src/store.cpp:679-691 | after a run the declared stores are those there were and those a surviving declaration of a legal name gave |
| `Answers.RowLife` | engine/src/store.cpp:679-733 | for any legal store, key and value: declared, put and deleted, the row holds the print, or `{}` for null, in between and is gone after, and nothing else changes |
| `Answers.AnswerTexts` | engine/src/store.cpp:708-791 | the texts of the answers: `{"value":v}`, `{"key":k,"value":v}`, `{"rows":[...]}` |
| `Answers.ArgumentsAre` | engine/src/api.cpp:56-73 | arguments are no text at all, for an empty object, or the whole text of an object |
| `Answers.NameOrNothing` | engine/src/json.hpp:75-81 | a store, key or index name that is not given as a string is the empty one |
| `StoreHandle.TableReparses` | engine/src/store.cpp:735-791 | so it is for the rows a query reads from a store, whatever texts the store holds |
| `Answers.MemberGood` | engine/src/json.hpp:333-393 | a member of a parsed value is itself well formed and at least one lower |
| `Nearest.Search` | engine/src/store.cpp:1062-1068 | the hits are the backend's, each as often, by distance and, at one distance, by key |
| `Nearest.Euclidean` | bindings/ts/src/store.ts:351-358 | the loop gives the root of the sum of squared differences over the shorter length |
| `Nearest.SquaredIs` | bindings/ts/src/store.ts:351-358 | the sum is the square on a line, grows by the square of each further difference, and is nothing exactly for equal points |
| `Nearest.Scan` | bindings/ts/src/store.ts:268-283 | the reference search measures every entry over the coordinates both points have, orders by distance and then by the given order of keys, and keeps k of them, or all when k is not positive or too large |
| `Nearest.SliceKeeps` | bindings/ts/src/store.ts:282-282 | the cut is a prefix: all, or as many as a positive k says |
| `Nearest.SearchMatchesScan` | engine/src/store.cpp:1040-1068 | whatever k entries come back with nothing nearer left out, the distances are those of a full scan, and the entries too when there is a gap after the k-th, however the scan breaks ties |
| `Nearest.SearchEqualsScan` | engine/src/store.cpp:1040-1068 | with the same tie order a gap makes the answers equal |
| `Nearest.GapIs` | engine/src/store.cpp:1040-1068 | there is a gap after the k-th exactly when everything up to it is nearer than everything after it |
| `Nearest.ScanServes` | engine/src/store.cpp:1040-1068 | what is asked of the backend is kept by one that scans everything |
| `StoreHandle.SearchIsScan` | engine/src/store.cpp:1019-1089 | a search of a linked store, over a backend that leaves out nothing nearer, has the distances of a full scan of the index cut at k, the same hits when there is a gap, in the same order when ties are broken alike, and each entry's payload |
| `StoreHandle.MeasuresExist` | engine/src/store.cpp:1040-1068 | for every index and every distance there is a list of its entries, each once, at its distance |
| `StoreHandle.Store.DeclareStore` | engine/src/store.cpp:679-691 | the action refuses an illegal name and changes nothing, else adds the store to those there were; it makes the declare step |
| `StoreHandle.Store.PutRow` | engine/src/store.cpp:693-706 | the action refuses an unknown store and changes nothing, else sets the row to the print of the value, `{}` for null; it makes the put step |
| `StoreHandle.Store.GetRow` | engine/src/store.cpp:708-720 | the action reads what is stored, null for a miss, and changes nothing |
| `StoreHandle.Store.DeleteRow` | engine/src/store.cpp:722-733 | the action refuses an unknown store; else the row is gone, 1 is answered exactly when it was there and 0 otherwise, and every other row keeps its text; it makes the delete step |
| `StoreHandle.Store.SelectRows` | engine/src/store.cpp:741-748 | the rows read are the store's, each once, in key order, with parsed values |
| `StoreHandle.Store.QueryRows` | engine/src/store.cpp:735-791 | the action answers the query over the store's table |
| `StoreHandle.Store.OpenScope` | engine/src/store.cpp:839-846 | the action makes the savepoint step, or refuses the name |
| `StoreHandle.Store.ReleaseScope` | engine/src/store.cpp:847-849 | the action makes the release step and succeeds exactly when the name is open |
| `StoreHandle.Store.RollbackScope` | engine/src/store.cpp:850-856 | the two statements together make the rollback step and succeed exactly when the name is open |
| `StoreHandle.Store.TakeSnapshot` | engine/src/store.cpp:872-892 | the action makes the snapshot step and succeeds exactly when the label is legal and no scope is open |
| `StoreHandle.Store.RestoreSnapshot` | engine/src/store.cpp:897-917 | the action makes the restore step, or says why not |
| `StoreHandle.Store.ReopenFile` | engine/src/store.cpp:501-515 | closing and opening again makes the reopen step |
| `StoreHandle.Store.MaxRowid` | engine/src/store.cpp:567-577 | the largest row id in use, 0 when there is none |
| `StoreHandle.Store.CreateIndex` | engine/src/store.cpp:567-602 | the two statements together make the index, under the row id after the largest and in the table named after it |
| `StoreHandle.Store.DropIndex` | engine/src/store.cpp:604-624 | the three statements together drop the index |
| `StoreHandle.Store.WriteVector` | engine/src/store.cpp:626-653 | the three statements together write vector and payload |
| `StoreHandle.Store.UpsertEntry` | engine/src/store.cpp:989-1017 | the action makes the upsert step, with its errors in the source's order |
| `StoreHandle.Store.DeleteEntry` | engine/src/store.cpp:971-987 | the action makes the entry-deletion step |
| `StoreHandle.Store.ReindexEntries` | engine/src/store.cpp:1091-1123 | the loop makes the reindex step, stopping at the first bad row, and counts what it wrote |
| `StoreHandle.Store.SearchIndex` | engine/src/store.cpp:1019-1089 | a search is done exactly when the name is legal and the index is unknown, with no hits, or the provenance given is the recorded one and the vector has its dimension; else it says what is wrong: name, provenance, then dimension, model or revision, then the vector; when done it answers the backend's hits nearest first, each with its payload |
| `LocalStore.Local.constructor` | bindings/ts/src/store.ts:51-79 | the lane starts from the file with both caches equal to its tables |
| `LocalStore.Local.Declare` | bindings/ts/src/store.ts:81-84 | declaring adds the store to the table and to the cache, and nothing else |
| `LocalStore.Local.Put` | bindings/ts/src/store.ts:101-107 | a put is refused exactly when the store is not in the cache, and else sets the row and nothing else |
| `LocalStore.Local.Get` | bindings/ts/src/store.ts:109-116 | a get is refused exactly when the store is not in the cache, and else answers the stored text or a miss |
| `LocalStore.Local.Delete` | bindings/ts/src/store.ts:118-123 | a delete is refused exactly when the store is not in the cache, and else takes the row, counts it, and touches nothing else |
| `LocalStore.Local.RollbackScope` | bindings/ts/src/store.ts:182-188 | a rollback undoes the tables and not the caches |
| `LocalStore.Local.TakeSnapshot` | bindings/ts/src/store.ts:195-200 | a snapshot succeeds exactly when the label is legal and no scope is open, and removes the older file first |
| `LocalStore.Local.RestoreSnapshot` | bindings/ts/src/store.ts:214-227 | a restore replaces the tables and reads both caches again |
| `LocalStore.Local.CrashFile` | bindings/ts/src/store.ts:92-97 | a crash drops the open scopes and reads both caches again |
| `LocalStore.Local.IndexUpsert` | bindings/ts/src/store.ts:240-259 | an upsert succeeds exactly when the cache has this provenance or nobody knows the index, and the width is right; it records an unknown index in table and cache even when the width is wrong, and on success writes vector and payload |
| `LocalStore.Local.IndexDelete` | bindings/ts/src/store.ts:285-288 | one entry is deleted from the table, and nothing else |
| `LocalStore.Local.IndexReindex` | bindings/ts/src/store.ts:291-302 | a reindex clears the index, gives it its provenance in table and cache, and upserts up to the first row of another width |
| `LocalStore.ReindexEntries` | bindings/ts/src/store.ts:291-302 | after a reindex the index holds, of the entries before the first of another width with one key, the last, and nothing else; every other index is as it was |
| `LocalStore.Local.IndexSearch` | bindings/ts/src/store.ts:268-283 | a search answers nothing for an index the cache does not know, refuses another provenance, else scans every row of the index, sorts, cuts, and brings each payload |
| `LocalStore.ListsIs` | bindings/ts/src/store.ts:272-273 | what a search scans is the rows of the index, all of them, each once |
| `LocalStore.LaneNamesAre` | bindings/ts/src/store.ts:334-348 | which names the lane lets through, in code points |
| `LocalStore.PlayIsRun` | bindings/ts/src/store.ts:172-227 | the lane's calls are steps of the same connection, so that what holds of every run of scopes and snapshots holds of the lane |
| `LocalStore.CacheCovers` | bindings/ts/src/store.ts:48-84 | in every run from a covered lane the caches hold every store and index there is, now or in a scope that may be gone back to |
| `LocalStore.LoadedCovers` | bindings/ts/src/store.ts:48-84 | so they do in every run from a load |
| `LocalStore.ReloadIsExact` | bindings/ts/src/store.ts:71-79 | right after a crash or a restore both caches equal their tables and no scope is open |
| `LocalStore.RollbackExact` | bindings/ts/src/store.ts:182-188 | one rollback leaves the caches exact exactly when they are what was saved, or, when no open scope has the name, when they were exact before |
| `LocalStore.CachedStores` | bindings/ts/src/store.ts:81-84 | between reloads the store cache is what was loaded and all that was declared |
| `LocalStore.CachedProvenance` | bindings/ts/src/store.ts:240-302 | between reloads the provenance cache is what was last given to each index, taken back or not |
| `LocalStore.TablesAfter` | bindings/ts/src/store.ts:172-188 | between reloads the tables hold what was loaded and what calls in no rolled-back scope gave |
| `LocalStore.ExactSince` | bindings/ts/src/store.ts:71-84 | the store cache is exact exactly when each store declared since the load was loaded or has a declaration in no rolled-back scope; the provenance cache exactly when each index was last given its provenance by a call in no rolled-back scope, or by one that gave the same |
| `LocalStore.CacheExactWhen` | bindings/ts/src/store.ts:48-97 | over every run from a load, the caches equal the tables exactly when that holds of the calls since the last reload |
| `LocalStore.RolledBackDeclaration` | bindings/ts/src/store.ts:182-188 | a run after which the lane takes a put into a store declared nowhere |
| `LocalStore.RolledBackReindex` | bindings/ts/src/store.ts:182-188 | a run after which the lane refuses the embedding its table records |
| `AgentProtocol.ToolScope` | conformance/run.ts:124-134 | a note written in a scope of its own stays on release and goes on rollback |
| `AgentProtocol.MutatesIs` | conformance/run.ts:114-117 | a step writes exactly when the first tool declared under its name does, and goes through when that one does not fail and notes is declared |
| `AgentProtocol.NotedLast` | conformance/run.ts:124-130 | the last successful step of a key leaves its text |
| `AgentProtocol.NotedKeeps` | conformance/run.ts:124-130 | a note no successful step has the key of, and everything that is no note, stays |
| `AgentProtocol.Harness.Dispatch` | conformance/run.ts:116-135 | a mutating call backs up first when it is the first, and leaves its note or nothing |
| `AgentProtocol.Harness.RunAgentTurn` | conformance/run.ts:109-141 | from no open scope, whatever fails, the protocol ends with none, with the initial contents and the successful writes in order; once a mutating tool ran, restoring the snapshot named agent gives the initial contents back |

## Left out

- SQLite, sqlite-vec and the file system: taken at their documented behaviour, with no I/O or disk errors and no read-only mode. The vector backend is a function from the wanted count to hits; its own limit on that count is not modelled.
- Crashes inside an action: index actions are several statements that each commit outside a scope, so a crash is a step between actions only, and no atomicity of one action is claimed.
- StoreHandle.Store.RestoreSnapshot: does not model a file copy that fails, which leaves a new and empty or a broken file; I/O errors are outside the model.
- Labels that differ only in letter case, on a file system that ignores it.
- A savepoint named by a reserved word of SQL, which SQLite refuses to parse.
- IEEE double printing and reading outside the integer fast path: the parameter `Floats` with `Faithful`. The two zeros are one value; NaN cannot be parsed and is not a value.
- `static_cast<int64_t>` of an infinite or very large double, which C++ leaves undefined: `Query.AsInt` truncates a real toward zero and takes an infinity as 0.
- Narrowing vectors to 32-bit floats. Distances come from a function of two vectors, the scan's from a root function that stands for `Math.sqrt`.
- Nearest.Scan: `localeCompare` is any total preorder of keys; the provenance check and the payloads of the search around it are in `LocalStore.Local.IndexSearch`.
- StoreHandle.Store.SearchIndex: the method takes the vector table as a function from the wanted count to hits; what that function must promise about the entries, and what follows, is `StoreHandle.SearchIsScan`.
- The library's `std::stable_sort`: a merge sort of our own stands for it; by `StableSort.IncreasingUnique` any stable sort gives the same rows.
- Bit operations of the UTF-8 and UTF-16 code are written with `+`, `/` and `%` on their disjoint fields.
- The Swift reader's `value`, `object`, `array` and `num`, and its rendering: only its string reader is compared. Its numbers are what `Double(_:)` accepts of a longest run of number characters, and its keys are compared by canonical equivalence; both are Swift's library.
- Swift texts that are not valid Unicode: a Swift string is a list of scalars, so the C++ side is compared on the UTF-8 form of one.
- The TypeScript lane's query: JavaScript comparison is another order. Its `JSON.stringify` and `JSON.parse` are texts given to the calls and taken from the tables, and a vector is a list of finite numbers.
- `stats`, `snapshots`, `export`, `index.info`, capabilities, and error messages and data beyond a code and a reason: each is one branch.
- Builds without sqlite-vec, where every index action answers that it is absent.
- Call wrappers for JNI, Swift and Kotlin, ownership of C strings, and the conformance runner's matching: plumbing.
