/** Values through the C interface: what a put stores, what a get and a query answer, and which of the
    answers can be read again. */
module Answers {
  import opened Strings
  import opened Json
  import opened JsonParser
  import opened JsonGrammar
  import opened JsonComplete
  import opened JsonSound
  import opened JsonRoundTrip
  import JsonRfc
  import opened Query
  import opened Database
  import opened Scopes
  import opened Transactions

  // --- heights ----------------------------------------------------------------------

  lemma {:induction false} LookupLower(fields: seq<Field>, key: Bytes)
    requires Lookup(fields, key).Some?
    ensures Height(Lookup(fields, key).value) <= FieldsHeight(fields)
  {
    if fields[0].key != key { LookupLower(fields[1..], key); }
  }

  /** A member of a good value is good and at least one lower. */
  lemma MemberGood(F: Floats, v: Value, key: Bytes, room: nat)
    requires Good(F, v, room + 1) && room >= 1
    ensures Good(F, Get(v, key), room)
  {
    if v.Obj? && Lookup(v.fields, key).Some? {
      LookupLower(v.fields, key);
      LookupFound(v.fields, key);
    }
  }

  // --- answers -----------------------------------------------------------------------

  function GetAnswer(v: Value): Value { Obj([Field("value", v)]) }

  function RowAnswer(row: Row): Value { Obj([Field("key", Str(row.key)), Field("value", row.value)]) }

  function RowAnswers(rows: seq<Row>): (items: seq<Value>)
    ensures |items| == |rows| && forall k | 0 <= k < |rows| :: items[k] == RowAnswer(rows[k])
  {
    if rows == [] then [] else [RowAnswer(rows[0])] + RowAnswers(rows[1..])
  }

  function QueryAnswer(rows: seq<Row>): Value { Obj([Field("rows", Arr(RowAnswers(rows)))]) }

  lemma OneFieldText(F: Floats, key: Bytes, v: Value)
    ensures Dump(F, Obj([Field(key, v)])) == "{" + Quote(key) + ":" + Dump(F, v) + "}"
  {
    hide Quote;
    var fs := [Field(key, v)];
    assert fs[1..] == [];
    assert DumpFields(F, fs, true) == "" + Quote(key) + ":" + Dump(F, v) + "";
  }

  /** Letters print as they are. */
  lemma {:induction false} WordQuoted(s: Bytes)
    requires forall k | 0 <= k < |s| :: 'a' <= s[k] <= 'z'
    ensures EscapeBytes(s) == s && Quote(s) == "\"" + s + "\""
  {
    if s != "" { WordQuoted(s[1..]); }
  }

  lemma TwoFieldsText(F: Floats, k: Bytes, v: Value, l: Bytes, w: Value)
    ensures Dump(F, Obj([Field(k, v), Field(l, w)])) ==
      "{" + Quote(k) + ":" + Dump(F, v) + "," + Quote(l) + ":" + Dump(F, w) + "}"
  {
    hide Quote;
    hide Dump;
    var fs := [Field(k, v), Field(l, w)];
    assert fs[1..] == [Field(l, w)] && fs[1..][1..] == [];
    var last := "," + Quote(l) + ":" + Dump(F, w) + "";
    assert DumpFields(F, fs[1..], false) == last;
    assert DumpFields(F, fs, true) == "" + Quote(k) + ":" + Dump(F, v) + last;
    ObjectPrint(F, fs);
  }

  lemma ObjectPrint(F: Floats, fields: seq<Field>)
    ensures Dump(F, Obj(fields)) == "{" + DumpFields(F, fields, true) + "}"
  {
    hide DumpFields;
  }

  /** The texts of the three kinds of answer. */
  lemma AnswerTexts(F: Floats, v: Value, row: Row, rows: seq<Row>)
    ensures Dump(F, GetAnswer(v)) == "{\"" + "value" + "\":" + Dump(F, v) + "}"
    ensures Dump(F, RowAnswer(row)) == "{\"key\":" + Quote(row.key) + ",\"value\":" + Dump(F, row.value) + "}"
    ensures Dump(F, QueryAnswer(rows)) == "{\"" + "rows" + "\":" + Dump(F, Arr(RowAnswers(rows))) + "}"
  {
    hide Dump;
    hide Quote;
    hide RowAnswers;
    WordText(F, "value", v);
    WordText(F, "rows", Arr(RowAnswers(rows)));
    RowText(F, row.key, row.value);
  }

  lemma WordText(F: Floats, word: Bytes, v: Value)
    requires forall k | 0 <= k < |word| :: 'a' <= word[k] <= 'z'
    ensures Dump(F, Obj([Field(word, v)])) == "{\"" + word + "\":" + Dump(F, v) + "}"
  {
    hide Dump;
    hide Quote;
    WordQuoted(word);
    OneFieldText(F, word, v);
    OneText(word, Dump(F, v));
  }

  lemma RowText(F: Floats, key: Bytes, v: Value)
    ensures Dump(F, Obj([Field("key", Str(key)), Field("value", v)])) ==
      "{\"key\":" + Quote(key) + ",\"value\":" + Dump(F, v) + "}"
  {
    hide Dump;
    hide Quote;
    WordQuoted("key");
    WordQuoted("value");
    TwoFieldsText(F, "key", Str(key), "value", v);
    StringText(F, key);
    RowBytes(Quote(key), Dump(F, v));
  }

  lemma OneText(word: Bytes, d: Bytes)
    ensures "{" + ("\"" + word + "\"") + ":" + d + "}" == "{\"" + word + "\":" + d + "}"
  {
  }

  lemma RowBytes(q: Bytes, d: Bytes)
    ensures "{" + ("\"" + "key" + "\"") + ":" + q + "," + ("\"" + "value" + "\"") + ":" + d + "}"
         == "{\"key\":" + q + ",\"value\":" + d + "}"
  {
  }

  lemma StringText(F: Floats, s: Bytes)
    ensures Dump(F, Str(s)) == Quote(s)
  {
  }

  lemma OneFieldHeight(key: Bytes, v: Value)
    ensures Height(Obj([Field(key, v)])) == 1 + Height(v)
  {
    assert [Field(key, v)][1..] == [];
    assert FieldsHeight([Field(key, v)]) == Height(v);
  }

  lemma RowAnswerHeight(row: Row)
    ensures Height(RowAnswer(row)) == 1 + Height(row.value)
  {
    var fs := RowAnswer(row).fields;
    OneFieldHeight("value", row.value);
    assert fs[1..] == [Field("value", row.value)];
    assert FieldsHeight(fs) == Max(1, FieldsHeight(fs[1..]));
  }

  lemma {:induction false} RowAnswersHeight(rows: seq<Row>, room: nat)
    ensures ItemsHeight(RowAnswers(rows)) <= room + 1 <==> forall row | row in rows :: Height(row.value) <= room
  {
    if rows != [] {
      RowAnswerHeight(rows[0]);
      RowAnswersHeight(rows[1..], room);
      assert RowAnswers(rows)[1..] == RowAnswers(rows[1..]);
    }
  }

  predicate Stored(F: Floats, v: Value) { WellFormed(v) && Doubles(F, v) }

  /** A get answer reads again exactly when the value is at most 63 high. */
  lemma GetReparses(F: Floats, v: Value)
    requires Faithful(F) && Stored(F, v)
    ensures Parse(F, Dump(F, GetAnswer(v)), MAX_DEPTH).Ok? <==> Height(v) <= 63
    ensures Height(v) <= 63 ==>
      Parse(F, Dump(F, GetAnswer(v)), MAX_DEPTH) == Ok(GetAnswer(Sanitize(v)), |Dump(F, GetAnswer(v))|)
  {
    hide Dump;
    hide Parse;
    hide Faithful;
    hide Doubles;
    OneFieldHeight("value", v);
    GetAnswerStored(F, v);
    RoundTripAny(F, GetAnswer(v), MAX_DEPTH);
    assert GetAnswer(v).fields[1..] == [];
    assert Sanitize(GetAnswer(v)) == GetAnswer(Sanitize(v));
  }

  lemma GetAnswerStored(F: Floats, v: Value)
    requires Stored(F, v)
    ensures Stored(F, GetAnswer(v))
  {
  }

  lemma QueryAnswerStored(F: Floats, rows: seq<Row>)
    requires forall row | row in rows :: Stored(F, row.value)
    ensures Stored(F, QueryAnswer(rows))
  {
    var items := RowAnswers(rows);
    forall k | 0 <= k < |items| ensures Stored(F, items[k]) {
      assert rows[k] in rows;
      RowAnswerStored(F, rows[k]);
    }
    assert Stored(F, Arr(items));
  }

  lemma RowAnswerStored(F: Floats, row: Row)
    requires Stored(F, row.value)
    ensures Stored(F, RowAnswer(row))
  {
    assert Compare("key", "value") < 0;
  }

  /** A query answer reads again exactly when every returned value is at most 61 high. */
  lemma QueryReparses(F: Floats, rows: seq<Row>)
    requires Faithful(F) && forall row | row in rows :: Stored(F, row.value)
    ensures Parse(F, Dump(F, QueryAnswer(rows)), MAX_DEPTH).Ok? <==>
      forall row | row in rows :: Height(row.value) <= 61
  {
    hide Dump;
    hide Parse;
    hide Faithful;
    hide Stored;
    QueryAnswerStored(F, rows);
    StoredParts(F, QueryAnswer(rows));
    RoundTripAny(F, QueryAnswer(rows), MAX_DEPTH);
    RowAnswersHeight(rows, MAX_DEPTH - 3);
    OneFieldHeight("rows", Arr(RowAnswers(rows)));
  }

  lemma StoredParts(F: Floats, v: Value)
    requires Stored(F, v)
    ensures WellFormed(v) && Doubles(F, v)
  {
  }

  // --- put, then get --------------------------------------------------------------------

  /** What `parseInput` makes of an argument text: nothing at all means no arguments. */
  function Arguments(F: Floats, text: Bytes): Option<Value> {
    if text == "" then Some(Obj([]))
    else match Parse(F, text, MAX_DEPTH)
      case Ok(v, _) => if v.Obj? then Some(v) else None
      case Bad(_, _) => None
  }

  /** No text, or the text of an object. */
  lemma ArgumentsAre(F: Floats, text: Bytes, v: Value)
    ensures Arguments(F, text) == Some(v) <==>
      if text == "" then v == Obj([]) else v.Obj? && Parse(F, text, 64) == Ok(v, |text|)
  {
    hide ValueAt;
  }

  /** What a put value reads back as: null as an empty object, infinities as null, the rest as it is. */
  function CameBack(v: Value): Value { if v.Null? then Obj([]) else Sanitize(v) }

  lemma EmptyComesBack(F: Floats)
    ensures ReadText(F, StoredText(F, Null)) == Obj([])
  {
    var doc := Elem("", TObj("", []), "");
    assert DocText(doc) == "{}";
    TextComplete(F, doc, MAX_DEPTH);
  }

  /** What is put is what is got exactly when it is not null, holds no infinity and is low enough. */
  lemma PutComesBack(F: Floats, v: Value)
    requires Faithful(F) && Stored(F, v)
    ensures ReadText(F, StoredText(F, v)) == v <==> !v.Null? && Finite(v) && Height(v) <= 64
    ensures Height(v) <= 64 ==> ReadText(F, StoredText(F, v)) == CameBack(v)
    ensures Height(v) > 64 ==> ReadText(F, StoredText(F, v)) == Null
  {
    hide Dump;
    hide Parse;
    hide Faithful;
    EmptyComesBack(F);
    RoundTrip(F, v);
    RoundTripAny(F, v, MAX_DEPTH);
  }

  /** The arguments of a put of ten to the 309th. */
  function HugeArguments(): Bytes { "{\"value\":" + PowerDigits(309) + "}" }

  const VALUE: seq<Item> := [Plain('v'), Plain('a'), Plain('l'), Plain('u'), Plain('e')]

  lemma ValueItems()
    ensures ValidItems(VALUE) && StringBytes(VALUE) == "value" && ItemsText(VALUE) == "value"
  {
    assert VALUE[1..][1..][1..][1..] == [Plain('e')] && VALUE[1..][1..][1..] == [Plain('u'), Plain('e')];
    assert VALUE[1..][1..] == [Plain('l'), Plain('u'), Plain('e')];
    assert StringBytes([Plain('e')]) == "e" && ItemsText([Plain('e')]) == "e";
    assert StringBytes([Plain('u'), Plain('e')]) == "ue" && ItemsText([Plain('u'), Plain('e')]) == "ue";
    assert StringBytes(VALUE[1..][1..]) == "lue" && ItemsText(VALUE[1..][1..]) == "lue";
    assert StringBytes(VALUE[1..]) == "alue" && ItemsText(VALUE[1..]) == "alue";
  }

  lemma BareNumber(digits: Bytes)
    ensures JsonRfc.NumberText(JsonRfc.Pieces("", digits, None, None)) == digits
  {
  }

  lemma BareMember(key: Bytes, value: Bytes)
    ensures "{" + (("" + (("\"" + (key + "\"")) + ("" + ":"))) + ("" + (value + ("" + "}"))))
         == "{\"" + key + "\":" + value + "}"
  {
  }

  lemma OneMemberText(m: Member, digits: Bytes)
    requires m == Member("", m.key, "", Elem("", TNum(digits), ""))
    ensures Text(TObj("", [m])) ==
      "{" + (("" + (("\"" + (ItemsText(m.key) + "\"")) + ("" + ":"))) + ("" + (digits + ("" + "}"))))
  {
    hide ItemsText;
    assert MembersText([m]) == KeyText(m) + ("" + (digits + ("" + "}")));
  }

  lemma HugeReads(F: Floats)
    requires Faithful(F)
    ensures IsNumberToken(PowerDigits(309)) && F.read(PowerDigits(309)) == PosInf
  {
    hide IsNumberToken;
    hide PowerDigits;
    hide Power10;
    hide DigitsValue;
    var digits := PowerDigits(309);
    PowerDigitsValue(309);
    assert IsDigit(digits[0]);
    assert IsIntToken(digits) && IntValue(digits) == OVERFLOW;
    JsonRfc.LooseScans(JsonRfc.Pieces("", digits, None, None));
    assert JsonRfc.NumberText(JsonRfc.Pieces("", digits, None, None)) == digits by { BareNumber(digits); }
  }

  lemma HugeParses(F: Floats)
    requires Faithful(F)
    ensures Arguments(F, HugeArguments()) == Some(Obj([Field("value", Num(PosInf))]))
  {
    hide Parse;
    hide Faithful;
    hide IsNumberToken;
    hide PowerDigits;
    hide StringBytes;
    hide ItemsText;
    hide ValidItems;
    var digits := PowerDigits(309);
    HugeReads(F);
    ValueItems();
    var m := Member("", VALUE, "", Elem("", TNum(digits), ""));
    var doc := Elem("", TObj("", [m]), "");
    assert [m][1..] == [];
    OneMemberText(m, digits);
    BareMember("value", digits);
    assert "{\"" + "value" + "\":" == "{\"value\":";
    assert DocText(doc) == HugeArguments();
    assert Fields(F, [m], []) == SetKey([], "value", Num(PosInf));
    assert SetKey([], "value", Num(PosInf)) == [Field("value", Num(PosInf))];
    assert MembersHeight([m]) == 1;
    TextComplete(F, doc, MAX_DEPTH);
  }

  /** Two puts whose values do not come back: null, and a number too large for a double. */
  lemma NotWhatWasPut(F: Floats)
    requires Faithful(F)
    ensures ReadText(F, StoredText(F, Null)) == Obj([])
    ensures var args := Arguments(F, HugeArguments());
      args.Some? && Get(args.value, "value") == Num(PosInf)
      && ReadText(F, StoredText(F, Get(args.value, "value"))) == Null
  {
    hide Parse;
    hide Faithful;
    hide HugeArguments;
    EmptyComesBack(F);
    HugeParses(F);
    PutComesBack(F, Num(PosInf));
  }

  /** A value that comes in with accepted arguments is at most 63 high; what its stored text reads back as
      is told by `CameBack`, and the answer that carries it reads again and holds no byte a NUL-terminated
      crossing could lose. */
  lemma PutThenGet(F: Floats, text: Bytes)
    requires Faithful(F) && Arguments(F, text).Some?
    ensures var v := Get(Arguments(F, text).value, "value");
      var answer := Dump(F, GetAnswer(ReadText(F, StoredText(F, v))));
      && Height(v) <= 63
      && ReadText(F, StoredText(F, v)) == CameBack(v)
      && (ReadText(F, StoredText(F, v)) == v <==> !v.Null? && Finite(v))
      && Parse(F, answer, MAX_DEPTH) == Ok(GetAnswer(CameBack(v)), |answer|)
      && Visible(answer)
  {
    hide Dump;
    hide Parse;
    hide Faithful;
    hide Stored;
    var args := Arguments(F, text).value;
    var v := Get(args, "value");
    ArgumentsGood(F, text);
    MemberGood(F, args, "value", MAX_DEPTH - 1);
    GoodStored(F, v, MAX_DEPTH - 1);
    PutComesBack(F, v);
    CameBackStored(F, v);
    GetReparses(F, CameBack(v));
    GetAnswerStored(F, CameBack(v));
    StoredParts(F, GetAnswer(CameBack(v)));
    DumpVisible(F, GetAnswer(CameBack(v)));
  }

  lemma ArgumentsGood(F: Floats, text: Bytes)
    requires Faithful(F) && Arguments(F, text).Some?
    ensures Good(F, Arguments(F, text).value, MAX_DEPTH)
  {
    hide Parse;
    hide Faithful;
    if text != "" { ParseGood(F, text, MAX_DEPTH); }
  }

  lemma GoodStored(F: Floats, v: Value, room: nat)
    requires Good(F, v, room)
    ensures Stored(F, v) && Height(v) <= room
  {
  }

  lemma CameBackStored(F: Floats, v: Value)
    requires Stored(F, v) && Height(v) <= MAX_DEPTH - 1
    ensures Stored(F, CameBack(v)) && Height(CameBack(v)) <= MAX_DEPTH - 1 && Sanitize(CameBack(v)) == CameBack(v)
  {
    if !v.Null? {
      SanitizedStored(F, v);
      SanitizeTwice(v);
    }
  }

  lemma {:induction false} SanitizedStored(F: Floats, v: Value)
    requires Stored(F, v)
    ensures Stored(F, Sanitize(v)) && Height(Sanitize(v)) == Height(v)
    decreases v, 2
  {
    match v
    case Arr(items) => SanitizedArray(F, items);
    case Obj(fields) => SanitizedObject(F, fields);
    case _ =>
  }

  lemma {:induction false} SanitizedArray(F: Floats, items: seq<Value>)
    requires forall k | 0 <= k < |items| :: Stored(F, items[k])
    ensures Stored(F, Sanitize(Arr(items))) && Height(Sanitize(Arr(items))) == Height(Arr(items))
    decreases items, 1
  {
    SanitizedItems(items);
    forall k | 0 <= k < |items| ensures Stored(F, SanitizeItems(items)[k]) { SanitizedStored(F, items[k]); }
    SanitizedItemsHeight(F, items);
  }

  lemma {:induction false} SanitizedObject(F: Floats, fields: seq<Field>)
    requires SortedKeys(fields) && forall k | 0 <= k < |fields| :: Stored(F, fields[k].value)
    ensures Stored(F, Sanitize(Obj(fields))) && Height(Sanitize(Obj(fields))) == Height(Obj(fields))
    decreases fields, 1
  {
    SanitizedFields(fields);
    forall k | 0 <= k < |fields| ensures Stored(F, SanitizeFields(fields)[k].value) {
      SanitizedStored(F, fields[k].value);
    }
    SanitizedFieldsHeight(F, fields);
  }

  lemma {:induction false} SanitizedItemsHeight(F: Floats, items: seq<Value>)
    requires forall k | 0 <= k < |items| :: Stored(F, items[k])
    ensures ItemsHeight(SanitizeItems(items)) == ItemsHeight(items)
    decreases items, 0
  {
    if items != [] {
      SanitizedStored(F, items[0]);
      SanitizedItemsHeight(F, items[1..]);
      assert SanitizeItems(items)[1..] == SanitizeItems(items[1..]);
    }
  }

  lemma {:induction false} SanitizedFieldsHeight(F: Floats, fields: seq<Field>)
    requires forall k | 0 <= k < |fields| :: Stored(F, fields[k].value)
    ensures FieldsHeight(SanitizeFields(fields)) == FieldsHeight(fields)
    decreases fields, 0
  {
    if fields != [] {
      SanitizedStored(F, fields[0].value);
      SanitizedFieldsHeight(F, fields[1..]);
      assert SanitizeFields(fields)[1..] == SanitizeFields(fields[1..]);
    }
  }

  // --- over a run ---------------------------------------------------------------------------

  /** The action overwrites or deletes the row. */
  predicate Touches(w: Write, store: Bytes, key: Bytes) {
    (w.Put? || w.Delete?) && StoreOf(w.args) == store && KeyOf(w.args) == key
  }

  /** Both have the row with one text, or neither has it. */
  predicate SameRow(a: Db, b: Db, store: Bytes, key: Bytes) {
    && ((store, key) in a.rows <==> (store, key) in b.rows)
    && ((store, key) in a.rows ==> a.rows[(store, key)] == b.rows[(store, key)])
  }

  lemma UntouchedRow(F: Floats, w: Write, db: Db, store: Bytes, key: Bytes)
    requires !Touches(w, store, key)
    ensures SameRow(db, Effect(F, w, db).db, store, key)
  {
    hide StoredText;
    hide Upsert;
    hide Reindex;
    match w
    case IndexUpsert(args) => UpsertRows(F, args, db);
    case IndexReindex(args) => ReindexRows(F, args, db);
    case _ =>
  }

  /** Those are just the actions that can change it. */
  lemma TouchesIs(F: Floats, w: Write, store: Bytes, key: Bytes)
    ensures Touches(w, store, key) <==> exists db :: !SameRow(db, Effect(F, w, db).db, store, key)
  {
    hide Effect;
    if Touches(w, store, key) {
      var bare := EMPTY.(stores := {store});
      var full := bare.(rows := map[(store, key) := ""]);
      TouchingChanges(F, w, bare, full, store, key);
    }
    forall db | !Touches(w, store, key) ensures SameRow(db, Effect(F, w, db).db, store, key) {
      UntouchedRow(F, w, db, store, key);
    }
  }

  lemma TouchingChanges(F: Floats, w: Write, bare: Db, full: Db, store: Bytes, key: Bytes)
    requires Touches(w, store, key) && store in bare.stores && store in full.stores
    requires (store, key) !in bare.rows && (store, key) in full.rows
    ensures !SameRow(bare, Effect(F, w, bare).db, store, key) || !SameRow(full, Effect(F, w, full).db, store, key)
  {
    hide StoredText;
    hide Get;
  }

  lemma UpsertRows(F: Floats, args: Value, db: Db)
    ensures Upsert(F, args, db).db.rows == db.rows && Upsert(F, args, db).db.stores == db.stores
  {
    hide MaxOf;
    hide StoredText;
    hide ReadVector;
    hide ParseEmbedding;
    hide Get;
  }

  lemma ReindexRows(F: Floats, args: Value, db: Db)
    ensures Reindex(F, args, db).db.rows == db.rows && Reindex(F, args, db).db.stores == db.stores
  {
    hide MaxOf;
    hide StoredText;
    if ParseEmbedding(Get(args, "embedding")).Some? {
      var index, e := IndexOf(args), ParseEmbedding(Get(args, "embedding")).value;
      var cleared := if index in db.meta then Dropped(db, index) else db;
      FilledRows(F, Created(cleared, index, e), index, e, AsItems(Get(args, "vectors")));
    }
  }

  lemma {:induction false} FilledRows(F: Floats, db: Db, index: Bytes, e: Embedding, rows: seq<Value>)
    ensures Filled(F, db, index, e, rows).db.rows == db.rows && Filled(F, db, index, e, rows).db.stores == db.stores
    decreases |rows|
  {
    hide StoredText;
    if rows != [] && ReadVector(Get(rows[0], "vector")).Some? {
      var vector := ReadVector(Get(rows[0], "vector")).value;
      var r := WriteChecked(F, db, index, e, KeyOf(rows[0]), vector, Get(rows[0], "value"));
      FilledRows(F, r.db, index, e, rows[1..]);
    }
  }

  /** What the surviving writes before `n` leave of the initial contents. */
  ghost function After(F: Floats, db: Db, steps: seq<Step<Write>>, n: nat): Db {
    Replay(StoreRules(F), db, Survivors(StoreRules(F), steps, n))
  }

  lemma AfterOne(F: Floats, db: Db, steps: seq<Step<Write>>, n: nat)
    requires n < |steps|
    ensures Survives(StoreRules(F), steps, n) ==>
      steps[n].Act? && After(F, db, steps, n + 1) == Effect(F, steps[n].w, After(F, db, steps, n)).db
    ensures !Survives(StoreRules(F), steps, n) ==> After(F, db, steps, n + 1) == After(F, db, steps, n)
  {
    hide Survives;
    hide Effect;
    if Survives(StoreRules(F), steps, n) {
      SurvivesAct(StoreRules(F), steps, n);
      ReplayOne(StoreRules(F), db, Survivors(StoreRules(F), steps, n), steps[n].w);
    } else {
      assert Survivors(StoreRules(F), steps, n + 1) == Survivors(StoreRules(F), steps, n);
    }
  }

  /** Between `m` and `n` no surviving write touches the row. */
  ghost predicate Quiet(F: Floats, steps: seq<Step<Write>>, m: nat, n: nat, store: Bytes, key: Bytes) {
    forall q | m <= q < n && q < |steps| && Survives(StoreRules(F), steps, q) :: !Touches(steps[q].w, store, key)
  }

  /** What no surviving write touches stays. */
  lemma {:induction false} RowStays(F: Floats, db: Db, steps: seq<Step<Write>>, m: nat, n: nat, store: Bytes,
                                    key: Bytes)
    requires m <= n <= |steps| && Quiet(F, steps, m, n, store, key)
    ensures SameRow(After(F, db, steps, m), After(F, db, steps, n), store, key)
  {
    hide Survives;
    hide Touches;
    hide After;
    hide Effect;
    if m < n {
      RowStays(F, db, steps, m, n - 1, store, key);
      AfterOne(F, db, steps, n - 1);
      if Survives(StoreRules(F), steps, n - 1) {
        UntouchedRow(F, steps[n - 1].w, After(F, db, steps, n - 1), store, key);
      }
    }
  }

  /** The last surviving write of a row decides it. */
  lemma LastTouch(F: Floats, s: State<Db>, steps: seq<Step<Write>>, p: nat, store: Bytes, key: Bytes)
    requires s.scopes == [] && NoRestore(steps) && Survives(StoreRules(F), steps, p)
    requires Quiet(F, steps, p + 1, |steps|, store, key)
    ensures p < |steps| && steps[p].Act?
    ensures SameRow(Effect(F, steps[p].w, Run(StoreRules(F), s, steps[..p]).db).db, Run(StoreRules(F), s, steps).db,
                    store, key)
  {
    hide Survives;
    hide Quiet;
    hide Effect;
    hide SameRow;
    SurvivesAct(StoreRules(F), steps, p);
    ContentsAtSurvivor(StoreRules(F), s, steps, p);
    ContentsAreSurvivors(StoreRules(F), s, steps);
    AfterOne(F, s.db, steps, p);
    RowStays(F, s.db, steps, p + 1, |steps|, store, key);
  }

  lemma PutEffect(F: Floats, args: Value, db: Db)
    requires StoreOf(args) in db.stores
    ensures Effect(F, Write.Put(args), db).db.rows ==
      db.rows[(StoreOf(args), KeyOf(args)) := StoredText(F, Get(args, "value"))]
  {
    hide StoredText;
    hide Get;
  }

  lemma DeleteEffect(F: Floats, args: Value, db: Db)
    requires StoreOf(args) in db.stores
    ensures Effect(F, Write.Delete(args), db).db.rows == db.rows - {(StoreOf(args), KeyOf(args))}
  {
    hide Get;
  }

  /** A put of a declared store that survives the run, with no later surviving write of its row, is
      what the run leaves in that row: until overwritten, deleted or undone, the value stays. */
  lemma PutLasts(F: Floats, s: State<Db>, steps: seq<Step<Write>>, p: nat)
    requires s.scopes == [] && NoRestore(steps)
    requires Survives(StoreRules(F), steps, p) && steps[p].w.Put?
    requires StoreOf(steps[p].w.args) in Run(StoreRules(F), s, steps[..p]).db.stores
    requires forall q | p < q < |steps| && Survives(StoreRules(F), steps, q) ::
      !Touches(steps[q].w, StoreOf(steps[p].w.args), KeyOf(steps[p].w.args))
    ensures var args, rows := steps[p].w.args, Run(StoreRules(F), s, steps).db.rows;
      (StoreOf(args), KeyOf(args)) in rows
      && rows[(StoreOf(args), KeyOf(args))] == StoredText(F, Get(args, "value"))
  {
    hide StoredText;
    hide Survives;
    hide Run;
    hide Get;
    hide Effect;
    hide Touches;
    hide StoreOf;
    hide KeyOf;
    SurvivesAct(StoreRules(F), steps, p);
    var args := steps[p].w.args;
    LastTouch(F, s, steps, p, StoreOf(args), KeyOf(args));
    PutEffect(F, args, Run(StoreRules(F), s, steps[..p]).db);
  }

  /** And a delete that survives, with no later surviving write of its row, leaves no such row. */
  lemma DeleteLasts(F: Floats, s: State<Db>, steps: seq<Step<Write>>, p: nat)
    requires s.scopes == [] && NoRestore(steps)
    requires Survives(StoreRules(F), steps, p) && steps[p].w.Delete?
    requires StoreOf(steps[p].w.args) in Run(StoreRules(F), s, steps[..p]).db.stores
    requires forall q | p < q < |steps| && Survives(StoreRules(F), steps, q) ::
      !Touches(steps[q].w, StoreOf(steps[p].w.args), KeyOf(steps[p].w.args))
    ensures (StoreOf(steps[p].w.args), KeyOf(steps[p].w.args)) !in Run(StoreRules(F), s, steps).db.rows
  {
    hide Survives;
    hide Run;
    hide Get;
    hide Effect;
    hide Touches;
    hide StoreOf;
    hide KeyOf;
    SurvivesAct(StoreRules(F), steps, p);
    var args := steps[p].w.args;
    LastTouch(F, s, steps, p, StoreOf(args), KeyOf(args));
    DeleteEffect(F, args, Run(StoreRules(F), s, steps[..p]).db);
  }

  /** A row that no surviving write touches is what it was at the start. */
  lemma RowLasts(F: Floats, s: State<Db>, steps: seq<Step<Write>>, store: Bytes, key: Bytes)
    requires s.scopes == [] && NoRestore(steps)
    requires forall q | 0 <= q < |steps| && Survives(StoreRules(F), steps, q) :: !Touches(steps[q].w, store, key)
    ensures SameRow(s.db, Run(StoreRules(F), s, steps).db, store, key)
  {
    hide Survives;
    hide Touches;
    hide SameRow;
    ContentsAreSurvivors(StoreRules(F), s, steps);
    RowStays(F, s.db, steps, 0, |steps|, store, key);
  }

  /** Write `p` survives and declares a legal name. */
  ghost predicate DeclaresAt(F: Floats, steps: seq<Step<Write>>, p: nat, name: Bytes) {
    p < |steps| && Survives(StoreRules(F), steps, p) && steps[p].w.Declare?
    && StoreOf(steps[p].w.args) == name && ValidName(name)
  }

  lemma DeclaredBy(F: Floats, w: Write, db: Db, name: Bytes)
    ensures name in Effect(F, w, db).db.stores <==>
      name in db.stores || (w.Declare? && StoreOf(w.args) == name && ValidName(name))
  {
    hide StoredText;
    hide ValidName;
    hide Upsert;
    hide Reindex;
    match w
    case IndexUpsert(args) => UpsertRows(F, args, db);
    case IndexReindex(args) => ReindexRows(F, args, db);
    case _ =>
  }

  ghost predicate DeclaredBefore(F: Floats, steps: seq<Step<Write>>, n: nat, name: Bytes) {
    exists p: nat :: p < n && DeclaresAt(F, steps, p, name)
  }

  lemma DeclaredBeforeStep(F: Floats, steps: seq<Step<Write>>, n: nat, name: Bytes)
    requires n > 0
    ensures DeclaredBefore(F, steps, n, name) <==>
      DeclaredBefore(F, steps, n - 1, name) || DeclaresAt(F, steps, n - 1, name)
  {
    hide DeclaresAt;
    if p: nat :| p < n && DeclaresAt(F, steps, p, name) {
      if p < n - 1 { assert DeclaredBefore(F, steps, n - 1, name); }
    }
  }

  lemma {:induction false} StoresAfter(F: Floats, db: Db, steps: seq<Step<Write>>, n: nat, name: Bytes)
    requires n <= |steps|
    ensures name in After(F, db, steps, n).stores <==> name in db.stores || DeclaredBefore(F, steps, n, name)
  {
    hide Survives;
    hide Effect;
    hide ValidName;
    hide Get;
    if n == 0 {
      assert After(F, db, steps, 0) == db;
    } else {
      hide After;
      hide DeclaredBefore;
      StoresAfter(F, db, steps, n - 1, name);
      AfterOne(F, db, steps, n - 1);
      DeclaredBeforeStep(F, steps, n, name);
      if Survives(StoreRules(F), steps, n - 1) {
        DeclaredBy(F, steps[n - 1].w, After(F, db, steps, n - 1), name);
      }
    }
  }

  /** The declared stores are those there were and those a surviving declaration named. */
  lemma DeclaredStores(F: Floats, s: State<Db>, steps: seq<Step<Write>>, name: Bytes)
    requires s.scopes == [] && NoRestore(steps)
    ensures name in Run(StoreRules(F), s, steps).db.stores <==>
      name in s.db.stores || exists p: nat :: DeclaresAt(F, steps, p, name)
  {
    hide Survives;
    hide ValidName;
    hide NoRestore;
    hide Get;
    ContentsAreSurvivors(StoreRules(F), s, steps);
    StoresAfter(F, s.db, steps, |steps|, name);
  }

  // --- the arguments by name --------------------------------------------------------------------

  /** The argument object of a row action, its keys in order. */
  function RowArguments(store: Bytes, key: Bytes, value: Value): Value {
    Obj([Field("key", Str(key)), Field("store", Str(store)), Field("value", value)])
  }

  lemma RowArgumentsRead(store: Bytes, key: Bytes, value: Value)
    ensures var args := RowArguments(store, key, value);
      StoreOf(args) == store && KeyOf(args) == key && Get(args, "value") == value
  {
    var fs := RowArguments(store, key, value).fields;
    assert fs[1..] == [Field("store", Str(store)), Field("value", value)];
    assert fs[1..][1..] == [Field("value", value)];
    assert Lookup(fs, "store") == Lookup(fs[1..], "store");
    assert Lookup(fs, "value") == Lookup(fs[1..], "value") == Lookup(fs[1..][1..], "value");
  }

  /** A name that is not given as a string is the empty one. */
  lemma NameOrNothing(args: Value)
    ensures StoreOf(args) == (match Get(args, "store") case Str(s) => s case _ => "")
    ensures KeyOf(args) == (match Get(args, "key") case Str(s) => s case _ => "")
    ensures IndexOf(args) == (match Get(args, "index") case Str(s) => s case _ => "")
  {
    hide Get;
  }

  /** Declared, put, deleted: the row is there in between, alone of its key, and gone after. */
  lemma RowLife(F: Floats, db: Db, store: Bytes, key: Bytes, value: Value)
    requires ValidName(store)
    ensures var args := RowArguments(store, key, value);
      var declared := Effect(F, Write.Declare(args), db);
      var put := Effect(F, Write.Put(args), declared.db);
      var gone := Effect(F, Write.Delete(args), put.db);
      && declared.reply == put.reply == gone.reply == Done
      && declared.db == db.(stores := db.stores + {store})
      && put.db == declared.db.(rows := db.rows[(store, key) := if value == Null then "{}" else Dump(F, value)])
      && gone.db == declared.db.(rows := db.rows - {(store, key)})
  {
    hide Dump;
    hide ValidName;
    RowArgumentsRead(store, key, value);
    hide Get;
    hide RowArguments;
    hide StoreOf;
    hide KeyOf;
    assert db.rows[(store, key) := StoredText(F, value)] - {(store, key)} == db.rows - {(store, key)};
  }
}
