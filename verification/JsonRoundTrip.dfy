/** Printing and reading back: the round trip, injectivity of the printer, and the canonical form. */
module JsonRoundTrip {
  import opened Strings
  import opened Unicode
  import opened Json
  import opened JsonParser
  import opened JsonGrammar
  import opened JsonComplete
  import opened JsonSound
  import JsonRfc

  /** `v` with every infinity replaced by null, which is what the printer writes for it. */
  function Sanitize(v: Value): Value
    decreases v, 0
  {
    match v
    case Num(n) => if n.Fin? then v else Null
    case Arr(items) => Arr(SanitizeItems(items))
    case Obj(fields) => Obj(SanitizeFields(fields))
    case _ => v
  }

  function SanitizeItems(items: seq<Value>): (r: seq<Value>)
    ensures |r| == |items|
    decreases items, 0
  {
    if items == [] then [] else [Sanitize(items[0])] + SanitizeItems(items[1..])
  }

  function SanitizeFields(fields: seq<Field>): (r: seq<Field>)
    ensures |r| == |fields|
    decreases fields, 0
  {
    if fields == [] then []
    else [Field(fields[0].key, Sanitize(fields[0].value))] + SanitizeFields(fields[1..])
  }

  /** No infinity anywhere in `v`. */
  predicate Finite(v: Value) {
    match v
    case Num(n) => n.Fin?
    case Arr(items) => forall k | 0 <= k < |items| :: Finite(items[k])
    case Obj(fields) => forall k | 0 <= k < |fields| :: Finite(fields[k].value)
    case _ => true
  }

  lemma {:induction false} SanitizeFinite(v: Value)
    requires Finite(v)
    ensures Sanitize(v) == v
    decreases v, 0
  {
    match v
    case Arr(items) => SanitizeFiniteItems(items);
    case Obj(fields) => SanitizeFiniteFields(fields);
    case _ =>
  }

  lemma {:induction false} SanitizeFiniteItems(items: seq<Value>)
    requires forall k | 0 <= k < |items| :: Finite(items[k])
    ensures SanitizeItems(items) == items
    decreases items, 0
  {
    if items != [] {
      SanitizeFinite(items[0]);
      SanitizeFiniteItems(items[1..]);
    }
  }

  lemma {:induction false} SanitizeFiniteFields(fields: seq<Field>)
    requires forall k | 0 <= k < |fields| :: Finite(fields[k].value)
    ensures SanitizeFields(fields) == fields
    decreases fields, 0
  {
    if fields != [] {
      SanitizeFinite(fields[0].value);
      SanitizeFiniteFields(fields[1..]);
    }
  }

  // --- the printed form is unchanged by it ----------------------------------------

  lemma {:induction false} DumpSanitized(F: Floats, v: Value)
    ensures Dump(F, Sanitize(v)) == Dump(F, v)
    decreases v, 0
  {
    match v
    case Arr(items) => DumpSanitizedItems(F, items, true);
    case Obj(fields) => DumpSanitizedFields(F, fields, true);
    case _ =>
  }

  lemma {:induction false} DumpSanitizedItems(F: Floats, items: seq<Value>, first: bool)
    ensures DumpItems(F, SanitizeItems(items), first) == DumpItems(F, items, first)
    decreases items, 0
  {
    if items != [] {
      DumpSanitized(F, items[0]);
      DumpSanitizedItems(F, items[1..], false);
      assert SanitizeItems(items)[1..] == SanitizeItems(items[1..]);
    }
  }

  lemma {:induction false} DumpSanitizedFields(F: Floats, fields: seq<Field>, first: bool)
    ensures DumpFields(F, SanitizeFields(fields), first) == DumpFields(F, fields, first)
    decreases fields, 0
  {
    if fields != [] {
      DumpSanitized(F, fields[0].value);
      DumpSanitizedFields(F, fields[1..], false);
      assert SanitizeFields(fields)[1..] == SanitizeFields(fields[1..]);
    }
  }

  // --- printed numbers are tokens ----------------------------------------------------

  lemma {:induction false} SkipDigitsAll(t: Bytes, k: nat)
    requires k <= |t| && forall j | k <= j < |t| :: IsDigit(t[j])
    ensures SkipDigits(t, k) == |t|
    decreases |t| - k
  {
    if k < |t| { SkipDigitsAll(t, k + 1); }
  }

  lemma DecimalToken(n: int)
    ensures IsNumberToken(Decimal(n))
  {
    var t := Decimal(n);
    if n < 0 {
      assert forall j | 1 <= j < |t| :: t[j] == Digits(-n)[j - 1];
      SkipDigitsAll(t, 1);
    } else {
      assert IsDigit(t[0]);
      SkipDigitsAll(t, 0);
    }
  }

  lemma {:induction false} ShortestReadsBack(F: Floats, r: real, p: nat)
    requires Faithful(F) && F.isDouble(r) && 1 <= p <= 18
    ensures IsNumberToken(Shortest(F, r, p)) && F.read(Shortest(F, r, p)) == Fin(r)
    decreases 18 - p
  {
    if p <= 17 { ShortestReadsBack(F, r, p + 1); }
  }

  /** A printed double is one number token that reads back to the same double. */
  lemma NumberReadsBack(F: Floats, r: real)
    requires Faithful(F) && F.isDouble(r)
    ensures IsNumberToken(DumpNumber(F, Fin(r))) && F.read(DumpNumber(F, Fin(r))) == Fin(r)
  {
    if FastPath(r) {
      DecimalToken(r.Floor);
      DecimalReadsBack(r.Floor);
    } else {
      ShortestReadsBack(F, r, 1);
    }
  }

  /** A double of the witness below: a fast-path integer, or such an integer and a half above zero. */
  predicate IsHalf(r: real) { r >= 0.5 && FastPath(r - 0.5) }

  /** A small world of doubles: integers and positive halves. One digit does not show the half. */
  function Halves(): Floats {
    Floats((r: real) => FastPath(r) || IsHalf(r), ReadHalf, WriteHalf)
  }

  function WriteHalf(p: int, r: real): Bytes {
    if IsHalf(r) && p > 1 then Decimal(r.Floor) + ".5" else Decimal(r.Floor)
  }

  function ReadHalf(t: Bytes): Number {
    if IsIntToken(t) then
      if -FAST_LIMIT < IntValue(t) < FAST_LIMIT then Fin(IntValue(t) as real)
      else if IntValue(t) > 0 then PosInf else NegInf
    else if |t| > 2 && t[|t| - 2..] == ".5" && IsIntToken(t[..|t| - 2])
            && 0 <= IntValue(t[..|t| - 2]) < FAST_LIMIT then
      Fin(IntValue(t[..|t| - 2]) as real + 0.5)
    else PosInf
  }

  lemma ReadIsDouble(t: Bytes)
    ensures ReadHalf(t).Fin? ==> Halves().isDouble(ReadHalf(t).r)
  {
    hide IsIntToken;
    hide IntValue;
    if ReadHalf(t).Fin? && !IsIntToken(t) {
      var n := IntValue(t[..|t| - 2]);
      var r := n as real + 0.5;
      assert r - 0.5 == n as real && (n as real).Floor == n;
    }
  }

  lemma NotIntToken(t: Bytes)
    ensures !IsIntToken(t + ".5")
  {
    var s := t + ".5";
    assert s[|t|] == '.';
    var d := if s != [] && s[0] == '-' then s[1..] else s;
    assert d[|d| - 2] == '.';
  }

  lemma HalfFloor(r: real)
    requires IsHalf(r)
    ensures 0 <= r.Floor < FAST_LIMIT && r == r.Floor as real + 0.5 && !FastPath(r)
  {
    var n := (r - 0.5).Floor;
    assert r - 0.5 == n as real;
    assert r.Floor == n;
  }

  lemma HalfReadsBack(p: int, r: real)
    requires FastPath(r) || (IsHalf(r) && p > 1)
    ensures ReadHalf(WriteHalf(p, r)) == Fin(r)
  {
    hide Decimal;
    hide IsIntToken;
    hide IntValue;
    DecimalReadsBack(r.Floor);
    if IsHalf(r) {
      HalfFloor(r);
      var d := Decimal(r.Floor);
      NotIntToken(d);
      assert (d + ".5")[..|d + ".5"| - 2] == d;
      assert (d + ".5")[|d + ".5"| - 2..] == ".5";
      DecimalSome(r.Floor);
    }
  }

  lemma DecimalSome(n: int)
    ensures Decimal(n) != ""
  {
  }

  lemma HalfToken(p: int, r: real)
    requires FastPath(r) || IsHalf(r)
    ensures IsNumberToken(WriteHalf(p, r))
  {
    hide Digits;
    hide IsNumberToken;
    DecimalToken(r.Floor);
    if IsHalf(r) && p > 1 {
      HalfFloor(r);
      var n := JsonRfc.Pieces("", Digits(r.Floor), Some("5"), None);
      JsonRfc.LooseScans(n);
      assert JsonRfc.NumberText(n) == Decimal(r.Floor) + ".5";
    }
  }

  lemma OverflowIsFar()
    ensures OVERFLOW > FAST_LIMIT
  {
    PowersOfTen();
    Power10Grows(16, 309);
  }

  lemma PowersOfTen()
    ensures Power10(16) == 10_000_000_000_000_000
  {
    assert Power10(2) == 100;
    assert Power10(4) == 10_000;
    assert Power10(6) == 1_000_000;
    assert Power10(8) == 100_000_000;
    assert Power10(10) == 10_000_000_000;
    assert Power10(12) == 1_000_000_000_000;
    assert Power10(14) == 100_000_000_000_000;
  }

  /** The promises can be kept together, with doubles off the fast path and digits that do not suffice:
      one half prints at its second precision and reads back. */
  lemma FaithfulExists()
    ensures Faithful(Halves())
    ensures var F := Halves();
      F.isDouble(0.5) && !FastPath(0.5) && DumpNumber(F, Fin(0.5)) == F.format(2, 0.5) != F.format(1, 0.5)
  {
    hide Decimal;
    hide IntValue;
    hide IsIntToken;
    hide IsNumberToken;
    var F := Halves();
    forall t ensures F.read(t).Fin? ==> F.isDouble(F.read(t).r) { ReadIsDouble(t); }
    forall r | F.isDouble(r) ensures F.read(F.format(17, r)) == Fin(r) {
      if IsHalf(r) { HalfFloor(r); }
      HalfReadsBack(17, r);
    }
    forall p: int, r | 1 <= p <= 17 && F.isDouble(r) ensures IsNumberToken(F.format(p, r)) { HalfToken(p, r); }
    OverflowIsFar();
    assert 0.5 - 0.5 == 0.0;
    HalfFloor(0.5);
    HalfReadsBack(2, 0.5);
    DecimalReadsBack(0);
    assert F.read(F.format(1, 0.5)) == Fin(0.0);
    assert Shortest(F, 0.5, 1) == Shortest(F, 0.5, 2) == F.format(2, 0.5);
  }

  // --- the tree of a printed value ------------------------------------------------------

  function CanonItem(c: char): Item {
    if c == '"' then Short('"')
    else if c == '\\' then Short('\\')
    else if c == '\n' then Short('n')
    else if c == '\r' then Short('r')
    else if c == '\t' then Short('t')
    else if c as int == 8 then Short('b')
    else if c as int == 12 then Short('f')
    else if c as int < 0x20 then Uni("00" + [HexChar(c as int / 16), HexChar(c as int % 16)])
    else Plain(c)
  }

  function CanonItems(s: Bytes): seq<Item> {
    if s == [] then [] else [CanonItem(s[0])] + CanonItems(s[1..])
  }

  lemma ControlHex(c: char)
    requires c as int < 0x20
    ensures HexValue("00" + [HexChar(c as int / 16), HexChar(c as int % 16)], 0, 4) == Some(c as int)
  {
    var hex := "00" + [HexChar(c as int / 16), HexChar(c as int % 16)];
    assert HexValue(hex, 0, 1) == Some(0) by { assert HexValue(hex, 0, 0) == Some(0); }
    assert HexValue(hex, 0, 2) == Some(0);
    assert HexDigit(hex[2]) == Some(c as int / 16);
    assert HexValue(hex, 0, 3) == Some(c as int / 16);
    assert HexDigit(hex[3]) == Some(c as int % 16);
  }

  lemma CanonItemIs(c: char)
    ensures ValidItem(CanonItem(c)) && ItemText(CanonItem(c)) == EscapeByte(c)
    ensures ItemBytes(CanonItem(c)) == [c] && !IsHigh(UnitOf(CanonItem(c)))
  {
    if c as int < 0x20 { ControlHex(c); }
  }

  lemma {:induction false} CanonItemsAre(s: Bytes)
    ensures ValidItems(CanonItems(s))
    ensures ItemsText(CanonItems(s)) == EscapeBytes(s) && StringBytes(CanonItems(s)) == s
  {
    if s != [] {
      CanonItemIs(s[0]);
      CanonItemsAre(s[1..]);
      assert CanonItems(s)[1..] == CanonItems(s[1..]);
      assert s == [s[0]] + s[1..];
    }
  }

  lemma CanonLiteral(s: Bytes)
    ensures ValidItems(CanonItems(s))
    ensures Literal(CanonItems(s)) == Quote(s) && StringBytes(CanonItems(s)) == s
  {
    CanonItemsAre(s);
    assert "\"" + (EscapeBytes(s) + "\"") == "\"" + EscapeBytes(s) + "\"";
  }

  function Canon(F: Floats, v: Value): Tree
    decreases v, 0
  {
    match v
    case Null => TNull
    case Bool(b) => if b then TTrue else TFalse
    case Num(n) => if n.Fin? then TNum(DumpNumber(F, n)) else TNull
    case Str(s) => TStr(CanonItems(s))
    case Arr(items) => TArr("", CanonElems(F, items))
    case Obj(fields) => TObj("", CanonMembers(F, fields))
  }

  function CanonElems(F: Floats, items: seq<Value>): (es: seq<Elem>)
    ensures |es| == |items|
    decreases items, 0
  {
    if items == [] then [] else [Elem("", Canon(F, items[0]), "")] + CanonElems(F, items[1..])
  }

  function CanonMembers(F: Floats, fields: seq<Field>): (ms: seq<Member>)
    ensures |ms| == |fields|
    decreases fields, 0
  {
    if fields == [] then []
    else [Member("", CanonItems(fields[0].key), "", Elem("", Canon(F, fields[0].value), ""))]
         + CanonMembers(F, fields[1..])
  }

  /** The canonical tree's text is the printed form, its meaning the sanitized value, its height
      the value's. */
  ghost predicate CanonRight(F: Floats, v: Value) {
    var t := Canon(F, v);
    && ValidTree(t) && Text(t) == Dump(F, v)
    && Meaning(F, t) == Sanitize(v) && TreeHeight(t) == Height(v)
  }

  lemma {:induction false} CanonIs(F: Floats, v: Value)
    requires Faithful(F) && WellFormed(v) && Doubles(F, v)
    ensures CanonRight(F, v)
    decreases v, 0
  {
    hide Faithful;
    hide CanonItems;
    hide Quote;
    hide Literal;
    hide IsNumberToken;
    hide ElemsText;
    hide MembersText;
    hide DumpItems;
    hide DumpFields;
    hide Fields;
    hide SetKey;
    match v
    case Num(n) =>
      if n.Fin? { NumberReadsBack(F, n.r); }
    case Str(s) => CanonLiteral(s);
    case Arr(items) => CanonArray(F, items);
    case Obj(fields) => CanonObject(F, fields);
    case _ =>
  }

  lemma ArrayText(F: Floats, items: seq<Value>, es: seq<Elem>)
    requires |es| == |items| && (es != [] ==> ElemsText(es) == DumpItems(F, items, true) + "]")
    ensures Text(TArr("", es)) == Dump(F, Arr(items))
  {
    if es == [] {
      assert "[" + ("" + "]") == "[" + "" + "]";
    } else {
      assert "[" + (DumpItems(F, items, true) + "]") == "[" + DumpItems(F, items, true) + "]";
    }
  }

  lemma ObjectText(F: Floats, fields: seq<Field>, ms: seq<Member>)
    requires |ms| == |fields| && (ms != [] ==> MembersText(ms) == DumpFields(F, fields, true) + "}")
    ensures Text(TObj("", ms)) == Dump(F, Obj(fields))
  {
    if ms == [] {
      assert "{" + ("" + "}") == "{" + "" + "}";
    } else {
      assert "{" + (DumpFields(F, fields, true) + "}") == "{" + DumpFields(F, fields, true) + "}";
    }
  }

  lemma {:induction false} CanonArray(F: Floats, items: seq<Value>)
    requires Faithful(F)
    requires forall k | 0 <= k < |items| :: WellFormed(items[k]) && Doubles(F, items[k])
    ensures CanonRight(F, Arr(items))
    decreases items, 1
  {
    hide Faithful;
    hide WellFormed;
    hide Doubles;
    hide CanonElems;
    hide ValidElems;
    hide Meanings;
    hide SanitizeItems;
    hide ElemsHeight;
    hide ItemsHeight;
    hide Text;
    hide Dump;
    hide ElemsText;
    hide DumpItems;
    CanonElemsAre(F, items);
    ArrayText(F, items, CanonElems(F, items));
  }

  lemma {:induction false} CanonObject(F: Floats, fields: seq<Field>)
    requires Faithful(F) && SortedKeys(fields)
    requires forall k | 0 <= k < |fields| :: WellFormed(fields[k].value) && Doubles(F, fields[k].value)
    ensures CanonRight(F, Obj(fields))
    decreases fields, 1
  {
    hide Faithful;
    hide WellFormed;
    hide Doubles;
    hide SortedKeys;
    hide CanonMembers;
    hide ValidMembers;
    hide Fields;
    hide SanitizeFields;
    hide MembersHeight;
    hide FieldsHeight;
    hide Text;
    hide Dump;
    hide MembersText;
    hide DumpFields;
    assert [] + fields == fields;
    CanonMembersAre(F, fields, []);
    assert [] + SanitizeFields(fields) == SanitizeFields(fields);
    ObjectText(F, fields, CanonMembers(F, fields));
  }

  lemma JoinLast(pre: Bytes, d: Bytes, close: Bytes)
    ensures pre + ("" + (d + ("" + close))) == pre + d + "" + close
    ensures pre == "" ==> "" + (d + ("" + close)) == "" + d + "" + close
  {
  }

  lemma JoinMore(pre: Bytes, d: Bytes, tail: Bytes, close: Bytes)
    ensures pre + ("" + (d + ("" + ("," + (tail + close))))) == pre + d + ("," + tail) + close
    ensures pre == "" ==> "" + (d + ("" + ("," + (tail + close)))) == "" + d + ("," + tail) + close
  {
  }

  lemma JoinKey(k: Bytes)
    ensures "" + (k + ("" + ":")) == "" + k + ":"
  {
  }

  lemma {:induction false} CanonElemsAre(F: Floats, items: seq<Value>)
    requires Faithful(F)
    requires forall k | 0 <= k < |items| :: WellFormed(items[k]) && Doubles(F, items[k])
    ensures var es := CanonElems(F, items);
      && ValidElems(es) && Meanings(F, es) == SanitizeItems(items) && ElemsHeight(es) == ItemsHeight(items)
      && (es != [] ==> ElemsText(es) == DumpItems(F, items, true) + "]")
    decreases items, 0
  {
    hide Faithful;
    hide Canon;
    hide Dump;
    hide Text;
    hide Meaning;
    hide ValidTree;
    hide Sanitize;
    hide TreeHeight;
    hide Height;
    if items != [] {
      var es, rest := CanonElems(F, items), items[1..];
      CanonIs(F, items[0]);
      CanonElemsAre(F, rest);
      assert es[1..] == CanonElems(F, rest);
      var d := Dump(F, items[0]);
      if rest == [] {
        JoinLast("", d, "]");
      } else {
        FirstItem(F, rest);
        JoinMore("", d, DumpItems(F, rest, true), "]");
      }
    }
  }

  lemma FirstItem(F: Floats, items: seq<Value>)
    requires items != []
    ensures DumpItems(F, items, false) == "," + DumpItems(F, items, true)
  {
    var a, b := Dump(F, items[0]), DumpItems(F, items[1..], false);
    assert "," + a + b == "," + ("" + a + b);
  }

  lemma FirstField(F: Floats, fields: seq<Field>)
    requires fields != []
    ensures DumpFields(F, fields, false) == "," + DumpFields(F, fields, true)
  {
    hide Dump;
    hide Quote;
    var a, b, c := Quote(fields[0].key), Dump(F, fields[0].value), DumpFields(F, fields[1..], false);
    CommaFirst(a, b, c);
  }

  lemma CommaFirst(a: Bytes, b: Bytes, c: Bytes)
    ensures "," + a + ":" + b + c == "," + ("" + a + ":" + b + c)
  {
  }

  lemma {:induction false} CanonMembersAre(F: Floats, fields: seq<Field>, acc: seq<Field>)
    requires Faithful(F) && SortedKeys(acc + fields)
    requires forall k | 0 <= k < |fields| :: WellFormed(fields[k].value) && Doubles(F, fields[k].value)
    ensures var ms := CanonMembers(F, fields);
      && ValidMembers(ms) && Fields(F, ms, acc) == acc + SanitizeFields(fields)
      && MembersHeight(ms) == FieldsHeight(fields)
      && (ms != [] ==> MembersText(ms) == DumpFields(F, fields, true) + "}")
    decreases fields, 0
  {
    hide Faithful;
    hide Canon;
    hide Dump;
    hide Text;
    hide Meaning;
    hide ValidTree;
    hide Sanitize;
    hide TreeHeight;
    hide Height;
    hide Literal;
    hide CanonItems;
    hide Quote;
    hide StringBytes;
    hide ValidItems;
    hide DumpFields;
    hide MembersText;
    hide SetKey;
    hide SortedKeys;
    if fields != [] {
      var ms, rest, f := CanonMembers(F, fields), fields[1..], fields[0];
      CanonIs(F, f.value);
      CanonLiteral(f.key);
      assert ms[1..] == CanonMembers(F, rest);
      var v := Sanitize(f.value);
      KeysBelow(acc, fields);
      SetKeyAppends(acc, f.key, v);
      var acc' := acc + [Field(f.key, v)];
      assert fields == [f] + rest;
      SameKeys(acc, f, v, rest);
      CanonMembersAre(F, rest, acc');
      assert acc' + SanitizeFields(rest) == acc + SanitizeFields(fields);
      CanonMembersText(F, fields);
    }
  }

  lemma KeysBelow(acc: seq<Field>, fields: seq<Field>)
    requires SortedKeys(acc + fields) && fields != []
    ensures forall k | 0 <= k < |acc| :: Compare(acc[k].key, fields[0].key) < 0
  {
    assert (acc + fields)[|acc|] == fields[0];
    assert forall k | 0 <= k < |acc| :: (acc + fields)[k] == acc[k];
  }

  lemma SameKeys(acc: seq<Field>, f: Field, v: Value, rest: seq<Field>)
    requires SortedKeys(acc + ([f] + rest))
    ensures SortedKeys(acc + [Field(f.key, v)] + rest)
  {
    var a, b := acc + ([f] + rest), acc + [Field(f.key, v)] + rest;
    forall i | 0 <= i < |b| ensures b[i].key == a[i].key {
    }
  }

  lemma CanonMembersText(F: Floats, fields: seq<Field>)
    requires fields != []
    requires Text(Canon(F, fields[0].value)) == Dump(F, fields[0].value)
    requires Literal(CanonItems(fields[0].key)) == Quote(fields[0].key)
    requires |fields| > 1 ==>
      MembersText(CanonMembers(F, fields[1..])) == DumpFields(F, fields[1..], true) + "}"
    ensures MembersText(CanonMembers(F, fields)) == DumpFields(F, fields, true) + "}"
  {
    hide Canon;
    hide Dump;
    hide Text;
    hide Literal;
    hide CanonItems;
    hide Quote;
    var ms, rest := CanonMembers(F, fields), fields[1..];
    assert ms[1..] == CanonMembers(F, rest);
    var k, d := Quote(fields[0].key), Dump(F, fields[0].value);
    JoinKey(k);
    if rest == [] {
      JoinLast("" + k + ":", d, "}");
    } else {
      FirstField(F, rest);
      JoinMore("" + k + ":", d, DumpFields(F, rest, true), "}");
    }
  }

  lemma {:induction false} SanitizeTwice(v: Value)
    ensures Finite(Sanitize(v)) && Sanitize(Sanitize(v)) == Sanitize(v)
    decreases v, 1
  {
    SanitizedFinite(v);
    SanitizeFinite(Sanitize(v));
  }

  lemma {:induction false} SanitizedFinite(v: Value)
    ensures Finite(Sanitize(v))
    decreases v, 0
  {
    match v
    case Arr(items) => SanitizedItems(items);
    case Obj(fields) => SanitizedFields(fields);
    case _ =>
  }

  lemma {:induction false} SanitizedItems(items: seq<Value>)
    ensures forall k | 0 <= k < |items| ::
      Finite(SanitizeItems(items)[k]) && SanitizeItems(items)[k] == Sanitize(items[k])
    decreases items, 0
  {
    if items != [] {
      SanitizedFinite(items[0]);
      SanitizedItems(items[1..]);
    }
  }

  lemma {:induction false} SanitizedFields(fields: seq<Field>)
    ensures forall k | 0 <= k < |fields| ::
      && Finite(SanitizeFields(fields)[k].value)
      && SanitizeFields(fields)[k] == Field(fields[k].key, Sanitize(fields[k].value))
    decreases fields, 0
  {
    if fields != [] {
      SanitizedFinite(fields[0].value);
      SanitizedFields(fields[1..]);
    }
  }

  // --- the theorems -------------------------------------------------------------------------

  /** Reading a printed value with `room` gives it back, infinities as null, exactly when its
      height fits. */
  lemma RoundTripAny(F: Floats, v: Value, room: nat)
    requires Faithful(F) && WellFormed(v) && Doubles(F, v)
    ensures Height(v) <= room ==> Parse(F, Dump(F, v), room) == Ok(Sanitize(v), |Dump(F, v)|)
    ensures Height(v) > room ==> Parse(F, Dump(F, v), room).Bad?
  {
    hide Parse;
    hide Dump;
    hide Faithful;
    hide WellFormed;
    hide Doubles;
    hide Canon;
    hide Text;
    hide Meaning;
    hide ValidTree;
    hide Sanitize;
    hide TreeHeight;
    hide Height;
    CanonIs(F, v);
    var doc := Elem("", Canon(F, v), "");
    assert DocText(doc) == Dump(F, v);
    TextComplete(F, doc, room);
  }

  /** The printed value is accepted if and only if it is at most 64 high, and comes back whole and the same
      if and only if it moreover holds no infinity. */
  lemma RoundTrip(F: Floats, v: Value)
    requires Faithful(F) && WellFormed(v) && Doubles(F, v)
    ensures Parse(F, Dump(F, v), MAX_DEPTH).Ok? <==> Height(v) <= 64
    ensures Parse(F, Dump(F, v), MAX_DEPTH) == Ok(v, |Dump(F, v)|) <==> Height(v) <= 64 && Finite(v)
  {
    hide Parse;
    hide Dump;
    hide Faithful;
    RoundTripAny(F, v, MAX_DEPTH);
    SanitizeSame(v);
  }

  /** Printing keeps exactly the values without infinities. */
  lemma SanitizeSame(v: Value)
    ensures Sanitize(v) == v <==> Finite(v)
  {
    hide Finite;
    SanitizedFinite(v);
    if Finite(v) { SanitizeFinite(v); }
  }

  /** Two values print alike exactly when they differ at most in infinities, at any height. */
  lemma DumpInjective(F: Floats, a: Value, b: Value)
    requires Faithful(F) && WellFormed(a) && WellFormed(b) && Doubles(F, a) && Doubles(F, b)
    ensures Dump(F, a) == Dump(F, b) <==> Sanitize(a) == Sanitize(b)
  {
    var room := Max(Height(a), Height(b));
    RoundTripAny(F, a, room);
    RoundTripAny(F, b, room);
    DumpSanitized(F, a);
    DumpSanitized(F, b);
  }

  /** Printing what was read is a canonical form of the text: reading and printing it again
      changes nothing. */
  lemma CanonicalForm(F: Floats, s: Bytes)
    requires Faithful(F) && Parse(F, s, MAX_DEPTH).Ok?
    ensures var canon := Dump(F, Parse(F, s, MAX_DEPTH).value);
      Parse(F, canon, MAX_DEPTH).Ok? && Dump(F, Parse(F, canon, MAX_DEPTH).value) == canon
  {
    ParseGood(F, s, MAX_DEPTH);
    var v := Parse(F, s, MAX_DEPTH).value;
    RoundTripAny(F, v, MAX_DEPTH);
    DumpSanitized(F, v);
  }

  /** Two accepted texts have the same canonical form exactly when they denote the same value up to
      infinities as null, whatever their space, key order, escapes and repeated keys; with finite numbers,
      exactly when they denote the same value. */
  lemma CanonicalFormDecides(F: Floats, s: Bytes, t: Bytes)
    requires Faithful(F) && Parse(F, s, MAX_DEPTH).Ok? && Parse(F, t, MAX_DEPTH).Ok?
    ensures var v, w := Parse(F, s, MAX_DEPTH).value, Parse(F, t, MAX_DEPTH).value;
      && (Dump(F, v) == Dump(F, w) <==> Sanitize(v) == Sanitize(w))
      && (Finite(v) && Finite(w) ==> (Dump(F, v) == Dump(F, w) <==> v == w))
  {
    hide Parse;
    hide Dump;
    hide Faithful;
    hide Finite;
    ParseGood(F, s, MAX_DEPTH);
    ParseGood(F, t, MAX_DEPTH);
    DumpInjective(F, Parse(F, s, MAX_DEPTH).value, Parse(F, t, MAX_DEPTH).value);
    SanitizeSame(Parse(F, s, MAX_DEPTH).value);
    SanitizeSame(Parse(F, t, MAX_DEPTH).value);
  }

  // --- no control bytes -----------------------------------------------------------------------

  predicate Visible(s: Bytes) {
    forall k | 0 <= k < |s| :: s[k] as int >= 0x20
  }

  lemma {:induction false} EscapedVisible(s: Bytes)
    ensures Visible(EscapeBytes(s))
  {
    if s != [] { EscapedVisible(s[1..]); }
  }

  lemma NumberVisible(F: Floats, n: Number)
    requires Faithful(F) && (n.Fin? ==> F.isDouble(n.r))
    ensures Visible(DumpNumber(F, n))
  {
    hide Faithful;
    hide IsNumberToken;
    if n.Fin? {
      NumberReadsBack(F, n.r);
      TokenBytes(DumpNumber(F, n));
      hide DumpNumber;
    }
  }

  /** No printed value holds a byte below 0x20, so a NUL-terminated copy is a whole copy. */
  lemma {:induction false} DumpVisible(F: Floats, v: Value)
    requires Faithful(F) && Doubles(F, v)
    ensures Visible(Dump(F, v))
    decreases v, 0
  {
    hide Faithful;
    hide EscapeBytes;
    hide DumpNumber;
    hide DumpItems;
    hide DumpFields;
    match v
    case Num(n) => NumberVisible(F, n);
    case Str(s) => EscapedVisible(s);
    case Arr(items) => ItemsVisible(F, items, true);
    case Obj(fields) => FieldsVisible(F, fields, true);
    case _ =>
  }

  lemma {:induction false} ItemsVisible(F: Floats, items: seq<Value>, first: bool)
    requires Faithful(F) && forall k | 0 <= k < |items| :: Doubles(F, items[k])
    ensures Visible(DumpItems(F, items, first))
    decreases items, 0
  {
    if items != [] {
      DumpVisible(F, items[0]);
      ItemsVisible(F, items[1..], false);
    }
  }

  lemma VisibleJoin(a: Bytes, b: Bytes)
    requires Visible(a) && Visible(b)
    ensures Visible(a + b)
  {
  }

  lemma {:induction false} FieldsVisible(F: Floats, fields: seq<Field>, first: bool)
    requires Faithful(F) && forall k | 0 <= k < |fields| :: Doubles(F, fields[k].value)
    ensures Visible(DumpFields(F, fields, first))
    decreases fields, 0
  {
    hide Faithful;
    hide Doubles;
    hide Dump;
    hide EscapeBytes;
    if fields != [] {
      var key, value, rest := Quote(fields[0].key), Dump(F, fields[0].value), DumpFields(F, fields[1..], false);
      EscapedVisible(fields[0].key);
      DumpVisible(F, fields[0].value);
      FieldsVisible(F, fields[1..], false);
      hide Quote;
      var comma := if first then "" else ",";
      VisibleJoin(comma, key);
      VisibleJoin(comma + key, ":");
      VisibleJoin(comma + key + ":", value);
      VisibleJoin(comma + key + ":" + value, rest);
    }
  }

}
