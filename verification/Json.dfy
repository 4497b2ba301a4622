/** JSON values, the printer, and what the printer writes. */
module Json {
  import opened Strings

  /** A double that is not a NaN: the two zeros are one value, as `==` has it. */
  datatype Number = Fin(r: real) | PosInf | NegInf

  datatype Value =
    | Null
    | Bool(b: bool)
    | Num(n: Number)
    | Str(s: Bytes)
    | Arr(items: seq<Value>)
    | Obj(fields: seq<Field>)

  /** One entry of the sorted map behind an object. */
  datatype Field = Field(key: Bytes, value: Value)

  // --- objects as sorted maps ---------------------------------------------

  predicate SortedKeys(fs: seq<Field>) {
    forall i, j | 0 <= i < j < |fs| :: Compare(fs[i].key, fs[j].key) < 0
  }

  /** Every object below `v` keeps its keys strictly ascending, as `std::map` does. */
  predicate WellFormed(v: Value) {
    match v
    case Arr(items) => forall k | 0 <= k < |items| :: WellFormed(items[k])
    case Obj(fields) => SortedKeys(fields) && forall k | 0 <= k < |fields| :: WellFormed(fields[k].value)
    case _ => true
  }

  /** `o[key] = v` on the sorted map. */
  function SetKey(fs: seq<Field>, key: Bytes, v: Value): seq<Field> {
    if fs == [] then [Field(key, v)]
    else
      var c := Compare(key, fs[0].key);
      if c < 0 then [Field(key, v)] + fs
      else if c == 0 then [Field(key, v)] + fs[1..]
      else [fs[0]] + SetKey(fs[1..], key, v)
  }

  function Lookup(fs: seq<Field>, key: Bytes): Option<Value> {
    if fs == [] then None
    else if fs[0].key == key then Some(fs[0].value)
    else Lookup(fs[1..], key)
  }

  /** The source's `operator[]`: null for a missing key or a value that is no object. */
  function Get(v: Value, key: Bytes): Value {
    if v.Obj? then match Lookup(v.fields, key) case Some(w) => w case None => Null
    else Null
  }

  lemma {:induction false} LookupSetKey(fs: seq<Field>, key: Bytes, v: Value, other: Bytes)
    requires SortedKeys(fs)
    ensures Lookup(SetKey(fs, key, v), other) == if other == key then Some(v) else Lookup(fs, other)
  {
    if fs == [] {
    } else {
      CompareZero(key, fs[0].key);
      assert ([Field(key, v)] + fs)[1..] == fs;
      assert ([Field(key, v)] + fs[1..])[1..] == fs[1..];
      var c := Compare(key, fs[0].key);
      if c > 0 {
        LookupSetKey(fs[1..], key, v, other);
        assert SetKey(fs, key, v)[1..] == SetKey(fs[1..], key, v);
      }
    }
  }

  lemma {:induction false} SetKeyMembers(fs: seq<Field>, key: Bytes, v: Value)
    ensures forall f | f in SetKey(fs, key, v) :: f in fs || f == Field(key, v)
  {
    if fs != [] {
      SetKeyMembers(fs[1..], key, v);
    }
  }

  lemma SortedInFront(f: Field, fs: seq<Field>)
    requires SortedKeys(fs) && forall k | 0 <= k < |fs| :: Compare(f.key, fs[k].key) < 0
    ensures SortedKeys([f] + fs)
  {
    hide Compare;
    var r := [f] + fs;
    forall i, j | 0 <= i < j < |r| ensures Compare(r[i].key, r[j].key) < 0 { assert r[j] == fs[j - 1]; }
  }

  lemma BelowAll(key: Bytes, fs: seq<Field>)
    requires SortedKeys(fs) && fs != [] && Compare(key, fs[0].key) < 0
    ensures forall k | 0 <= k < |fs| :: Compare(key, fs[k].key) < 0
  {
    hide Compare;
    forall k | 0 <= k < |fs| ensures Compare(key, fs[k].key) < 0 {
      if k > 0 { CompareTransitive(key, fs[0].key, fs[k].key); }
    }
  }

  lemma {:induction false} SetKeySorted(fs: seq<Field>, key: Bytes, v: Value)
    requires SortedKeys(fs)
    ensures SortedKeys(SetKey(fs, key, v))
  {
    hide Compare;
    if fs != [] {
      var c, rest := Compare(key, fs[0].key), fs[1..];
      CompareZero(key, fs[0].key);
      CompareFlips(key, fs[0].key);
      if c < 0 {
        BelowAll(key, fs);
        SortedInFront(Field(key, v), fs);
      } else if c == 0 {
        SortedInFront(Field(key, v), rest);
      } else {
        SetKeySorted(rest, key, v);
        SetKeyMembers(rest, key, v);
        forall k | 0 <= k < |SetKey(rest, key, v)| ensures Compare(fs[0].key, SetKey(rest, key, v)[k].key) < 0 {
          assert SetKey(rest, key, v)[k] in SetKey(rest, key, v);
        }
        SortedInFront(fs[0], SetKey(rest, key, v));
      }
    }
  }

  /** Setting a key above all the others appends it. */
  lemma {:induction false} SetKeyAppends(fs: seq<Field>, key: Bytes, v: Value)
    requires forall k | 0 <= k < |fs| :: Compare(fs[k].key, key) < 0
    ensures SetKey(fs, key, v) == fs + [Field(key, v)]
  {
    if fs != [] {
      CompareFlips(key, fs[0].key);
      SetKeyAppends(fs[1..], key, v);
      assert fs == [fs[0]] + fs[1..];
    }
  }

  lemma {:induction false} LookupWhere(xs: seq<Field>, key: Bytes)
    ensures Lookup(xs, key).Some? <==> exists k :: 0 <= k < |xs| && xs[k].key == key
  {
    if xs != [] && xs[0].key != key {
      LookupWhere(xs[1..], key);
      if k :| 0 <= k < |xs[1..]| && xs[1..][k].key == key { assert xs[k + 1].key == key; }
    }
  }

  lemma {:induction false} LookupFound(fields: seq<Field>, key: Bytes)
    requires Lookup(fields, key).Some?
    ensures exists k :: 0 <= k < |fields| && fields[k].value == Lookup(fields, key).value
  {
    if fields[0].key == key {
      assert fields[0].value == Lookup(fields, key).value;
    } else {
      LookupFound(fields[1..], key);
      var k :| 0 <= k < |fields[1..]| && fields[1..][k].value == Lookup(fields[1..], key).value;
      assert fields[k + 1].value == Lookup(fields, key).value;
    }
  }

  lemma HeadLeast(xs: seq<Field>, ys: seq<Field>)
    requires SortedKeys(xs) && xs != [] && forall k :: Lookup(xs, k) == Lookup(ys, k)
    ensures ys != [] && Compare(xs[0].key, ys[0].key) <= 0
  {
    LookupWhere(xs, xs[0].key);
    assert Lookup(xs, xs[0].key) == Lookup(ys, xs[0].key);
    assert ys != [];
    LookupWhere(xs, ys[0].key);
    assert Lookup(xs, ys[0].key) == Lookup(ys, ys[0].key);
    CompareZero(xs[0].key, ys[0].key);
  }

  lemma HeadOnce(xs: seq<Field>)
    requires SortedKeys(xs) && xs != []
    ensures Lookup(xs[1..], xs[0].key) == None
  {
    LookupWhere(xs[1..], xs[0].key);
    forall k | 0 <= k < |xs[1..]| ensures xs[1..][k].key != xs[0].key {
      CompareZero(xs[0].key, xs[k + 1].key);
    }
  }

  lemma {:induction false} LookupMember(fs: seq<Field>, f: Field)
    requires SortedKeys(fs) && f in fs
    ensures Lookup(fs, f.key) == Some(f.value)
  {
    if f != fs[0] {
      var k :| 0 <= k < |fs| && fs[k] == f;
      CompareZero(fs[0].key, fs[k].key);
      assert fs[1..][k - 1] == f;
      LookupMember(fs[1..], f);
    }
  }

  /** A sorted map is told by its lookups. */
  lemma {:induction false} SortedUnique(xs: seq<Field>, ys: seq<Field>)
    requires SortedKeys(xs) && SortedKeys(ys) && forall k :: Lookup(xs, k) == Lookup(ys, k)
    ensures xs == ys
  {
    if xs == [] {
      assert ys == [] by {
        if ys != [] { HeadLeast(ys, xs); }
      }
    } else {
      HeadLeast(xs, ys);
      HeadLeast(ys, xs);
      CompareFlips(xs[0].key, ys[0].key);
      CompareZero(xs[0].key, ys[0].key);
      assert Lookup(xs, xs[0].key) == Lookup(ys, xs[0].key);
      forall k ensures Lookup(xs[1..], k) == Lookup(ys[1..], k) {
        assert Lookup(xs, k) == Lookup(ys, k);
        if k == xs[0].key {
          HeadOnce(xs);
          HeadOnce(ys);
        }
      }
      SortedUnique(xs[1..], ys[1..]);
      assert xs == [xs[0]] + xs[1..] && ys == [ys[0]] + ys[1..];
    }
  }

  // --- measures -------------------------------------------------------------

  /** How many nested `parseValue` calls reading the value's text takes. */
  function Height(v: Value): (h: nat)
    ensures h >= 1
    decreases v, 0
  {
    match v
    case Arr(items) => 1 + ItemsHeight(items)
    case Obj(fields) => 1 + FieldsHeight(fields)
    case _ => 1
  }

  function ItemsHeight(items: seq<Value>): nat
    decreases items, 0
  {
    if items == [] then 0 else Max(Height(items[0]), ItemsHeight(items[1..]))
  }

  function FieldsHeight(fields: seq<Field>): nat
    decreases fields, 0
  {
    if fields == [] then 0 else Max(Height(fields[0].value), FieldsHeight(fields[1..]))
  }

  function Max(a: nat, b: nat): nat { if a < b then b else a }

  // --- numbers ----------------------------------------------------------------

  /** The C library's view of doubles: which reals are finite doubles, `strtod`, and `%.*g`. */
  datatype Floats = Floats(
    isDouble: real -> bool,
    read: Bytes -> Number,
    format: (int, real) -> Bytes)

  const FAST_LIMIT: int := 9_000_000_000_000_000

  /** The printer's integer path. */
  predicate FastPath(r: real) {
    r == r.Floor as real && -(FAST_LIMIT as real) < r < FAST_LIMIT as real
  }

  predicate IsSign(c: char) { c == '-' || c == '+' }

  predicate IsExp(c: char) { c == 'e' || c == 'E' }

  /** The bytes a number token is made of. */
  predicate IsNumberChar(c: char) { IsDigit(c) || IsSign(c) || IsExp(c) || c == '.' }

  function SkipSign(s: Bytes, i: nat): (j: nat)
    requires i <= |s|
    ensures i <= j <= |s|
  {
    if i < |s| && IsSign(s[i]) then i + 1 else i
  }

  function SkipDigits(s: Bytes, i: nat): (j: nat)
    requires i <= |s|
    ensures i <= j <= |s|
    decreases |s| - i
  {
    if i < |s| && IsDigit(s[i]) then SkipDigits(s, i + 1) else i
  }

  /** The end of an optional fraction. */
  function FractionEnd(s: Bytes, i: nat): (j: nat)
    requires i <= |s|
    ensures i <= j <= |s|
  {
    if i < |s| && s[i] == '.' then SkipDigits(s, i + 1) else i
  }

  /** The end of an optional exponent, digits or not. */
  function ExponentEnd(s: Bytes, i: nat): (j: nat)
    requires i <= |s|
    ensures i <= j <= |s|
  {
    if i < |s| && IsExp(s[i]) then SkipDigits(s, SkipSign(s, i + 1)) else i
  }

  /** How far the number scanner gets from `i`, and whether it saw a digit before any exponent. */
  function ScanNumber(s: Bytes, i: nat): (r: (nat, bool))
    requires i <= |s|
    ensures i <= r.0 <= |s|
  {
    var whole := SkipDigits(s, SkipSign(s, i));
    var frac := FractionEnd(s, whole);
    var any := whole > SkipSign(s, i) || frac > whole + 1;
    (if any then ExponentEnd(s, frac) else frac, any)
  }

  /** The scanner takes `t` whole. */
  predicate IsNumberToken(t: Bytes) { ScanNumber(t, 0) == (|t|, true) }

  /** Integers from here on are beyond every finite double. */
  const OVERFLOW: int := Power10(309)

  /** What the C standard promises of `strtod` and `%.*g` on IEEE doubles: integers in the fast
      range read exactly and those too large as infinities, seventeen digits read back, and finite numbers
      print as number tokens. */
  ghost predicate Faithful(F: Floats) {
    && (forall t :: F.read(t).Fin? ==> F.isDouble(F.read(t).r))
    && (forall t :: IsIntToken(t) && -FAST_LIMIT < IntValue(t) < FAST_LIMIT ==>
          F.read(t) == Fin(IntValue(t) as real))
    && (forall t :: IsIntToken(t) && IntValue(t) >= OVERFLOW ==> F.read(t) == PosInf)
    && (forall t :: IsIntToken(t) && IntValue(t) <= -OVERFLOW ==> F.read(t) == NegInf)
    && (forall r :: F.isDouble(r) ==> F.read(F.format(17, r)) == Fin(r))
    && (forall p: int, r {:trigger F.format(p, r)} :: 1 <= p <= 17 && F.isDouble(r) ==>
          IsNumberToken(F.format(p, r)))
  }

  /** The first precision from `p` up whose print reads back, else the 17-digit one. */
  function Shortest(F: Floats, r: real, p: nat): Bytes
    requires 1 <= p <= 18
    decreases 18 - p
  {
    if p > 17 then F.format(17, r)
    else if F.read(F.format(p, r)) == Fin(r) then F.format(p, r)
    else Shortest(F, r, p + 1)
  }

  function DumpNumber(F: Floats, n: Number): Bytes {
    match n
    case Fin(r) => if FastPath(r) then Decimal(r.Floor) else Shortest(F, r, 1)
    case _ => "null"
  }

  // --- the printed form ----------------------------------------------------------

  function HexChar(d: nat): char
    requires d < 16
  {
    if d < 10 then ('0' as int + d) as char else ('a' as int + (d - 10)) as char
  }

  function EscapeByte(c: char): Bytes {
    if c == '"' then "\\\""
    else if c == '\\' then "\\\\"
    else if c == '\n' then "\\n"
    else if c == '\r' then "\\r"
    else if c == '\t' then "\\t"
    else if c as int == 8 then "\\b"
    else if c as int == 12 then "\\f"
    else if c as int < 0x20 then "\\u00" + [HexChar(c as int / 16), HexChar(c as int % 16)]
    else [c]
  }

  function EscapeBytes(s: Bytes): Bytes {
    if s == [] then [] else EscapeByte(s[0]) + EscapeBytes(s[1..])
  }

  function Quote(s: Bytes): Bytes { "\"" + EscapeBytes(s) + "\"" }

  function Dump(F: Floats, v: Value): Bytes
    decreases v, 0
  {
    match v
    case Null => "null"
    case Bool(b) => if b then "true" else "false"
    case Num(n) => DumpNumber(F, n)
    case Str(s) => Quote(s)
    case Arr(items) => "[" + DumpItems(F, items, true) + "]"
    case Obj(fields) => "{" + DumpFields(F, fields, true) + "}"
  }

  function DumpItems(F: Floats, items: seq<Value>, first: bool): Bytes
    decreases items, 0
  {
    if items == [] then []
    else (if first then "" else ",") + Dump(F, items[0]) + DumpItems(F, items[1..], false)
  }

  function DumpFields(F: Floats, fields: seq<Field>, first: bool): Bytes
    decreases fields, 0
  {
    if fields == [] then []
    else (if first then "" else ",") + Quote(fields[0].key) + ":" + Dump(F, fields[0].value)
         + DumpFields(F, fields[1..], false)
  }

  lemma Regroup(a: Bytes, b: Bytes, c: Bytes)
    ensures (a + b) + c == a + (b + c)
  {
  }

  lemma RegroupFour(a: Bytes, b: Bytes, c: Bytes, d: Bytes, e: Bytes)
    ensures a + b + c + d + e == a + (b + c + d + e)
  {
  }

  /** The printer: an output buffer the methods append to. */
  class Printer {
    const F: Floats
    var out: Bytes

    constructor (F: Floats)
      ensures this.F == F && out == ""
    {
      this.F := F;
      out := "";
    }

    /** One case of the escaping switch. */
    method EscapeByteTo(c: char)
      modifies this`out
      ensures out == old(out) + EscapeByte(c)
    {
      if c == '"' { out := out + "\\\""; }
      else if c == '\\' { out := out + "\\\\"; }
      else if c == '\n' { out := out + "\\n"; }
      else if c == '\r' { out := out + "\\r"; }
      else if c == '\t' { out := out + "\\t"; }
      else if c as int == 8 { out := out + "\\b"; }
      else if c as int == 12 { out := out + "\\f"; }
      else if c as int < 0x20 {
        out := out + "\\u00";
        out := out + [HexChar(c as int / 16)];
        out := out + [HexChar(c as int % 16)];
      } else { out := out + [c]; }
    }

    method EscapeTo(s: Bytes)
      modifies this`out
      ensures out == old(out) + Quote(s)
    {
      out := out + "\"";
      ghost var done := "\"";
      for k := 0 to |s|
        invariant out == old(out) + done
        invariant done + EscapeBytes(s[k..]) == "\"" + EscapeBytes(s)
      {
        EscapeByteTo(s[k]);
        assert s[k..][1..] == s[k + 1..];
        Regroup(old(out), done, EscapeByte(s[k]));
        Regroup(done, EscapeByte(s[k]), EscapeBytes(s[k + 1..]));
        done := done + EscapeByte(s[k]);
      }
      assert s[|s|..] == [];
      out := out + "\"";
      Regroup(old(out), done, "\"");
    }

    method DumpNumberTo(n: Number)
      modifies this`out
      ensures out == old(out) + DumpNumber(F, n)
    {
      if n.Fin? && FastPath(n.r) {
        out := out + Decimal(n.r.Floor);
        return;
      }
      if !n.Fin? { out := out + "null"; return; }
      var buf := F.format(17, n.r);
      for prec := 1 to 18
        invariant out == old(out)
        invariant Shortest(F, n.r, 1) == Shortest(F, n.r, prec)
      {
        var probe := F.format(prec, n.r);
        if F.read(probe) == Fin(n.r) { out := out + probe; return; }
      }
      out := out + buf;
    }

    method DumpTo(v: Value)
      modifies this`out
      ensures out == old(out) + Dump(F, v)
      decreases v
    {
      match v
      case Null => out := out + "null";
      case Bool(b) => out := out + if b then "true" else "false";
      case Num(n) => DumpNumberTo(n);
      case Str(s) => EscapeTo(s);
      case Arr(items) => DumpArrayTo(items);
      case Obj(fields) => DumpObjectTo(fields);
    }

    method DumpArrayTo(items: seq<Value>)
      modifies this`out
      ensures out == old(out) + "[" + DumpItems(F, items, true) + "]"
      decreases items
    {
      hide Dump;
      hide DumpItems;
      out := out + "[";
      var first := true;
      ghost var start, done := out, "";
      for k := 0 to |items|
        invariant first == (k == 0)
        invariant out == start + done
        invariant done + DumpItems(F, items[k..], first) == DumpItems(F, items, true)
      {
        ghost var piece := (if first then "" else ",") + Dump(F, items[k]);
        DumpItemsStep(F, items, k, first, done);
        Regroup(start, done, piece);
        if !first { out := out + ","; Regroup(start + done, ",", Dump(F, items[k])); }
        first := false;
        DumpTo(items[k]);
        done := done + piece;
      }
      DumpNoItems(F, items, first);
      out := out + "]";
    }

    /** One member of an object, after a comma unless it is the first. */
    method DumpMemberTo(field: Field, first: bool)
      modifies this`out
      ensures out == old(out) + MemberText(F, field, first)
      decreases field, 0
    {
      hide Dump;
      hide Quote;
      if !first { out := out + ","; }
      EscapeTo(field.key);
      out := out + ":";
      DumpTo(field.value);
      RegroupFour(old(out), if first then "" else ",", Quote(field.key), ":", Dump(F, field.value));
    }

    method DumpObjectTo(fields: seq<Field>)
      modifies this`out
      ensures out == old(out) + "{" + DumpFields(F, fields, true) + "}"
      decreases fields
    {
      hide MemberText;
      hide DumpFields;
      out := out + "{";
      var first := true;
      ghost var start, done := out, "";
      for k := 0 to |fields|
        invariant first == (k == 0)
        invariant out == start + done
        invariant done + DumpFields(F, fields[k..], first) == DumpFields(F, fields, true)
      {
        DumpFieldsStep(F, fields, k, first, done);
        Regroup(start, done, MemberText(F, fields[k], first));
        DumpMemberTo(fields[k], first);
        done := done + MemberText(F, fields[k], first);
        first := false;
      }
      DumpNoFields(F, fields, first);
      out := out + "}";
    }
  }

  /** The printed form of one member. */
  function MemberText(F: Floats, field: Field, first: bool): Bytes {
    (if first then "" else ",") + Quote(field.key) + ":" + Dump(F, field.value)
  }

  lemma DumpItemsStep(F: Floats, items: seq<Value>, k: nat, first: bool, done: Bytes)
    requires k < |items|
    ensures done + DumpItems(F, items[k..], first) ==
      done + ((if first then "" else ",") + Dump(F, items[k])) + DumpItems(F, items[k + 1..], false)
  {
    hide Dump;
    assert items[k..][1..] == items[k + 1..];
    Regroup(done, (if first then "" else ",") + Dump(F, items[k]), DumpItems(F, items[k + 1..], false));
  }

  lemma DumpNoItems(F: Floats, items: seq<Value>, first: bool)
    ensures DumpItems(F, items[|items|..], first) == ""
  {
  }

  lemma DumpFieldsStep(F: Floats, fields: seq<Field>, k: nat, first: bool, done: Bytes)
    requires k < |fields|
    ensures done + DumpFields(F, fields[k..], first) ==
      done + MemberText(F, fields[k], first) + DumpFields(F, fields[k + 1..], false)
  {
    hide Dump;
    hide Quote;
    assert fields[k..][1..] == fields[k + 1..];
    Regroup(done, MemberText(F, fields[k], first), DumpFields(F, fields[k + 1..], false));
  }

  lemma DumpNoFields(F: Floats, fields: seq<Field>, first: bool)
    ensures DumpFields(F, fields[|fields|..], first) == ""
  {
  }
}
