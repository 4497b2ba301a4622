/** The recursive-descent parser: pure reading functions, and the cursor class that refines them. */
module JsonParser {
  import opened Strings
  import opened Unicode
  import opened Json

  const MAX_DEPTH: nat := 64

  /** A value and the offset after it, or a reason and the offset it was found at. */
  datatype Parsed<+T> = Ok(value: T, end: nat) | Bad(why: string, at: nat)

  predicate IsSpace(c: char) { c == ' ' || c == '\t' || c == '\n' || c == '\r' }

  function SkipSpace(s: Bytes, i: nat): (j: nat)
    requires i <= |s|
    ensures i <= j <= |s|
    decreases |s| - i
  {
    if i < |s| && IsSpace(s[i]) then SkipSpace(s, i + 1) else i
  }

  // --- strings ----------------------------------------------------------------

  /** The byte a two-character escape stands for. */
  function Unescape(e: char): Option<char> {
    if e == '"' then Some('"')
    else if e == '\\' then Some('\\')
    else if e == '/' then Some('/')
    else if e == 'n' then Some('\n')
    else if e == 'r' then Some('\r')
    else if e == 't' then Some('\t')
    else if e == 'b' then Some(8 as char)
    else if e == 'f' then Some(12 as char)
    else None
  }

  predicate PairFollows(s: Bytes, j: nat) {
    && j + 6 <= |s| && s[j] == '\\' && s[j + 1] == 'u'
    && HexValue(s, j + 2, 4).Some? && IsLow(HexValue(s, j + 2, 4).value)
  }

  /** The code point of a `\u` escape whose digits start at `i`, joined with a low half right after. */
  function UnicodeEscape(s: Bytes, i: nat): (r: Parsed<CodePoint>)
    requires i <= |s|
    ensures r.Ok? ==> i < r.end <= |s|
    ensures r.Bad? ==> r.why != "" && r.at <= |s|
  {
    if i + 4 > |s| then Bad("truncated \\u escape", i)
    else match HexValue(s, i, 4)
      case None => Bad("bad \\u escape", i)
      case Some(hi) =>
        if IsHigh(hi) && PairFollows(s, i + 4) then
          Ok(Combine(hi, HexValue(s, i + 6, 4).value), i + 10)
        else Ok(hi, i + 4)
  }

  function Prepend(a: Bytes, r: Parsed<Bytes>): Parsed<Bytes> {
    match r case Ok(b, e) => Ok(a + b, e) case Bad(_, _) => r
  }

  /** The rest of a string literal from `i`, closing quote included. */
  function StringBody(s: Bytes, i: nat): (r: Parsed<Bytes>)
    requires i <= |s|
    ensures r.Ok? ==> i < r.end <= |s|
    ensures r.Bad? ==> r.why != "" && r.at <= |s|
    decreases |s| - i
  {
    if i >= |s| then Bad("unterminated string", i)
    else if s[i] == '"' then Ok([], i + 1)
    else if s[i] != '\\' then Prepend([s[i]], StringBody(s, i + 1))
    else if i + 1 >= |s| then Bad("truncated escape", i + 1)
    else if s[i + 1] == 'u' then
      match UnicodeEscape(s, i + 2)
      case Ok(cp, e) => Prepend(Utf8(cp), StringBody(s, e))
      case Bad(why, at) => Bad(why, at)
    else match Unescape(s[i + 1])
      case Some(c) => Prepend([c], StringBody(s, i + 2))
      case None => Bad("unknown escape", i + 2)
  }

  function StringAt(s: Bytes, i: nat): (r: Parsed<Bytes>)
    requires i <= |s|
    ensures r.Ok? ==> i < r.end <= |s|
    ensures r.Bad? ==> r.why != "" && r.at <= |s|
  {
    if i >= |s| || s[i] != '"' then Bad("expected string", i) else StringBody(s, i + 1)
  }

  // --- values -----------------------------------------------------------------

  function NumberAt(F: Floats, s: Bytes, i: nat): (r: Parsed<Value>)
    requires i <= |s|
    ensures r.Ok? ==> i <= r.end <= |s| && r.value.Num?
    ensures r.Bad? ==> r.why != "" && r.at <= |s|
  {
    var (end, any) := ScanNumber(s, i);
    if any then Ok(Num(F.read(s[i..end])), end) else Bad("expected number", end)
  }

  /** A value after optional space, with `room` nested reads left. */
  function ValueAt(F: Floats, s: Bytes, i: nat, room: nat): (r: Parsed<Value>)
    requires i <= |s|
    ensures r.Ok? ==> i <= r.end <= |s|
    ensures r.Bad? ==> r.why != "" && r.at <= |s|
    decreases room, |s| - i, 0
  {
    if room == 0 then Bad("nesting too deep", i)
    else
      var j := SkipSpace(s, i);
      if j >= |s| then Bad("unexpected end of input", j)
      else if s[j] == '{' then
        ObjectAt(F, s, j + 1, room - 1)
      else if s[j] == '[' then
        ArrayAt(F, s, j + 1, room - 1)
      else if s[j] == '"' then
        match StringAt(s, j)
        case Ok(b, e) => Ok(Str(b), e)
        case Bad(why, at) => Bad(why, at)
      else if At(s, j, "true") then Ok(Bool(true), j + 4)
      else if At(s, j, "false") then Ok(Bool(false), j + 5)
      else if At(s, j, "null") then Ok(Null, j + 4)
      else NumberAt(F, s, j)
  }

  /** An object after its opening brace. */
  function ObjectAt(F: Floats, s: Bytes, i: nat, room: nat): (r: Parsed<Value>)
    requires i <= |s|
    ensures r.Ok? ==> i <= r.end <= |s|
    ensures r.Bad? ==> r.why != "" && r.at <= |s|
    decreases room, |s| - i, 3
  {
    var k := SkipSpace(s, i);
    if k < |s| && s[k] == '}' then Ok(Obj([]), k + 1)
    else match MembersAt(F, s, k, room, [])
      case Ok(fields, e) => Ok(Obj(fields), e)
      case Bad(why, at) => Bad(why, at)
  }

  /** An array after its opening bracket. */
  function ArrayAt(F: Floats, s: Bytes, i: nat, room: nat): (r: Parsed<Value>)
    requires i <= |s|
    ensures r.Ok? ==> i <= r.end <= |s|
    ensures r.Bad? ==> r.why != "" && r.at <= |s|
    decreases room, |s| - i, 3
  {
    var k := SkipSpace(s, i);
    if k < |s| && s[k] == ']' then Ok(Arr([]), k + 1)
    else match ElementsAt(F, s, k, room, [])
      case Ok(items, e) => Ok(Arr(items), e)
      case Bad(why, at) => Bad(why, at)
  }

  function ElementsAt(F: Floats, s: Bytes, i: nat, room: nat, acc: seq<Value>): (r: Parsed<seq<Value>>)
    requires i <= |s|
    ensures r.Ok? ==> i < r.end <= |s|
    ensures r.Bad? ==> r.why != "" && r.at <= |s|
    decreases room, |s| - i, 1
  {
    match ValueAt(F, s, i, room)
    case Bad(why, at) => Bad(why, at)
    case Ok(v, e) =>
      var j := SkipSpace(s, e);
      if j < |s| && s[j] == ',' then ElementsAt(F, s, j + 1, room, acc + [v])
      else if j < |s| && s[j] == ']' then Ok(acc + [v], j + 1)
      else Bad("expected ',' or ']'", j)
  }

  /** One member: key, colon, value. */
  function MemberAt(F: Floats, s: Bytes, i: nat, room: nat): (r: Parsed<Field>)
    requires i <= |s|
    ensures r.Ok? ==> i < r.end <= |s|
    ensures r.Bad? ==> r.why != "" && r.at <= |s|
    decreases room, |s| - i, 1
  {
    match StringAt(s, SkipSpace(s, i))
    case Bad(why, at) => Bad(why, at)
    case Ok(key, afterKey) =>
      var c := SkipSpace(s, afterKey);
      if c >= |s| || s[c] != ':' then Bad("expected ':'", c)
      else match ValueAt(F, s, c + 1, room)
        case Bad(why, at) => Bad(why, at)
        case Ok(v, e) => Ok(Field(key, v), e)
  }

  function MembersAt(F: Floats, s: Bytes, i: nat, room: nat, acc: seq<Field>): (r: Parsed<seq<Field>>)
    requires i <= |s|
    ensures r.Ok? ==> i < r.end <= |s|
    ensures r.Bad? ==> r.why != "" && r.at <= |s|
    decreases room, |s| - i, 2
  {
    match MemberAt(F, s, i, room)
    case Bad(why, at) => Bad(why, at)
    case Ok(f, e) =>
      var fs := SetKey(acc, f.key, f.value);
      var j := SkipSpace(s, e);
      if j < |s| && s[j] == ',' then MembersAt(F, s, j + 1, room, fs)
      else if j < |s| && s[j] == '}' then Ok(fs, j + 1)
      else Bad("expected ',' or '}'", j)
  }

  /** A whole text: one value, then nothing but space. */
  function Parse(F: Floats, s: Bytes, room: nat): (r: Parsed<Value>)
    ensures r.Ok? ==> r.end == |s|
    ensures r.Bad? ==> r.why != "" && r.at <= |s|
  {
    match ValueAt(F, s, 0, room)
    case Bad(why, at) => Bad(why, at)
    case Ok(v, e) =>
      var j := SkipSpace(s, e);
      if j != |s| then Bad("trailing content", j) else Ok(v, j)
  }

  function Message(why: string, at: nat): string {
    why + " at offset " + Decimal(at)
  }

  // --- the cursor class --------------------------------------------------------

  class Parser {
    const F: Floats
    const s: Bytes
    var i: nat
    var depth: nat
    var err: string

    constructor (F: Floats, text: Bytes)
      ensures this.F == F && s == text && i == 0 && depth == 0 && err == ""
    {
      this.F := F;
      s := text;
      i, depth, err := 0, 0, "";
    }

    ghost predicate Valid()
      reads this
    {
      i <= |s| && depth <= MAX_DEPTH && err == ""
    }

    /** The cursor stands where `r` says; on failure the reason is `r`'s. */
    ghost predicate Landed<T>(ok: bool, out: T, r: Parsed<T>)
      reads this
    {
      match r
      case Ok(v, e) => ok && out == v && i == e && err == ""
      case Bad(why, at) => !ok && i == at && err == Message(why, at)
    }

    method Fail(why: string)
      modifies this`err
      ensures err == if old(err) == "" then Message(why, i) else old(err)
    {
      if err == "" { err := Message(why, i); }
    }

    method SkipWs()
      requires i <= |s|
      modifies this`i
      ensures i == SkipSpace(s, old(i))
    {
      while i < |s| && IsSpace(s[i])
        invariant i <= |s| && SkipSpace(s, old(i)) == SkipSpace(s, i)
      {
        i := i + 1;
      }
    }

    /** Four hex digits from `at`, most significant first. */
    method ReadHex(at: nat) returns (ok: bool, cp: CodePoint)
      requires at + 4 <= |s|
      ensures ok == HexValue(s, at, 4).Some?
      ensures ok ==> cp == HexValue(s, at, 4).value
    {
      cp := 0;
      for k := 0 to 4
        invariant HexValue(s, at, k) == Some(cp)
      {
        var h := HexDigit(s[at + k]);
        if h.None? {
          HexStops(s, at, k + 1, 4);
          return false, cp;
        }
        cp := cp * 16 + h.value;
      }
      ok := true;
    }

    /** The digits of a `\u` escape, and its low half when one follows. */
    method ParseUnicodeEscape() returns (ok: bool, cp: CodePoint)
      requires Valid()
      modifies this`i, this`err
      ensures Landed(ok, cp, UnicodeEscape(s, old(i)))
    {
      if i + 4 > |s| { Fail("truncated \\u escape"); return false, 0; }
      ok, cp := ReadHex(i);
      if !ok { Fail("bad \\u escape"); return; }
      i := i + 4;
      if IsHigh(cp) && i + 6 <= |s| && s[i] == '\\' && s[i + 1] == 'u' {
        var lowFine, lo := ReadHex(i + 2);
        if lowFine && IsLow(lo) {
          cp := Combine(cp, lo);
          i := i + 6;
        }
      }
    }

    method ParseString() returns (ok: bool, out: Bytes)
      requires Valid()
      modifies this`i, this`err
      ensures Landed(ok, out, StringAt(s, old(i)))
    {
      hide Unescape;
      hide UnicodeEscape;
      hide Utf8;
      hide Message;
      out := [];
      if i >= |s| || s[i] != '"' { Fail("expected string"); return false, []; }
      i := i + 1;
      PrependNothing(StringBody(s, i));
      while i < |s|
        invariant i <= |s| && err == ""
        invariant StringBody(s, old(i) + 1) == Prepend(out, StringBody(s, i))
        decreases |s| - i
      {
        ghost var here, before := i, out;
        var c := s[i];
        i := i + 1;
        if c == '"' {
          assert out + [] == out;
          return true, out;
        }
        if c != '\\' {
          out := out + [c];
          PrependTwice(before, [c], StringBody(s, i));
          continue;
        }
        if i >= |s| { Fail("truncated escape"); return false, out; }
        var e := s[i];
        i := i + 1;
        if e == 'u' {
          var fine, cp := ParseUnicodeEscape();
          if !fine { return false, out; }
          out := out + Utf8(cp);
          PrependTwice(before, Utf8(cp), StringBody(s, i));
        } else {
          var b := Unescape(e);
          if b.None? { Fail("unknown escape"); return false, out; }
          out := out + [b.value];
          PrependTwice(before, [b.value], StringBody(s, i));
        }
      }
      Fail("unterminated string");
      ok := false;
    }

    /** One of the three digit loops of `parseNumber`. */
    method TakeDigits() returns (any: bool)
      requires i <= |s|
      modifies this`i
      ensures i == SkipDigits(s, old(i)) && any == (i > old(i))
    {
      any := false;
      while i < |s| && IsDigit(s[i])
        invariant old(i) <= i <= |s| && any == (i > old(i))
        invariant SkipDigits(s, old(i)) == SkipDigits(s, i)
      {
        i := i + 1;
        any := true;
      }
    }

    method TakeSign()
      requires i <= |s|
      modifies this`i
      ensures i == SkipSign(s, old(i))
    {
      if i < |s| && IsSign(s[i]) { i := i + 1; }
    }

    method TakeFraction() returns (any: bool)
      requires i <= |s|
      modifies this`i
      ensures i == FractionEnd(s, old(i)) && any == (i > old(i) + 1)
    {
      any := false;
      if i < |s| && s[i] == '.' {
        i := i + 1;
        any := TakeDigits();
      }
    }

    method TakeExponent()
      requires i <= |s|
      modifies this`i
      ensures i == ExponentEnd(s, old(i))
    {
      if i < |s| && IsExp(s[i]) {
        i := i + 1;
        TakeSign();
        var _ := TakeDigits();
      }
    }

    /** `parseNumber` up to the `strtod` call. */
    method TakeNumber() returns (any: bool)
      requires i <= |s|
      modifies this`i
      ensures (i, any) == ScanNumber(s, old(i))
    {
      TakeSign();
      any := TakeDigits();
      var more := TakeFraction();
      any := any || more;
      if any { TakeExponent(); }
    }

    method ParseNumber() returns (ok: bool, out: Value)
      requires Valid()
      modifies this`i, this`err
      ensures Landed(ok, out, NumberAt(F, s, old(i)))
    {
      var start := i;
      ok := TakeNumber();
      out := Null;
      if !ok { Fail("expected number"); return; }
      out := Num(F.read(s[start..i]));
    }

    /** The `DepthGuard` takes one off on every way out but the depth refusal itself. */
    method ParseValue() returns (ok: bool, out: Value)
      requires Valid()
      modifies this`i, this`depth, this`err
      ensures Landed(ok, out, ValueAt(F, s, old(i), MAX_DEPTH - old(depth)))
      ensures ok ==> depth == old(depth)
      ensures !ok ==> old(depth) <= depth <= old(depth) + 1
      decreases MAX_DEPTH + 1 - depth, |s| - i, 0
    {
      out := Null;
      depth := depth + 1;
      if depth > MAX_DEPTH { Fail("nesting too deep"); return false, Null; }
      ok, out := ParseBody();
      depth := depth - 1;
    }

    /** `parseValue` below its depth guard. */
    method ParseBody() returns (ok: bool, out: Value)
      requires Valid() && depth > 0
      modifies this`i, this`depth, this`err
      ensures Landed(ok, out, ValueAt(F, s, old(i), MAX_DEPTH - old(depth) + 1))
      ensures ok ==> depth == old(depth)
      ensures !ok ==> old(depth) <= depth <= old(depth) + 1
      decreases MAX_DEPTH + 1 - depth, |s| - i, 2
    {
      hide ObjectAt;
      hide ArrayAt;
      hide StringAt;
      hide NumberAt;
      hide SkipSpace;
      out := Null;
      SkipWs();
      if i >= |s| { Fail("unexpected end of input"); return false, Null; }
      var c := s[i];
      if c == '{' {
        i := i + 1;
        ok, out := ParseObject();
      } else if c == '[' {
        i := i + 1;
        ok, out := ParseArray();
      } else if c == '"' {
        var str;
        ok, str := ParseString();
        out := if ok then Str(str) else Null;
      } else if i + 4 <= |s| && s[i..i + 4] == "true" {
        i := i + 4;
        return true, Bool(true);
      } else if i + 5 <= |s| && s[i..i + 5] == "false" {
        i := i + 5;
        return true, Bool(false);
      } else if i + 4 <= |s| && s[i..i + 4] == "null" {
        i := i + 4;
        return true, Null;
      } else {
        ok, out := ParseNumber();
      }
    }

    method ParseObject() returns (ok: bool, out: Value)
      requires Valid() && depth > 0
      modifies this`i, this`depth, this`err
      ensures Landed(ok, out, ObjectAt(F, s, old(i), MAX_DEPTH - old(depth)))
      ensures ok ==> depth == old(depth)
      ensures !ok ==> old(depth) <= depth <= old(depth) + 1
      decreases MAX_DEPTH + 1 - depth, |s| - i, 3
    {
      hide MembersAt;
      hide SkipSpace;
      SkipWs();
      if i < |s| && s[i] == '}' { i := i + 1; return true, Obj([]); }
      var fields;
      ok, fields := ParseMembers();
      out := Obj(fields);
    }

    method ParseArray() returns (ok: bool, out: Value)
      requires Valid() && depth > 0
      modifies this`i, this`depth, this`err
      ensures Landed(ok, out, ArrayAt(F, s, old(i), MAX_DEPTH - old(depth)))
      ensures ok ==> depth == old(depth)
      ensures !ok ==> old(depth) <= depth <= old(depth) + 1
      decreases MAX_DEPTH + 1 - depth, |s| - i, 3
    {
      hide ElementsAt;
      hide SkipSpace;
      SkipWs();
      if i < |s| && s[i] == ']' { i := i + 1; return true, Arr([]); }
      var items;
      ok, items := ParseElements();
      out := Arr(items);
    }

    /** Key, colon and value of one member. */
    method ParseMember() returns (ok: bool, f: Field)
      requires Valid() && depth > 0
      modifies this`i, this`depth, this`err
      ensures Landed(ok, f, MemberAt(F, s, old(i), MAX_DEPTH - old(depth)))
      ensures ok ==> depth == old(depth)
      ensures !ok ==> old(depth) <= depth <= old(depth) + 1
      decreases MAX_DEPTH + 1 - depth, |s| - i, 1
    {
      hide StringAt;
      hide ValueAt;
      hide SkipSpace;
      SkipWs();
      ghost var start := i;
      var key;
      ok, key := ParseString();
      f := Field(key, Null);
      if !ok { return; }
      assert StringAt(s, start) == Ok(key, i);
      SkipWs();
      if i >= |s| || s[i] != ':' { Fail("expected ':'"); return false, f; }
      i := i + 1;
      var v;
      ok, v := ParseValue();
      f := Field(key, v);
    }

    /** The member loop of an object. */
    method ParseMembers() returns (ok: bool, fields: seq<Field>)
      requires Valid() && depth > 0
      modifies this`i, this`depth, this`err
      ensures Landed(ok, fields, MembersAt(F, s, old(i), MAX_DEPTH - old(depth), []))
      ensures ok ==> depth == old(depth)
      ensures !ok ==> old(depth) <= depth <= old(depth) + 1
      decreases MAX_DEPTH + 1 - depth, |s| - i, 2
    {
      hide MemberAt;
      hide SetKey;
      hide SkipSpace;
      ghost var room := MAX_DEPTH - depth;
      fields := [];
      while true
        invariant i <= |s| && err == "" && depth == old(depth) && old(i) <= i
        invariant MembersAt(F, s, old(i), room, []) == MembersAt(F, s, i, room, fields)
        decreases |s| - i
      {
        var fine, f := ParseMember();
        if !fine { return false, fields; }
        fields := SetKey(fields, f.key, f.value);
        SkipWs();
        if i < |s| && s[i] == ',' { i := i + 1; continue; }
        if i < |s| && s[i] == '}' { i := i + 1; return true, fields; }
        Fail("expected ',' or '}'");
        return false, fields;
      }
    }

    /** The element loop of an array. */
    method ParseElements() returns (ok: bool, items: seq<Value>)
      requires Valid() && depth > 0
      modifies this`i, this`depth, this`err
      ensures Landed(ok, items, ElementsAt(F, s, old(i), MAX_DEPTH - old(depth), []))
      ensures ok ==> depth == old(depth)
      ensures !ok ==> old(depth) <= depth <= old(depth) + 1
      decreases MAX_DEPTH + 1 - depth, |s| - i, 1
    {
      hide ValueAt;
      hide SkipSpace;
      ghost var room := MAX_DEPTH - depth;
      items := [];
      while true
        invariant i <= |s| && err == "" && depth == old(depth) && old(i) <= i
        invariant ElementsAt(F, s, old(i), room, []) == ElementsAt(F, s, i, room, items)
        decreases |s| - i
      {
        var fine, v := ParseValue();
        if !fine { return false, items; }
        items := items + [v];
        SkipWs();
        if i < |s| && s[i] == ',' { i := i + 1; continue; }
        if i < |s| && s[i] == ']' { i := i + 1; return true, items; }
        Fail("expected ',' or ']'");
        return false, items;
      }
    }
  }

  lemma PrependNothing(r: Parsed<Bytes>)
    ensures Prepend([], r) == r
  {
    if r.Ok? { assert [] + r.value == r.value; }
  }

  lemma PrependTwice(a: Bytes, b: Bytes, r: Parsed<Bytes>)
    ensures Prepend(a, Prepend(b, r)) == Prepend(a + b, r)
  {
    if r.Ok? { assert a + (b + r.value) == a + b + r.value; }
  }

  lemma {:induction false} HexStops(s: Bytes, i: nat, k: nat, n: nat)
    requires i + n <= |s| && k <= n && HexValue(s, i, k).None?
    ensures HexValue(s, i, n).None?
  {
    if k < n { HexStops(s, i, k, n - 1); }
  }

  /** The entry point: the value, or null with the parser's reason. */
  method ParseText(F: Floats, text: Bytes) returns (v: Value, err: string)
    ensures match Parse(F, text, 64)
            case Ok(w, _) => v == w && err == ""
            case Bad(why, at) => v == Null && err == why + " at offset " + Decimal(at) && err != ""
  {
    hide ValueAt;
    hide SkipSpace;
    var p := new Parser(F, text);
    var ok, w := p.ParseValue();
    if !ok { return Null, p.err; }
    p.SkipWs();
    if p.i != |text| { return Null, "trailing content at offset " + Decimal(p.i); }
    return w, "";
  }
}
