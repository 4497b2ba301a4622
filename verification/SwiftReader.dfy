/** The Swift string reader, which collects UTF-16 units and decodes them at the closing quote, and
    its agreement with the C++ reader, which joins surrogate halves as it meets them. */
module SwiftReader {
  import opened Strings
  import opened Unicode
  import opened JsonParser
  import opened JsonComplete
  import opened Utf8Text

  const QUOTE: int := 0x22
  const BACKSLASH: int := 0x5C
  const LETTER_U: int := 0x75

  function Hex(c: Scalar): Option<nat> {
    if c < 0x80 then HexDigit(c as char) else None
  }

  /** The value of `n` hex digits from `k`. */
  function Hexes(t: seq<Scalar>, k: nat, n: nat): (r: Option<nat>)
    requires k + n <= |t|
    ensures r.Some? && n == 4 ==> r.value < 0x10000
    ensures r.Some? && n == 3 ==> r.value < 0x1000
    ensures r.Some? && n == 2 ==> r.value < 0x100
    ensures r.Some? && n == 1 ==> r.value < 0x10
    ensures r.Some? && n == 0 ==> r.value == 0
    decreases |t|, n
  {
    if n == 0 then Some(0)
    else match Hexes(t, k, n - 1)
      case None => None
      case Some(v) =>
        match Hex(t[k + n - 1])
        case None => None
        case Some(d) => Some(v * 16 + d)
  }

  function Short(e: Scalar): (r: Option<Unit>)
    ensures r.Some? ==> r.value < 0x80
  {
    if e < 0x80 && Unescape(e as char).Some? then Some(Unescape(e as char).value as int) else None
  }

  function PrependUnits(a: seq<Unit>, r: Parsed<seq<Unit>>): Parsed<seq<Unit>> {
    match r case Ok(b, e) => Ok(a + b, e) case Bad(_, _) => r
  }

  /** The units of the rest of a literal from `k`, closing quote included. */
  function Units(t: seq<Scalar>, k: nat): (r: Parsed<seq<Unit>>)
    requires k <= |t|
    ensures r.Ok? ==> k < r.end <= |t|
    decreases |t| - k
  {
    if k >= |t| then Bad("unterminated string", k)
    else if t[k] == QUOTE then Ok([], k + 1)
    else if t[k] != BACKSLASH then PrependUnits(ToUtf16(t[k]), Units(t, k + 1))
    else match EscapeAt(t, k + 1)
      case Ok(u, e) => PrependUnits([u], Units(t, e))
      case Bad(why, at) => Bad(why, at)
  }

  /** The unit of an escape, from after its backslash. */
  function EscapeAt(t: seq<Scalar>, k: nat): (r: Parsed<Unit>)
    requires k <= |t|
    ensures r.Ok? ==> k < r.end <= |t|
  {
    if k >= |t| then Bad("truncated escape", k)
    else if t[k] == LETTER_U then
      if k + 5 > |t| then Bad("truncated \\u escape", k + 1)
      else match Hexes(t, k + 1, 4)
        case None => Bad("bad \\u escape", k + 1)
        case Some(u) => Ok(u, k + 5)
    else match Short(t[k])
      case Some(u) => Ok(u, k + 1)
      case None => Bad("unknown escape", k + 1)
  }

  /** The units of the literal at `k`, quotes included. */
  function LiteralUnits(t: seq<Scalar>, k: nat): (r: Parsed<seq<Unit>>)
    requires k <= |t|
    ensures r.Ok? ==> k < r.end <= |t|
  {
    if k < |t| && t[k] == QUOTE then Units(t, k + 1) else Bad("expected a string", k)
  }

  /** What the literal after an opening quote decodes to. */
  function Decoded(units: seq<Unit>): seq<Scalar> { Repair(FromUtf16(units)) }

  class Reader {
    const scalars: seq<Scalar>
    var offset: nat

    constructor (text: seq<Scalar>)
      ensures scalars == text && offset == 0
    {
      scalars := text;
      offset := 0;
    }

    static method AppendUtf16(c: Scalar, units: seq<Unit>) returns (r: seq<Unit>)
      ensures r == units + ToUtf16(c)
    {
      if c <= 0xFFFF {
        r := units + [c];
      } else {
        var value := c - 0x10000;
        r := units + [0xD800 + value / 0x400];
        r := r + [0xDC00 + value % 0x400];
      }
    }

    /** Four digits at the offset, which moves past the good ones. */
    method HexUnit() returns (ok: bool, code: nat)
      requires offset + 4 <= |scalars|
      modifies this`offset
      ensures old(offset) <= offset <= old(offset) + 4
      ensures ok == Hexes(scalars, old(offset), 4).Some?
      ensures ok ==> offset == old(offset) + 4 && code == Hexes(scalars, old(offset), 4).value
    {
      hide Hex;
      code := 0;
      var start := offset;
      for n := 0 to 4
        invariant offset == start + n && Hexes(scalars, start, n) == Some(code)
      {
        var digit := Hex(scalars[offset]);
        if digit.None? {
          HexesStop(scalars, start, n + 1, 4);
          return false, code;
        }
        code := code * 16 + digit.value;
        offset := offset + 1;
      }
      ok := true;
    }

    /** An escape, from after its backslash. */
    method Escape() returns (ok: bool, unit: Unit)
      requires offset <= |scalars|
      modifies this`offset
      ensures offset <= |scalars|
      ensures match EscapeAt(scalars, old(offset))
              case Ok(u, e) => ok && unit == u && offset == e
              case Bad(_, _) => !ok
    {
      hide Hexes;
      if offset >= |scalars| { return false, 0; }
      var escape := scalars[offset];
      offset := offset + 1;
      if escape == LETTER_U {
        if offset + 4 > |scalars| { return false, 0; }
        var fine, code := HexUnit();
        if !fine { return false, 0; }
        return true, code;
      }
      var u := Short(escape);
      if u.None? { return false, 0; }
      return true, u.value;
    }

    /** `str`: a literal from its opening quote, or a refusal. */
    method Str() returns (ok: bool, text: seq<Scalar>)
      requires offset <= |scalars|
      modifies this`offset
      ensures offset <= |scalars|
      ensures match LiteralUnits(scalars, old(offset))
              case Ok(units, e) => ok && text == Decoded(units) && offset == e
              case Bad(_, _) => !ok
    {
      if offset >= |scalars| || scalars[offset] != QUOTE { return false, []; }
      hide Repair;
      hide FromUtf16;
      hide Units;
      hide EscapeAt;
      hide PrependUnits;
      offset := offset + 1;
      text := [];
      var units: seq<Unit> := [];
      ghost var start := offset;
      PrependNoUnits(Units(scalars, offset));
      while offset < |scalars|
        invariant offset <= |scalars|
        invariant Units(scalars, start) == PrependUnits(units, Units(scalars, offset))
        decreases |scalars| - offset
      {
        UnitsStep(scalars, offset, units);
        var scalar := scalars[offset];
        offset := offset + 1;
        if scalar == QUOTE { return true, Repair(FromUtf16(units)); }
        if scalar != BACKSLASH {
          units := AppendUtf16(scalar, units);
          continue;
        }
        var fine, unit := Escape();
        if !fine { return false, []; }
        units := units + [unit];
      }
      UnitsEnd(scalars, offset, units);
      ok := false;
    }
  }

  /** What the loop knows after one more scalar or escape. */
  lemma UnitsStep(t: seq<Scalar>, k: nat, units: seq<Unit>)
    requires k < |t|
    ensures PrependUnits(units, Units(t, k)) ==
      if t[k] == QUOTE then Ok(units, k + 1)
      else if t[k] != BACKSLASH then PrependUnits(units + ToUtf16(t[k]), Units(t, k + 1))
      else match EscapeAt(t, k + 1)
        case Ok(u, e) => PrependUnits(units + [u], Units(t, e))
        case Bad(why, at) => Bad(why, at)
  {
    hide EscapeAt;
    hide ToUtf16;
    if t[k] == QUOTE {
      assert units + [] == units;
    } else if t[k] != BACKSLASH {
      PrependUnitsTwice(units, ToUtf16(t[k]), Units(t, k + 1));
    } else if EscapeAt(t, k + 1).Ok? {
      PrependUnitsTwice(units, [EscapeAt(t, k + 1).value], Units(t, EscapeAt(t, k + 1).end));
    }
  }

  lemma UnitsEnd(t: seq<Scalar>, k: nat, units: seq<Unit>)
    requires k == |t|
    ensures PrependUnits(units, Units(t, k)).Bad?
  {
  }

  lemma PrependNoUnits(r: Parsed<seq<Unit>>)
    ensures PrependUnits([], r) == r
  {
    if r.Ok? { assert [] + r.value == r.value; }
  }

  lemma PrependUnitsTwice(a: seq<Unit>, b: seq<Unit>, r: Parsed<seq<Unit>>)
    ensures PrependUnits(a, PrependUnits(b, r)) == PrependUnits(a + b, r)
  {
    if r.Ok? { assert a + (b + r.value) == a + b + r.value; }
  }

  lemma {:induction false} HexesStop(t: seq<Scalar>, k: nat, m: nat, n: nat)
    requires k + n <= |t| && m <= n && Hexes(t, k, m).None?
    ensures Hexes(t, k, n).None?
  {
    if m < n { HexesStop(t, k, m, n - 1); }
  }

  // --- hex digits and pairs ----------------------------------------------------------

  /** One hex digit: the same value in the scalar and in its byte, which is then all there is of it. */
  lemma HexStep(t: seq<Scalar>, k: nat)
    requires k < |t|
    ensures var b, o := Utf8All(t), Off(t, k);
      o < |b| && HexDigit(b[o]) == Hex(t[k]) && (Hex(t[k]).Some? ==> Off(t, k + 1) == o + 1)
  {
    hide Utf8All;
    hide Off;
    hide Utf8;
    hide At;
    OffStep(t, k);
  }

  /** Hex digits stand in the scalars just where they stand in the bytes. */
  lemma {:induction false} HexAgree(t: seq<Scalar>, k: nat, n: nat)
    requires k <= |t|
    ensures var b, o := Utf8All(t), Off(t, k);
      && ((k + n <= |t| && Hexes(t, k, n).Some?) <==> (o + n <= |b| && HexValue(b, o, n).Some?))
      && (k + n <= |t| && Hexes(t, k, n).Some? ==>
            Off(t, k + n) == o + n && Hexes(t, k, n) == HexValue(b, o, n))
  {
    hide Utf8All;
    hide Off;
    hide Hex;
    hide HexDigit;
    OffEnd(t);
    if n > 0 {
      HexAgree(t, k, n - 1);
      if k + n <= |t| && Hexes(t, k, n - 1).Some? { HexStep(t, k + n - 1); }
    }
  }

  predicate LowFollows(t: seq<Scalar>, k: nat) {
    && k + 6 <= |t| && t[k] == BACKSLASH && t[k + 1] == LETTER_U
    && Hexes(t, k + 2, 4).Some? && IsLow(Hexes(t, k + 2, 4).value)
  }

  lemma PairAgree(t: seq<Scalar>, k: nat)
    requires k <= |t|
    ensures LowFollows(t, k) <==> PairFollows(Utf8All(t), Off(t, k))
    ensures LowFollows(t, k) ==> HexValue(Utf8All(t), Off(t, k) + 2, 4) == Hexes(t, k + 2, 4)
  {
    hide Utf8All;
    hide Off;
    hide Utf8;
    hide HexValue;
    hide Hexes;
    hide At;
    OffEnd(t);
    if k < |t| {
      OffStep(t, k);
      if k + 1 < |t| {
        OffStep(t, k + 1);
        if t[k] == BACKSLASH && t[k + 1] == LETTER_U { HexAgree(t, k + 2, 4); }
      }
    }
  }

  /** A first unit that is a low half comes from an escape. */
  lemma FirstUnit(t: seq<Scalar>, k: nat)
    requires k <= |t| && Units(t, k).Ok? && !LowFollows(t, k)
    ensures var us := Units(t, k).value; us == [] || !IsLow(us[0])
  {
  }

  /** Bytes above ASCII are taken as they come. */
  lemma {:induction false} HighBytes(b: Bytes, o: nat, n: nat)
    requires o + n <= |b| && forall j | o <= j < o + n :: b[j] as int >= 0x80
    ensures StringBody(b, o) == Prepend(b[o..o + n], StringBody(b, o + n))
    decreases n
  {
    hide StringBody;
    if n == 0 {
      assert b[o..o] == [];
      PrependNothing(StringBody(b, o));
    } else {
      HighBytes(b, o + 1, n - 1);
      BodyPlain(b, o);
      PrependTwice([b[o]], b[o + 1..o + n], StringBody(b, o + n));
      assert [b[o]] + b[o + 1..o + n] == b[o..o + n];
    }
  }

  lemma RawAgree(t: seq<Scalar>, k: nat)
    requires k < |t| && t[k] != QUOTE && t[k] != BACKSLASH
    ensures StringBody(Utf8All(t), Off(t, k))
         == Prepend(Utf8(t[k]), StringBody(Utf8All(t), Off(t, k + 1)))
  {
    hide Utf8All;
    hide Off;
    hide StringBody;
    var b, o := Utf8All(t), Off(t, k);
    OffStep(t, k);
    if t[k] < 0x80 {
      BodyPlain(b, o);
    } else {
      var n := |Utf8(t[k])|;
      forall j | o <= j < o + n ensures b[j] as int >= 0x80 {
        AtByte(b, o, Utf8(t[k]), j - o);
      }
      HighBytes(b, o, n);
    }
  }

  // --- agreement ------------------------------------------------------------------------

  /** What the two readers make of the literal from scalar `k`. */
  ghost predicate Agree(t: seq<Scalar>, k: nat)
    requires k <= |t|
  {
    var c, w := StringBody(Utf8All(t), Off(t, k)), Units(t, k);
    && (c.Ok? <==> w.Ok?)
    && (c.Ok? ==> c.end == Off(t, w.end) && c.value == Utf8All(FromUtf16(w.value)))
  }

  lemma NoUnits()
    ensures Utf8All(FromUtf16([])) == []
  {
  }

  lemma {:induction false} ReadersAgree(t: seq<Scalar>, k: nat)
    requires k <= |t|
    ensures Agree(t, k)
    decreases |t| - k, 2
  {
    hide Utf8All;
    hide Off;
    hide Utf8;
    hide At;
    hide ToUtf16;
    hide UnicodeEscape;
    hide HexValue;
    hide Hexes;
    hide Short;
    var b, o := Utf8All(t), Off(t, k);
    OffEnd(t);
    if k < |t| {
      OffStep(t, k);
      if t[k] == QUOTE {
        BodyEnds(b, o);
        NoUnits();
      } else if t[k] != BACKSLASH {
        RawAgree(t, k);
        ReadersAgree(t, k + 1);
        if Units(t, k + 1).Ok? {
          RawUnits(t, k);
          Utf8Cons(t[k], FromUtf16(Units(t, k + 1).value));
        }
      } else {
        EscapesAgree(t, k);
      }
    }
  }

  /** A raw scalar is one code point of the decoded text. */
  lemma RawUnits(t: seq<Scalar>, k: nat)
    requires k < |t| && t[k] != QUOTE && t[k] != BACKSLASH && Units(t, k + 1).Ok?
    ensures Units(t, k).Ok? && Units(t, k).end == Units(t, k + 1).end
    ensures FromUtf16(Units(t, k).value) == [t[k]] + FromUtf16(Units(t, k + 1).value)
  {
    var us := Units(t, k + 1).value;
    var head := ToUtf16(t[k]);
    assert Units(t, k).value == head + us;
    assert (head + us)[|head|..] == us;
  }

  lemma {:induction false} EscapesAgree(t: seq<Scalar>, k: nat)
    requires k < |t| && t[k] == BACKSLASH
    ensures Agree(t, k)
    decreases |t| - k, 1
  {
    hide Utf8All;
    hide Off;
    hide Utf8;
    hide At;
    hide UnicodeEscape;
    hide HexValue;
    hide Hexes;
    var b, o := Utf8All(t), Off(t, k);
    OffEnd(t);
    OffStep(t, k);
    if k + 1 < |t| {
      OffStep(t, k + 1);
      if t[k + 1] == LETTER_U {
        UnicodeAgree(t, k);
      } else if Short(t[k + 1]).Some? {
        BodyShort(b, o);
        ReadersAgree(t, k + 2);
        if Units(t, k + 2).Ok? {
          SmallUnit(Short(t[k + 1]).value, Units(t, k + 2).value);
        }
      }
    }
  }

  lemma SmallUnit(u: Unit, us: seq<Unit>)
    requires u < 0x80
    ensures Utf8All(FromUtf16([u] + us)) == [u as char] + Utf8All(FromUtf16(us))
  {
    assert ([u] + us)[1..] == us;
  }

  lemma {:induction false} UnicodeAgree(t: seq<Scalar>, k: nat)
    requires k + 1 < |t| && t[k] == BACKSLASH && t[k + 1] == LETTER_U
    requires Off(t, k + 2) == Off(t, k) + 2
    requires Off(t, k) + 1 < |Utf8All(t)|
    requires Utf8All(t)[Off(t, k)] == '\\' && Utf8All(t)[Off(t, k) + 1] == 'u'
    ensures Agree(t, k)
    decreases |t| - k, 0
  {
    hide Utf8All;
    hide Off;
    hide Utf8;
    hide At;
    hide HexValue;
    hide Hexes;
    hide PairFollows;
    var b, o := Utf8All(t), Off(t, k);
    HexAgree(t, k + 2, 4);
    if k + 6 <= |t| && Hexes(t, k + 2, 4).Some? {
      var u := Hexes(t, k + 2, 4).value;
      PairAgree(t, k + 6);
      EscapeIs(b, o + 2, u);
      if IsHigh(u) && LowFollows(t, k + 6) {
        var lo := Hexes(t, k + 8, 4).value;
        HexAgree(t, k + 8, 4);
        OffStep(t, k + 6);
        OffStep(t, k + 7);
        BodyUnicode(b, o, Combine(u, lo), o + 12);
        ReadersAgree(t, k + 12);
        if Units(t, k + 12).Ok? {
          PairUnits(t, k, u, lo);
          Utf8Cons(Combine(u, lo), FromUtf16(Units(t, k + 12).value));
        }
      } else {
        BodyUnicode(b, o, u, o + 6);
        ReadersAgree(t, k + 6);
        if Units(t, k + 6).Ok? {
          LoneUnit(t, k, u);
          Utf8Cons(u, FromUtf16(Units(t, k + 6).value));
        }
      }
    }
  }

  lemma PairUnits(t: seq<Scalar>, k: nat, hi: Unit, lo: Unit)
    requires k + 12 <= |t| && t[k] == t[k + 6] == BACKSLASH && t[k + 1] == t[k + 7] == LETTER_U
    requires Hexes(t, k + 2, 4) == Some(hi) && Hexes(t, k + 8, 4) == Some(lo) && IsHigh(hi) && IsLow(lo)
    requires Units(t, k + 12).Ok?
    ensures Units(t, k).Ok? && Units(t, k).end == Units(t, k + 12).end
    ensures FromUtf16(Units(t, k).value) == [Combine(hi, lo)] + FromUtf16(Units(t, k + 12).value)
  {
    hide Hexes;
    var us := Units(t, k + 12).value;
    assert Units(t, k + 6).value == [lo] + us;
    assert Units(t, k).value == [hi] + ([lo] + us);
    assert ([hi] + ([lo] + us))[2..] == us;
  }

  lemma LoneUnit(t: seq<Scalar>, k: nat, u: Unit)
    requires k + 6 <= |t| && t[k] == BACKSLASH && t[k + 1] == LETTER_U && Hexes(t, k + 2, 4) == Some(u)
    requires Units(t, k + 6).Ok? && !(IsHigh(u) && LowFollows(t, k + 6))
    ensures Units(t, k).Ok? && Units(t, k).end == Units(t, k + 6).end
    ensures FromUtf16(Units(t, k).value) == [u] + FromUtf16(Units(t, k + 6).value)
  {
    hide Hexes;
    hide LowFollows;
    var us := Units(t, k + 6).value;
    if IsHigh(u) { FirstUnit(t, k + 6); }
    assert Units(t, k).value == [u] + us;
    assert ([u] + us)[1..] == us;
  }

  /** From the same place both readers accept a literal or both refuse; when they accept they stop at the
      same scalar, and the C++ text is the UTF-8 form of one list of code points and no other, lone
      surrogates included, which the Swift text repeats with U+FFFD for each lone surrogate. */
  lemma SameLiteral(t: seq<Scalar>, k: nat)
    requires k <= |t|
    ensures var c, w := StringAt(Utf8All(t), Off(t, k)), LiteralUnits(t, k);
      && (c.Ok? <==> w.Ok?)
      && (c.Ok? ==>
            var cps := FromUtf16(w.value);
            && c.end == Off(t, w.end) && c.value == Utf8All(cps) && Decoded(w.value) == Repair(cps)
            && forall other :: Utf8All(other) == c.value ==> other == cps)
  {
    hide Utf8All;
    hide Off;
    hide StringAt;
    hide FromUtf16;
    hide Repair;
    hide StringBody;
    hide Units;
    OpensAlike(t, k);
    if k < |t| && t[k] == QUOTE {
      ReadersAgree(t, k + 1);
      var w := Units(t, k + 1);
      if w.Ok? {
        forall other | Utf8All(other) == Utf8All(FromUtf16(w.value)) ensures other == FromUtf16(w.value) {
          Utf8AllInjective(other, FromUtf16(w.value));
        }
      }
    }
  }

  lemma OpensAlike(t: seq<Scalar>, k: nat)
    requires k <= |t|
    ensures k < |t| && t[k] == QUOTE ==> StringAt(Utf8All(t), Off(t, k)) == StringBody(Utf8All(t), Off(t, k + 1))
    ensures !(k < |t| && t[k] == QUOTE) ==> StringAt(Utf8All(t), Off(t, k)).Bad?
  {
    hide Utf8All;
    hide Off;
    hide Utf8;
    hide StringBody;
    hide At;
    OffEnd(t);
    if k < |t| { OffStep(t, k); }
  }
}
