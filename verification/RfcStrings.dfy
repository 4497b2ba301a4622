/** The strings of RFC 8259, section 7, by tables of their own: space, escapes, hexadecimal digits, and what a
    string denotes. */
module RfcStrings {
  import opened Strings
  import opened Unicode
  import opened JsonParser
  import opened JsonGrammar
  import opened JsonComplete

  // --- the tables --------------------------------------------------------------------

  /** `ws` of section 2: space, tab, line feed, carriage return. */
  predicate IsWs(c: char) { c as int in [0x20, 0x09, 0x0A, 0x0D] }

  predicate RfcSpace(s: Bytes) {
    forall k | 0 <= k < |s| :: IsWs(s[k])
  }

  /** After a backslash, `e` stands for the byte `b`. */
  predicate StandsFor(e: char, b: char) {
    (e as int, b as int) in [(0x22, 0x22), (0x5C, 0x5C), (0x2F, 0x2F), (0x62, 0x08), (0x66, 0x0C), (0x6E, 0x0A),
                             (0x72, 0x0D), (0x74, 0x09)]
  }

  /** `c` is the hexadecimal digit `d`, in either case. */
  predicate IsHexOf(c: char, d: nat) {
    d < 16 && (c == "0123456789abcdef"[d] || c == "0123456789ABCDEF"[d])
  }

  /** `hex` is `u` in four digits to the base 16, the most significant first. */
  ghost predicate Numeral(hex: Bytes, u: nat) {
    |hex| == 4 && exists a, b, c, d :: NumeralOf(hex, u, a, b, c, d)
  }

  predicate NumeralOf(hex: Bytes, u: nat, a: nat, b: nat, c: nat, d: nat)
    requires |hex| == 4
  {
    && IsHexOf(hex[0], a) && IsHexOf(hex[1], b) && IsHexOf(hex[2], c) && IsHexOf(hex[3], d)
    && u == a * 0x1000 + b * 0x100 + c * 0x10 + d
  }

  ghost predicate IsEscape(e: char) { exists b :: StandsFor(e, b) }

  ghost predicate IsNumeral(hex: Bytes) { exists u :: Numeral(hex, u) }

  lemma SpaceIs(s: Bytes)
    ensures RfcSpace(s) <==> AllSpace(s)
  {
    assert forall c: char :: IsWs(c) <==> IsSpace(c);
    hide IsWs;
    hide IsSpace;
  }

  lemma EscapeStands(e: char, b: char)
    ensures StandsFor(e, b) <==> Unescape(e) == Some(b)
  {
  }

  lemma HexOfIs(c: char, d: nat)
    ensures IsHexOf(c, d) <==> HexDigit(c) == Some(d)
  {
    if d < 16 { HexDigitOf(d, c); } else { HexDigitSmall(c); }
  }

  lemma OneMore(s: Bytes, i: nat, n: nat)
    requires i + n < |s|
    ensures HexValue(s, i, n + 1) ==
      match (HexValue(s, i, n), HexDigit(s[i + n]))
      case (Some(v), Some(d)) => Some(v * 16 + d)
      case _ => None
  {
    hide HexDigit;
  }

  lemma HexValueFour(s: Bytes, i: nat)
    requires i + 4 <= |s|
    ensures HexValue(s, i, 4) ==
      match (HexDigit(s[i]), HexDigit(s[i + 1]), HexDigit(s[i + 2]), HexDigit(s[i + 3]))
      case (Some(a), Some(b), Some(c), Some(d)) => Some(a * 0x1000 + b * 0x100 + c * 0x10 + d)
      case _ => None
  {
    hide HexDigit;
    assert HexValue(s, i, 0) == Some(0);
    hide HexValue;
    OneMore(s, i, 0);
    OneMore(s, i, 1);
    OneMore(s, i, 2);
    OneMore(s, i, 3);
  }

  /** Four digits are read as the number they are a numeral of. */
  lemma NumeralReads(s: Bytes, i: nat, u: nat)
    requires i + 4 <= |s|
    ensures Numeral(s[i..i + 4], u) <==> HexValue(s, i, 4) == Some(u)
  {
    hide HexDigit;
    hide HexValue;
    hide IsHexOf;
    HexValueFour(s, i);
    var hex := s[i..i + 4];
    if a, b, c, d :| NumeralOf(hex, u, a, b, c, d) {
      HexOfIs(hex[0], a);
      HexOfIs(hex[1], b);
      HexOfIs(hex[2], c);
      HexOfIs(hex[3], d);
    }
    if HexValue(s, i, 4) == Some(u) {
      var a, b := HexDigit(s[i]).value, HexDigit(s[i + 1]).value;
      var c, d := HexDigit(s[i + 2]).value, HexDigit(s[i + 3]).value;
      HexOfIs(hex[0], a);
      HexOfIs(hex[1], b);
      HexOfIs(hex[2], c);
      HexOfIs(hex[3], d);
      assert NumeralOf(hex, u, a, b, c, d);
    }
  }

  /** Every number below 0x10000 has a numeral with each of its digits in the case one likes. */
  lemma NumeralExists(u: nat, up0: bool, up1: bool, up2: bool, up3: bool) returns (hex: Bytes)
    requires u < 0x10000
    ensures Numeral(hex, u)
    ensures hex[0] in CaseDigits(up0) && hex[1] in CaseDigits(up1)
    ensures hex[2] in CaseDigits(up2) && hex[3] in CaseDigits(up3)
  {
    var a, b, c, d := u / 0x1000, u / 0x100 % 0x10, u / 0x10 % 0x10, u % 0x10;
    hex := [HexIn(a, up0), HexIn(b, up1), HexIn(c, up2), HexIn(d, up3)];
    PlacesOf(u);
    hide IsHexOf;
    assert NumeralOf(hex, u, a, b, c, d);
  }

  function CaseDigits(upper: bool): Bytes { if upper then "0123456789ABCDEF" else "0123456789abcdef" }

  function HexIn(d: nat, upper: bool): (c: char)
    requires d < 16
    ensures IsHexOf(c, d) && c in CaseDigits(upper)
  {
    CaseDigits(upper)[d]
  }

  lemma PlacesOf(u: nat)
    requires u < 0x10000
    ensures u / 0x1000 < 16
    ensures u == u / 0x1000 * 0x1000 + u / 0x100 % 0x10 * 0x100 + u / 0x10 % 0x10 * 0x10 + u % 0x10
  {
    Sixteenth(u, 1);
    Sixteenth(u, 0x10);
    Sixteenth(u, 0x100);
  }

  lemma Sixteenth(u: nat, p: nat)
    requires p in [1, 0x10, 0x100]
    ensures u / p == u / (p * 0x10) * 0x10 + u / p % 0x10
  {
  }

  // --- what a string denotes -------------------------------------------------------------

  /** `char` of section 7, as far as one byte tells; that raw bytes make up characters is said of whole texts. */
  ghost predicate RfcItem(it: Item) {
    match it
    case Plain(c) => c as int >= 0x20 && c as int != 0x22 && c as int != 0x5C
    case Short(e) => IsEscape(e)
    case Uni(hex) => IsNumeral(hex)
  }

  ghost predicate RfcItems(items: seq<Item>) {
    forall k | 0 <= k < |items| :: RfcItem(items[k])
  }

  predicate NoControl(items: seq<Item>) {
    forall k | 0 <= k < |items| :: items[k].Plain? ==> items[k].c as int >= 0x20
  }

  /** The first two escapes are the halves of `c` (RFC 2781, section 2.1). */
  ghost predicate HalvesOf(items: seq<Item>, c: nat) {
    && |items| >= 2 && items[0].Uni? && items[1].Uni? && 0x10000 <= c < 0x110000
    && Numeral(items[0].hex, 0xD800 + (c - 0x10000) / 0x400)
    && Numeral(items[1].hex, 0xDC00 + (c - 0x10000) % 0x400)
  }

  /** `b` is the code point `c` by the table of RFC 3629, section 3. */
  predicate InUtf8(b: Bytes, c: nat) { FromUtf8(b).Some? && FromUtf8(b).value == c }

  /** The first `n` items are one character, or a byte of one, and stand for the bytes `b`: raw bytes for
      themselves, escapes for what the table says, and code points in UTF-8 (RFC 3629, section 3). */
  ghost predicate OneCharacter(items: seq<Item>, n: nat, b: Bytes) {
    && items != []
    && match items[0]
       case Plain(c) => n == 1 && b == [c]
       case Short(e) => n == 1 && |b| == 1 && StandsFor(e, b[0])
       case Uni(hex) =>
         if exists c :: HalvesOf(items, c) then n == 2 && exists c :: HalvesOf(items, c) && InUtf8(b, c)
         else n == 1 && exists u :: Numeral(hex, u) && InUtf8(b, u)
  }

  ghost predicate Denotes(items: seq<Item>, b: Bytes)
    decreases |items|
  {
    if items == [] then b == []
    else exists n: nat, head, tail ::
      0 < n <= |items| && OneCharacter(items, n, head) && b == head + tail && Denotes(items[n..], tail)
  }

  lemma RfcItemIs(it: Item)
    ensures RfcItem(it) <==> ValidItem(it) && (it.Plain? ==> it.c as int >= 0x20)
    ensures it.Uni? && ValidItem(it) ==> forall u :: Numeral(it.hex, u) <==> u == UnitOf(it)
  {
    hide HexValue;
    match it
    case Plain(c) =>
    case Short(e) =>
      forall b ensures StandsFor(e, b) <==> Unescape(e) == Some(b) { EscapeStands(e, b); }
      hide Unescape;
      hide StandsFor;
    case Uni(hex) =>
      if |hex| == 4 {
        assert hex[0..4] == hex;
        forall u: nat ensures Numeral(hex, u) <==> HexValue(hex, 0, 4) == Some(u) { NumeralReads(hex, 0, u); }
        hide Numeral;
      }
  }

  lemma RfcItemsAre(items: seq<Item>)
    ensures RfcItems(items) <==> ValidItems(items) && NoControl(items)
  {
    hide ValidItem;
    hide RfcItem;
    forall k | 0 <= k < |items|
      ensures RfcItem(items[k]) <==> ValidItem(items[k]) && (items[k].Plain? ==> items[k].c as int >= 0x20)
    {
      RfcItemIs(items[k]);
    }
  }

  /** Two escapes with these units are the halves of a code point exactly when they make a surrogate pair. */
  lemma HalvesAre(u: nat, v: nat, c: nat)
    requires 0x10000 <= c < 0x110000
    ensures u == 0xD800 + (c - 0x10000) / 0x400 && v == 0xDC00 + (c - 0x10000) % 0x400 <==>
      IsHigh(u) && IsLow(v) && c == Combine(u, v)
  {
    var x := c - 0x10000;
    assert x == x / 0x400 * 0x400 + x % 0x400;
    assert x / 0x400 < 0x400;
    if IsHigh(u) && IsLow(v) && c == Combine(u, v) {
      SplitBy(x, u - 0xD800, v - 0xDC00);
    }
  }

  lemma SplitBy(x: nat, q: nat, r: nat)
    requires x == q * 0x400 + r && r < 0x400
    ensures x / 0x400 == q && x % 0x400 == r
  {
  }

  predicate PairStarts(items: seq<Item>) {
    |items| >= 2 && IsHigh(UnitOf(items[0])) && IsLow(UnitOf(items[1]))
  }

  lemma PairIs(items: seq<Item>, c: nat)
    requires ValidItems(items)
    ensures HalvesOf(items, c) <==> PairStarts(items) && c == Combine(UnitOf(items[0]), UnitOf(items[1]))
  {
    hide Numeral;
    hide ValidItem;
    UnitsAre(items);
    if |items| >= 2 && items[0].Uni? && items[1].Uni? && 0x10000 <= c < 0x110000 {
      RfcItemIs(items[0]);
      RfcItemIs(items[1]);
      HalvesAre(UnitOf(items[0]), UnitOf(items[1]), c);
    }
  }

  /** Only a `\u` escape has a unit. */
  lemma UnitsAre(items: seq<Item>)
    requires ValidItems(items)
    ensures forall k | 0 <= k < |items| :: (items[k].Uni? <==> UnitOf(items[k]) >= 0) && UnitOf(items[k]) < 0x10000
  {
    hide HexValue;
  }

  lemma InUtf8Is(b: Bytes, c: CodePoint)
    ensures InUtf8(b, c) <==> b == Utf8(c)
  {
    hide Utf8;
    hide FromUtf8;
    Utf8IsTheEncoding(c, b);
  }

  lemma OneCharacterIs(items: seq<Item>, n: nat, b: Bytes)
    requires ValidItems(items) && items != []
    ensures OneCharacter(items, n, b) <==>
      if PairStarts(items) then n == 2 && b == Utf8(Combine(UnitOf(items[0]), UnitOf(items[1])))
      else n == 1 && b == ItemBytes(items[0])
  {
    hide Utf8;
    hide InUtf8;
    hide HalvesOf;
    hide Numeral;
    hide HexValue;
    forall c: nat
      ensures HalvesOf(items, c) <==> PairStarts(items) && c == Combine(UnitOf(items[0]), UnitOf(items[1]))
    {
      PairIs(items, c);
    }
    UnitsAre(items);
    RfcItemIs(items[0]);
    match items[0]
    case Plain(_) =>
    case Short(e) =>
      if |b| == 1 { EscapeStands(e, b[0]); }
    case Uni(_) =>
      if PairStarts(items) {
        var c := Combine(UnitOf(items[0]), UnitOf(items[1]));
        assert HalvesOf(items, c);
        InUtf8Is(b, c);
      } else {
        InUtf8Is(b, UnitOf(items[0]));
      }
  }

  /** The bytes the parser gives a string are what it denotes, and nothing else is. */
  lemma {:induction false} DenotesIs(items: seq<Item>, b: Bytes)
    requires ValidItems(items)
    ensures Denotes(items, b) <==> b == StringBytes(items)
    decreases |items|
  {
    hide OneCharacter;
    hide ItemBytes;
    hide Utf8;
    hide UnitOf;
    hide Combine;
    hide ValidItem;
    if items != [] {
      var n := if PairStarts(items) then 2 else 1;
      var head := if PairStarts(items) then Utf8(Combine(UnitOf(items[0]), UnitOf(items[1]))) else ItemBytes(items[0]);
      forall m: nat, x ensures OneCharacter(items, m, x) <==> m == n && x == head { OneCharacterIs(items, m, x); }
      assert StringBytes(items) == head + StringBytes(items[n..]);
      DenotesIs(items[n..], StringBytes(items[n..]));
      if Denotes(items, b) {
        var m: nat, x, tail :|
          0 < m <= |items| && OneCharacter(items, m, x) && b == x + tail && Denotes(items[m..], tail);
        DenotesIs(items[n..], tail);
      }
    }
  }

  // --- through the parser ------------------------------------------------------------------

  /** Every numeral of a number below 0x10000, in lower, upper or mixed case, is read as that code point. */
  lemma EscapeReads(s: Bytes, i: nat, hex: Bytes, u: nat)
    requires i <= |s| && Numeral(hex, u) && At(s, i, "\"\\u" + hex + "\"")
    ensures StringAt(s, i).Ok? && StringAt(s, i).end == i + 8 && InUtf8(StringAt(s, i).value, u)
  {
    hide Numeral;
    hide InUtf8;
    hide StringAt;
    hide HexValue;
    var items := [Uni(hex)];
    RfcItemIs(items[0]);
    assert items[1..] == [] && ItemsText(items) == "\\u" + hex;
    assert "\"" + (("\\u" + hex) + "\"") == "\"\\u" + hex + "\"";
    LiteralComplete(s, i, items);
    InUtf8Is(StringBytes(items), UnitOf(items[0]));
  }

  /** And the two halves of a code point above are read as that code point. */
  lemma PairReads(s: Bytes, i: nat, high: Bytes, low: Bytes, c: nat)
    requires 0x10000 <= c < 0x110000
    requires Numeral(high, 0xD800 + (c - 0x10000) / 0x400) && Numeral(low, 0xDC00 + (c - 0x10000) % 0x400)
    requires i <= |s| && At(s, i, "\"\\u" + high + "\\u" + low + "\"")
    ensures StringAt(s, i).Ok? && StringAt(s, i).end == i + 14 && InUtf8(StringAt(s, i).value, c)
  {
    hide Numeral;
    hide InUtf8;
    hide StringAt;
    hide HexValue;
    var items := [Uni(high), Uni(low)];
    RfcItemIs(items[0]);
    RfcItemIs(items[1]);
    assert HalvesOf(items, c);
    PairIs(items, c);
    assert items[1..] == [Uni(low)] && [Uni(low)][1..] == [] && items[2..] == [];
    assert ItemsText([Uni(low)]) == "\\u" + low;
    assert ItemsText(items) == "\\u" + high + ("\\u" + low);
    assert "\\u" + high + ("\\u" + low) == "\\u" + high + "\\u" + low;
    assert "\"" + (("\\u" + high + "\\u" + low) + "\"") == "\"\\u" + high + "\\u" + low + "\"";
    LiteralComplete(s, i, items);
    InUtf8Is(StringBytes(items), c);
  }
}
