/** UTF-8 encoding (RFC 3629, section 3) and UTF-16 decoding (RFC 2781, section 2.2). */
module Unicode {
  import opened Strings

  const REPLACEMENT: nat := 0xFFFD

  predicate IsHigh(u: int) { 0xD800 <= u <= 0xDBFF }

  predicate IsLow(u: int) { 0xDC00 <= u <= 0xDFFF }

  predicate IsSurrogate(u: int) { 0xD800 <= u <= 0xDFFF }

  /** A code point, lone surrogates included. */
  type CodePoint = c: int | 0 <= c < 0x11_0000

  type Unit = u: int | 0 <= u < 0x1_0000

  type Scalar = c: int | 0 <= c < 0x11_0000 && !IsSurrogate(c)

  function Combine(hi: int, lo: int): CodePoint
    requires IsHigh(hi) && IsLow(lo)
  {
    0x10000 + (hi - 0xD800) * 0x400 + (lo - 0xDC00)
  }

  /** The parser's byte pushes for one code point; `|` on disjoint bits is `+`, shifts are `/`. */
  function Utf8(cp: CodePoint): (b: Bytes)
    ensures 1 <= |b| <= 4
    ensures cp >= 0x80 ==> forall k | 0 <= k < |b| :: 0x80 <= b[k] as int < 0x100
  {
    if cp < 0x80 then [cp as char]
    else if cp < 0x800 then [(0xC0 + cp / 0x40) as char, (0x80 + cp % 0x40) as char]
    else if cp < 0x10000 then
      [(0xE0 + cp / 0x1000) as char, (0x80 + cp / 0x40 % 0x40) as char, (0x80 + cp % 0x40) as char]
    else
      [(0xF0 + cp / 0x40000) as char, (0x80 + cp / 0x1000 % 0x40) as char,
       (0x80 + cp / 0x40 % 0x40) as char, (0x80 + cp % 0x40) as char]
  }

  predicate Continues(c: char) { 0x80 <= c as int < 0xC0 }

  /** The code point a UTF-8 sequence stands for, by the bit table of RFC 3629, section 3, with its
      ban on overlong forms; the surrogate range is let through. */
  function FromUtf8(b: Bytes): Option<CodePoint> {
    if |b| == 1 && b[0] as int < 0x80 then Some(b[0] as int)
    else if |b| == 2 && 0xC2 <= b[0] as int < 0xE0 && Continues(b[1]) then
      Some((b[0] as int - 0xC0) * 0x40 + (b[1] as int - 0x80))
    else if |b| == 3 && 0xE0 <= b[0] as int < 0xF0 && Continues(b[1]) && Continues(b[2])
            && (b[0] as int == 0xE0 ==> b[1] as int >= 0xA0) then
      Some((b[0] as int - 0xE0) * 0x1000 + (b[1] as int - 0x80) * 0x40 + (b[2] as int - 0x80))
    else if |b| == 4 && 0xF0 <= b[0] as int < 0xF5 && Continues(b[1]) && Continues(b[2]) && Continues(b[3])
            && (b[0] as int == 0xF0 ==> b[1] as int >= 0x90)
            && (b[0] as int == 0xF4 ==> b[1] as int < 0x90) then
      Some((b[0] as int - 0xF0) * 0x40000 + (b[1] as int - 0x80) * 0x1000
           + (b[2] as int - 0x80) * 0x40 + (b[3] as int - 0x80))
    else None
  }

  /** A number and its digits to the base 64. */
  lemma Digits64(n: nat)
    ensures n / 0x1000 == n / 0x40 / 0x40 && n / 0x40000 == n / 0x1000 / 0x40
    ensures n == n / 0x40 * 0x40 + n % 0x40
  {
  }

  lemma Utf8Decodes(cp: CodePoint)
    ensures FromUtf8(Utf8(cp)) == Some(cp)
  {
    Digits64(cp);
    var up, top := cp / 0x40, cp / 0x1000;
    assert up == up / 0x40 * 0x40 + up % 0x40;
    assert top == top / 0x40 * 0x40 + top % 0x40;
    SixBits(cp);
    SixBits(up);
    SixBits(top);
  }

  lemma SixBits(n: nat)
    ensures Continues((0x80 + n % 0x40) as char)
  {
  }

  /** `n` has quotient `q` and remainder `r` by 64. */
  lemma Split64(n: nat, q: nat, r: nat)
    requires n == q * 0x40 + r && r < 0x40
    ensures n / 0x40 == q && n % 0x40 == r
  {
  }

  lemma Unique2(cp: CodePoint, a: nat, b: nat)
    requires cp == a * 0x40 + b && 2 <= a < 0x20 && b < 0x40
    ensures Utf8(cp) == [(0xC0 + a) as char, (0x80 + b) as char]
  {
    Split64(cp, a, b);
  }

  lemma Unique3(cp: CodePoint, a: nat, b: nat, c: nat)
    requires cp == a * 0x1000 + b * 0x40 + c && a < 0x10 && b < 0x40 && c < 0x40 && cp >= 0x800
    ensures Utf8(cp) == [(0xE0 + a) as char, (0x80 + b) as char, (0x80 + c) as char]
  {
    var up := a * 0x40 + b;
    Digits64(cp);
    Split64(cp, up, c);
    Split64(up, a, b);
  }

  lemma Unique4(cp: CodePoint, a: nat, b: nat, c: nat, d: nat)
    requires cp == a * 0x40000 + b * 0x1000 + c * 0x40 + d && cp >= 0x10000
    requires a < 8 && b < 0x40 && c < 0x40 && d < 0x40
    ensures Utf8(cp) == [(0xF0 + a) as char, (0x80 + b) as char, (0x80 + c) as char, (0x80 + d) as char]
  {
    var top := a * 0x40 + b;
    var up := top * 0x40 + c;
    Digits64(cp);
    Split64(cp, up, d);
    Split64(up, top, c);
    Split64(top, a, b);
  }

  lemma Utf8Unique(cp: CodePoint, b: Bytes)
    requires FromUtf8(b) == Some(cp)
    ensures b == Utf8(cp)
  {
    hide Utf8;
    if |b| == 1 {
      OneByte(cp);
    } else if |b| == 2 {
      Unique2(cp, b[0] as int - 0xC0, b[1] as int - 0x80);
    } else if |b| == 3 {
      Unique3(cp, b[0] as int - 0xE0, b[1] as int - 0x80, b[2] as int - 0x80);
    } else {
      Unique4(cp, b[0] as int - 0xF0, b[1] as int - 0x80, b[2] as int - 0x80, b[3] as int - 0x80);
    }
  }

  lemma OneByte(cp: CodePoint)
    ensures cp < 0x80 ==> Utf8(cp) == [cp as char]
  {
  }

  /** The bytes pushed for a code point are its UTF-8 form, and the only one. */
  lemma Utf8IsTheEncoding(cp: CodePoint, b: Bytes)
    ensures FromUtf8(b) == Some(cp) <==> b == Utf8(cp)
  {
    Utf8Decodes(cp);
    if FromUtf8(b) == Some(cp) { Utf8Unique(cp, b); }
  }

  /** The four texts of RFC 3629, section 7. */
  lemma Utf8Examples()
    ensures Utf8(0x41) == [0x41 as char] && Utf8(0x2262) == [0xE2 as char, 0x89 as char, 0xA2 as char]
    ensures Utf8(0x391) == [0xCE as char, 0x91 as char] && Utf8(0x2E) == [0x2E as char]
    ensures Utf8(0xD55C) == [0xED as char, 0x95 as char, 0x9C as char]
    ensures Utf8(0x65E5) == [0xE6 as char, 0x97 as char, 0xA5 as char]
    ensures Utf8(0xFEFF) == [0xEF as char, 0xBB as char, 0xBF as char]
    ensures Utf8(0x233B4) == [0xF0 as char, 0xA3 as char, 0x8E as char, 0xB4 as char]
  {
  }

  function Utf8All(cps: seq<CodePoint>): Bytes {
    if cps == [] then [] else Utf8(cps[0]) + Utf8All(cps[1..])
  }

  /** RFC 2781, section 2.2, except that an unpaired surrogate stays as it is. */
  function FromUtf16(us: seq<Unit>): seq<CodePoint> {
    if us == [] then []
    else if |us| >= 2 && IsHigh(us[0]) && IsLow(us[1]) then
      [Combine(us[0], us[1])] + FromUtf16(us[2..])
    else [us[0]] + FromUtf16(us[1..])
  }

  /** Every unpaired surrogate becomes U+FFFD. */
  function Repair(cps: seq<CodePoint>): (r: seq<Scalar>)
    ensures |r| == |cps|
  {
    if cps == [] then []
    else [if IsSurrogate(cps[0]) then REPLACEMENT else cps[0]] + Repair(cps[1..])
  }

  /** Place by place, with the bounds of the surrogate range and the replacement character written out. */
  lemma {:induction false} RepairIs(cps: seq<CodePoint>, k: nat)
    requires k < |cps|
    ensures Repair(cps)[k] == if 0xD800 <= cps[k] < 0xE000 then 0xFFFD else cps[k]
  {
    if k > 0 { RepairIs(cps[1..], k - 1); }
  }

  /** RFC 2781, section 2.1. */
  function ToUtf16(c: Scalar): seq<Unit> {
    if c <= 0xFFFF then [c]
    else [0xD800 + (c - 0x10000) / 0x400, 0xDC00 + (c - 0x10000) % 0x400]
  }

  function HexDigit(c: char): Option<nat> {
    if '0' <= c <= '9' then Some(c as int - '0' as int)
    else if 'a' <= c <= 'f' then Some(c as int - 'a' as int + 10)
    else if 'A' <= c <= 'F' then Some(c as int - 'A' as int + 10)
    else None
  }

  /** The sixteen digits in both cases. */
  lemma HexDigitOf(d: nat, c: char)
    requires d < 16
    ensures HexDigit("0123456789abcdef"[d]) == Some(d) == HexDigit("0123456789ABCDEF"[d])
    ensures HexDigit(c) == Some(d) <==> c == "0123456789abcdef"[d] || c == "0123456789ABCDEF"[d]
  {
  }

  /** And no other byte. */
  lemma HexDigitIs(c: char)
    ensures HexDigit(c) == None <==>
      forall d: nat | d < 16 :: c != "0123456789abcdef"[d] && c != "0123456789ABCDEF"[d]
  {
    forall d: nat | d < 16
      ensures HexDigit(c) == Some(d) <==> c == "0123456789abcdef"[d] || c == "0123456789ABCDEF"[d]
    {
      HexDigitOf(d, c);
    }
    HexDigitSmall(c);
    hide HexDigit;
  }

  lemma HexDigitSmall(c: char)
    ensures HexDigit(c).Some? ==> HexDigit(c).value < 16
  {
  }

  /** The value of `n` hex digits from `i`, or the first bad one ends it. */
  function HexValue(s: Bytes, i: nat, n: nat): (r: Option<nat>)
    requires i + n <= |s|
    ensures r.Some? && n == 4 ==> r.value < 0x10000
    ensures r.Some? && n == 3 ==> r.value < 0x1000
    ensures r.Some? && n == 2 ==> r.value < 0x100
    ensures r.Some? && n == 1 ==> r.value < 0x10
    ensures r.Some? && n == 0 ==> r.value == 0
    decreases |s|, n
  {
    if n == 0 then Some(0)
    else match HexValue(s, i, n - 1)
      case None => None
      case Some(v) =>
        match HexDigit(s[i + n - 1])
        case None => None
        case Some(d) => Some(v * 16 + d)
  }
}
