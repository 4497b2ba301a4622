/** Byte strings, their order, and decimal numerals. A byte is a `char` below 256. */
module Strings {

  type Bytes = string

  datatype Option<+T> = None | Some(value: T)

  /** `t` stands in `s` at offset `i`. */
  predicate At(s: Bytes, i: nat, t: Bytes) {
    i + |t| <= |s| && s[i..i + |t|] == t
  }

  lemma AtSplit(s: Bytes, i: nat, a: Bytes, b: Bytes)
    ensures At(s, i, a + b) <==> At(s, i, a) && At(s, i + |a|, b)
  {
    if At(s, i, a + b) {
      assert s[i..i + |a|] == s[i..i + |a + b|][..|a|];
      assert s[i + |a|..i + |a| + |b|] == s[i..i + |a + b|][|a|..];
    }
    if At(s, i, a) && At(s, i + |a|, b) {
      assert s[i..i + |a + b|] == s[i..i + |a|] + s[i + |a|..i + |a| + |b|];
    }
  }

  lemma AtByte(s: Bytes, i: nat, t: Bytes, k: nat)
    requires At(s, i, t) && k < |t|
    ensures i + k < |s| && s[i + k] == t[k]
  {
    assert s[i..i + |t|][k] == s[i + k];
  }

  /** The byte order of `std::string::compare`: -1, 0 or 1. */
  function Compare(a: Bytes, b: Bytes): (c: int)
    ensures -1 <= c <= 1
  {
    if a == [] && b == [] then 0
    else if a == [] then -1
    else if b == [] then 1
    else if a[0] < b[0] then -1
    else if a[0] > b[0] then 1
    else Compare(a[1..], b[1..])
  }

  lemma {:induction false} CompareZero(a: Bytes, b: Bytes)
    ensures Compare(a, b) == 0 <==> a == b
  {
    if a != [] && b != [] && a[0] == b[0] {
      CompareZero(a[1..], b[1..]);
      assert a == [a[0]] + a[1..] && b == [b[0]] + b[1..];
    }
  }

  lemma {:induction false} CompareFlips(a: Bytes, b: Bytes)
    ensures Compare(a, b) == -Compare(b, a)
  {
    if a != [] && b != [] && a[0] == b[0] {
      CompareFlips(a[1..], b[1..]);
    }
  }

  lemma {:induction false} CompareTransitive(a: Bytes, b: Bytes, c: Bytes)
    requires Compare(a, b) <= 0 && Compare(b, c) <= 0
    ensures Compare(a, c) <= 0
    ensures Compare(a, b) < 0 || Compare(b, c) < 0 ==> Compare(a, c) < 0
  {
    if a != [] && b != [] && c != [] && a[0] == b[0] == c[0] {
      CompareTransitive(a[1..], b[1..], c[1..]);
    }
  }

  /** At position `k` the first string ends or has the smaller byte, and before it both are alike. */
  predicate FirstLess(a: Bytes, b: Bytes, k: nat) {
    k <= |a| && k < |b| && a[..k] == b[..k] && (k < |a| ==> a[k] < b[k])
  }

  lemma SameStart(a: Bytes, b: Bytes, k: nat)
    requires FirstLess(a, b, k) && k > 0
    ensures a != [] && b != [] && a[0] == b[0]
  {
    assert a[..k][0] == a[0] && b[..k][0] == b[0];
  }

  /** Bytes decide from the left, and a proper prefix comes first. */
  lemma {:induction false} CompareFirst(a: Bytes, b: Bytes)
    ensures Compare(a, b) < 0 <==> exists k: nat :: FirstLess(a, b, k)
  {
    if a == [] || b == [] || a[0] != b[0] {
      if a != b && (a == [] || (b != [] && a[0] < b[0])) { assert FirstLess(a, b, 0); }
      if k: nat :| FirstLess(a, b, k) {
        if k > 0 { SameStart(a, b, k); }
      }
    } else {
      CompareFirst(a[1..], b[1..]);
      if k: nat :| FirstLess(a[1..], b[1..], k) {
        assert a[..k + 1] == [a[0]] + a[1..][..k] && b[..k + 1] == [b[0]] + b[1..][..k];
        assert FirstLess(a, b, k + 1);
      }
      if k: nat :| FirstLess(a, b, k) {
        assert a[1..][..k - 1] == a[..k][1..] && b[1..][..k - 1] == b[..k][1..];
        assert FirstLess(a[1..], b[1..], k - 1);
      }
    }
  }

  predicate IsDigit(c: char) { '0' <= c <= '9' }

  predicate AllDigits(s: Bytes) {
    forall k | 0 <= k < |s| :: IsDigit(s[k])
  }

  /** `std::to_string` of a non-negative integer. */
  function Digits(n: nat): (s: Bytes)
    ensures |s| > 0 && AllDigits(s)
  {
    var last := [('0' as int + n % 10) as char];
    if n < 10 then last else Digits(n / 10) + last
  }

  /** `std::to_string` of an integer. */
  function Decimal(n: int): Bytes {
    if n < 0 then "-" + Digits(-n) else Digits(n)
  }

  /** What a string of digits denotes. */
  function DigitsValue(s: Bytes): nat
    requires AllDigits(s)
  {
    if s == [] then 0
    else DigitsValue(s[..|s| - 1]) * 10 + (s[|s| - 1] as int - '0' as int)
  }

  /** Optional minus sign and at least one digit. */
  predicate IsIntToken(s: Bytes) {
    var d := if s != [] && s[0] == '-' then s[1..] else s;
    d != [] && AllDigits(d)
  }

  function IntValue(s: Bytes): int
    requires IsIntToken(s)
  {
    if s[0] == '-' then -(DigitsValue(s[1..]) as int) else DigitsValue(s)
  }

  lemma {:induction false} DigitsReadBack(n: nat)
    ensures DigitsValue(Digits(n)) == n
  {
    if n >= 10 {
      var s := Digits(n);
      assert s[..|s| - 1] == Digits(n / 10);
      DigitsReadBack(n / 10);
    }
  }

  /** Printing an integer and reading its digits gives the integer back. */
  lemma DecimalReadsBack(n: int)
    ensures IsIntToken(Decimal(n)) && IntValue(Decimal(n)) == n
  {
    if n < 0 {
      assert Decimal(n)[1..] == Digits(-n);
      DigitsReadBack(-n);
    } else {
      assert IsDigit(Digits(n)[0]);
      DigitsReadBack(n);
    }
  }

  lemma {:induction false} DigitsCanonical(n: nat)
    ensures n > 0 ==> Digits(n)[0] != '0'
    ensures n == 0 ==> Digits(n) == "0"
  {
    if n >= 10 { DigitsCanonical(n / 10); }
  }

  /** No zero is printed in front, and a minus sign only of a negative integer. */
  lemma DecimalCanonical(n: int)
    ensures n == 0 ==> Decimal(n) == "0"
    ensures n > 0 ==> '1' <= Decimal(n)[0] <= '9'
    ensures n < 0 ==> |Decimal(n)| > 1 && Decimal(n)[0] == '-' && '1' <= Decimal(n)[1] <= '9'
  {
    DigitsCanonical(if n < 0 then -n else n);
    assert IsDigit(Digits(if n < 0 then -n else n)[0]);
  }

  /** A digit counts as many times as its place says: what digits denote, read from the left. */
  lemma {:induction false} DigitsPlaces(c: char, s: Bytes)
    requires 0x30 <= c as int < 0x3A && AllDigits(s)
    ensures AllDigits([c] + s) && DigitsValue([c] + s) == (c as int - 0x30) * Power10(|s|) + DigitsValue(s)
    decreases |s|
  {
    if s == "" {
      assert ([c] + s)[..0] == "";
    } else {
      var n := |s| - 1;
      DigitsPlaces(c, s[..n]);
      assert ([c] + s)[..|s|] == [c] + s[..n];
      TenTimes(c as int - 0x30, Power10(n), DigitsValue(s[..n]));
    }
  }

  lemma TenTimes(d: nat, p: nat, v: nat)
    ensures (d * p + v) * 10 == d * (10 * p) + v * 10
  {
  }

  lemma DecimalInjective(m: int, n: int)
    requires Decimal(m) == Decimal(n)
    ensures m == n
  {
    DecimalReadsBack(m);
    DecimalReadsBack(n);
  }

  function Power10(n: nat): (p: int)
    ensures p >= 1
  {
    if n == 0 then 1 else 10 * Power10(n - 1)
  }

  /** One and `n` zeros. */
  function PowerDigits(n: nat): (s: Bytes)
    ensures s != "" && AllDigits(s)
  {
    if n == 0 then "1" else PowerDigits(n - 1) + "0"
  }

  lemma {:induction false} PowerDigitsValue(n: nat)
    ensures DigitsValue(PowerDigits(n)) == Power10(n)
  {
    if n > 0 {
      PowerDigitsValue(n - 1);
      assert PowerDigits(n)[..|PowerDigits(n)| - 1] == PowerDigits(n - 1);
    } else {
      assert PowerDigits(0)[..0] == "";
    }
  }

  lemma {:induction false} Power10Grows(m: nat, n: nat)
    requires m <= n
    ensures Power10(m) <= Power10(n)
  {
    if m < n { Power10Grows(m, n - 1); }
  }
}
