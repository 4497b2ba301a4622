/** Texts in their UTF-8 form: where each scalar starts, and that the form determines the text. */
module Utf8Text {
  import opened Strings
  import opened Unicode

  // --- offsets in the UTF-8 form of a text -------------------------------------------

  lemma {:induction false} Utf8Joins(a: seq<CodePoint>, b: seq<CodePoint>)
    ensures Utf8All(a + b) == Utf8All(a) + Utf8All(b)
  {
    if a == [] {
      assert a + b == b;
    } else {
      assert (a + b)[1..] == a[1..] + b;
      Utf8Joins(a[1..], b);
    }
  }

  /** Where scalar `k` starts in the UTF-8 form of `t`. */
  function Off(t: seq<Scalar>, k: nat): (o: nat)
    requires k <= |t|
    ensures o <= |Utf8All(t)|
  {
    assert t == t[..k] + t[k..];
    Utf8Joins(t[..k], t[k..]);
    |Utf8All(t[..k])|
  }

  lemma OffEnd(t: seq<Scalar>)
    ensures Off(t, |t|) == |Utf8All(t)|
  {
    assert t[..|t|] == t;
  }

  lemma Utf8Cons(c: CodePoint, rest: seq<CodePoint>)
    ensures Utf8All([c] + rest) == Utf8(c) + Utf8All(rest)
    ensures Utf8All([c]) == Utf8(c)
  {
    hide Utf8;
    assert ([c] + rest)[1..] == rest;
    assert Utf8(c) + [] == Utf8(c);
  }

  lemma Utf8Middle(a: seq<CodePoint>, c: CodePoint, b: seq<CodePoint>)
    ensures Utf8All(a + [c]) == Utf8All(a) + Utf8(c)
    ensures Utf8All(a + ([c] + b)) == Utf8All(a) + (Utf8(c) + Utf8All(b))
  {
    hide Utf8;
    hide Utf8All;
    Utf8Joins(a, [c]);
    Utf8Joins(a, [c] + b);
    Utf8Cons(c, b);
  }

  lemma CutAt<T>(t: seq<T>, k: nat)
    requires k < |t|
    ensures t[..k + 1] == t[..k] + [t[k]] && t == t[..k] + ([t[k]] + t[k + 1..])
  {
  }

  lemma Utf8Cut(t: seq<Scalar>, k: nat)
    requires k < |t|
    ensures Utf8All(t[..k + 1]) == Utf8All(t[..k]) + Utf8(t[k])
    ensures Utf8All(t) == Utf8All(t[..k]) + (Utf8(t[k]) + Utf8All(t[k + 1..]))
  {
    hide Utf8;
    hide Utf8All;
    CutAt(t, k);
    Utf8Middle(t[..k], t[k], t[k + 1..]);
  }

  lemma AtMiddle(a: Bytes, b: Bytes, c: Bytes)
    ensures At(a + (b + c), |a|, b)
  {
    hide At;
    AtAll(a + (b + c));
    AtSplit(a + (b + c), 0, a, b + c);
    AtSplit(a + (b + c), |a|, b, c);
  }

  lemma AtAll(s: Bytes)
    ensures At(s, 0, s)
  {
  }

  lemma OffStep(t: seq<Scalar>, k: nat)
    requires k < |t|
    ensures Off(t, k + 1) == Off(t, k) + |Utf8(t[k])|
    ensures At(Utf8All(t), Off(t, k), Utf8(t[k]))
    ensures Off(t, k) < |Utf8All(t)| && (t[k] < 0x80 <==> Utf8All(t)[Off(t, k)] as int < 0x80)
    ensures t[k] < 0x80 ==> Off(t, k + 1) == Off(t, k) + 1 && Utf8All(t)[Off(t, k)] == t[k] as char
  {
    hide Utf8All;
    hide At;
    Utf8Cut(t, k);
    AtMiddle(Utf8All(t[..k]), Utf8(t[k]), Utf8All(t[k + 1..]));
    AtByte(Utf8All(t), |Utf8All(t[..k])|, Utf8(t[k]), 0);
  }

  // --- the form determines the text ------------------------------------------------------

  /** The first byte tells how many follow. */
  lemma Utf8Length(c: CodePoint, d: CodePoint)
    requires Utf8(c)[0] == Utf8(d)[0]
    ensures |Utf8(c)| == |Utf8(d)|
  {
  }

  lemma Utf8AllEmpty(a: seq<CodePoint>)
    ensures Utf8All(a) == [] <==> a == []
  {
  }

  /** A byte string is the UTF-8 form of at most one list of code points. */
  lemma {:induction false} Utf8AllInjective(a: seq<CodePoint>, b: seq<CodePoint>)
    requires Utf8All(a) == Utf8All(b)
    ensures a == b
    decreases |a|
  {
    hide Utf8;
    Utf8AllEmpty(a);
    Utf8AllEmpty(b);
    if a != [] {
      var x, y := Utf8(a[0]), Utf8(b[0]);
      assert (x + Utf8All(a[1..]))[0] == (y + Utf8All(b[1..]))[0];
      Utf8Length(a[0], b[0]);
      SplitSame(x, Utf8All(a[1..]), y, Utf8All(b[1..]));
      Utf8Decodes(a[0]);
      Utf8Decodes(b[0]);
      Utf8AllInjective(a[1..], b[1..]);
      assert a == [a[0]] + a[1..] && b == [b[0]] + b[1..];
    }
  }

  lemma SplitSame(x: Bytes, p: Bytes, y: Bytes, q: Bytes)
    requires x + p == y + q && |x| == |y|
    ensures x == y && p == q
  {
    assert (x + p)[..|x|] == x && (y + q)[..|y|] == y;
    assert (x + p)[|x|..] == p && (y + q)[|y|..] == q;
  }

  // --- which byte strings are texts ------------------------------------------------------

  /** The bytes are a sequence of Unicode characters in UTF-8. */
  ghost predicate IsText(s: Bytes) {
    exists t: seq<Scalar> :: Utf8All(t) == s
  }

  /** How many bytes a first byte announces; 0 for one that starts nothing. */
  function LeadLength(c: char): nat {
    if c as int < 0x80 then 1
    else if 0xC2 <= c as int < 0xE0 then 2
    else if 0xE0 <= c as int < 0xF0 then 3
    else if 0xF0 <= c as int < 0xF5 then 4
    else 0
  }

  /** The bytes stand for one character. */
  predicate IsCharacter(b: Bytes) { FromUtf8(b).Some? && !IsSurrogate(FromUtf8(b).value) }

  /** The same, byte by byte: one whole character after the other. */
  predicate WellFormedUtf8(s: Bytes)
    decreases |s|
  {
    s == [] ||
    (var n := LeadLength(s[0]);
     0 < n <= |s| && IsCharacter(s[..n]) && WellFormedUtf8(s[n..]))
  }

  lemma LeadIs(c: CodePoint)
    ensures LeadLength(Utf8(c)[0]) == |Utf8(c)|
  {
  }

  lemma {:induction false} TextsWellFormed(t: seq<Scalar>)
    ensures WellFormedUtf8(Utf8All(t))
  {
    hide Utf8;
    hide FromUtf8;
    if t != [] {
      var x, rest := Utf8(t[0]), Utf8All(t[1..]);
      LeadIs(t[0]);
      Utf8Decodes(t[0]);
      TextsWellFormed(t[1..]);
      assert Utf8All(t) == x + rest && (x + rest)[0] == x[0];
      assert (x + rest)[..|x|] == x && (x + rest)[|x|..] == rest;
    }
  }

  lemma {:induction false} TextOf(s: Bytes) returns (t: seq<Scalar>)
    requires WellFormedUtf8(s)
    ensures Utf8All(t) == s
    decreases |s|
  {
    hide Utf8;
    hide FromUtf8;
    hide LeadLength;
    t := [];
    if s != [] {
      var n := LeadLength(s[0]);
      var c: Scalar := FromUtf8(s[..n]).value;
      var rest := TextOf(s[n..]);
      Utf8Unique(c, s[..n]);
      Utf8Cons(c, rest);
      t := [c] + rest;
      assert s == s[..n] + s[n..];
    }
  }

  lemma WellFormedIs(s: Bytes)
    ensures WellFormedUtf8(s) <==> IsText(s)
  {
    hide WellFormedUtf8;
    hide Utf8All;
    if WellFormedUtf8(s) { var t := TextOf(s); }
    if t: seq<Scalar> :| Utf8All(t) == s { TextsWellFormed(t); }
  }

  predicate IsAscii(c: char) { c as int < 0x80 }

  lemma AsciiStart(c: char, rest: Bytes)
    requires IsAscii(c)
    ensures WellFormedUtf8([c] + rest) <==> WellFormedUtf8(rest)
  {
    var s := [c] + rest;
    assert s[..1] == [c] && s[1..] == rest;
  }

  lemma {:induction false} AsciiPrefix(a: Bytes, rest: Bytes)
    requires forall k | 0 <= k < |a| :: IsAscii(a[k])
    ensures WellFormedUtf8(a + rest) <==> WellFormedUtf8(rest)
  {
    hide WellFormedUtf8;
    hide IsAscii;
    if a == [] {
      assert a + rest == rest;
    } else {
      AsciiPrefix(a[1..], rest);
      AsciiStart(a[0], a[1..] + rest);
      assert a + rest == [a[0]] + (a[1..] + rest);
    }
  }

  /** An ASCII byte after the first cannot be inside a character. */
  lemma NoAsciiInside(b: Bytes, k: nat)
    requires 0 < k < |b| && IsAscii(b[k])
    ensures FromUtf8(b) == None
  {
  }

  /** Before an ASCII byte, or the end, a byte string cuts only between characters. */
  lemma {:induction false} CutsBetween(a: Bytes, rest: Bytes)
    requires rest == [] || IsAscii(rest[0])
    ensures WellFormedUtf8(a + rest) <==> WellFormedUtf8(a) && WellFormedUtf8(rest)
    decreases |a|
  {
    hide FromUtf8;
    hide LeadLength;
    if a == [] {
      assert a + rest == rest;
    } else {
      var n, s := LeadLength(a[0]), a + rest;
      if 0 < n <= |a| {
        assert s[..n] == a[..n] && s[n..] == a[n..] + rest;
        CutsBetween(a[n..], rest);
      } else if 0 < n <= |s| {
        NoAsciiInside(s[..n], |a|);
      }
    }
  }
}
