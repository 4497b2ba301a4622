/** `std::stable_sort`: a merge sort in an array, its specification, and what makes it stable. */
module StableSort {

  /** Signs flip with the arguments and "not after" is transitive; any two elements compare. */
  ghost predicate TotalPreorder<T(!new)>(cmp: (T, T) -> int) {
    && (forall a, b :: cmp(a, b) < 0 <==> cmp(b, a) > 0)
    && (forall a, b, c :: cmp(a, b) <= 0 && cmp(b, c) <= 0 ==> cmp(a, c) <= 0)
  }

  /** `x` before the first element it does not come after. */
  function Place<T>(cmp: (T, T) -> int, x: T, ys: seq<T>): seq<T> {
    if ys == [] || cmp(x, ys[0]) <= 0 then [x] + ys else [ys[0]] + Place(cmp, x, ys[1..])
  }

  function Sorted<T>(cmp: (T, T) -> int, xs: seq<T>): (r: seq<T>)
    ensures |xs| <= 1 ==> r == xs
  {
    if xs == [] then [] else Place(cmp, xs[0], Sorted(cmp, xs[1..]))
  }

  /** The head of the left run first, unless the right one's is strictly smaller. */
  function Merge<T>(cmp: (T, T) -> int, a: seq<T>, b: seq<T>): seq<T>
    decreases |a| + |b|
  {
    if a == [] then b
    else if b == [] then a
    else if cmp(b[0], a[0]) < 0 then [b[0]] + Merge(cmp, a, b[1..])
    else [a[0]] + Merge(cmp, a[1..], b)
  }

  // --- merging sorted runs is sorting their concatenation --------------------------

  lemma {:induction false} MergePlace<T(!new)>(cmp: (T, T) -> int, x: T, a: seq<T>, b: seq<T>)
    requires TotalPreorder(cmp)
    ensures Merge(cmp, Place(cmp, x, a), b) == Place(cmp, x, Merge(cmp, a, b))
    decreases |a| + |b|
  {
    var p := Place(cmp, x, a);
    if b == [] {
    } else if a == [] || cmp(x, a[0]) <= 0 {
      assert p[0] == x && p[1..] == a;
      if cmp(b[0], x) < 0 {
        MergePlace(cmp, x, a, b[1..]);
        assert Merge(cmp, a, b) == [b[0]] + Merge(cmp, a, b[1..]);
      }
    } else {
      assert p[0] == a[0] && p[1..] == Place(cmp, x, a[1..]);
      if cmp(b[0], a[0]) < 0 {
        MergePlace(cmp, x, a, b[1..]);
      } else {
        MergePlace(cmp, x, a[1..], b);
      }
    }
  }

  lemma {:induction false} MergeSorted<T(!new)>(cmp: (T, T) -> int, a: seq<T>, b: seq<T>)
    requires TotalPreorder(cmp)
    ensures Merge(cmp, Sorted(cmp, a), Sorted(cmp, b)) == Sorted(cmp, a + b)
  {
    hide Place;
    hide TotalPreorder;
    if a == [] {
      assert a + b == b;
    } else {
      MergeSorted(cmp, a[1..], b);
      MergePlace(cmp, a[0], Sorted(cmp, a[1..]), Sorted(cmp, b));
      assert (a + b)[1..] == a[1..] + b;
    }
  }

  lemma {:induction false} PlaceLength<T>(cmp: (T, T) -> int, x: T, ys: seq<T>)
    ensures |Place(cmp, x, ys)| == |ys| + 1
  {
    if ys != [] { PlaceLength(cmp, x, ys[1..]); }
  }

  lemma {:induction false} SortedLength<T>(cmp: (T, T) -> int, xs: seq<T>)
    ensures |Sorted(cmp, xs)| == |xs|
  {
    if xs != [] {
      SortedLength(cmp, xs[1..]);
      PlaceLength(cmp, xs[0], Sorted(cmp, xs[1..]));
    }
  }

  // --- the sort in place --------------------------------------------------------------

  /** `s` with the elements from `lo` to `hi` replaced by `x`. */
  function Splice<T>(s: seq<T>, lo: nat, hi: nat, x: seq<T>): seq<T>
    requires lo <= hi <= |s|
  {
    s[..lo] + x + s[hi..]
  }

  lemma MergeStep<T(!new)>(cmp: (T, T) -> int, left: seq<T>, i: nat, right: seq<T>, j: nat, out: seq<T>)
    requires i < |left| && j < |right|
    ensures out + Merge(cmp, left[i..], right[j..]) ==
            if cmp(right[j], left[i]) < 0
            then out + [right[j]] + Merge(cmp, left[i..], right[j + 1..])
            else out + [left[i]] + Merge(cmp, left[i + 1..], right[j..])
  {
    var ls, rs := left[i..], right[j..];
    assert ls[1..] == left[i + 1..] && rs[1..] == right[j + 1..];
    if cmp(right[j], left[i]) < 0 {
      assert out + ([rs[0]] + Merge(cmp, ls, rs[1..])) == out + [rs[0]] + Merge(cmp, ls, rs[1..]);
    } else {
      assert out + ([ls[0]] + Merge(cmp, ls[1..], rs)) == out + [ls[0]] + Merge(cmp, ls[1..], rs);
    }
  }

  method MergeRuns<T(!new)>(cmp: (T, T) -> int, left: seq<T>, right: seq<T>) returns (out: seq<T>)
    ensures out == Merge(cmp, left, right)
  {
    out := [];
    var i, j := 0, 0;
    while i < |left| && j < |right|
      invariant i <= |left| && j <= |right|
      invariant out + Merge(cmp, left[i..], right[j..]) == Merge(cmp, left, right)
    {
      hide Merge;
      MergeStep(cmp, left, i, right, j, out);
      if cmp(right[j], left[i]) < 0 {
        out := out + [right[j]];
        j := j + 1;
      } else {
        out := out + [left[i]];
        i := i + 1;
      }
    }
    out := out + left[i..] + right[j..];
  }

  /** Copies a merged buffer back. */
  method WriteBack<T>(a: array<T>, lo: nat, x: seq<T>)
    requires lo + |x| <= a.Length
    modifies a
    ensures a[..] == Splice(old(a[..]), lo, lo + |x|, x)
  {
    for k := 0 to |x|
      invariant forall m | 0 <= m < k :: a[lo + m] == x[m]
      invariant forall m | 0 <= m < a.Length && (m < lo || lo + k <= m) :: a[m] == old(a[m])
    {
      a[lo + k] := x[k];
    }
    ghost var s := Splice(old(a[..]), lo, lo + |x|, x);
    assert |s| == a.Length;
    forall m | 0 <= m < a.Length ensures a[m] == s[m] {
      if lo <= m < lo + |x| { assert a[lo + (m - lo)] == x[m - lo]; }
    }
  }

  lemma SpliceSlices<T>(s: seq<T>, lo: nat, mid: nat, hi: nat, x: seq<T>)
    requires lo <= mid <= hi <= |s|
    ensures |x| == mid - lo ==>
      var r := Splice(s, lo, mid, x); |r| == |s| && r[lo..mid] == x && r[mid..hi] == s[mid..hi]
    ensures |x| == hi - mid ==>
      var r := Splice(s, mid, hi, x); |r| == |s| && r[lo..mid] == s[lo..mid] && r[mid..hi] == x
  {
  }

  lemma SpliceTwice<T>(s: seq<T>, lo: nat, mid: nat, hi: nat, x: seq<T>, y: seq<T>, z: seq<T>)
    requires lo <= mid <= hi <= |s| && |x| == mid - lo && |y| == hi - mid && |z| == hi - lo
    ensures |Splice(s, lo, mid, x)| == |s| && |Splice(Splice(s, lo, mid, x), mid, hi, y)| == |s|
    ensures Splice(Splice(Splice(s, lo, mid, x), mid, hi, y), lo, hi, z) == Splice(s, lo, hi, z)
  {
    var a := Splice(s, lo, mid, x);
    var b := Splice(a, mid, hi, y);
    assert b[..lo] == s[..lo] && b[hi..] == s[hi..];
  }

  /** Sorting both halves of a stretch and writing their merge over it sorts the stretch. */
  lemma SortHalves<T(!new)>(cmp: (T, T) -> int, s: seq<T>, lo: nat, mid: nat, hi: nat)
    requires TotalPreorder(cmp) && lo <= mid <= hi <= |s|
    ensures |Sorted(cmp, s[lo..mid])| == mid - lo && |Sorted(cmp, s[mid..hi])| == hi - mid
    ensures var s1 := Splice(s, lo, mid, Sorted(cmp, s[lo..mid]));
      && |s1| == |s| && s1[mid..hi] == s[mid..hi]
      && var s2 := Splice(s1, mid, hi, Sorted(cmp, s[mid..hi]));
         && |s2| == |s|
         && var merged := Merge(cmp, s2[lo..mid], s2[mid..hi]);
            |merged| == hi - lo && Splice(s2, lo, hi, merged) == Splice(s, lo, hi, Sorted(cmp, s[lo..hi]))
  {
    hide Splice;
    hide Sorted;
    hide TotalPreorder;
    var x, y := Sorted(cmp, s[lo..mid]), Sorted(cmp, s[mid..hi]);
    SortedLength(cmp, s[lo..mid]);
    SortedLength(cmp, s[mid..hi]);
    SortedLength(cmp, s[lo..hi]);
    SpliceSlices(s, lo, mid, hi, x);
    SpliceSlices(Splice(s, lo, mid, x), lo, mid, hi, y);
    MergeSorted(cmp, s[lo..mid], s[mid..hi]);
    assert s[lo..mid] + s[mid..hi] == s[lo..hi];
    SpliceTwice(s, lo, mid, hi, x, y, Sorted(cmp, s[lo..hi]));
  }

  method SortRange<T(!new)>(cmp: (T, T) -> int, a: array<T>, lo: nat, hi: nat)
    requires TotalPreorder(cmp)
    requires lo <= hi <= a.Length
    modifies a
    ensures a[..] == Splice(old(a[..]), lo, hi, Sorted(cmp, old(a[..])[lo..hi]))
    decreases hi - lo
  {
    ghost var s := a[..];
    if hi - lo <= 1 {
      assert s == Splice(s, lo, hi, s[lo..hi]);
      return;
    }
    hide Splice;
    hide Sorted;
    hide Merge;
    hide TotalPreorder;
    var mid := lo + (hi - lo) / 2;
    SortHalves(cmp, s, lo, mid, hi);
    SortRange(cmp, a, lo, mid);
    SortRange(cmp, a, mid, hi);
    var merged := MergeRuns(cmp, a[..][lo..mid], a[..][mid..hi]);
    WriteBack(a, lo, merged);
  }

  method Sort<T(!new)>(cmp: (T, T) -> int, a: array<T>)
    requires TotalPreorder(cmp)
    modifies a
    ensures a[..] == Sorted(cmp, old(a[..]))
  {
    SortRange(cmp, a, 0, a.Length);
    assert old(a[..])[0..a.Length] == old(a[..]);
  }

  // --- order, contents and stability -----------------------------------------------------

  lemma {:induction false} PlacePermutes<T>(cmp: (T, T) -> int, x: T, ys: seq<T>)
    ensures multiset(Place(cmp, x, ys)) == multiset{x} + multiset(ys)
  {
    if ys != [] {
      PlacePermutes(cmp, x, ys[1..]);
      assert ys == [ys[0]] + ys[1..];
    }
  }

  lemma {:induction false} SortedPermutes<T>(cmp: (T, T) -> int, xs: seq<T>)
    ensures multiset(Sorted(cmp, xs)) == multiset(xs)
  {
    if xs != [] {
      SortedPermutes(cmp, xs[1..]);
      PlacePermutes(cmp, xs[0], Sorted(cmp, xs[1..]));
      assert xs == [xs[0]] + xs[1..];
    }
  }

  /** Every element before every later one, in the strict order `less`. */
  ghost predicate Increasing<T(!new)>(less: (T, T) -> bool, xs: seq<T>) {
    forall i, j | 0 <= i < j < |xs| :: less(xs[i], xs[j])
  }

  /** `cmp` first, `less` among equals. */
  ghost predicate Refines<T(!new)>(cmp: (T, T) -> int, less: (T, T) -> bool, both: (T, T) -> bool) {
    forall a, b :: both(a, b) <==> cmp(a, b) < 0 || (cmp(a, b) == 0 && less(a, b))
  }

  lemma InFront<T(!new)>(both: (T, T) -> bool, x: T, ys: seq<T>)
    requires Increasing(both, ys) && forall y | y in ys :: both(x, y)
    ensures Increasing(both, [x] + ys)
  {
    var r := [x] + ys;
    forall i, j | 0 <= i < j < |r| ensures both(r[i], r[j]) {
      if i > 0 { assert r[i] == ys[i - 1] && r[j] == ys[j - 1]; }
    }
  }

  lemma BeforeAll<T(!new)>(cmp: (T, T) -> int, less: (T, T) -> bool, both: (T, T) -> bool, x: T, ys: seq<T>)
    requires TotalPreorder(cmp) && Refines(cmp, less, both)
    requires ys != [] && Increasing(both, ys) && cmp(x, ys[0]) <= 0 && forall y | y in ys :: less(x, y)
    ensures forall y | y in ys :: both(x, y)
  {
    forall y | y in ys ensures both(x, y) {
      var k :| 0 <= k < |ys| && ys[k] == y;
      if k > 0 { assert both(ys[0], ys[k]); }
      assert cmp(x, y) <= 0;
    }
  }

  lemma {:induction false} PlaceIncreasing<T(!new)>(cmp: (T, T) -> int, less: (T, T) -> bool,
                                                    both: (T, T) -> bool, x: T, ys: seq<T>)
    requires TotalPreorder(cmp) && Refines(cmp, less, both)
    requires Increasing(both, ys) && forall y | y in ys :: less(x, y)
    ensures Increasing(both, Place(cmp, x, ys))
  {
    if ys == [] {
    } else if cmp(x, ys[0]) <= 0 {
      BeforeAll(cmp, less, both, x, ys);
      InFront(both, x, ys);
    } else {
      PlaceIncreasing(cmp, less, both, x, ys[1..]);
      PlacePermutes(cmp, x, ys[1..]);
      var rest := Place(cmp, x, ys[1..]);
      forall y | y in rest ensures both(ys[0], y) {
        assert y in multiset(rest);
        if y != x {
          var k :| 0 <= k < |ys[1..]| && ys[1..][k] == y;
          assert both(ys[0], ys[k + 1]);
        }
      }
      InFront(both, ys[0], rest);
    }
  }

  /** A stable sort of a sequence increasing in `less` is increasing in `cmp` first and `less` next. */
  lemma {:induction false} SortedIncreasing<T(!new)>(cmp: (T, T) -> int, less: (T, T) -> bool,
                                                     both: (T, T) -> bool, xs: seq<T>)
    requires TotalPreorder(cmp) && Refines(cmp, less, both) && Increasing(less, xs)
    ensures Increasing(both, Sorted(cmp, xs))
  {
    hide Place;
    hide TotalPreorder;
    hide Refines;
    if xs != [] {
      SortedIncreasing(cmp, less, both, xs[1..]);
      SortedPermutes(cmp, xs[1..]);
      forall y | y in Sorted(cmp, xs[1..]) ensures less(xs[0], y) {
        assert y in multiset(xs[1..]);
        var k :| 0 <= k < |xs[1..]| && xs[1..][k] == y;
        assert less(xs[0], xs[k + 1]);
      }
      PlaceIncreasing(cmp, less, both, xs[0], Sorted(cmp, xs[1..]));
    }
  }

  ghost predicate Asymmetric<T(!new)>(less: (T, T) -> bool) {
    forall a, b :: less(a, b) ==> !less(b, a)
  }

  lemma SameHead<T(!new)>(less: (T, T) -> bool, xs: seq<T>, ys: seq<T>)
    requires Asymmetric(less) && Increasing(less, xs) && Increasing(less, ys)
    requires multiset(xs) == multiset(ys) && xs != [] && ys != []
    ensures xs[0] == ys[0]
  {
    assert xs[0] in multiset(ys);
    var k :| 0 <= k < |ys| && ys[k] == xs[0];
    assert ys[0] in multiset(xs);
    var m :| 0 <= m < |xs| && xs[m] == ys[0];
  }

  lemma IncreasingTail<T(!new)>(less: (T, T) -> bool, xs: seq<T>)
    requires xs != [] && Increasing(less, xs)
    ensures Increasing(less, xs[1..])
  {
  }

  /** There is one increasing arrangement of given elements. */
  lemma {:induction false} IncreasingUnique<T(!new)>(less: (T, T) -> bool, xs: seq<T>, ys: seq<T>)
    requires Asymmetric(less) && Increasing(less, xs) && Increasing(less, ys)
    requires multiset(xs) == multiset(ys)
    ensures xs == ys
  {
    hide Increasing;
    hide Asymmetric;
    assert |multiset(xs)| == |xs| && |multiset(ys)| == |ys|;
    if xs != [] {
      SameHead(less, xs, ys);
      IncreasingTail(less, xs);
      IncreasingTail(less, ys);
      assert xs == [xs[0]] + xs[1..] && ys == [ys[0]] + ys[1..];
      assert multiset(xs[1..]) == multiset(xs) - multiset{xs[0]};
      IncreasingUnique(less, xs[1..], ys[1..]);
    }
  }
}
