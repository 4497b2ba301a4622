/** Nearest-neighbour answers: what re-sorting the backend's hits gives, against a full scan. */
module Nearest {
  import opened Strings
  import opened StableSort

  datatype Hit = Hit(key: Bytes, distance: real)

  /** Nearest first, ties by key, as the search action sorts. */
  function ByDistance(): ((Hit, Hit) -> int) {
    (a: Hit, b: Hit) =>
      if a.distance < b.distance then -1 else if a.distance > b.distance then 1 else Compare(a.key, b.key)
  }

  /** Nearest first, ties by another order of keys, as the scanning reference sorts. */
  function ByDistanceThen(keys: (Bytes, Bytes) -> int): ((Hit, Hit) -> int) {
    (a: Hit, b: Hit) =>
      if a.distance < b.distance then -1 else if a.distance > b.distance then 1 else keys(a.key, b.key)
  }

  lemma ByDistanceTotal()
    ensures TotalPreorder(ByDistance())
  {
    var cmp := ByDistance();
    forall a, b ensures cmp(a, b) < 0 <==> cmp(b, a) > 0 { CompareFlips(a.key, b.key); }
    forall a, b, c | cmp(a, b) <= 0 && cmp(b, c) <= 0 ensures cmp(a, c) <= 0 {
      if a.distance == b.distance == c.distance { CompareTransitive(a.key, b.key, c.key); }
    }
  }

  lemma ByDistanceThenTotal(keys: (Bytes, Bytes) -> int)
    requires TotalPreorder(keys)
    ensures TotalPreorder(ByDistanceThen(keys))
  {
    var cmp := ByDistanceThen(keys);
    forall a, b ensures cmp(a, b) < 0 <==> cmp(b, a) > 0 {
      assert keys(a.key, b.key) < 0 <==> keys(b.key, a.key) > 0;
    }
    forall a, b, c | cmp(a, b) <= 0 && cmp(b, c) <= 0 ensures cmp(a, c) <= 0 {
      if a.distance == b.distance == c.distance { assert keys(a.key, b.key) <= 0 && keys(b.key, c.key) <= 0; }
    }
  }

  // --- arrangements ------------------------------------------------------------------

  predicate DistinctKeys(hits: seq<Hit>) {
    forall i, j | 0 <= i < j < |hits| :: hits[i].key != hits[j].key
  }

  predicate NearestFirst(hits: seq<Hit>) {
    forall i, j | 0 <= i < j < |hits| :: hits[i].distance <= hits[j].distance
  }

  function Distances(hits: seq<Hit>): seq<real> {
    seq(|hits|, k requires 0 <= k < |hits| => hits[k].distance)
  }

  function Elements(hits: seq<Hit>): set<Hit> { set h | h in hits }

  lemma {:induction false} ElementsSize(hits: seq<Hit>)
    requires DistinctKeys(hits)
    ensures |Elements(hits)| == |hits|
  {
    if hits != [] {
      ElementsSize(hits[1..]);
      assert Elements(hits) == {hits[0]} + Elements(hits[1..]);
      assert hits[0] !in hits[1..];
    }
  }

  lemma {:induction false} SubsetSize(a: set<Hit>, b: set<Hit>)
    requires a <= b
    ensures |a| <= |b|
  {
    if a != {} {
      var x :| x in a;
      SubsetSize(a - {x}, b - {x});
    }
  }

  /** Of more hits than there are others, one is not among the others. */
  lemma OneMissing(more: seq<Hit>, fewer: seq<Hit>) returns (h: Hit)
    requires DistinctKeys(more) && DistinctKeys(fewer) && |more| > |fewer|
    ensures h in more && h !in fewer
  {
    ElementsSize(more);
    ElementsSize(fewer);
    if Elements(more) <= Elements(fewer) { SubsetSize(Elements(more), Elements(fewer)); }
    h :| h in Elements(more) && h !in Elements(fewer);
  }

  /** What is asked of the backend: `found` are some of `all`, and nothing left out is nearer than
      something returned. */
  ghost predicate Returned(all: seq<Hit>, found: seq<Hit>) {
    && (forall h | h in found :: h in all)
    && (forall h, f | h in all && h !in found && f in found :: f.distance <= h.distance)
  }

  lemma AmongFirst(xs: seq<Hit>, h: Hit, i: nat)
    requires NearestFirst(xs) && i < |xs| && h in xs[..i + 1]
    ensures h in xs && h.distance <= xs[i].distance
  {
    var m :| 0 <= m < i + 1 && xs[..i + 1][m] == h;
    assert xs[m] == h;
  }

  lemma AfterFirst(xs: seq<Hit>, h: Hit, i: nat)
    requires NearestFirst(xs) && i < |xs| && h in xs && h !in xs[..i]
    ensures h.distance >= xs[i].distance
  {
    var m :| 0 <= m < |xs| && xs[m] == h;
    assert forall j | 0 <= j < i :: xs[j] == xs[..i][j] && xs[j] in xs[..i];
  }

  lemma FirstDistinct(xs: seq<Hit>, i: nat)
    requires DistinctKeys(xs) && i <= |xs|
    ensures DistinctKeys(xs[..i])
  {
  }

  lemma NotFarther(all: seq<Hit>, found: seq<Hit>, i: nat)
    requires DistinctKeys(all) && DistinctKeys(found) && NearestFirst(all) && NearestFirst(found)
    requires Returned(all, found) && i < |found| <= |all|
    ensures found[i].distance <= all[i].distance
  {
    hide DistinctKeys;
    hide NearestFirst;
    FirstDistinct(all, i + 1);
    FirstDistinct(found, i);
    var h := OneMissing(all[..i + 1], found[..i]);
    AmongFirst(all, h, i);
    assert found[i] in found;
    if h in found { AfterFirst(found, h, i); }
  }

  lemma NotNearer(all: seq<Hit>, found: seq<Hit>, i: nat)
    requires DistinctKeys(all) && DistinctKeys(found) && NearestFirst(all) && NearestFirst(found)
    requires Returned(all, found) && i < |found| <= |all|
    ensures found[i].distance >= all[i].distance
  {
    hide DistinctKeys;
    hide NearestFirst;
    FirstDistinct(found, i + 1);
    FirstDistinct(all, i);
    var h := OneMissing(found[..i + 1], all[..i]);
    AmongFirst(found, h, i);
    AfterFirst(all, h, i);
  }

  /** Position by position, the hits nearest first are as far as the nearest of all entries. */
  lemma SameDistance(all: seq<Hit>, found: seq<Hit>, i: nat)
    requires DistinctKeys(all) && DistinctKeys(found) && NearestFirst(all) && NearestFirst(found)
    requires Returned(all, found) && i < |found| <= |all|
    ensures found[i].distance == all[i].distance
  {
    NotFarther(all, found, i);
    NotNearer(all, found, i);
  }

  lemma BeforeGap(all: seq<Hit>, found: seq<Hit>, h: Hit)
    requires DistinctKeys(all) && DistinctKeys(found) && NearestFirst(all) && NearestFirst(found)
    requires Returned(all, found) && |found| <= |all| && h in found
    requires |found| < |all| ==> all[|found| - 1].distance < all[|found|].distance
    ensures h in all[..|found|]
  {
    hide DistinctKeys;
    hide NearestFirst;
    var n := |found|;
    assert h in all;
    if n < |all| {
      SameDistance(all, found, n - 1);
      assert found[..n] == found;
      AmongFirst(found, h, n - 1);
      if h !in all[..n] { AfterFirst(all, h, n); }
    } else {
      assert all[..n] == all;
    }
  }

  /** With a gap after the last one returned, the same entries come back. */
  lemma SameHits(all: seq<Hit>, found: seq<Hit>)
    requires DistinctKeys(all) && DistinctKeys(found) && NearestFirst(all) && NearestFirst(found)
    requires Returned(all, found) && |found| <= |all|
    requires 0 < |found| < |all| ==> all[|found| - 1].distance < all[|found|].distance
    ensures forall h :: h in found <==> h in all[..|found|]
  {
    var n := |found|;
    forall h | h in found ensures h in all[..n] { BeforeGap(all, found, h); }
    ElementsSize(found);
    ElementsSize(all[..n]);
    SameSet(Elements(found), Elements(all[..n]));
    forall h ensures h in found <==> h in all[..n] {
      assert h in Elements(found) <==> h in Elements(all[..n]);
    }
  }

  lemma SameSet(a: set<Hit>, b: set<Hit>)
    requires a <= b && |a| == |b|
    ensures a == b
  {
    if a != b {
      var x :| x in b && x !in a;
      SubsetSize(a, b - {x});
    }
  }

  // --- the two searches ------------------------------------------------------------------

  /** A sort by distance first is nearest first, keeps keys distinct and keeps the hits. */
  lemma SortedNearestFirst(cmp: (Hit, Hit) -> int, hits: seq<Hit>)
    requires TotalPreorder(cmp) && DistinctKeys(hits)
    requires forall a, b :: cmp(a, b) <= 0 ==> a.distance <= b.distance
    ensures var r := Sorted(cmp, hits);
      |r| == |hits| && NearestFirst(r) && DistinctKeys(r) && forall h :: h in r <==> h in hits
  {
    var r := Sorted(cmp, hits);
    SortedIncreasing(cmp, (a, b) => true, (a, b) => cmp(a, b) <= 0, hits);
    SortedPermutes(cmp, hits);
    SortedLength(cmp, hits);
    assert forall h :: h in r <==> h in multiset(r);
    forall i, j | 0 <= i < j < |r| ensures r[i].distance <= r[j].distance {
      assert cmp(r[i], r[j]) <= 0;
    }
    PermutedDistinct(hits, r);
  }

  lemma TwiceIn(xs: seq<Hit>, i: nat, j: nat)
    requires i < j < |xs| && xs[i] == xs[j]
    ensures multiset(xs)[xs[i]] >= 2
  {
    assert xs == xs[..i] + [xs[i]] + xs[i + 1..j] + [xs[j]] + xs[j + 1..];
  }

  lemma PermutedDistinct(xs: seq<Hit>, ys: seq<Hit>)
    requires DistinctKeys(xs) && multiset(xs) == multiset(ys)
    ensures DistinctKeys(ys)
  {
    forall i, j | 0 <= i < j < |ys| ensures ys[i].key != ys[j].key {
      assert ys[i] in multiset(xs) && ys[j] in multiset(xs);
      if ys[i] == ys[j] {
        TwiceIn(ys, i, j);
        OnceEach(xs, ys[i]);
      }
    }
  }

  /** By distance, and where it is the same in the given order of keys. */
  ghost predicate InOrder(keys: (Bytes, Bytes) -> int, hits: seq<Hit>) {
    forall i, j | 0 <= i < j < |hits| ::
      || hits[i].distance < hits[j].distance
      || (hits[i].distance == hits[j].distance && keys(hits[i].key, hits[j].key) <= 0)
  }

  lemma SortedInOrder(keys: (Bytes, Bytes) -> int, cmp: (Hit, Hit) -> int, hits: seq<Hit>)
    requires TotalPreorder(cmp)
    requires forall a, b :: cmp(a, b) <= 0 ==>
      a.distance < b.distance || (a.distance == b.distance && keys(a.key, b.key) <= 0)
    ensures InOrder(keys, Sorted(cmp, hits)) && multiset(Sorted(cmp, hits)) == multiset(hits)
  {
    hide TotalPreorder;
    SortedIncreasing(cmp, (a, b) => true, (a, b) => cmp(a, b) <= 0, hits);
    SortedPermutes(cmp, hits);
    var r := Sorted(cmp, hits);
    forall i, j | 0 <= i < j < |r| ensures cmp(r[i], r[j]) <= 0 {}
  }

  /** The search action re-sorts what the backend returns for `k` entries. */
  method Search(found: seq<Hit>) returns (hits: seq<Hit>)
    ensures hits == Sorted(ByDistance(), found)
    ensures InOrder((a, b) => Compare(a, b), hits) && multiset(hits) == multiset(found)
  {
    ByDistanceTotal();
    SortedInOrder((a, b) => Compare(a, b), ByDistance(), found);
    var a := new Hit[|found|](i requires 0 <= i < |found| => found[i]);
    assert a[..] == found;
    Sort(ByDistance(), a);
    hits := a[..];
  }

  type Point = seq<real>

  /** Sum of squared differences over the first `n` coordinates. */
  function Squared(a: Point, b: Point, n: nat): real
    requires n <= |a| && n <= |b|
  {
    if n == 0 then 0.0 else Squared(a, b, n - 1) + (a[n - 1] - b[n - 1]) * (a[n - 1] - b[n - 1])
  }

  lemma {:induction false} SquaredJoin(a: Point, b: Point, c: Point, d: Point)
    requires |a| == |b| && |c| == |d|
    ensures Squared(a + c, b + d, |a| + |c|) == Squared(a, b, |a|) + Squared(c, d, |c|)
    decreases |c|
  {
    if c == [] {
      assert a + c == a && b + d == b;
    } else {
      var n := |c| - 1;
      SquaredJoin(a, b, c[..n], d[..n]);
      SquaredCut(a + c, b + d, |a| + n, |a| + n);
      SquaredCut(c, d, n, n);
      assert (a + c)[..|a| + n] == a + c[..n] && (b + d)[..|a| + n] == b + d[..n];
    }
  }

  /** Only the first coordinates count. */
  lemma {:induction false} SquaredCut(a: Point, b: Point, n: nat, m: nat)
    requires n <= m <= |a| && m <= |b|
    ensures Squared(a, b, n) == Squared(a[..m], b[..m], n)
  {
    if n > 0 { SquaredCut(a, b, n - 1, m); }
  }

  /** On a line the square of the difference, over more coordinates the sum, and nothing exactly for points that
      are the same. */
  lemma SquaredIs(a: Point, b: Point, x: real, y: real)
    requires |a| == |b|
    ensures Squared([x], [y], 1) == (x - y) * (x - y) == Squared([y], [x], 1)
    ensures Squared(a + [x], b + [y], |a| + 1) == Squared(a, b, |a|) + (x - y) * (x - y)
    ensures Squared(a, b, |a|) >= 0.0 && (Squared(a, b, |a|) == 0.0 <==> a == b)
  {
    assert (x - y) * (x - y) == (y - x) * (y - x);
    assert Squared([x], [y], 0) == 0.0 == Squared([y], [x], 0);
    SquaredJoin(a, b, [x], [y]);
    SquaredZero(a, b, |a|);
    assert a[..|a|] == a && b[..|a|] == b;
  }

  lemma {:induction false} SquaredZero(a: Point, b: Point, n: nat)
    requires n <= |a| && n <= |b|
    ensures Squared(a, b, n) >= 0.0 && (Squared(a, b, n) == 0.0 <==> a[..n] == b[..n])
  {
    if n > 0 {
      SquaredZero(a, b, n - 1);
      var d := a[n - 1] - b[n - 1];
      var square := d * d;
      assert Squared(a, b, n) == Squared(a, b, n - 1) + square;
      SquareSign(d, square);
      assert a[..n] == a[..n - 1] + [a[n - 1]] && b[..n] == b[..n - 1] + [b[n - 1]];
    }
  }

  /** Numbers of one sign have a positive product. */
  lemma ProductSign(d: real, e: real, p: real)
    requires p == d * e && ((d > 0.0 && e > 0.0) || (d < 0.0 && e < 0.0))
    ensures p > 0.0
  {
  }

  lemma SquareSign(d: real, square: real)
    requires square == d * d
    ensures square >= 0.0 && (square == 0.0 <==> d == 0.0)
  {
    if d != 0.0 { ProductSign(d, d, square); }
  }

  function MinLength(a: Point, b: Point): nat { if |a| < |b| then |a| else |b| }

  /** The distance over the shorter length; `root` stands for `Math.sqrt`. */
  method Euclidean(root: real -> real, a: Point, b: Point) returns (distance: real)
    ensures distance == root(Squared(a, b, MinLength(a, b)))
  {
    var sum := 0.0;
    for i := 0 to MinLength(a, b)
      invariant sum == Squared(a, b, i)
    {
      var d := a[i] - b[i];
      sum := sum + d * d;
    }
    distance := root(sum);
  }

  function Measured(root: real -> real, query: Point, entries: seq<(Bytes, Point)>): seq<Hit> {
    seq(|entries|, k requires 0 <= k < |entries| =>
      Hit(entries[k].0, root(Squared(query, entries[k].1, MinLength(query, entries[k].1)))))
  }

  /** The hit of an entry: its key, and its distance over the coordinates both points have. */
  predicate IsMeasured(root: real -> real, query: Point, entry: (Bytes, Point), h: Hit) {
    var n := if |query| < |entry.1| then |query| else |entry.1|;
    h.key == entry.0 && h.distance == root(Squared(query, entry.1, n))
  }

  lemma MeasuredAt(root: real -> real, query: Point, entries: seq<(Bytes, Point)>, i: nat)
    requires i < |entries|
    ensures |Measured(root, query, entries)| == |entries|
    ensures Measured(root, query, entries)[i] ==
      Hit(entries[i].0, root(Squared(query, entries[i].1, MinLength(query, entries[i].1))))
  {
  }

  lemma ScanLaws(root: real -> real, keys: (Bytes, Bytes) -> int, query: Point, entries: seq<(Bytes, Point)>, k: int)
    requires TotalPreorder(keys)
    ensures |Measured(root, query, entries)| == |entries|
    ensures var hits := Slice(Sorted(ByDistanceThen(keys), Measured(root, query, entries)), k);
      && InOrder(keys, hits) && |hits| == (if 0 < k < |entries| then k else |entries|)
      && forall h | h in hits :: exists i :: 0 <= i < |entries| && IsMeasured(root, query, entries[i], h)
  {
    hide Sorted;
    hide IsMeasured;
    hide TotalPreorder;
    ByDistanceThenTotal(keys);
    SortedInOrder(keys, ByDistanceThen(keys), Measured(root, query, entries));
    SortedLength(ByDistanceThen(keys), Measured(root, query, entries));
    MeasuredAre(root, keys, query, entries);
    var all := Sorted(ByDistanceThen(keys), Measured(root, query, entries));
    assert forall h | h in Slice(all, k) :: h in all;
  }

  lemma MeasuredAre(root: real -> real, keys: (Bytes, Bytes) -> int, query: Point, entries: seq<(Bytes, Point)>)
    ensures var all := Sorted(ByDistanceThen(keys), Measured(root, query, entries));
      forall h | h in all :: exists i :: 0 <= i < |entries| && IsMeasured(root, query, entries[i], h)
  {
    var measured := Measured(root, query, entries);
    SortedPermutes(ByDistanceThen(keys), measured);
    forall h | h in Sorted(ByDistanceThen(keys), measured)
      ensures exists i :: 0 <= i < |entries| && IsMeasured(root, query, entries[i], h)
    {
      assert h in multiset(measured);
      var i :| 0 <= i < |measured| && measured[i] == h;
      assert h == Hit(entries[i].0, root(Squared(query, entries[i].1, MinLength(query, entries[i].1))));
    }
  }

  function Slice(hits: seq<Hit>, k: int): seq<Hit> {
    if 0 < k < |hits| then hits[..k] else hits
  }

  /** The reference: measure every entry, sort, slice. */
  method Scan(root: real -> real, keys: (Bytes, Bytes) -> int, query: Point, entries: seq<(Bytes, Point)>, k: int)
    returns (hits: seq<Hit>)
    requires TotalPreorder(keys)
    ensures hits == Slice(Sorted(ByDistanceThen(keys), Measured(root, query, entries)), k)
    ensures InOrder(keys, hits) && |hits| == if 0 < k < |entries| then k else |entries|
    ensures forall h | h in hits :: exists i :: 0 <= i < |entries| && IsMeasured(root, query, entries[i], h)
  {
    hide Measured;
    hide Sorted;
    ByDistanceThenTotal(keys);
    ScanLaws(root, keys, query, entries, k);
    var measured: seq<Hit> := [];
    for i := 0 to |entries|
      invariant |Measured(root, query, entries)| == |entries|
      invariant |measured| == i && measured == Measured(root, query, entries)[..i]
    {
      var d := Euclidean(root, query, entries[i].1);
      MeasuredAt(root, query, entries, i);
      measured := measured + [Hit(entries[i].0, d)];
    }
    var a := new Hit[|measured|](i requires 0 <= i < |measured| => measured[i]);
    assert a[..] == measured == Measured(root, query, entries);
    Sort(ByDistanceThen(keys), a);
    hits := if 0 < k < a.Length then a[..k] else a[..];
  }

  lemma ReturnedSorted(all: seq<Hit>, found: seq<Hit>, scan: seq<Hit>, hits: seq<Hit>)
    requires Returned(all, found)
    requires (forall h :: h in scan <==> h in all) && (forall h :: h in hits <==> h in found)
    ensures Returned(scan, hits)
  {
  }

  /** How many entries are asked for: `k`, or all when `k` is not positive or too large. */
  function Wanted(k: int, n: nat): nat { if 0 < k < n then k else n }

  /** Nothing after the `k`-th of the arranged entries is as near as it. */
  predicate GapAfter(scan: seq<Hit>, k: int) {
    0 < k < |scan| ==> scan[k - 1].distance < scan[k].distance
  }

  /** A full scan and what the backend returns, both sorted nearest first. */
  ghost predicate Arranged(scan: seq<Hit>, hits: seq<Hit>) {
    && DistinctKeys(scan) && DistinctKeys(hits) && NearestFirst(scan) && NearestFirst(hits)
    && Returned(scan, hits)
  }

  lemma SortsArrange(scanOrder: (Hit, Hit) -> int, all: seq<Hit>, found: seq<Hit>)
    requires TotalPreorder(scanOrder) && forall a, b :: scanOrder(a, b) <= 0 ==> a.distance <= b.distance
    requires DistinctKeys(all) && DistinctKeys(found) && Returned(all, found)
    ensures var scan, hits := Sorted(scanOrder, all), Sorted(ByDistance(), found);
      |scan| == |all| && |hits| == |found| && Arranged(scan, hits)
  {
    hide Sorted;
    hide DistinctKeys;
    hide NearestFirst;
    hide TotalPreorder;
    hide Returned;
    ByDistanceTotal();
    SortedNearestFirst(ByDistance(), found);
    SortedNearestFirst(scanOrder, all);
    ReturnedSorted(all, found, Sorted(scanOrder, all), Sorted(ByDistance(), found));
  }

  lemma CutsAgree(scan: seq<Hit>, hits: seq<Hit>, k: int)
    requires Arranged(scan, hits) && |hits| == Wanted(k, |scan|)
    ensures Distances(hits) == Distances(Slice(scan, k))
    ensures GapAfter(scan, k) ==> forall h :: h in hits <==> h in Slice(scan, k)
  {
    hide Returned;
    hide DistinctKeys;
    hide NearestFirst;
    hide Slice;
    SliceIs(scan, k, |hits|);
    forall i | 0 <= i < |hits| ensures hits[i].distance == scan[i].distance { SameDistance(scan, hits, i); }
    if GapAfter(scan, k) { SameHits(scan, hits); }
  }

  /** Whatever `min(k, n)` entries the backend returns, as long as nothing left out is nearer, the
      search's distances are those of the full scan cut at `k`, however the scan breaks ties; and the
      entries are the same ones when there is a gap after the `k`-th. */
  lemma SearchMatchesScan(keys: (Bytes, Bytes) -> int, all: seq<Hit>, found: seq<Hit>, k: int)
    requires TotalPreorder(keys) && DistinctKeys(all) && DistinctKeys(found) && Returned(all, found)
    requires |found| == Wanted(k, |all|)
    ensures var scan, hits := Sorted(ByDistanceThen(keys), all), Sorted(ByDistance(), found);
      && Distances(hits) == Distances(Slice(scan, k))
      && (GapAfter(scan, k) ==> forall h :: h in hits <==> h in Slice(scan, k))
  {
    hide Sorted;
    hide Returned;
    hide DistinctKeys;
    hide Arranged;
    hide TotalPreorder;
    hide Slice;
    hide Distances;
    hide GapAfter;
    ByDistanceThenTotal(keys);
    SortsArrange(ByDistanceThen(keys), all, found);
    CutsAgree(Sorted(ByDistanceThen(keys), all), Sorted(ByDistance(), found), k);
  }

  /** The cut keeps the first `k`, or all when `k` is not positive or too large. */
  lemma SliceKeeps(hits: seq<Hit>, k: int)
    ensures Slice(hits, k) <= hits
    ensures k > 0 ==> |Slice(hits, k)| <= k && (|Slice(hits, k)| < k ==> Slice(hits, k) == hits)
    ensures k <= 0 ==> Slice(hits, k) == hits
    ensures Wanted(k, |hits|) == |Slice(hits, k)|
  {
  }

  /** There is a gap after the `k`-th when nothing up to it is as far as anything after it. */
  lemma GapIs(scan: seq<Hit>, k: int)
    requires NearestFirst(scan)
    ensures GapAfter(scan, k) <==>
      forall h, g | h in Slice(scan, k) && g in scan[|Slice(scan, k)|..] :: h.distance < g.distance
  {
    var cut := Slice(scan, k);
    if 0 < k < |scan| {
      assert cut[k - 1] == scan[k - 1] && scan[k..][0] == scan[k];
      assert scan[k - 1] in cut && scan[k] in scan[k..];
    }
  }

  /** A backend that scans returns what is asked of it. */
  lemma ScanServes(cmp: (Hit, Hit) -> int, all: seq<Hit>, k: int)
    requires TotalPreorder(cmp) && DistinctKeys(all)
    requires forall a, b :: cmp(a, b) <= 0 ==> a.distance <= b.distance
    ensures var found := Slice(Sorted(cmp, all), k);
      DistinctKeys(found) && Returned(all, found) && |found| == Wanted(k, |all|)
  {
    hide TotalPreorder;
    hide Sorted;
    SortedNearestFirst(cmp, all);
    var scan := Sorted(cmp, all);
    var found := Slice(scan, k);
    forall h, f | h in all && h !in found && f in found ensures f.distance <= h.distance {
      var i :| 0 <= i < |found| && found[i] == f;
      var j :| 0 <= j < |scan| && scan[j] == h;
      assert forall m | 0 <= m < |found| :: found[m] == scan[m] && found[m] in found;
    }
  }

  lemma SliceIs(hits: seq<Hit>, k: int, n: nat)
    requires n == Wanted(k, |hits|)
    ensures Slice(hits, k) == hits[..n]
  {
  }

  lemma SameCut(scan: seq<Hit>, hits: seq<Hit>, k: int)
    requires Arranged(scan, hits) && |hits| == Wanted(k, |scan|) && GapAfter(scan, k)
    ensures Slice(scan, k) == scan[..|hits|] && multiset(hits) == multiset(Slice(scan, k))
  {
    hide Returned;
    hide NearestFirst;
    hide Slice;
    SliceIs(scan, k, |hits|);
    SameHits(scan, hits);
    SameMultiset(hits, scan[..|hits|]);
  }

  /** With the same tie order, a gap makes the whole answers equal. */
  lemma SearchEqualsScan(all: seq<Hit>, found: seq<Hit>, k: int)
    requires DistinctKeys(all) && DistinctKeys(found) && Returned(all, found)
    requires |found| == Wanted(k, |all|) && GapAfter(Sorted(ByDistance(), all), k)
    ensures Sorted(ByDistance(), found) == Slice(Sorted(ByDistance(), all), k)
  {
    hide Sorted;
    hide Returned;
    hide Arranged;
    hide TotalPreorder;
    hide Asymmetric;
    hide Increasing;
    hide Slice;
    hide DistinctKeys;
    hide GapAfter;
    var cmp := ByDistance();
    var scan, hits := Sorted(cmp, all), Sorted(cmp, found);
    ByDistanceTotal();
    SortsArrange(cmp, all, found);
    SameCut(scan, hits, k);
    var less := (a: Hit, b: Hit) => cmp(a, b) < 0;
    StrictlyIncreasing(found);
    StrictlyIncreasing(all);
    SortedFacts(cmp, less, scan, hits, Slice(scan, k));
    IncreasingUnique(less, hits, Slice(scan, k));
  }

  lemma SortedFacts(cmp: (Hit, Hit) -> int, less: (Hit, Hit) -> bool, scan: seq<Hit>, hits: seq<Hit>,
                    cut: seq<Hit>)
    requires TotalPreorder(cmp) && (forall a, b :: less(a, b) <==> cmp(a, b) < 0)
    requires |cut| <= |scan| && cut == scan[..|cut|]
    requires forall i, j | 0 <= i < j < |scan| :: cmp(scan[i], scan[j]) < 0
    requires forall i, j | 0 <= i < j < |hits| :: cmp(hits[i], hits[j]) < 0
    ensures Asymmetric(less) && Increasing(less, cut) && Increasing(less, hits)
  {
  }

  lemma StrictlyIncreasing(hits: seq<Hit>)
    requires DistinctKeys(hits)
    ensures var r := Sorted(ByDistance(), hits);
      forall i, j | 0 <= i < j < |r| :: ByDistance()(r[i], r[j]) < 0
  {
    var cmp := ByDistance();
    var r := Sorted(cmp, hits);
    ByDistanceTotal();
    SortedIncreasing(cmp, (a, b) => true, (a, b) => cmp(a, b) <= 0, hits);
    SortedNearestFirst(cmp, hits);
    forall i, j | 0 <= i < j < |r| ensures cmp(r[i], r[j]) < 0 {
      CompareZero(r[i].key, r[j].key);
    }
  }

  lemma {:induction false} SameMultiset(xs: seq<Hit>, ys: seq<Hit>)
    requires DistinctKeys(xs) && DistinctKeys(ys) && forall h :: h in xs <==> h in ys
    ensures multiset(xs) == multiset(ys)
  {
    forall h ensures multiset(xs)[h] == multiset(ys)[h] {
      OnceEach(xs, h);
      OnceEach(ys, h);
    }
  }

  lemma {:induction false} OnceEach(xs: seq<Hit>, h: Hit)
    requires DistinctKeys(xs)
    ensures multiset(xs)[h] == if h in xs then 1 else 0
  {
    if xs != [] {
      OnceEach(xs[1..], h);
      assert xs == [xs[0]] + xs[1..];
      assert xs[0] !in xs[1..];
    }
  }
}
