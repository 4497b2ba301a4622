/** The declared order of JSON values across kinds. */
module ValueOrder {
  import opened Strings
  import opened Json
  import opened JsonSound
  import opened JsonRoundTrip
  import opened StableSort

  function RankOf(v: Value): nat {
    match v
    case Null => 0
    case Bool(_) => 1
    case Num(_) => 2
    case Str(_) => 3
    case Arr(_) => 4
    case Obj(_) => 5
  }

  /** `<` of doubles, infinities included. */
  predicate NumberLess(x: Number, y: Number) {
    match x
    case NegInf => y != NegInf
    case PosInf => false
    case Fin(a) => (match y case Fin(b) => a < b case PosInf => true case NegInf => false)
  }

  function CompareValues(F: Floats, a: Value, b: Value): (c: int)
    ensures -1 <= c <= 1
  {
    if RankOf(a) != RankOf(b) then (if RankOf(a) < RankOf(b) then -1 else 1)
    else match a
      case Null => 0
      case Bool(x) => if x == b.b then 0 else if x then 1 else -1
      case Num(x) => if x == b.n then 0 else if NumberLess(x, b.n) then -1 else 1
      case Str(x) => Compare(x, b.s)
      case _ => Compare(Dump(F, a), Dump(F, b))
  }

  /** Numbers come by size, with the infinities at the ends. */
  lemma NumbersOrdered(F: Floats, x: real, y: real)
    ensures CompareValues(F, Num(Fin(x)), Num(Fin(y))) < 0 <==> x < y
    ensures CompareValues(F, Num(Fin(x)), Num(Fin(y))) == 0 <==> x == y
    ensures CompareValues(F, Num(NegInf), Num(Fin(x))) < 0 && CompareValues(F, Num(Fin(x)), Num(PosInf)) < 0
    ensures CompareValues(F, Num(NegInf), Num(PosInf)) < 0
  {
  }

  /** Null, false, true, numbers, strings, arrays, objects. */
  lemma KindsOrdered(F: Floats, a: Value, b: Value)
    ensures a.Null? && !b.Null? ==> CompareValues(F, a, b) < 0
    ensures a == Bool(false) && b == Bool(true) ==> CompareValues(F, a, b) < 0
    ensures a.Bool? && (b.Num? || b.Str? || b.Arr? || b.Obj?) ==> CompareValues(F, a, b) < 0
    ensures a.Num? && (b.Str? || b.Arr? || b.Obj?) ==> CompareValues(F, a, b) < 0
    ensures a.Str? && (b.Arr? || b.Obj?) ==> CompareValues(F, a, b) < 0
    ensures a.Arr? && b.Obj? ==> CompareValues(F, a, b) < 0
  {
  }

  /** Strings come by the first byte that differs, a proper prefix first; arrays among arrays and objects among
      objects in the same way by their prints. */
  lemma TextsOrdered(F: Floats, a: Value, b: Value)
    ensures a.Str? && b.Str? ==> (CompareValues(F, a, b) < 0 <==> exists k: nat :: FirstLess(a.s, b.s, k))
    ensures (a.Arr? && b.Arr?) || (a.Obj? && b.Obj?) ==>
      (CompareValues(F, a, b) < 0 <==> exists k: nat :: FirstLess(Dump(F, a), Dump(F, b), k))
  {
    hide Dump;
    hide Compare;
    if a.Str? && b.Str? {
      CompareFirst(a.s, b.s);
      assert CompareValues(F, a, b) == Compare(a.s, b.s);
    }
    if (a.Arr? && b.Arr?) || (a.Obj? && b.Obj?) {
      CompareFirst(Dump(F, a), Dump(F, b));
      assert CompareValues(F, a, b) == Compare(Dump(F, a), Dump(F, b));
    }
  }

  lemma ValuesFlip(F: Floats, a: Value, b: Value)
    ensures CompareValues(F, a, b) == -CompareValues(F, b, a)
  {
    if RankOf(a) == RankOf(b) {
      if a.Str? { CompareFlips(a.s, b.s); }
      CompareFlips(Dump(F, a), Dump(F, b));
    }
  }

  lemma ValuesTransitive(F: Floats, a: Value, b: Value, c: Value)
    requires CompareValues(F, a, b) <= 0 && CompareValues(F, b, c) <= 0
    ensures CompareValues(F, a, c) <= 0
    ensures CompareValues(F, a, b) < 0 || CompareValues(F, b, c) < 0 ==> CompareValues(F, a, c) < 0
  {
    hide Dump;
    hide Compare;
    if RankOf(a) == RankOf(b) == RankOf(c) {
      match a
      case Str(x) => CompareTransitive(x, b.s, c.s);
      case Arr(_) => CompareTransitive(Dump(F, a), Dump(F, b), Dump(F, c));
      case Obj(_) => CompareTransitive(Dump(F, a), Dump(F, b), Dump(F, c));
      case _ =>
    }
  }

  /** The comparison in one direction or the other. */
  function Signed(F: Floats, descending: bool): ((Value, Value) -> int) {
    (a, b) => if descending then -CompareValues(F, a, b) else CompareValues(F, a, b)
  }

  /** The order is a total preorder in both directions, over every value. */
  lemma ValuesTotalPreorder(F: Floats, descending: bool)
    ensures TotalPreorder(Signed(F, descending))
  {
    hide CompareValues;
    var cmp := Signed(F, descending);
    forall a, b ensures cmp(a, b) < 0 <==> cmp(b, a) > 0 { ValuesFlip(F, a, b); }
    forall a, b, c | cmp(a, b) <= 0 && cmp(b, c) <= 0 ensures cmp(a, c) <= 0 {
      if descending {
        ValuesFlip(F, a, b);
        ValuesFlip(F, b, c);
        ValuesFlip(F, a, c);
        ValuesTransitive(F, c, b, a);
      } else {
        ValuesTransitive(F, a, b, c);
      }
    }
  }

  /** It calls two values equal exactly when they are the same, or are compound and print alike:
      the same up to infinities inside. */
  lemma ValuesEqual(F: Floats, a: Value, b: Value)
    requires Faithful(F) && WellFormed(a) && WellFormed(b) && Doubles(F, a) && Doubles(F, b)
    ensures CompareValues(F, a, b) == 0 <==>
      a == b || ((a.Arr? || a.Obj?) && RankOf(a) == RankOf(b) && Sanitize(a) == Sanitize(b))
  {
    hide Dump;
    hide Compare;
    if RankOf(a) == RankOf(b) {
      if a.Str? { CompareZero(a.s, b.s); }
      if a.Arr? || a.Obj? {
        CompareZero(Dump(F, a), Dump(F, b));
        DumpInjective(F, a, b);
      }
    }
  }

  /** Over finite numbers it is antisymmetric: only equal values compare as equal. */
  lemma ValuesAntisymmetric(F: Floats, a: Value, b: Value)
    requires Faithful(F) && WellFormed(a) && WellFormed(b) && Doubles(F, a) && Doubles(F, b)
    requires Finite(a) && Finite(b)
    ensures CompareValues(F, a, b) == 0 <==> a == b
  {
    hide CompareValues;
    ValuesEqual(F, a, b);
    SanitizeFinite(a);
    SanitizeFinite(b);
  }
}
