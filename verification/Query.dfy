/** The `query` action: filter, one stable sort per order clause from the last to the first, limit. */
module Query {
  import opened Strings
  import opened Json
  import opened JsonSound
  import opened JsonRoundTrip
  import opened ValueOrder
  import opened StableSort

  /** A stored row: its key and its parsed value. */
  type Row = Field

  // --- reading the arguments -----------------------------------------------------

  function AsFields(v: Value): seq<Field> { if v.Obj? then v.fields else [] }

  function AsItems(v: Value): seq<Value> { if v.Arr? then v.items else [] }

  function AsString(v: Value, fallback: Bytes): Bytes { if v.Str? then v.s else fallback }

  /** The cast to `int64_t`, which cuts the fraction off; of infinities nothing is promised. */
  function AsInt(v: Value): int {
    if v.Num? && v.n.Fin? then
      if v.n.r >= 0.0 then v.n.r.Floor else -(-v.n.r).Floor
    else 0
  }

  /** The whole number next to a number on the side of zero. */
  lemma AsIntIs(r: real, n: int)
    ensures AsInt(Num(Fin(r))) == n <==>
      if r >= 0.0 then n as real <= r < n as real + 1.0 else n as real - 1.0 < r <= n as real
  {
  }

  datatype Condition = Condition(field: Bytes, op: Bytes, operand: Value)

  function ConditionsIn(field: Bytes, ops: seq<Field>): seq<Condition> {
    if ops == [] then []
    else [Condition(field, ops[0].key, ops[0].value)] + ConditionsIn(field, ops[1..])
  }

  /** All conditions, in sorted field order and in sorted operator order within a field. */
  function Conditions(fields: seq<Field>): seq<Condition> {
    if fields == [] then []
    else ConditionsIn(fields[0].key, AsFields(fields[0].value)) + Conditions(fields[1..])
  }

  /** Operator `j` of field `i`. */
  predicate ConditionAt(fields: seq<Field>, i: nat, j: nat, c: Condition) {
    && i < |fields| && fields[i].value.Obj? && j < |fields[i].value.fields|
    && c == Condition(fields[i].key, fields[i].value.fields[j].key, fields[i].value.fields[j].value)
  }

  lemma {:induction false} ConditionsInAre(field: Bytes, ops: seq<Field>)
    ensures |ConditionsIn(field, ops)| == |ops|
    ensures forall j | 0 <= j < |ops| :: ConditionsIn(field, ops)[j] == Condition(field, ops[j].key, ops[j].value)
  {
    if ops != [] { ConditionsInAre(field, ops[1..]); }
  }

  /** A field whose value is no object gives no condition, every other one each of its operators. */
  lemma {:induction false} ConditionsAre(fields: seq<Field>, c: Condition)
    ensures c in Conditions(fields) <==> exists i: nat, j: nat :: ConditionAt(fields, i, j, c)
  {
    if fields != [] {
      var first, rest := ConditionsIn(fields[0].key, AsFields(fields[0].value)), fields[1..];
      ConditionsInAre(fields[0].key, AsFields(fields[0].value));
      ConditionsAre(rest, c);
      if c in first {
        var j :| 0 <= j < |first| && first[j] == c;
        assert ConditionAt(fields, 0, j, c);
      }
      if i: nat, j: nat :| ConditionAt(rest, i, j, c) { assert ConditionAt(fields, i + 1, j, c); }
      if i: nat, j: nat :| ConditionAt(fields, i, j, c) {
        if i == 0 { assert first[j] == c; } else { assert ConditionAt(rest, i - 1, j, c); }
      }
    }
  }

  /** `c` comes before `d`: by field, and by operator within a field. */
  predicate ConditionBefore(c: Condition, d: Condition) {
    Compare(c.field, d.field) < 0 || (c.field == d.field && Compare(c.op, d.op) < 0)
  }

  predicate InOrder(cs: seq<Condition>) {
    forall m, n | 0 <= m < n < |cs| :: ConditionBefore(cs[m], cs[n])
  }

  lemma OrderJoins(a: seq<Condition>, b: seq<Condition>)
    requires InOrder(a) && InOrder(b) && forall m, n | 0 <= m < |a| && 0 <= n < |b| :: ConditionBefore(a[m], b[n])
    ensures InOrder(a + b)
  {
    hide ConditionBefore;
  }

  /** They come in the order of their fields, and within a field in the order of its operators. */
  lemma {:induction false} ConditionsOrdered(fields: seq<Field>)
    requires WellFormed(Obj(fields))
    ensures InOrder(Conditions(fields))
  {
    hide Compare;
    if fields != [] {
      var ops, rest := AsFields(fields[0].value), fields[1..];
      assert WellFormed(Obj(rest));
      ConditionsOrdered(rest);
      assert SortedKeys(ops);
      OneFieldOrdered(fields[0].key, ops);
      LaterFields(fields);
      OrderJoins(ConditionsIn(fields[0].key, ops), Conditions(rest));
    }
  }

  lemma OneFieldOrdered(field: Bytes, ops: seq<Field>)
    requires SortedKeys(ops)
    ensures InOrder(ConditionsIn(field, ops))
  {
    hide Compare;
    hide ConditionsIn;
    ConditionsInAre(field, ops);
  }

  lemma LaterFields(fields: seq<Field>)
    requires SortedKeys(fields) && fields != []
    ensures var ops, rest := ConditionsIn(fields[0].key, AsFields(fields[0].value)), Conditions(fields[1..]);
      forall m, n | 0 <= m < |ops| && 0 <= n < |rest| :: ConditionBefore(ops[m], rest[n])
  {
    hide Compare;
    hide ConditionsIn;
    hide Conditions;
    var ops, rest := ConditionsIn(fields[0].key, AsFields(fields[0].value)), Conditions(fields[1..]);
    ConditionsInAre(fields[0].key, AsFields(fields[0].value));
    forall m, n | 0 <= m < |ops| && 0 <= n < |rest| ensures ConditionBefore(ops[m], rest[n]) {
      ConditionsAre(fields[1..], rest[n]);
      var i: nat, j: nat :| ConditionAt(fields[1..], i, j, rest[n]);
      assert rest[n].field == fields[i + 1].key;
    }
  }

  datatype Clause = Clause(field: Bytes, descending: bool)

  function ClauseOf(v: Value): Clause {
    Clause(AsString(Get(v, "field"), ""), AsString(Get(v, "dir"), "asc") == "desc")
  }

  function Clauses(items: seq<Value>): (cs: seq<Clause>)
    ensures |cs| == |items| && forall k | 0 <= k < |items| :: cs[k] == ClauseOf(items[k])
  {
    if items == [] then [] else [ClauseOf(items[0])] + Clauses(items[1..])
  }

  // --- conditions -------------------------------------------------------------------

  function AsText(F: Floats, v: Value): Bytes {
    if v.Null? then "" else if v.Str? then v.s else Dump(F, v)
  }

  predicate Contains(text: Bytes, part: Bytes) {
    exists i | 0 <= i <= |text| :: At(text, i, part)
  }

  predicate KnownOperator(op: Bytes) {
    op in ["eq", "ne", "gt", "gte", "lt", "lte", "contains"]
  }

  /** What a row must satisfy; no row satisfies an operator nobody knows. */
  predicate Holds(F: Floats, c: Condition, row: Row) {
    var actual := Get(row.value, c.field);
    var order := CompareValues(F, actual, c.operand);
    || (c.op == "eq" && order == 0) || (c.op == "ne" && order != 0)
    || (c.op == "gt" && order > 0) || (c.op == "gte" && order >= 0)
    || (c.op == "lt" && order < 0) || (c.op == "lte" && order <= 0)
    || (c.op == "contains" && Contains(AsText(F, actual), AsText(F, c.operand)))
  }

  /** `matchesCondition`: the answer, and whether the error slot was filled. */
  method MatchesCondition(F: Floats, actual: Value, op: Bytes, operand: Value)
    returns (matches: bool, unknown: bool)
    ensures unknown <==> op !in ["eq", "ne", "gt", "gte", "lt", "lte", "contains"]
    ensures forall row: Row, field | Get(row.value, field) == actual ::
      matches == Holds(F, Condition(field, op, operand), row)
  {
    unknown := false;
    if op == "eq" { return CompareValues(F, actual, operand) == 0, false; }
    if op == "ne" { return CompareValues(F, actual, operand) != 0, false; }
    if op == "gt" { return CompareValues(F, actual, operand) > 0, false; }
    if op == "gte" { return CompareValues(F, actual, operand) >= 0, false; }
    if op == "lt" { return CompareValues(F, actual, operand) < 0, false; }
    if op == "lte" { return CompareValues(F, actual, operand) <= 0, false; }
    if op == "contains" { return Contains(AsText(F, actual), AsText(F, operand)), false; }
    return false, true;
  }

  predicate HoldsAll(F: Floats, cs: seq<Condition>, row: Row) {
    forall c | c in cs :: Holds(F, c, row)
  }

  /** The rows that satisfy every condition, in the order they came. */
  function Keep(F: Floats, cs: seq<Condition>, rows: seq<Row>): seq<Row> {
    if rows == [] then []
    else (if HoldsAll(F, cs, rows[0]) then [rows[0]] else []) + Keep(F, cs, rows[1..])
  }

  /** An unknown operator is met while a row is still left. */
  ghost predicate Stuck(F: Floats, cs: seq<Condition>, rows: seq<Row>, j: nat) {
    j < |cs| && !KnownOperator(cs[j].op) && Keep(F, cs[..j], rows) != []
  }

  /** Condition `j` is the first to get stuck, on operator `op`. */
  ghost predicate FirstStuck(F: Floats, cs: seq<Condition>, rows: seq<Row>, j: nat, op: Bytes) {
    && j < |cs| && cs[j].op == op && Stuck(F, cs, rows, j)
    && forall i | 0 <= i < j :: !Stuck(F, cs, rows, i)
  }

  ghost predicate Clear(F: Floats, cs: seq<Condition>, rows: seq<Row>) {
    forall j: nat :: !Stuck(F, cs, rows, j)
  }

  lemma {:induction false} KeepNone(F: Floats, rows: seq<Row>)
    ensures Keep(F, [], rows) == rows
  {
    if rows != [] {
      KeepNone(F, rows[1..]);
      assert rows == [rows[0]] + rows[1..];
    }
  }

  /** Filtering by one more condition. */
  lemma {:induction false} KeepMore(F: Floats, cs: seq<Condition>, c: Condition, rows: seq<Row>)
    ensures Keep(F, [c], Keep(F, cs, rows)) == Keep(F, cs + [c], rows)
  {
    hide Holds;
    if rows != [] {
      KeepMore(F, cs, c, rows[1..]);
      assert HoldsAll(F, cs + [c], rows[0]) <==> HoldsAll(F, cs, rows[0]) && Holds(F, c, rows[0]) by {
        assert forall d | d in cs + [c] :: d in cs || d == c;
      }
      var rest := Keep(F, cs, rows[1..]);
      if HoldsAll(F, cs, rows[0]) {
        assert Keep(F, cs, rows)[1..] == rest;
        assert HoldsAll(F, [c], rows[0]) <==> Holds(F, c, rows[0]);
      } else {
        assert Keep(F, cs, rows) == rest;
      }
    }
  }

  /** Members are exactly the rows that satisfy everything. */
  lemma {:induction false} KeepMembers(F: Floats, cs: seq<Condition>, rows: seq<Row>, row: Row)
    ensures row in Keep(F, cs, rows) <==> row in rows && HoldsAll(F, cs, row)
  {
    if rows != [] { KeepMembers(F, cs, rows[1..], row); }
  }

  /** The row is kept by one condition. */
  predicate Kept(F: Floats, field: Bytes, op: Bytes, operand: Value, rows: seq<Row>, row: Row) {
    row in Keep(F, [Condition(field, op, operand)], rows)
  }

  lemma KeptIs(F: Floats, field: Bytes, op: Bytes, operand: Value, rows: seq<Row>, row: Row)
    ensures Kept(F, field, op, operand, rows, row) <==> row in rows && Holds(F, Condition(field, op, operand), row)
  {
    hide Holds;
    hide Keep;
    KeepMembers(F, [Condition(field, op, operand)], rows, row);
    assert Condition(field, op, operand) in [Condition(field, op, operand)];
  }

  /** Several conditions keep what each of them keeps. */
  lemma KeepsAll(F: Floats, cs: seq<Condition>, rows: seq<Row>, row: Row)
    ensures row in Keep(F, cs, rows) <==>
      row in rows && forall c | c in cs :: Kept(F, c.field, c.op, c.operand, rows, row)
  {
    hide Holds;
    hide Keep;
    hide Kept;
    KeepMembers(F, cs, rows, row);
    forall c | c in cs ensures Kept(F, c.field, c.op, c.operand, rows, row) <==> row in rows && Holds(F, c, row) {
      KeptIs(F, c.field, c.op, c.operand, rows, row);
    }
  }

  /** The comparisons on numbers. */
  lemma KeepNumbers(F: Floats, field: Bytes, x: real, y: real, rows: seq<Row>, row: Row)
    requires Get(row.value, field) == Num(Fin(x))
    ensures Kept(F, field, "gt", Num(Fin(y)), rows, row) <==> row in rows && x > y
    ensures Kept(F, field, "gte", Num(Fin(y)), rows, row) <==> row in rows && x >= y
    ensures Kept(F, field, "lt", Num(Fin(y)), rows, row) <==> row in rows && x < y
    ensures Kept(F, field, "lte", Num(Fin(y)), rows, row) <==> row in rows && x <= y
    ensures Kept(F, field, "eq", Num(Fin(y)), rows, row) <==> row in rows && x == y
    ensures Kept(F, field, "ne", Num(Fin(y)), rows, row) <==> row in rows && x != y
  {
    hide CompareValues;
    hide Kept;
    NumbersOrdered(F, x, y);
    forall op ensures Kept(F, field, op, Num(Fin(y)), rows, row) <==>
      row in rows && Holds(F, Condition(field, op, Num(Fin(y))), row)
    {
      KeptIs(F, field, op, Num(Fin(y)), rows, row);
    }
  }

  /** The comparisons on strings: by the first byte that differs. */
  lemma KeepStrings(F: Floats, field: Bytes, x: Bytes, y: Bytes, rows: seq<Row>, row: Row)
    requires Get(row.value, field) == Str(x)
    ensures Kept(F, field, "lt", Str(y), rows, row) <==> row in rows && exists k: nat :: FirstLess(x, y, k)
    ensures Kept(F, field, "gt", Str(y), rows, row) <==> row in rows && exists k: nat :: FirstLess(y, x, k)
    ensures Kept(F, field, "lte", Str(y), rows, row) <==> row in rows && !exists k: nat :: FirstLess(y, x, k)
    ensures Kept(F, field, "gte", Str(y), rows, row) <==> row in rows && !exists k: nat :: FirstLess(x, y, k)
  {
    hide CompareValues;
    hide FirstLess;
    hide Kept;
    TextsOrdered(F, Str(x), Str(y));
    TextsOrdered(F, Str(y), Str(x));
    ValuesFlip(F, Str(x), Str(y));
    forall op ensures Kept(F, field, op, Str(y), rows, row) <==>
      row in rows && Holds(F, Condition(field, op, Str(y)), row)
    {
      KeptIs(F, field, op, Str(y), rows, row);
    }
  }

  /** Equality of any values without infinities is their equality. */
  lemma KeepEqual(F: Floats, field: Bytes, operand: Value, rows: seq<Row>, row: Row)
    requires Faithful(F) && WellFormed(operand) && Doubles(F, operand) && Finite(operand)
    requires WellFormed(row.value) && Doubles(F, row.value) && Finite(row.value)
    ensures Kept(F, field, "eq", operand, rows, row) <==> row in rows && Get(row.value, field) == operand
    ensures Kept(F, field, "ne", operand, rows, row) <==> row in rows && Get(row.value, field) != operand
  {
    hide CompareValues;
    hide Faithful;
    hide Kept;
    MemberPlain(F, row.value, field);
    ValuesAntisymmetric(F, Get(row.value, field), operand);
    hide Doubles;
    hide WellFormed;
    hide Finite;
    KeptIs(F, field, "eq", operand, rows, row);
    KeptIs(F, field, "ne", operand, rows, row);
  }

  lemma MemberPlain(F: Floats, v: Value, field: Bytes)
    requires WellFormed(v) && Doubles(F, v) && Finite(v)
    ensures var w := Get(v, field); WellFormed(w) && Doubles(F, w) && Finite(w)
  {
    if v.Obj? && Lookup(v.fields, field).Some? { LookupFound(v.fields, field); }
  }

  /** The text of a value for `contains`: nothing for null, a string itself, anything else as printed. */
  predicate Renders(F: Floats, v: Value, text: Bytes) {
    || (v == Null && text == "") || v == Str(text)
    || (!v.Null? && !v.Str? && text == Dump(F, v))
  }

  /** `contains` finds the one text inside the other. */
  lemma KeepContains(F: Floats, field: Bytes, operand: Value, rows: seq<Row>, row: Row, text: Bytes, part: Bytes)
    requires Renders(F, Get(row.value, field), text) && Renders(F, operand, part)
    ensures Kept(F, field, "contains", operand, rows, row) <==> row in rows && exists a, b :: text == a + part + b
  {
    hide Dump;
    hide CompareValues;
    hide Kept;
    KeptIs(F, field, "contains", operand, rows, row);
    hide Get;
    hide Contains;
    ContainsIs(text, part);
  }

  lemma ContainsIs(text: Bytes, part: Bytes)
    ensures Contains(text, part) <==> exists a, b :: text == a + part + b
  {
    if i :| 0 <= i <= |text| && At(text, i, part) {
      assert text == text[..i] + part + text[i + |part|..];
    }
    if a, b :| text == a + part + b {
      assert At(text, |a|, part) by { assert text[|a|..|a| + |part|] == part; }
    }
  }

  /** An operator that is none of the seven keeps nothing. */
  lemma KeepUnknown(F: Floats, field: Bytes, op: Bytes, operand: Value, rows: seq<Row>, row: Row)
    requires op !in ["eq", "ne", "gt", "gte", "lt", "lte", "contains"]
    ensures !Kept(F, field, op, operand, rows, row)
  {
    hide Kept;
    hide CompareValues;
    KeptIs(F, field, op, operand, rows, row);
  }

  /** A condition is stuck exactly when its operator is none of the seven and a row satisfies all conditions
      before it. */
  lemma StuckIs(F: Floats, cs: seq<Condition>, rows: seq<Row>, j: nat)
    ensures Stuck(F, cs, rows, j) <==>
      && j < |cs| && cs[j].op !in ["eq", "ne", "gt", "gte", "lt", "lte", "contains"]
      && exists row :: row in rows && forall i | 0 <= i < j :: Kept(F, cs[i].field, cs[i].op, cs[i].operand, rows, row)
  {
    hide Kept;
    hide Keep;
    if j < |cs| {
      forall row ensures row in Keep(F, cs[..j], rows) <==>
        row in rows && forall i | 0 <= i < j :: Kept(F, cs[i].field, cs[i].op, cs[i].operand, rows, row)
      {
        KeepsAll(F, cs[..j], rows, row);
        assert forall i | 0 <= i < j :: cs[..j][i] == cs[i] && cs[i] in cs[..j];
      }
      if Keep(F, cs[..j], rows) != [] { assert Keep(F, cs[..j], rows)[0] in Keep(F, cs[..j], rows); }
    }
  }

  /** The order of conditions, and saying one twice, makes no difference. */
  lemma {:induction false} KeepUnordered(F: Floats, cs: seq<Condition>, ds: seq<Condition>, rows: seq<Row>)
    requires forall c :: c in cs <==> c in ds
    ensures Keep(F, cs, rows) == Keep(F, ds, rows)
  {
    if rows != [] { KeepUnordered(F, cs, ds, rows[1..]); }
  }

  // --- the filter --------------------------------------------------------------------

  /** One pass over the rows, cut short by an unknown operator. */
  method FilterOne(F: Floats, c: Condition, rows: seq<Row>) returns (ok: bool, kept: seq<Row>)
    ensures ok <==> KnownOperator(c.op) || rows == []
    ensures ok ==> kept == Keep(F, [c], rows)
  {
    hide Holds;
    hide Keep;
    kept := [];
    var broke := false;
    ok := true;
    for k := 0 to |rows|
      invariant broke ==> !ok
      invariant !broke ==> ok && kept + Keep(F, [c], rows[k..]) == Keep(F, [c], rows)
      invariant broke <==> k > 0 && !KnownOperator(c.op)
    {
      if broke { break; }
      var matches, unknown := MatchesCondition(F, Get(rows[k].value, c.field), c.op, c.operand);
      KeepStep(F, c, rows, k, kept);
      if matches {
        kept := kept + [rows[k]];
      } else if unknown {
        broke := true;
        ok := false;
      }
      if unknown { UnknownNeverHolds(F, c, rows[k]); }
    }
    NoneLeft(F, c, rows);
  }

  lemma NoneLeft(F: Floats, c: Condition, rows: seq<Row>)
    ensures Keep(F, [c], rows[|rows|..]) == []
  {
  }

  lemma KeepStep(F: Floats, c: Condition, rows: seq<Row>, k: nat, kept: seq<Row>)
    requires k < |rows|
    ensures kept + Keep(F, [c], rows[k..]) ==
            (if Holds(F, c, rows[k]) then kept + [rows[k]] else kept) + Keep(F, [c], rows[k + 1..])
  {
    hide Holds;
    assert rows[k..][1..] == rows[k + 1..];
    assert HoldsAll(F, [c], rows[k]) <==> Holds(F, c, rows[k]);
  }

  lemma UnknownNeverHolds(F: Floats, c: Condition, row: Row)
    requires !KnownOperator(c.op)
    ensures !Holds(F, c, row)
  {
  }

  /** Filtering by two lists one after the other is filtering by both. */
  lemma {:induction false} KeepAppend(F: Floats, cs: seq<Condition>, ds: seq<Condition>, rows: seq<Row>)
    ensures Keep(F, ds, Keep(F, cs, rows)) == Keep(F, cs + ds, rows)
  {
    if ds == [] {
      KeepNone(F, Keep(F, cs, rows));
      assert cs + ds == cs;
    } else {
      var front, last := ds[..|ds| - 1], ds[|ds| - 1];
      assert ds == front + [last] && cs + ds == (cs + front) + [last];
      KeepAppend(F, cs, front, rows);
      KeepMore(F, cs + front, last, rows);
      KeepMore(F, front, last, Keep(F, cs, rows));
    }
  }

  lemma StuckAppend(F: Floats, cs: seq<Condition>, ds: seq<Condition>, rows: seq<Row>, j: nat)
    ensures j < |cs| ==> (Stuck(F, cs + ds, rows, j) <==> Stuck(F, cs, rows, j))
    ensures Stuck(F, cs + ds, rows, |cs| + j) <==> Stuck(F, ds, Keep(F, cs, rows), j)
  {
    if j < |cs| { assert (cs + ds)[..j] == cs[..j]; }
    if j < |ds| {
      assert (cs + ds)[..|cs| + j] == cs + ds[..j];
      KeepAppend(F, cs, ds[..j], rows);
    }
  }

  /** Nothing stuck in the first list: what sticks first in the second sticks first in both. */
  lemma FirstAppend(F: Floats, cs: seq<Condition>, ds: seq<Condition>, rows: seq<Row>, j: nat,
                    op: Bytes)
    requires Clear(F, cs, rows) && FirstStuck(F, ds, Keep(F, cs, rows), j, op)
    ensures FirstStuck(F, cs + ds, rows, |cs| + j, op)
  {
    hide Keep;
    hide Stuck;
    StuckAppend(F, cs, ds, rows, j);
    forall i | 0 <= i < |cs| + j ensures !Stuck(F, cs + ds, rows, i) {
      if i < |cs| { StuckAppend(F, cs, ds, rows, i); } else { StuckAppend(F, cs, ds, rows, i - |cs|); }
    }
  }

  lemma ClearAppend(F: Floats, cs: seq<Condition>, ds: seq<Condition>, rows: seq<Row>)
    requires Clear(F, cs, rows) && Clear(F, ds, Keep(F, cs, rows))
    ensures Clear(F, cs + ds, rows)
  {
    hide Keep;
    hide Stuck;
    forall i: nat ensures !Stuck(F, cs + ds, rows, i) {
      if i < |cs| { StuckAppend(F, cs, ds, rows, i); } else { StuckAppend(F, cs, ds, rows, i - |cs|); }
    }
  }

  /** What a stretch of the filter did to the rows it was given. */
  ghost predicate Filtered(F: Floats, cs: seq<Condition>, table: seq<Row>, ok: bool, op: Bytes, rows: seq<Row>) {
    if ok then rows == Keep(F, cs, table) && Clear(F, cs, table)
    else exists j: nat :: FirstStuck(F, cs, table, j, op)
  }

  lemma FilteredNone(F: Floats, table: seq<Row>)
    ensures Filtered(F, [], table, true, "", table)
  {
    KeepNone(F, table);
  }

  lemma FilteredOne(F: Floats, c: Condition, table: seq<Row>, rows: seq<Row>)
    requires KnownOperator(c.op) || table == [] ==> rows == Keep(F, [c], table)
    ensures var ok := KnownOperator(c.op) || table == [];
      Filtered(F, [c], table, ok, if ok then "" else c.op, rows)
  {
    assert [c][..0] == [];
    KeepNone(F, table);
    if !(KnownOperator(c.op) || table == []) { assert FirstStuck(F, [c], table, 0, c.op); }
  }

  /** A stretch that went through, and the next one after it. */
  lemma FilteredAppend(F: Floats, cs: seq<Condition>, ds: seq<Condition>, table: seq<Row>, mid: seq<Row>,
                       ok: bool, op: Bytes, rows: seq<Row>)
    requires Filtered(F, cs, table, true, "", mid) && Filtered(F, ds, mid, ok, op, rows)
    ensures Filtered(F, cs + ds, table, ok, op, rows)
  {
    hide Keep;
    hide FirstStuck;
    hide Clear;
    if ok {
      KeepAppend(F, cs, ds, table);
      ClearAppend(F, cs, ds, table);
    } else {
      var j: nat :| FirstStuck(F, ds, mid, j, op);
      FirstAppend(F, cs, ds, table, j, op);
    }
  }

  /** A failed stretch settles the whole filter. */
  lemma FilteredFails(F: Floats, cs: seq<Condition>, ds: seq<Condition>, table: seq<Row>, op: Bytes,
                      rows: seq<Row>)
    requires Filtered(F, cs, table, false, op, rows)
    ensures Filtered(F, cs + ds, table, false, op, rows)
  {
    hide Stuck;
    var j: nat :| FirstStuck(F, cs, table, j, op);
    forall i: nat | i <= j ensures Stuck(F, cs + ds, table, i) == Stuck(F, cs, table, i) {
      StuckAppend(F, cs, ds, table, i);
    }
    assert FirstStuck(F, cs + ds, table, j, op);
  }

  /** The conditions of one field. */
  method FilterField(F: Floats, field: Bytes, ops: seq<Field>, table: seq<Row>)
    returns (ok: bool, op: Bytes, rows: seq<Row>)
    ensures Filtered(F, ConditionsIn(field, ops), table, ok, op, rows) && (ok ==> op == "")
  {
    hide Filtered;
    rows := table;
    ghost var done: seq<Condition> := [];
    FilteredNone(F, table);
    for o := 0 to |ops|
      invariant done + ConditionsIn(field, ops[o..]) == ConditionsIn(field, ops)
      invariant Filtered(F, done, table, true, "", rows)
    {
      var c := Condition(field, ops[o].key, ops[o].value);
      var fine, kept := FilterOne(F, c, rows);
      FilteredOne(F, c, rows, kept);
      FilteredAppend(F, done, [c], table, rows, fine, if fine then "" else c.op, kept);
      assert ops[o..][1..] == ops[o + 1..];
      assert done + ([c] + ConditionsIn(field, ops[o + 1..])) == done + [c] + ConditionsIn(field, ops[o + 1..]);
      if !fine {
        FilteredFails(F, done + [c], ConditionsIn(field, ops[o + 1..]), table, c.op, kept);
        return false, c.op, kept;
      }
      rows := kept;
      done := done + [c];
    }
    assert ops[|ops|..] == [];
    assert done + [] == done;
    return true, "", rows;
  }

  /** The filter loops: either every condition was applied, or the first unknown operator that
      found a row left is reported. */
  method Filter(F: Floats, where: Value, table: seq<Row>) returns (ok: bool, op: Bytes, rows: seq<Row>)
    ensures Filtered(F, Conditions(AsFields(where)), table, ok, op, rows)
  {
    hide Filtered;
    hide Conditions;
    hide ConditionsIn;
    var fields := AsFields(where);
    rows := table;
    ghost var done: seq<Condition> := [];
    FilteredNone(F, table);
    for f := 0 to |fields|
      invariant done + Conditions(fields[f..]) == Conditions(fields)
      invariant Filtered(F, done, table, true, "", rows)
    {
      var ops := AsFields(fields[f].value);
      ghost var part, rest := ConditionsIn(fields[f].key, ops), Conditions(fields[f + 1..]);
      ConditionsStep(fields, f, done);
      var fine, why, kept := FilterField(F, fields[f].key, ops, rows);
      FilteredAppend(F, done, part, table, rows, fine, why, kept);
      if !fine {
        FilteredFails(F, done + part, rest, table, why, kept);
        return false, why, kept;
      }
      rows := kept;
      done := done + part;
    }
    NoConditions(fields, done);
    return true, "", rows;
  }

  lemma ConditionsStep(fields: seq<Field>, f: nat, done: seq<Condition>)
    requires f < |fields|
    ensures done + Conditions(fields[f..]) ==
      done + ConditionsIn(fields[f].key, AsFields(fields[f].value)) + Conditions(fields[f + 1..])
  {
    hide ConditionsIn;
    assert fields[f..][1..] == fields[f + 1..];
    var part, rest := ConditionsIn(fields[f].key, AsFields(fields[f].value)), Conditions(fields[f + 1..]);
    assert done + (part + rest) == done + part + rest;
  }

  lemma NoConditions(fields: seq<Field>, done: seq<Condition>)
    ensures done + Conditions(fields[|fields|..]) == done
  {
  }

  // --- the order ----------------------------------------------------------------------

  /** The comparison behind one clause. */
  function ByClause(F: Floats, c: Clause): ((Row, Row) -> int) {
    (a: Row, b: Row) => Signed(F, c.descending)(Get(a.value, c.field), Get(b.value, c.field))
  }

  lemma ByClauseTotal(F: Floats, c: Clause)
    ensures TotalPreorder(ByClause(F, c))
  {
    hide Signed;
    ValuesTotalPreorder(F, c.descending);
    var cmp, values := ByClause(F, c), Signed(F, c.descending);
    assert forall a, b :: cmp(a, b) == values(Get(a.value, c.field), Get(b.value, c.field));
  }

  /** One stable sort per clause, the last clause first. */
  function SortAll(F: Floats, cs: seq<Clause>, rows: seq<Row>): seq<Row> {
    if cs == [] then rows else Sorted(ByClause(F, cs[0]), SortAll(F, cs[1..], rows))
  }

  /** First clause first, then the second, and so on, and the key last. */
  predicate Before(F: Floats, cs: seq<Clause>, a: Row, b: Row) {
    if cs == [] then Compare(a.key, b.key) < 0
    else
      var c := ByClause(F, cs[0])(a, b);
      c < 0 || (c == 0 && Before(F, cs[1..], a, b))
  }

  function Lexicographic(F: Floats, cs: seq<Clause>): ((Row, Row) -> bool) {
    (a, b) => Before(F, cs, a, b)
  }

  lemma {:induction false} BeforeAsymmetric(F: Floats, cs: seq<Clause>, a: Row, b: Row)
    requires Before(F, cs, a, b)
    ensures !Before(F, cs, b, a)
  {
    hide ByClause;
    if cs == [] {
      CompareFlips(a.key, b.key);
    } else {
      ByClauseTotal(F, cs[0]);
      var c := ByClause(F, cs[0]);
      assert c(a, b) < 0 <==> c(b, a) > 0;
      assert c(b, a) < 0 <==> c(a, b) > 0;
      if c(a, b) == 0 { BeforeAsymmetric(F, cs[1..], a, b); }
    }
  }

  lemma {:induction false} SortAllLexicographic(F: Floats, cs: seq<Clause>, rows: seq<Row>)
    requires Increasing(Lexicographic(F, []), rows)
    ensures Increasing(Lexicographic(F, cs), SortAll(F, cs, rows))
    ensures multiset(SortAll(F, cs, rows)) == multiset(rows)
  {
    hide ByClause;
    hide Sorted;
    if cs != [] {
      var inner := SortAll(F, cs[1..], rows);
      SortAllLexicographic(F, cs[1..], rows);
      ByClauseTotal(F, cs[0]);
      LexicographicRefines(F, cs);
      SortedIncreasing(ByClause(F, cs[0]), Lexicographic(F, cs[1..]), Lexicographic(F, cs), inner);
      SortedPermutes(ByClause(F, cs[0]), inner);
    }
  }

  lemma LexicographicRefines(F: Floats, cs: seq<Clause>)
    requires cs != []
    ensures Refines(ByClause(F, cs[0]), Lexicographic(F, cs[1..]), Lexicographic(F, cs))
  {
    hide ByClause;
  }

  /** On rows in key order the passes give the one arrangement ordered by the clauses and the key. */
  lemma SortAllUnique(F: Floats, cs: seq<Clause>, rows: seq<Row>, ys: seq<Row>)
    requires Increasing(Lexicographic(F, []), rows)
    ensures ys == SortAll(F, cs, rows) <==>
      multiset(ys) == multiset(rows) && Increasing(Lexicographic(F, cs), ys)
  {
    hide Before;
    hide SortAll;
    SortAllLexicographic(F, cs, rows);
    if multiset(ys) == multiset(rows) && Increasing(Lexicographic(F, cs), ys) {
      var less := Lexicographic(F, cs);
      forall a, b | less(a, b) ensures !less(b, a) { BeforeAsymmetric(F, cs, a, b); }
      IncreasingUnique(less, ys, SortAll(F, cs, rows));
    }
  }

  lemma ClauseReads(v: Value, field: Bytes)
    requires Get(v, "field") == Str(field)
    ensures ClauseOf(v).field == field && (ClauseOf(v).descending <==> Get(v, "dir") == Str("desc"))
  {
    hide Get;
  }

  lemma FirstDecides(F: Floats, cs: seq<Clause>, a: Row, b: Row)
    requires cs != [] && Before(F, cs, a, b)
    ensures var c := CompareValues(F, Get(a.value, cs[0].field), Get(b.value, cs[0].field));
      && (if cs[0].descending then c >= 0 else c <= 0)
      && (|cs| == 1 && c == 0 ==> Compare(a.key, b.key) < 0)
  {
    hide CompareValues;
    hide Get;
    ClauseSign(F, cs[0], a, b);
    hide ByClause;
    if |cs| == 1 { assert cs[1..] == [] && Before(F, [], a, b) == (Compare(a.key, b.key) < 0); }
  }

  lemma ClauseSign(F: Floats, c: Clause, a: Row, b: Row)
    ensures ByClause(F, c)(a, b) ==
      var order := CompareValues(F, Get(a.value, c.field), Get(b.value, c.field));
      if c.descending then -order else order
  {
    hide CompareValues;
    hide Get;
    var x, y := Get(a.value, c.field), Get(b.value, c.field);
    assert ByClause(F, c)(a, b) == Signed(F, c.descending)(x, y);
  }

  /** The first clause of an order decides which way its field goes: down for "desc", up for anything else; a tie
      under a single clause goes by key. */
  lemma FirstClause(F: Floats, order: seq<Value>, field: Bytes, rows: seq<Row>, i: nat, j: nat)
    requires order != [] && Get(order[0], "field") == Str(field)
    requires Increasing(Lexicographic(F, Clauses(order)), rows) && i < j < |rows|
    ensures var a, b := Get(rows[i].value, field), Get(rows[j].value, field);
      && (if Get(order[0], "dir") == Str("desc") then CompareValues(F, a, b) >= 0 else CompareValues(F, a, b) <= 0)
      && (|order| == 1 && CompareValues(F, a, b) == 0 ==> Compare(rows[i].key, rows[j].key) < 0)
  {
    hide CompareValues;
    hide Get;
    hide Compare;
    var cs := Clauses(order);
    assert Lexicographic(F, cs)(rows[i], rows[j]);
    hide Before;
    hide Increasing;
    FirstDecides(F, cs, rows[i], rows[j]);
    ClauseReads(order[0], field);
    hide Clauses;
  }

  lemma {:induction false} KeepIncreasing(F: Floats, cs: seq<Condition>, rows: seq<Row>)
    requires Increasing(Lexicographic(F, []), rows)
    ensures Increasing(Lexicographic(F, []), Keep(F, cs, rows))
  {
    hide HoldsAll;
    if rows != [] {
      KeepIncreasing(F, cs, rows[1..]);
      var rest := Keep(F, cs, rows[1..]);
      forall j | 0 <= j < |rest| ensures Lexicographic(F, [])(rows[0], rest[j]) {
        KeepMembers(F, cs, rows[1..], rest[j]);
        var k :| 0 <= k < |rows[1..]| && rows[1..][k] == rest[j];
        assert rows[k + 1] == rest[j];
      }
    }
  }

  // --- the action -------------------------------------------------------------------------

  function Limited(limit: int, rows: seq<Row>): seq<Row> {
    if 0 < limit < |rows| then rows[..limit] else rows
  }

  datatype Answer = Rows(rows: seq<Row>) | UnknownOperator(op: Bytes)

  /** The sorts, in place, from the last clause to the first. */
  method SortRows(F: Floats, order: seq<Value>, rows: array<Row>)
    modifies rows
    ensures rows[..] == SortAll(F, Clauses(order), old(rows[..]))
  {
    hide SortAll;
    var k: nat := |order|;
    ghost var cs := Clauses(order);
    SortAllDone(F, cs, old(rows[..]));
    while k > 0
      invariant 0 <= k <= |order|
      invariant rows[..] == SortAll(F, cs[k..], old(rows[..]))
    {
      k := k - 1;
      ByClauseTotal(F, cs[k]);
      Sort(ByClause(F, ClauseOf(order[k])), rows);
      SortAllStep(F, cs, k, old(rows[..]));
    }
    assert cs[k..] == cs;
  }

  lemma SortAllDone(F: Floats, cs: seq<Clause>, rows: seq<Row>)
    ensures SortAll(F, cs[|cs|..], rows) == rows
  {
  }

  lemma SortAllStep(F: Floats, cs: seq<Clause>, k: nat, rows: seq<Row>)
    requires k < |cs|
    ensures SortAll(F, cs[k..], rows) == Sorted(ByClause(F, cs[k]), SortAll(F, cs[k + 1..], rows))
  {
    assert cs[k..][1..] == cs[k + 1..];
  }

  /** `query` over a table read in key order. */
  method Answering(F: Floats, args: Value, table: seq<Row>) returns (answer: Answer)
    ensures var cs := Conditions(AsFields(Get(args, "where")));
      match answer
      case Rows(rows) =>
        && rows == Limited(AsInt(Get(args, "limit")),
                           SortAll(F, Clauses(AsItems(Get(args, "order"))), Keep(F, cs, table)))
        && Clear(F, cs, table)
      case UnknownOperator(op) =>
        exists j: nat :: FirstStuck(F, cs, table, j, op)
  {
    var fine, op, kept := Filter(F, Get(args, "where"), table);
    if !fine { return UnknownOperator(op); }
    var rows := new Row[|kept|](k requires 0 <= k < |kept| => kept[k]);
    assert rows[..] == kept;
    SortRows(F, AsItems(Get(args, "order")), rows);
    var limit := AsInt(Get(args, "limit"));
    var out: seq<Row> := [];
    var k := 0;
    while k < rows.Length && !(limit > 0 && |out| >= limit)
      invariant k <= rows.Length && out == rows[..k]
      invariant limit > 0 ==> |out| <= limit
    {
      out := out + [rows[k]];
      k := k + 1;
    }
    assert rows[..rows.Length] == rows[..];
    return Rows(out);
  }
}
