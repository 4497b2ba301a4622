/** The store handle: one connection's contents, scopes and snapshot files, updated in place. */
module StoreHandle {
  import opened Strings
  import opened Json
  import opened JsonParser
  import opened StableSort
  import opened ValueOrder
  import opened Query
  import opened Database
  import opened Scopes
  import opened Transactions
  import opened IndexLayer
  import opened JsonSound
  import A = Answers
  import Nearest

  /** The rows of a store in key order, each with its parsed value. */
  ghost predicate IsTable(F: Floats, db: Db, store: Bytes, rows: seq<Row>) {
    && SortedKeys(rows)
    && forall k :: Lookup(rows, k) ==
         if (store, k) in db.rows then Some(ReadText(F, db.rows[(store, k)])) else None
  }

  lemma TableInKeyOrder(F: Floats, rows: seq<Row>)
    ensures SortedKeys(rows) <==> Increasing(Lexicographic(F, []), rows)
  {
    var less := Lexicographic(F, []);
    assert forall a, b :: less(a, b) <==> Compare(a.key, b.key) < 0;
  }

  /** There is one such table. */
  lemma TableUnique(F: Floats, db: Db, store: Bytes, xs: seq<Row>, ys: seq<Row>)
    requires IsTable(F, db, store, xs) && IsTable(F, db, store, ys)
    ensures xs == ys
  {
    hide SortedKeys;
    SortedUnique(xs, ys);
  }

  /** What a query answers over a table: the first rows, in the declared order, of those that satisfy
      every condition. */
  lemma AnswerIsFirst(F: Floats, cs: seq<Condition>, order: seq<Clause>, limit: int, table: seq<Row>)
    requires SortedKeys(table)
    ensures var rows := Limited(limit, SortAll(F, order, Keep(F, cs, table)));
      && Increasing(Lexicographic(F, order), rows)
      && (forall r | r in rows :: r in table && HoldsAll(F, cs, r))
      && (forall r, q | r in rows && q in table && HoldsAll(F, cs, q) && q !in rows :: Before(F, order, r, q))
      && (limit > 0 ==> |rows| <= limit)
      && (limit <= 0 || |rows| < limit ==> multiset(rows) == multiset(Keep(F, cs, table)))
  {
    hide SortAll;
    hide Keep;
    hide HoldsAll;
    hide Before;
    hide SortedKeys;
    var kept := Keep(F, cs, table);
    var all := SortAll(F, order, kept);
    var rows := Limited(limit, all);
    TableInKeyOrder(F, table);
    KeepIncreasing(F, cs, table);
    SortAllLexicographic(F, order, kept);
    forall r ensures r in all <==> r in table && HoldsAll(F, cs, r) {
      KeepMembers(F, cs, table, r);
      assert r in all <==> r in multiset(all);
      assert r in kept <==> r in multiset(kept);
    }
    forall r, q | r in rows && q in all && q !in rows ensures Before(F, order, r, q) {
      var i :| 0 <= i < |rows| && rows[i] == r;
      var j :| 0 <= j < |all| && all[j] == q;
      assert forall m | 0 <= m < |rows| :: rows[m] == all[m] && rows[m] in rows;
      assert Lexicographic(F, order)(all[i], all[j]);
    }
  }

  /** An answer goes the way its first clause says: no later row has a smaller number in that field, or, for
      "desc", a larger one. */
  lemma AnswerDirected(F: Floats, args: Value, cs: seq<Condition>, field: Bytes, table: seq<Row>, i: nat, j: nat)
    requires SortedKeys(table)
    requires var order := AsItems(Get(args, "order")); order != [] && Get(order[0], "field") == Str(field)
    requires i < j < |Ordered(F, args, cs, table)|
    ensures var rows := Ordered(F, args, cs, table);
      var a, b := Get(rows[i].value, field), Get(rows[j].value, field);
      a.Num? && b.Num? && a.n.Fin? && b.n.Fin? ==>
        if Get(AsItems(Get(args, "order"))[0], "dir") == Str("desc") then a.n.r >= b.n.r else a.n.r <= b.n.r
  {
    hide Limited;
    hide SortAll;
    hide Keep;
    hide Get;
    hide CompareValues;
    var order := AsItems(Get(args, "order"));
    AnswerIsFirst(F, cs, Clauses(order), AsInt(Get(args, "limit")), table);
    FirstClause(F, order, field, Ordered(F, args, cs, table), i, j);
    var a, b := Get(Ordered(F, args, cs, table)[i].value, field), Get(Ordered(F, args, cs, table)[j].value, field);
    if a.Num? && b.Num? && a.n.Fin? && b.n.Fin? { NumbersOrdered(F, a.n.r, b.n.r); }
  }

  /** The rows a query without unknown operators answers. */
  function Ordered(F: Floats, args: Value, cs: seq<Condition>, table: seq<Row>): seq<Row> {
    Limited(AsInt(Get(args, "limit")), SortAll(F, Clauses(AsItems(Get(args, "order"))), Keep(F, cs, table)))
  }

  /** A search hit with the payload it carries. */
  datatype Answer = Answer(hit: Nearest.Hit, value: Value)

  class Store {
    const F: Floats
    var db: Db
    var scopes: seq<Scope<Db>>
    var snapshots: map<Bytes, Db>

    constructor (F: Floats)
      ensures this.F == F && Now() == State(EMPTY, [], map[])
    {
      this.F := F;
      db, scopes, snapshots := EMPTY, [], map[];
    }

    ghost function Now(): State<Db>
      reads this
    {
      State(db, scopes, snapshots)
    }

    // --- rows ---------------------------------------------------------------------

    method DeclareStore(args: Value) returns (reply: Reply)
      modifies this`db
      ensures Result(db, reply) == Effect(F, Write.Declare(args), old(db))
      ensures reply == if ValidName(StoreOf(args)) then Done else Refused("invalid_store", "")
      ensures db == if reply.Done? then old(db).(stores := old(db.stores) + {StoreOf(args)}) else old(db)
    {
      var name := StoreOf(args);
      if !ValidName(name) { return Refused("invalid_store", ""); }
      db := db.(stores := db.stores + {name});
      reply := Done;
    }

    method PutRow(args: Value) returns (reply: Reply)
      modifies this`db
      ensures Result(db, reply) == Effect(F, Write.Put(args), old(db))
      ensures reply == if StoreOf(args) in old(db.stores) then Done else Refused("unknown_store", "")
      ensures db == if reply.Refused? then old(db) else old(db).(rows := old(db.rows)[(StoreOf(args), KeyOf(args)) :=
        if Get(args, "value") == Null then "{}" else Dump(F, Get(args, "value"))])
    {
      hide Dump;
      hide StoreOf;
      hide KeyOf;
      hide Get;
      var store := StoreOf(args);
      if store !in db.stores { return Refused("unknown_store", ""); }
      var printer := new Printer(F);
      if Get(args, "value").Null? { printer.out := "{}"; } else { printer.DumpTo(Get(args, "value")); }
      assert printer.out == StoredText(F, Get(args, "value"));
      db := db.(rows := db.rows[(store, KeyOf(args)) := printer.out]);
      reply := Done;
    }

    /** Null when the row is not there. */
    method GetRow(args: Value) returns (reply: Reply, value: Value)
      ensures reply == if StoreOf(args) in db.stores then Done else Refused("unknown_store", "")
      ensures reply.Done? ==>
        value == (if (StoreOf(args), KeyOf(args)) in db.rows
                  then ReadText(F, db.rows[(StoreOf(args), KeyOf(args))]) else Null)
    {
      value := Null;
      if StoreOf(args) !in db.stores { return Refused("unknown_store", ""), Null; }
      reply := Done;
      if (StoreOf(args), KeyOf(args)) in db.rows {
        var err;
        value, err := ParseText(F, db.rows[(StoreOf(args), KeyOf(args))]);
      }
    }

    method DeleteRow(args: Value) returns (reply: Reply, deleted: nat)
      modifies this`db
      ensures Result(db, reply) == Effect(F, Write.Delete(args), old(db))
      ensures reply == if StoreOf(args) in old(db.stores) then Done else Refused("unknown_store", "")
      ensures deleted ==
        if StoreOf(args) in old(db.stores) && (StoreOf(args), KeyOf(args)) in old(db.rows) then 1 else 0
      ensures reply.Done? ==> (StoreOf(args), KeyOf(args)) !in db.rows
      ensures forall row | row != (StoreOf(args), KeyOf(args)) || reply.Refused? ::
        (row in db.rows <==> row in old(db.rows)) && (row in db.rows ==> db.rows[row] == old(db.rows)[row])
      ensures db == old(db).(rows := db.rows)
    {
      hide Get;
      hide StoreOf;
      hide KeyOf;
      deleted := 0;
      if StoreOf(args) !in db.stores { return Refused("unknown_store", ""), 0; }
      var row := (StoreOf(args), KeyOf(args));
      if row in db.rows { deleted := 1; }
      db := db.(rows := db.rows - {row});
      reply := Done;
    }

    /** The row of a key, if it is no longer among those left to read. */
    ghost function ReadSoFar(store: Bytes, left: set<(Bytes, Bytes)>, k: Bytes): Option<Value>
      reads this
    {
      if (store, k) in db.rows && (store, k) !in left then Some(ReadText(F, db.rows[(store, k)])) else None
    }

    /** `SELECT key, value ... ORDER BY key`, values parsed. */
    method SelectRows(store: Bytes) returns (rows: seq<Row>)
      ensures IsTable(F, db, store, rows)
    {
      rows := [];
      var left := db.rows.Keys;
      while left != {}
        invariant left <= db.rows.Keys && SortedKeys(rows)
        invariant forall k :: Lookup(rows, k) == ReadSoFar(store, left, k)
        decreases |left|
      {
        var id :| id in left;
        if id.0 == store {
          var value, err := ParseText(F, db.rows[id]);
          forall k ensures Lookup(SetKey(rows, id.1, value), k) == if k == id.1 then Some(value) else Lookup(rows, k) {
            LookupSetKey(rows, id.1, value, k);
          }
          SetKeySorted(rows, id.1, value);
          rows := SetKey(rows, id.1, value);
        }
        left := left - {id};
      }
    }

    method QueryRows(args: Value) returns (reply: Reply, answer: Query.Answer)
      ensures reply == if StoreOf(args) in db.stores then Done else Refused("unknown_store", "")
      ensures reply.Done? ==>
        exists table :: IsTable(F, db, StoreOf(args), table) &&
          var cs := Conditions(AsFields(Get(args, "where")));
          match answer
          case Rows(rows) => rows == Ordered(F, args, cs, table) && Clear(F, cs, table)
          case UnknownOperator(op) => exists j: nat :: FirstStuck(F, cs, table, j, op)
    {
      answer := Rows([]);
      if StoreOf(args) !in db.stores { return Refused("unknown_store", ""), Rows([]); }
      var table := SelectRows(StoreOf(args));
      answer := Answering(F, args, table);
      reply := Done;
    }

    // --- scopes ---------------------------------------------------------------------

    method OpenScope(name: Bytes) returns (reply: Reply)
      modifies this`scopes
      ensures Now() == Apply(StoreRules(F), old(Now()), Savepoint(name))
      ensures reply == if ValidSavepoint(name) then Done else Refused("invalid_savepoint", "")
    {
      if !ValidSavepoint(name) { return Refused("invalid_savepoint", ""); }
      scopes := scopes + [Scope(name, db)];
      reply := Done;
    }

    /** The statement `RELEASE name`. */
    method ReleaseStatement(name: Bytes) returns (ok: bool)
      modifies this`scopes
      ensures match FindScope(Names(old(scopes)), name)
              case Some(k) => ok && scopes == old(scopes)[..k]
              case None => !ok && scopes == old(scopes)
    {
      match FindScope(Names(scopes), name)
      case Some(k) =>
        scopes := scopes[..k];
        ok := true;
      case None => ok := false;
    }

    /** The statement `ROLLBACK TO name`. */
    method RollbackStatement(name: Bytes) returns (ok: bool)
      modifies this`db, this`scopes
      ensures match FindScope(Names(old(scopes)), name)
              case Some(k) => ok && db == old(scopes)[k].saved && scopes == old(scopes)[..k + 1]
              case None => !ok && db == old(db) && scopes == old(scopes)
    {
      match FindScope(Names(scopes), name)
      case Some(k) =>
        db := scopes[k].saved;
        scopes := scopes[..k + 1];
        ok := true;
      case None => ok := false;
    }

    method ReleaseScope(name: Bytes) returns (reply: Reply)
      modifies this`scopes
      ensures Now() == Apply(StoreRules(F), old(Now()), Release(name))
      ensures reply.Done? <==> ValidSavepoint(name) && NamesOpen(old(Now()), name)
    {
      if !ValidSavepoint(name) { return Refused("invalid_savepoint", ""); }
      var ok := ReleaseStatement(name);
      reply := if ok then Done else Refused("sql_failed", "");
      OpenWhenFound(old(Now()), name);
    }

    /** Two statements: back to the savepoint, then its release. */
    method RollbackScope(name: Bytes) returns (reply: Reply)
      modifies this`db, this`scopes
      ensures Now() == Apply(StoreRules(F), old(Now()), Rollback(name))
      ensures reply.Done? <==> ValidSavepoint(name) && NamesOpen(old(Now()), name)
    {
      OpenWhenFound(Now(), name);
      if !ValidSavepoint(name) { return Refused("invalid_savepoint", ""); }
      var ok := RollbackStatement(name);
      if !ok { return Refused("sql_failed", ""); }
      FoundLast(old(scopes), name);
      ok := ReleaseStatement(name);
      reply := if ok then Done else Refused("sql_failed", "");
    }

    // --- snapshots --------------------------------------------------------------------

    /** The old file goes first; `VACUUM INTO` then fails inside a scope. */
    method TakeSnapshot(tag: Bytes) returns (reply: Reply)
      modifies this`snapshots
      ensures Now() == Apply(StoreRules(F), old(Now()), Snapshot(tag))
      ensures reply.Done? <==> ValidLabel(tag) && scopes == []
    {
      if !ValidLabel(tag) { return Refused("invalid_label", ""); }
      snapshots := snapshots - {tag};
      if scopes != [] { return Refused("sql_failed", ""); }
      snapshots := snapshots[tag := db];
      assert (old(snapshots) - {tag})[tag := db] == old(snapshots)[tag := db];
      reply := Done;
    }

    method RestoreSnapshot(tag: Bytes) returns (reply: Reply)
      modifies this`db, this`scopes
      ensures Now() == Apply(StoreRules(F), old(Now()), Restore(tag))
      ensures reply == if !ValidLabel(tag) then Refused("invalid_label", "")
                       else if tag !in snapshots then Refused("unknown_snapshot", "") else Done
    {
      if !ValidLabel(tag) { return Refused("invalid_label", ""); }
      if tag !in snapshots { return Refused("unknown_snapshot", ""); }
      Close();
      db := snapshots[tag];
      reply := Done;
    }

    /** Closing drops the open scopes and what was written under them. */
    method Close()
      modifies this`db, this`scopes
      ensures db == Committed(old(Now())) && scopes == []
    {
      if scopes != [] { db := scopes[0].saved; }
      scopes := [];
    }

    method ReopenFile()
      modifies this`db, this`scopes
      ensures Now() == Apply(StoreRules(F), old(Now()), Reopen)
    {
      Close();
    }

    // --- indexes ------------------------------------------------------------------------

    /** `SELECT IFNULL(MAX(rowid), 0)`. */
    method MaxRowid() returns (m: nat)
      ensures m == MaxOf(Rowids(db.meta))
    {
      m := 0;
      var left := db.meta.Keys;
      while left != {}
        invariant left <= db.meta.Keys
        invariant forall i | i in db.meta && i !in left :: db.meta[i].rowid <= m
        invariant m == 0 || m in Rowids(db.meta)
        decreases |left|
      {
        var i :| i in left;
        assert db.meta[i].rowid in Rowids(db.meta);
        if db.meta[i].rowid > m { m := db.meta[i].rowid; }
        left := left - {i};
      }
      ghost var ids := Rowids(db.meta);
      if ids != {} {
        assert MaxOf(ids) in ids;
        assert m == MaxOf(ids) || m < MaxOf(ids);
      }
    }

    method CreateIndex(index: Bytes, e: Embedding)
      modifies this`db
      ensures db == Created(old(db), index, e)
      ensures var made := db.meta[index];
        && made.embedding == e && made.table == "vec_" + Decimal(made.rowid) && made.table in db.tables
        && (forall i | i in old(db.meta) :: old(db.meta)[i].rowid < made.rowid)
        && (made.rowid == 1 || exists i :: i in old(db.meta) && old(db.meta)[i].rowid == made.rowid - 1)
    {
      var m := MaxRowid();
      assert forall i | i in db.meta :: db.meta[i].rowid in Rowids(db.meta);
      assert m > 0 ==> m in Rowids(db.meta);
      var serial := m + 1;
      var table := PhysicalName(serial);
      db := db.(meta := db.meta[index := Meta(serial, table, e)]);
      if table !in db.tables { db := db.(tables := db.tables[table := VecTable(e.dimension, map[])]); }
    }

    method DropIndex(index: Bytes)
      requires index in db.meta
      modifies this`db
      ensures db == Dropped(old(db), index)
    {
      var table := db.meta[index].table;
      if table != "" { db := db.(tables := db.tables - {table}); }
      db := db.(payloads := map p | p in db.payloads && p.0 != index :: db.payloads[p]);
      db := db.(meta := db.meta - {index});
    }

    method WriteVector(index: Bytes, e: Embedding, key: Bytes, vector: Vector, value: Value)
      returns (reply: Reply)
      requires |vector| == e.dimension
      modifies this`db
      ensures Result(db, reply) == WriteChecked(F, old(db), index, e, key, vector, value)
    {
      if !HasTable(db, index) { return Refused("sql_failed", ""); }
      var table := db.meta[index].table;
      var t := db.tables[table];
      db := db.(tables := db.tables[table := t.(entries := t.entries - {key})]);
      t := db.tables[table];
      db := db.(tables := db.tables[table := t.(entries := t.entries[key := vector])]);
      db := db.(payloads := db.payloads[(index, key) := StoredText(F, value)]);
      ghost var was := old(db).tables[table];
      assert (was.entries - {key})[key := vector] == was.entries[key := vector];
      assert db == Written(old(db), index, key, vector, StoredText(F, value));
      reply := Done;
    }

    method UpsertEntry(args: Value) returns (reply: Reply)
      modifies this`db
      ensures Result(db, reply) == Effect(F, Write.IndexUpsert(args), old(db))
    {
      var index := IndexOf(args);
      if !ValidName(index) { return Refused("invalid_index", ""); }
      var embedding := ParseEmbedding(Get(args, "embedding"));
      if embedding.None? { return Refused("invalid_embedding", ""); }
      var e := embedding.value;
      var vector := ReadVector(Get(args, "vector"));
      if vector.None? { return Refused("invalid_vector", ""); }
      if index !in db.meta {
        CreateIndex(index, e);
      } else {
        var why := Mismatch(db.meta[index].embedding, e);
        if why.Some? { return Refused("embedding_mismatch", why.value); }
      }
      if |vector.value| != e.dimension { return Refused("embedding_mismatch", "dimension"); }
      reply := WriteVector(index, e, KeyOf(args), vector.value, Get(args, "value"));
    }

    method DeleteEntry(args: Value) returns (reply: Reply)
      modifies this`db
      ensures Result(db, reply) == Effect(F, Write.IndexDelete(args), old(db))
    {
      var index, key := IndexOf(args), KeyOf(args);
      if !ValidName(index) { return Refused("invalid_index", ""); }
      if index in db.meta {
        if !HasTable(db, index) { return Refused("sql_failed", ""); }
        var t := db.tables[db.meta[index].table];
        db := db.(tables := db.tables[db.meta[index].table := t.(entries := t.entries - {key})]);
      }
      db := db.(payloads := db.payloads - {(index, key)});
      reply := Done;
    }

    method ReindexEntries(args: Value) returns (reply: Reply, written: nat)
      modifies this`db
      ensures Result(db, reply) == Effect(F, Write.IndexReindex(args), old(db))
      ensures reply.Done? ==> written == |AsItems(Get(args, "vectors"))|
    {
      hide Filled;
      hide Created;
      hide Dropped;
      hide WriteChecked;
      written := 0;
      var index := IndexOf(args);
      if !ValidName(index) { return Refused("invalid_index", ""), 0; }
      var embedding := ParseEmbedding(Get(args, "embedding"));
      if embedding.None? { return Refused("invalid_embedding", ""), 0; }
      var e := embedding.value;
      if index in db.meta { DropIndex(index); }
      CreateIndex(index, e);
      var rows := AsItems(Get(args, "vectors"));
      ghost var start := db;
      for k := 0 to |rows|
        invariant written == k
        invariant Filled(F, start, index, e, rows) == Filled(F, db, index, e, rows[k..])
      {
        FilledUnfold(F, db, index, e, rows[k..]);
        assert rows[k..][0] == rows[k] && rows[k..][1..] == rows[k + 1..];
        var vector := ReadVector(Get(rows[k], "vector"));
        if vector.None? { return Refused("invalid_vector", ""), written; }
        if |vector.value| != e.dimension {
          WrongLength(F, db, index, e, rows[k], vector.value);
          return Refused("embedding_mismatch", "dimension"), written;
        }
        reply := WriteVector(index, e, KeyOf(rows[k]), vector.value, Get(rows[k], "value"));
        if reply.Refused? { return reply, written; }
        written := written + 1;
      }
      assert rows[|rows|..] == [];
      FilledUnfold(F, db, index, e, []);
      reply := Done;
    }

    /** `backend(k)` stands for what the vector table returns for `k` entries. */
    method SearchIndex(args: Value, backend: int -> seq<Nearest.Hit>) returns (reply: Reply, answers: seq<Answer>)
      ensures reply == Done <==>
        && ValidName(IndexOf(args))
        && (IndexOf(args) in db.meta ==>
              var stored := db.meta[IndexOf(args)].embedding;
              && ParseEmbedding(Get(args, "embedding")) == Some(stored)
              && exists v :: ReadVector(Get(args, "vector")) == Some(v) && |v| == stored.dimension)
      ensures !ValidName(IndexOf(args)) ==> reply == Refused("invalid_index", "")
      ensures ValidName(IndexOf(args)) && IndexOf(args) in db.meta ==>
        var was, v := db.meta[IndexOf(args)].embedding, ReadVector(Get(args, "vector"));
        match ParseEmbedding(Get(args, "embedding"))
        case None => reply == Refused("invalid_embedding", "")
        case Some(e) =>
          && (e.dimension != was.dimension ==> reply == Refused("embedding_mismatch", "dimension"))
          && (e.dimension == was.dimension && e.model != was.model ==> reply == Refused("embedding_mismatch", "model"))
          && (e.dimension == was.dimension && e.model == was.model && e.revision != was.revision ==>
                reply == Refused("embedding_mismatch", "revision"))
          && (e == was && v == None ==> reply == Refused("invalid_vector", ""))
          && (e == was && v.Some? && |v.value| != was.dimension ==> reply == Refused("embedding_mismatch", "dimension"))
      ensures reply.Done? ==>
        var hits := HitsOf(db, args, backend);
        && |answers| == |hits|
        && forall k | 0 <= k < |hits| :: answers[k] == Answer(hits[k], PayloadOf(F, db, IndexOf(args), hits[k].key))
      ensures reply.Done? && IndexOf(args) !in db.meta ==> answers == []
    {
      hide ParseEmbedding;
      hide ReadVector;
      hide Mismatch;
      hide Get;
      hide ValidName;
      hide Nearest.ByDistance;
      answers := [];
      var index := IndexOf(args);
      if !ValidName(index) { return Refused("invalid_index", ""), []; }
      if index !in db.meta { return Done, []; }
      var stored := db.meta[index].embedding;
      var embedding := ParseEmbedding(Get(args, "embedding"));
      if embedding.None? { return Refused("invalid_embedding", ""), []; }
      var why := Mismatch(stored, embedding.value);
      MismatchIs(stored, embedding.value);
      if why.Some? { return Refused("embedding_mismatch", why.value), []; }
      var vector := ReadVector(Get(args, "vector"));
      if vector.None? { return Refused("invalid_vector", ""), []; }
      if |vector.value| != stored.dimension { return Refused("embedding_mismatch", "dimension"), []; }
      reply := Done;
      answers := Hits(args, index, backend);
    }

    /** The hits of a search that is not refused. */
    method Hits(args: Value, index: Bytes, backend: int -> seq<Nearest.Hit>) returns (answers: seq<Answer>)
      requires index == IndexOf(args) && index in db.meta
      ensures var hits := HitsOf(db, args, backend);
        && |answers| == |hits|
        && forall k | 0 <= k < |hits| :: answers[k] == Answer(hits[k], PayloadOf(F, db, index, hits[k].key))
    {
      hide Get;
      hide Nearest.ByDistance;
      var k := AsInt(Get(args, "k"));
      if k <= 0 { k := if HasTable(db, index) then |db.tables[db.meta[index].table].entries| else 0; }
      if k <= 0 { return []; }
      var hits := Nearest.Search(backend(k));
      answers := [];
      for h := 0 to |hits|
        invariant |answers| == h
        invariant forall i | 0 <= i < h :: answers[i] == Answer(hits[i], PayloadOf(F, db, index, hits[i].key))
      {
        var value := Obj([]);
        if (index, hits[h].key) in db.payloads {
          var err;
          value, err := ParseText(F, db.payloads[(index, hits[h].key)]);
        }
        answers := answers + [Answer(hits[h], value)];
      }
    }
  }

  // --- searches ---------------------------------------------------------------------------

  /** How many entries a search asks the backend for. */
  function AskedFor(db: Db, args: Value): int {
    var k := AsInt(Get(args, "k"));
    if k > 0 then k else if HasTable(db, IndexOf(args)) then |db.tables[db.meta[IndexOf(args)].table].entries| else 0
  }

  /** The hits of a search: what the backend returns, nearest first. */
  function HitsOf(db: Db, args: Value, backend: int -> seq<Nearest.Hit>): seq<Nearest.Hit> {
    if IndexOf(args) in db.meta && AskedFor(db, args) > 0
    then Sorted(Nearest.ByDistance(), backend(AskedFor(db, args))) else []
  }

  function PayloadOf(F: Floats, db: Db, index: Bytes, key: Bytes): Value {
    if (index, key) in db.payloads then ReadText(F, db.payloads[(index, key)]) else Obj([])
  }

  /** `all` lists every entry of the index once, at its distance. */
  ghost predicate Measures(db: Db, index: Bytes, distance: Vector -> real, all: seq<Nearest.Hit>)
    requires HasTable(db, index)
  {
    && Nearest.DistinctKeys(all)
    && forall h :: h in all <==>
         h.key in EntriesOf(db, index) && h.distance == distance(EntriesOf(db, index)[h.key].vector)
  }

  lemma {:induction false} HitsOfKeys(m: map<Bytes, Entry>, keys: set<Bytes>, distance: Vector -> real)
    returns (all: seq<Nearest.Hit>)
    requires keys <= m.Keys
    ensures Nearest.DistinctKeys(all)
    ensures forall h :: h in all <==> h.key in keys && h.distance == distance(m[h.key].vector)
    decreases keys
  {
    all := [];
    if keys != {} {
      var k :| k in keys;
      var rest := HitsOfKeys(m, keys - {k}, distance);
      var first := Nearest.Hit(k, distance(m[k].vector));
      all := [first] + rest;
      assert forall h :: h in all <==> h == first || h in rest;
      forall i, j | 0 <= i < j < |all| ensures all[i].key != all[j].key {
        assert all[j] in rest;
      }
    }
  }

  /** There is such a list, whatever the distance. */
  lemma MeasuresExist(db: Db, index: Bytes, distance: Vector -> real) returns (all: seq<Nearest.Hit>)
    requires HasTable(db, index)
    ensures Measures(db, index, distance, all)
  {
    hide EntriesOf;
    all := HitsOfKeys(EntriesOf(db, index), EntriesOf(db, index).Keys, distance);
  }

  /** What is asked of the backend: `min(k, n)` entries of the index, each once, and nothing nearer left
      out. */
  ghost predicate Serves(all: seq<Nearest.Hit>, k: int, found: seq<Nearest.Hit>) {
    && Nearest.DistinctKeys(found) && Nearest.Returned(all, found) && |found| == Nearest.Wanted(k, |all|)
  }

  lemma FirstKey(all: seq<Nearest.Hit>)
    requires Nearest.DistinctKeys(all) && all != []
    ensures Nearest.DistinctKeys(all[1..]) && all[0].key !in KeysOf(all[1..])
    ensures KeysOf(all) == {all[0].key} + KeysOf(all[1..])
  {
    assert all == [all[0]] + all[1..];
  }

  function KeysOf(all: seq<Nearest.Hit>): set<Bytes> { set h | h in all :: h.key }

  lemma {:induction false} KeysCount(all: seq<Nearest.Hit>)
    requires Nearest.DistinctKeys(all)
    ensures |KeysOf(all)| == |all|
  {
    hide Nearest.DistinctKeys;
    if all != [] {
      FirstKey(all);
      KeysCount(all[1..]);
    }
  }

  lemma EntryCount(db: Db, index: Bytes, distance: Vector -> real, all: seq<Nearest.Hit>)
    requires IndexOk(db, index) && Measures(db, index, distance, all)
    ensures |all| == |db.tables[db.meta[index].table].entries|
  {
    var keys, entries := KeysOf(all), db.tables[db.meta[index].table].entries;
    KeysCount(all);
    forall k ensures k in keys <==> k in entries.Keys {
      if k in entries {
        var h := Nearest.Hit(k, distance(EntriesOf(db, index)[k].vector));
        assert h in all;
      }
    }
    assert keys == entries.Keys;
  }

  /** Asking for all entries and for as many as there are is the same. */
  lemma SliceAsked(db: Db, args: Value, distance: Vector -> real, all: seq<Nearest.Hit>, scan: seq<Nearest.Hit>)
    requires IndexOk(db, IndexOf(args)) && HasTable(db, IndexOf(args))
    requires Measures(db, IndexOf(args), distance, all) && |scan| == |all|
    ensures Nearest.Slice(scan, AskedFor(db, args)) == Nearest.Slice(scan, AsInt(Get(args, "k")))
    ensures Nearest.GapAfter(scan, AskedFor(db, args)) <==> Nearest.GapAfter(scan, AsInt(Get(args, "k")))
    ensures AskedFor(db, args) <= 0 ==> all == []
  {
    hide IndexOk;
    EntryCount(db, IndexOf(args), distance, all);
  }

  /** A search of a linked store, over whatever backend keeps its promise: the distances are those of a
      full scan of the index cut at `k`, however the scan breaks ties; the hits are the same ones when there
      is a gap after the `k`-th, in the same order when ties are broken alike; and each comes with its
      entry's payload. */
  lemma SearchIsScan(F: Floats, db: Db, args: Value, keys: (Bytes, Bytes) -> int, distance: Vector -> real,
                     backend: int -> seq<Nearest.Hit>, all: seq<Nearest.Hit>)
    requires Inv(db) && IndexOf(args) in db.meta && TotalPreorder(keys)
    requires HasTable(db, IndexOf(args)) && Measures(db, IndexOf(args), distance, all)
    requires AskedFor(db, args) > 0 ==> Serves(all, AskedFor(db, args), backend(AskedFor(db, args)))
    ensures var k, hits := AsInt(Get(args, "k")), HitsOf(db, args, backend);
      var scan := Sorted(Nearest.ByDistanceThen(keys), all);
      && Nearest.Distances(hits) == Nearest.Distances(Nearest.Slice(scan, k))
      && (Nearest.GapAfter(scan, k) ==> forall h :: h in hits <==> h in Nearest.Slice(scan, k))
    ensures var k, scan := AsInt(Get(args, "k")), Sorted(Nearest.ByDistance(), all);
      Nearest.GapAfter(scan, k) ==> HitsOf(db, args, backend) == Nearest.Slice(scan, k)
    ensures forall h | h in HitsOf(db, args, backend) ::
      h.key in EntriesOf(db, IndexOf(args))
      && PayloadOf(F, db, IndexOf(args), h.key) == ReadText(F, EntriesOf(db, IndexOf(args))[h.key].text)
  {
    hide Sorted;
    hide Get;
    hide TotalPreorder;
    hide IndexOk;
    hide Measures;
    hide EntriesOf;
    hide PayloadOf;
    hide AskedFor;
    hide HasTable;
    hide AsInt;
    hide Nearest.ByDistance;
    hide Nearest.ByDistanceThen;
    hide Nearest.Returned;
    hide Nearest.DistinctKeys;
    hide Nearest.GapAfter;
    hide Nearest.Slice;
    hide Nearest.Distances;
    var index, k := IndexOf(args), AskedFor(db, args);
    var scan, tied := Sorted(Nearest.ByDistanceThen(keys), all), Sorted(Nearest.ByDistance(), all);
    assert IndexOk(db, index);
    MeasuresDistinct(db, index, distance, all);
    SortedLength(Nearest.ByDistanceThen(keys), all);
    SortedLength(Nearest.ByDistance(), all);
    SliceAsked(db, args, distance, all, scan);
    SliceAsked(db, args, distance, all, tied);
    if k > 0 {
      Nearest.SearchMatchesScan(keys, all, backend(k), k);
      if Nearest.GapAfter(tied, k) { Nearest.SearchEqualsScan(all, backend(k), k); }
      HitsHaveEntries(db, index, distance, all, backend(k));
      forall h | h in HitsOf(db, args, backend)
        ensures h.key in EntriesOf(db, index)
        ensures PayloadOf(F, db, index, h.key) == ReadText(F, EntriesOf(db, index)[h.key].text)
      {
        PayloadRead(F, db, index, h.key);
      }
    } else {
      NothingSearched(scan, tied, AsInt(Get(args, "k")));
    }
  }

  lemma MeasuresDistinct(db: Db, index: Bytes, distance: Vector -> real, all: seq<Nearest.Hit>)
    requires HasTable(db, index) && Measures(db, index, distance, all)
    ensures Nearest.DistinctKeys(all)
  {
  }

  lemma NothingSearched(scan: seq<Nearest.Hit>, tied: seq<Nearest.Hit>, k: int)
    requires scan == [] && tied == []
    ensures Nearest.Slice(scan, k) == [] == Nearest.Slice(tied, k)
    ensures Nearest.Distances([]) == Nearest.Distances(Nearest.Slice(scan, k))
  {
  }

  lemma HitsHaveEntries(db: Db, index: Bytes, distance: Vector -> real, all: seq<Nearest.Hit>,
                        found: seq<Nearest.Hit>)
    requires HasTable(db, index) && Measures(db, index, distance, all) && Nearest.Returned(all, found)
    ensures forall h | h in Sorted(Nearest.ByDistance(), found) :: h.key in EntriesOf(db, index)
  {
    hide Sorted;
    var hits := Sorted(Nearest.ByDistance(), found);
    SortedPermutes(Nearest.ByDistance(), found);
    forall h | h in hits ensures h.key in EntriesOf(db, index) {
      assert h in multiset(hits);
      assert h in found && h in all;
    }
  }

  lemma PayloadRead(F: Floats, db: Db, index: Bytes, key: Bytes)
    requires HasTable(db, index) && key in EntriesOf(db, index)
    ensures PayloadOf(F, db, index, key) == ReadText(F, EntriesOf(db, index)[key].text)
  {
  }

  // --- answers that read again ------------------------------------------------------------

  /** The values a query reads are well formed, with doubles for numbers. */
  lemma TableStored(F: Floats, db: Db, store: Bytes, table: seq<Row>)
    requires Faithful(F) && IsTable(F, db, store, table)
    ensures forall row | row in table :: A.Stored(F, row.value)
  {
    hide Faithful;
    hide Parse;
    forall row | row in table ensures A.Stored(F, row.value) {
      LookupMember(table, row);
      var text := db.rows[(store, row.key)];
      if Parse(F, text, MAX_DEPTH).Ok? {
        ParseGood(F, text, MAX_DEPTH);
        A.GoodStored(F, row.value, MAX_DEPTH);
      }
    }
  }

  /** The answer of a query over a store's own table reads again exactly when every row in it is at most 61
      high. */
  lemma TableReparses(F: Floats, db: Db, store: Bytes, table: seq<Row>, rows: seq<Row>)
    requires Faithful(F) && IsTable(F, db, store, table) && forall row | row in rows :: row in table
    ensures Parse(F, Dump(F, A.QueryAnswer(rows)), MAX_DEPTH).Ok? <==>
      forall row | row in rows :: Height(row.value) <= 61
  {
    hide Faithful;
    hide Parse;
    hide Dump;
    hide IsTable;
    hide A.Stored;
    TableStored(F, db, store, table);
    A.QueryReparses(F, rows);
  }

  lemma FilledUnfold(F: Floats, db: Db, index: Bytes, e: Embedding, rows: seq<Value>)
    ensures Filled(F, db, index, e, rows) ==
      if rows == [] then Result(db, Done)
      else match ReadVector(Get(rows[0], "vector"))
        case None => Result(db, Refused("invalid_vector", ""))
        case Some(vector) =>
          var r := WriteChecked(F, db, index, e, KeyOf(rows[0]), vector, Get(rows[0], "value"));
          if r.reply.Done? then Filled(F, r.db, index, e, rows[1..]) else r
  {
  }

  lemma WrongLength(F: Floats, db: Db, index: Bytes, e: Embedding, row: Value, vector: Vector)
    requires |vector| != e.dimension
    ensures WriteChecked(F, db, index, e, KeyOf(row), vector, Get(row, "value"))
         == Result(db, Refused("embedding_mismatch", "dimension"))
  {
  }

  lemma OpenWhenFound(s: State<Db>, name: Bytes)
    ensures FindScope(Names(s.scopes), name).Some? <==> NamesOpen(s, name)
  {
    var found := FindScope(Names(s.scopes), name);
    if found.Some? { assert SameName(s.scopes[found.value].name, name); }
  }

  /** After `ROLLBACK TO` the savepoint is the innermost of its name. */
  lemma FoundLast(scopes: seq<Scope<Db>>, name: Bytes)
    requires FindScope(Names(scopes), name).Some?
    ensures var k := FindScope(Names(scopes), name).value;
      FindScope(Names(scopes[..k + 1]), name) == Some(k)
  {
  }
}
