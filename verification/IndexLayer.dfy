/** The three tables behind the vector indexes: what links them, and the map they stand for. */
module IndexLayer {
  import opened Strings
  import opened Database

  // --- the invariant ----------------------------------------------------------------

  /** A provenance row names the table numbered by its own row id; the table exists with the recorded
      dimension, its vectors have that width, and its keys are exactly the keys with a payload. */
  ghost predicate IndexOk(db: Db, i: Bytes) {
    && i in db.meta
    && db.meta[i].table == PhysicalName(db.meta[i].rowid)
    && db.meta[i].table in db.tables
    && var t := db.tables[db.meta[i].table];
    && t.dimension == db.meta[i].embedding.dimension
    && (forall k | k in t.entries :: |t.entries[k]| == t.dimension)
    && (forall k :: (i, k) in db.payloads <==> k in t.entries)
  }

  ghost predicate RowidsUnique(db: Db) {
    forall i, j | i in db.meta && j in db.meta && i != j :: db.meta[i].rowid != db.meta[j].rowid
  }

  /** No table without an index. */
  ghost predicate TablesOwned(db: Db) {
    forall t | t in db.tables :: exists i :: i in db.meta && db.meta[i].table == t
  }

  /** No payload without an index. */
  ghost predicate PayloadsOwned(db: Db) {
    forall p | p in db.payloads :: p.0 in db.meta
  }

  ghost predicate Inv(db: Db) {
    && (forall i | i in db.meta :: IndexOk(db, i))
    && RowidsUnique(db) && TablesOwned(db) && PayloadsOwned(db)
  }

  lemma PhysicalInjective(m: nat, n: nat)
    ensures PhysicalName(m) == PhysicalName(n) <==> m == n
    ensures PhysicalName(m) != ""
  {
    if PhysicalName(m) == PhysicalName(n) {
      assert Decimal(m) == PhysicalName(m)[4..] && Decimal(n) == PhysicalName(n)[4..];
      DecimalInjective(m, n);
    }
  }

  /** Distinct indexes own distinct physical tables. */
  lemma TablesDistinct(db: Db, i: Bytes, j: Bytes)
    requires Inv(db) && i in db.meta && j in db.meta && i != j
    ensures db.meta[i].table != db.meta[j].table
  {
    assert IndexOk(db, i) && IndexOk(db, j);
    PhysicalInjective(db.meta[i].rowid, db.meta[j].rowid);
  }

  lemma IndexHas(db: Db, i: Bytes)
    requires IndexOk(db, i)
    ensures HasTable(db, i) && db.tables[db.meta[i].table].dimension == db.meta[i].embedding.dimension
  {
  }

  // --- the map it stands for -----------------------------------------------------------

  datatype Entry = Entry(vector: Vector, text: Bytes)

  /** An index as its users see it. */
  datatype Index = Index(embedding: Embedding, entries: map<Bytes, Entry>)

  function EntriesOf(db: Db, i: Bytes): map<Bytes, Entry>
    requires HasTable(db, i)
  {
    var vectors := db.tables[db.meta[i].table].entries;
    map k | k in vectors && (i, k) in db.payloads :: Entry(vectors[k], db.payloads[(i, k)])
  }

  function IndexAt(db: Db, i: Bytes): Index
    requires HasTable(db, i)
  {
    Index(db.meta[i].embedding, EntriesOf(db, i))
  }

  function View(db: Db): map<Bytes, Index> {
    map i | i in db.meta && HasTable(db, i) :: IndexAt(db, i)
  }

  // --- indexes an operation does not name ------------------------------------------------

  /** Index `i` is stored alike in both. */
  ghost predicate SameIndex(a: Db, b: Db, i: Bytes) {
    && i in a.meta && i in b.meta && a.meta[i] == b.meta[i]
    && a.meta[i].table in a.tables && a.meta[i].table in b.tables
    && a.tables[a.meta[i].table] == b.tables[a.meta[i].table]
    && (forall k :: (i, k) in a.payloads <==> (i, k) in b.payloads)
    && (forall k | (i, k) in a.payloads :: a.payloads[(i, k)] == b.payloads[(i, k)])
  }

  lemma SameOk(a: Db, b: Db, i: Bytes)
    requires SameIndex(a, b, i)
    ensures IndexOk(a, i) ==> IndexOk(b, i)
    ensures HasTable(a, i) && HasTable(b, i) && IndexAt(a, i) == IndexAt(b, i)
  {
    assert EntriesOf(a, i) == EntriesOf(b, i);
  }

  /** Everything but `index` is as before, and `index` is now `x`, or gone when there is none. */
  ghost predicate Changes(a: Db, b: Db, index: Bytes, x: Option<Index>) {
    && (forall i | i in a.meta && i != index :: SameIndex(a, b, i))
    && (forall i | i in b.meta && i != index :: i in a.meta)
    && (x.None? ==> index !in b.meta)
    && (x.Some? ==> IndexOk(b, index) && HasTable(b, index) && IndexAt(b, index) == x.value)
  }

  /** So much settles the whole view, and most of the invariant. */
  lemma ChangesView(a: Db, b: Db, index: Bytes, x: Option<Index>)
    requires (forall i | i in a.meta :: IndexOk(a, i)) && Changes(a, b, index, x)
    ensures forall i | i in b.meta :: IndexOk(b, i)
    ensures View(b) == match x case Some(v) => View(a)[index := v] case None => View(a) - {index}
  {
    hide PhysicalName;
    forall i | i in b.meta ensures IndexOk(b, i) { if i != index { SameOk(a, b, i); } }
    forall i | i in a.meta && i != index
      ensures HasTable(a, i) && HasTable(b, i) && IndexAt(a, i) == IndexAt(b, i)
    {
      SameOk(a, b, i);
    }
    ViewsEqual(a, b, index, x);
  }

  lemma ViewsEqual(a: Db, b: Db, index: Bytes, x: Option<Index>)
    requires forall i | i in a.meta :: HasTable(a, i)
    requires forall i | i in b.meta :: HasTable(b, i)
    requires forall i | i in a.meta && i != index :: i in b.meta && IndexAt(a, i) == IndexAt(b, i)
    requires forall i | i in b.meta && i != index :: i in a.meta
    requires match x case Some(v) => index in b.meta && IndexAt(b, index) == v case None => index !in b.meta
    ensures View(b) == match x case Some(v) => View(a)[index := v] case None => View(a) - {index}
  {
    hide IndexAt;
    hide HasTable;
    var want := match x case Some(v) => View(a)[index := v] case None => View(a) - {index};
    assert View(b).Keys == want.Keys;
  }

  /** Row ids and table owners after a change that touches no other provenance row. */
  lemma OwnersKept(a: Db, b: Db)
    requires RowidsUnique(a) && TablesOwned(a) && PayloadsOwned(a)
    requires b.meta == a.meta && b.tables.Keys == a.tables.Keys
    requires forall p | p in b.payloads :: p in a.payloads || p.0 in a.meta
    ensures RowidsUnique(b) && TablesOwned(b) && PayloadsOwned(b)
  {
    forall t | t in b.tables ensures exists i :: i in b.meta && b.meta[i].table == t {
      assert t in a.tables;
    }
  }

  // --- creating ----------------------------------------------------------------------------

  lemma RowidBelow(meta: map<Bytes, Meta>, i: Bytes)
    requires i in meta
    ensures meta[i].rowid <= MaxOf(Rowids(meta))
  {
    hide MaxOf;
    assert meta[i].rowid in Rowids(meta);
  }

  /** The new serial is above every row id, so its table name is free. */
  lemma SerialFree(db: Db)
    requires Inv(db)
    ensures var serial := MaxOf(Rowids(db.meta)) + 1;
      && PhysicalName(serial) !in db.tables
      && forall i | i in db.meta :: db.meta[i].rowid < serial && db.meta[i].table != PhysicalName(serial)
  {
    hide MaxOf;
    hide Rowids;
    hide PhysicalName;
    hide RowidsUnique;
    hide PayloadsOwned;
    var serial := MaxOf(Rowids(db.meta)) + 1;
    forall i | i in db.meta ensures db.meta[i].rowid < serial && db.meta[i].table != PhysicalName(serial) {
      assert IndexOk(db, i);
      RowidBelow(db.meta, i);
      PhysicalInjective(db.meta[i].rowid, serial);
    }
  }

  lemma CreatedOthers(db: Db, index: Bytes, e: Embedding, i: Bytes)
    requires Inv(db) && index !in db.meta && i in db.meta
    ensures SameIndex(db, Created(db, index, e), i)
  {
    hide PhysicalName;
    hide MaxOf;
    assert IndexOk(db, i);
    SerialFree(db);
  }

  lemma CreatedThis(db: Db, index: Bytes, e: Embedding)
    requires Inv(db) && index !in db.meta
    ensures IndexOk(Created(db, index, e), index) && HasTable(Created(db, index, e), index)
    ensures IndexAt(Created(db, index, e), index) == Index(e, map[])
  {
    hide PhysicalName;
    hide MaxOf;
    hide TablesOwned;
    hide RowidsUnique;
    hide Rowids;
    SerialFree(db);
    assert EntriesOf(Created(db, index, e), index) == map[];
  }

  lemma CreatedOwned(db: Db, index: Bytes, e: Embedding)
    requires Inv(db) && index !in db.meta
    ensures var after := Created(db, index, e);
      RowidsUnique(after) && TablesOwned(after) && PayloadsOwned(after)
  {
    hide PhysicalName;
    hide MaxOf;
    hide IndexOk;
    SerialFree(db);
    var after := Created(db, index, e);
    forall t | t in after.tables ensures exists i :: i in after.meta && after.meta[i].table == t {
      if t in db.tables {
        var i :| i in db.meta && db.meta[i].table == t;
        assert after.meta[i].table == t;
      } else {
        assert after.meta[index].table == t;
      }
    }
  }

  lemma CreatedInv(db: Db, index: Bytes, e: Embedding)
    requires Inv(db) && index !in db.meta
    ensures Inv(Created(db, index, e)) && View(Created(db, index, e)) == View(db)[index := Index(e, map[])]
    ensures HasTable(Created(db, index, e), index) && IndexAt(Created(db, index, e), index) == Index(e, map[])
  {
    hide PhysicalName;
    hide IndexOk;
    hide SameIndex;
    hide View;
    hide EntriesOf;
    hide MaxOf;
    hide IndexAt;
    hide RowidsUnique;
    hide TablesOwned;
    hide PayloadsOwned;
    var after := Created(db, index, e);
    CreatedThis(db, index, e);
    CreatedOwned(db, index, e);
    forall i | i in db.meta ensures SameIndex(db, after, i) { CreatedOthers(db, index, e, i); }
    ChangesView(db, after, index, Some(Index(e, map[])));
  }

  // --- dropping ----------------------------------------------------------------------------

  lemma DroppedChanges(db: Db, index: Bytes)
    requires Inv(db) && index in db.meta
    ensures Changes(db, Dropped(db, index), index, None)
  {
    hide PhysicalName;
    var after := Dropped(db, index);
    forall i | i in db.meta && i != index ensures SameIndex(db, after, i) {
      assert IndexOk(db, i);
      TablesDistinct(db, i, index);
    }
  }

  lemma DroppedOwned(db: Db, index: Bytes)
    requires Inv(db) && index in db.meta
    ensures var after := Dropped(db, index);
      RowidsUnique(after) && TablesOwned(after) && PayloadsOwned(after)
  {
    hide PhysicalName;
    assert IndexOk(db, index);
    PhysicalInjective(db.meta[index].rowid, 0);
    var after := Dropped(db, index);
    forall t | t in after.tables ensures exists i :: i in after.meta && after.meta[i].table == t {
      var i :| i in db.meta && db.meta[i].table == t;
      assert after.meta[i].table == t;
    }
  }

  lemma DroppedInv(db: Db, index: Bytes)
    requires Inv(db) && index in db.meta
    ensures Inv(Dropped(db, index)) && View(Dropped(db, index)) == View(db) - {index}
  {
    hide IndexOk;
    hide View;
    hide Dropped;
    hide RowidsUnique;
    hide TablesOwned;
    hide PayloadsOwned;
    hide Changes;
    DroppedChanges(db, index);
    DroppedOwned(db, index);
    ChangesView(db, Dropped(db, index), index, None);
  }

  // --- writing and erasing --------------------------------------------------------------------

  lemma WrittenOthers(db: Db, index: Bytes, key: Bytes, vector: Vector, text: Bytes, i: Bytes)
    requires Inv(db) && HasTable(db, index) && i in db.meta && i != index
    ensures SameIndex(db, Written(db, index, key, vector, text), i)
  {
    hide PhysicalName;
    assert IndexOk(db, i);
    TablesDistinct(db, i, index);
  }

  lemma WrittenThis(db: Db, index: Bytes, key: Bytes, vector: Vector, text: Bytes)
    requires IndexOk(db, index) && |vector| == db.meta[index].embedding.dimension
    ensures var after := Written(db, index, key, vector, text);
      && IndexOk(after, index) && HasTable(after, index)
      && EntriesOf(after, index) == EntriesOf(db, index)[key := Entry(vector, text)]
  {
    hide PhysicalName;
  }

  lemma WrittenInv(db: Db, index: Bytes, key: Bytes, vector: Vector, text: Bytes)
    requires Inv(db) && index in db.meta && |vector| == db.meta[index].embedding.dimension
    ensures HasTable(db, index) && Inv(Written(db, index, key, vector, text))
    ensures View(Written(db, index, key, vector, text)) == View(db)[index :=
      Index(db.meta[index].embedding, EntriesOf(db, index)[key := Entry(vector, text)])]
  {
    hide PhysicalName;
    hide IndexOk;
    hide SameIndex;
    hide View;
    hide EntriesOf;
    hide RowidsUnique;
    hide TablesOwned;
    hide PayloadsOwned;
    IndexHas(db, index);
    var after := Written(db, index, key, vector, text);
    WrittenThis(db, index, key, vector, text);
    forall i | i in db.meta && i != index ensures SameIndex(db, after, i) {
      WrittenOthers(db, index, key, vector, text, i);
    }
    ChangesView(db, after, index,
      Some(Index(db.meta[index].embedding, EntriesOf(db, index)[key := Entry(vector, text)])));
    OwnersKept(db, after);
  }

  lemma ErasedOthers(db: Db, index: Bytes, key: Bytes, i: Bytes)
    requires Inv(db) && HasTable(db, index) && i in db.meta && i != index
    ensures SameIndex(db, Erased(db, index, key), i)
  {
    hide PhysicalName;
    assert IndexOk(db, i);
    TablesDistinct(db, i, index);
  }

  lemma ErasedThis(db: Db, index: Bytes, key: Bytes)
    requires IndexOk(db, index)
    ensures var after := Erased(db, index, key);
      && IndexOk(after, index) && HasTable(after, index)
      && EntriesOf(after, index) == EntriesOf(db, index) - {key}
  {
    hide PhysicalName;
  }

  lemma ErasedInv(db: Db, index: Bytes, key: Bytes)
    requires Inv(db)
    ensures Inv(Erased(db, index, key))
    ensures index in db.meta ==> HasTable(db, index)
    ensures index in db.meta ==>
      View(Erased(db, index, key)) ==
        View(db)[index := Index(db.meta[index].embedding, EntriesOf(db, index) - {key})]
    ensures index !in db.meta ==> Erased(db, index, key) == db
  {
    hide PhysicalName;
    hide IndexOk;
    hide SameIndex;
    hide View;
    hide EntriesOf;
    hide RowidsUnique;
    hide TablesOwned;
    var after := Erased(db, index, key);
    if index in db.meta {
      assert IndexOk(db, index);
      ErasedThis(db, index, key);
      forall i | i in db.meta && i != index ensures SameIndex(db, after, i) {
        ErasedOthers(db, index, key, i);
      }
      ChangesView(db, after, index,
        Some(Index(db.meta[index].embedding, EntriesOf(db, index) - {key})));
      assert after.tables.Keys == db.tables.Keys;
      OwnersKept(db, after);
    } else {
      assert db.payloads - {(index, key)} == db.payloads;
    }
  }
}
