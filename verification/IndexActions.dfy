/** The index actions on the three tables refine updates of one map, failures included. */
module IndexActions {
  import opened Strings
  import opened Json
  import opened Query
  import opened Database
  import opened IndexLayer

  /** A row a reindex can write: its vector is one, of the declared width. */
  predicate GoodRow(row: Value, e: Embedding) {
    ReadVector(Get(row, "vector")).Some? && |ReadVector(Get(row, "vector")).value| == e.dimension
  }

  /** How many rows come before the first bad one. */
  function GoodPrefix(rows: seq<Value>, e: Embedding): (n: nat)
    ensures n <= |rows| && forall k | 0 <= k < n :: GoodRow(rows[k], e)
    ensures n < |rows| ==> !GoodRow(rows[n], e)
  {
    if rows == [] || !GoodRow(rows[0], e) then 0 else 1 + GoodPrefix(rows[1..], e)
  }

  function EntryOf(F: Floats, row: Value): Entry {
    var vector := match ReadVector(Get(row, "vector")) case Some(v) => v case None => [];
    Entry(vector, StoredText(F, Get(row, "value")))
  }

  /** The entries with the rows put in one after the other. */
  function Entries(F: Floats, m: map<Bytes, Entry>, rows: seq<Value>): map<Bytes, Entry>
    decreases |rows|
  {
    if rows == [] then m else Entries(F, m[KeyOf(rows[0]) := EntryOf(F, rows[0])], rows[1..])
  }

  lemma {:induction false} EntriesKeep(F: Floats, m: map<Bytes, Entry>, rows: seq<Value>, key: Bytes)
    requires forall k | 0 <= k < |rows| :: KeyOf(rows[k]) != key
    ensures key in Entries(F, m, rows) <==> key in m
    ensures key in m ==> Entries(F, m, rows)[key] == m[key]
    decreases |rows|
  {
    hide EntryOf;
    hide KeyOf;
    if rows != [] { EntriesKeep(F, m[KeyOf(rows[0]) := EntryOf(F, rows[0])], rows[1..], key); }
  }

  /** Of the rows with one key the last is what is left. */
  lemma {:induction false} EntriesLast(F: Floats, m: map<Bytes, Entry>, rows: seq<Value>, k: nat)
    requires k < |rows| && forall j | k < j < |rows| :: KeyOf(rows[j]) != KeyOf(rows[k])
    ensures KeyOf(rows[k]) in Entries(F, m, rows)
    ensures var x := Entries(F, m, rows)[KeyOf(rows[k])];
      && x.text == StoredText(F, Get(rows[k], "value"))
      && forall v | ReadVector(Get(rows[k], "vector")) == Some(v) :: x.vector == v
    decreases |rows|
  {
    hide KeyOf;
    hide ReadVector;
    hide StoredText;
    var next := m[KeyOf(rows[0]) := EntryOf(F, rows[0])];
    if k > 0 {
      hide EntryOf;
      EntriesLast(F, next, rows[1..], k - 1);
    } else {
      EntriesKeep(F, next, rows[1..], KeyOf(rows[0]));
    }
  }

  /** The typed error of the first bad row. */
  function RowRefusal(row: Value): Reply {
    if ReadVector(Get(row, "vector")).None? then Refused("invalid_vector", "")
    else Refused("embedding_mismatch", "dimension")
  }

  lemma {:induction false} FilledView(F: Floats, db: Db, index: Bytes, e: Embedding, rows: seq<Value>)
    requires Inv(db) && HasTable(db, index) && db.meta[index].embedding == e
    ensures var n, r := GoodPrefix(rows, e), Filled(F, db, index, e, rows);
      && Inv(r.db)
      && View(r.db) == View(db)[index := Index(e, Entries(F, EntriesOf(db, index), rows[..n]))]
      && r.reply == if n == |rows| then Done else RowRefusal(rows[n])
    decreases |rows|
  {
    hide Inv;
    hide View;
    hide PhysicalName;
    hide Get;
    hide EntriesOf;
    hide Filled;
    var n := GoodPrefix(rows, e);
    if rows == [] || !GoodRow(rows[0], e) {
      assert rows[..n] == [];
      FilledStops(F, db, index, e, rows);
      SelfUpdate(db, index);
    } else {
      var row, rest := rows[0], rows[1..];
      var x := EntryOf(F, row);
      var next := Written(db, index, KeyOf(row), x.vector, x.text);
      WrittenInv(db, index, KeyOf(row), x.vector, x.text);
      FilledStep(F, db, index, e, rows);
      FilledView(F, next, index, e, rest);
      assert rows[..n][1..] == rest[..n - 1];
      UpdateTwice(View(db), View(db), index, IndexAt(next, index),
        Index(e, Entries(F, EntriesOf(next, index), rest[..n - 1])));
    }
  }

  lemma FilledStops(F: Floats, db: Db, index: Bytes, e: Embedding, rows: seq<Value>)
    requires HasTable(db, index) && (rows == [] || !GoodRow(rows[0], e))
    ensures Filled(F, db, index, e, rows) == Result(db, if rows == [] then Done else RowRefusal(rows[0]))
  {
    hide Get;
    hide Written;
  }

  lemma FilledStep(F: Floats, db: Db, index: Bytes, e: Embedding, rows: seq<Value>)
    requires Inv(db) && HasTable(db, index) && db.meta[index].embedding == e
    requires rows != [] && GoodRow(rows[0], e)
    ensures var x := EntryOf(F, rows[0]);
      var next := Written(db, index, KeyOf(rows[0]), x.vector, x.text);
      && Filled(F, db, index, e, rows) == Filled(F, next, index, e, rows[1..])
      && HasTable(next, index) && next.meta[index].embedding == e
      && EntriesOf(next, index) == EntriesOf(db, index)[KeyOf(rows[0]) := x]
  {
    hide PhysicalName;
    hide Get;
    hide StoredText;
    hide EntriesOf;
    assert IndexOk(db, index);
    var x := EntryOf(F, rows[0]);
    WrittenThis(db, index, KeyOf(rows[0]), x.vector, x.text);
  }

  /** An index set to what it is. */
  lemma SelfUpdate(db: Db, index: Bytes)
    requires HasTable(db, index)
    ensures View(db) == View(db)[index := Index(db.meta[index].embedding, EntriesOf(db, index))]
  {
  }

  /** A reindex sets the index to the rows before the first bad one, under the new provenance,
      whatever was there before; it touches no other index, and succeeds when no row is bad. */
  lemma ReindexView(F: Floats, args: Value, db: Db, e: Embedding)
    requires Inv(db) && ValidName(IndexOf(args)) && ParseEmbedding(Get(args, "embedding")) == Some(e)
    ensures var rows, r := AsItems(Get(args, "vectors")), Effect(F, IndexReindex(args), db);
      var n := GoodPrefix(rows, e);
      && Inv(r.db)
      && View(r.db) == View(db)[IndexOf(args) := Index(e, Entries(F, map[], rows[..n]))]
      && r.reply == if n == |rows| then Done else RowRefusal(rows[n])
  {
    hide Inv;
    hide View;
    hide Get;
    hide Filled;
    hide Entries;
    hide Created;
    hide Dropped;
    hide GoodPrefix;
    hide ParseEmbedding;
    hide ValidName;
    var index, rows := IndexOf(args), AsItems(Get(args, "vectors"));
    var cleared := db;
    if index in db.meta {
      DroppedInv(db, index);
      cleared := Dropped(db, index);
      DroppedGone(db, index);
    }
    CreatedInv(cleared, index, e);
    FilledView(F, Created(cleared, index, e), index, e, rows);
    UpdateTwice(View(db), View(cleared), index, Index(e, map[]),
      Index(e, Entries(F, map[], rows[..GoodPrefix(rows, e)])));
  }

  lemma DroppedGone(db: Db, index: Bytes)
    requires index in db.meta
    ensures index !in Dropped(db, index).meta
  {
  }

  lemma SelfAgain(a: map<Bytes, Index>, i: Bytes)
    requires i in a
    ensures a[i := a[i]] == a
  {
  }

  lemma UpdateTwice(a: map<Bytes, Index>, b: map<Bytes, Index>, i: Bytes, x: Index, y: Index)
    requires b == a || b == a - {i}
    ensures b[i := x][i := y] == a[i := y]
  {
  }

  /** An upsert that is refused before the index exists changes nothing; one whose vector has the
      wrong length leaves a first-seen index behind, empty; one that succeeds sets one entry. */
  lemma UpsertView(F: Floats, args: Value, db: Db)
    requires Inv(db) && ValidName(IndexOf(args))
    ensures Inv(Effect(F, IndexUpsert(args), db).db)
    ensures var index, r := IndexOf(args), Effect(F, IndexUpsert(args), db);
      match (ParseEmbedding(Get(args, "embedding")), ReadVector(Get(args, "vector")))
      case (None, _) => r == Result(db, Refused("invalid_embedding", ""))
      case (_, None) => r == Result(db, Refused("invalid_vector", ""))
      case (Some(e), Some(vector)) =>
        if index in View(db) && View(db)[index].embedding != e then
          var was := View(db)[index].embedding;
          r == Result(db, Refused("embedding_mismatch",
            if was.dimension != e.dimension then "dimension" else if was.model != e.model then "model" else "revision"))
        else
          var entries := if index in View(db) then View(db)[index].entries else map[];
          var good := |vector| == e.dimension;
          && r.reply == (if good then Done else Refused("embedding_mismatch", "dimension"))
          && View(r.db) == View(db)[index := Index(e,
               if good then entries[KeyOf(args) := Entry(vector, StoredText(F, Get(args, "value")))] else entries)]
  {
    hide ValidName;
    hide Inv;
    hide View;
    hide EntriesOf;
    hide WriteChecked;
    hide Created;
    hide Get;
    hide ParseEmbedding;
    hide ReadVector;
    hide Mismatch;
    hide StoredText;
    var index := IndexOf(args);
    ViewHas(db, index);
    if ParseEmbedding(Get(args, "embedding")).Some? && ReadVector(Get(args, "vector")).Some? {
      var e, vector := ParseEmbedding(Get(args, "embedding")).value, ReadVector(Get(args, "vector")).value;
      if index in db.meta {
        MismatchIs(db.meta[index].embedding, e);
        if db.meta[index].embedding == e { UpsertReady(F, args, db, e, vector); }
      } else {
        CreatedInv(db, index, e);
        UpsertReady(F, args, Created(db, index, e), e, vector);
        var x := View(Effect(F, IndexUpsert(args), db).db)[index];
        UpdateTwice(View(db), View(db), index, Index(e, map[]), x);
      }
    }
  }

  /** Deleting an entry always succeeds, and takes the key from the index when there is one. */
  lemma EraseView(F: Floats, args: Value, db: Db)
    requires Inv(db) && ValidName(IndexOf(args))
    ensures var r, index := Effect(F, IndexDelete(args), db), IndexOf(args);
      && r.reply == Done && Inv(r.db)
      && View(r.db) == if index in View(db)
         then View(db)[index := View(db)[index].(entries := View(db)[index].entries - {KeyOf(args)})]
         else View(db)
  {
    hide Inv;
    hide View;
    hide Get;
    hide Erased;
    hide ValidName;
    hide EntriesOf;
    ErasedInv(db, IndexOf(args), KeyOf(args));
    ViewHas(db, IndexOf(args));
  }

  /** A name that is not legal is refused by each of the three, and nothing happens. */
  lemma BadNames(F: Floats, args: Value, db: Db)
    requires !ValidName(IndexOf(args))
    ensures Effect(F, IndexUpsert(args), db) == Result(db, Refused("invalid_index", ""))
    ensures Effect(F, IndexDelete(args), db) == Result(db, Refused("invalid_index", ""))
    ensures Effect(F, IndexReindex(args), db) == Result(db, Refused("invalid_index", ""))
  {
    hide ValidName;
    hide Get;
  }

  lemma ViewHas(db: Db, i: Bytes)
    requires Inv(db)
    ensures i in View(db) <==> i in db.meta
    ensures i in db.meta ==> HasTable(db, i) && View(db)[i] == Index(db.meta[i].embedding, EntriesOf(db, i))
  {
    if i in db.meta { assert IndexOk(db, i); }
  }

  /** An upsert once the index is there with the right provenance. */
  lemma UpsertReady(F: Floats, args: Value, db: Db, e: Embedding, vector: Vector)
    requires Inv(db) && IndexOf(args) in db.meta && db.meta[IndexOf(args)].embedding == e
    ensures HasTable(db, IndexOf(args))
    ensures var index, text := IndexOf(args), StoredText(F, Get(args, "value"));
      var r := WriteChecked(F, db, index, e, KeyOf(args), vector, Get(args, "value"));
      && Inv(r.db)
      && r.reply == (if |vector| == e.dimension then Done else Refused("embedding_mismatch", "dimension"))
      && View(r.db) == View(db)[index := Index(e,
           if |vector| == e.dimension then EntriesOf(db, index)[KeyOf(args) := Entry(vector, text)]
           else EntriesOf(db, index))]
  {
    var index := IndexOf(args);
    ViewHas(db, index);
    if |vector| == e.dimension {
      WrittenInv(db, index, KeyOf(args), vector, StoredText(F, Get(args, "value")));
    } else {
      SelfUpdate(db, index);
    }
  }

  /** Every write action keeps the invariant, whether it succeeds or ends in a typed error. */
  lemma EffectKeepsInv(F: Floats, w: Write, db: Db)
    requires Inv(db)
    ensures Inv(Effect(F, w, db).db)
  {
    hide Inv;
    hide View;
    hide Get;
    hide Upsert;
    hide Erased;
    hide ValidName;
    hide Entries;
    hide GoodPrefix;
    hide ReadVector;
    hide Filled;
    hide Created;
    hide Dropped;
    var after := Effect(F, w, db).db;
    match w
    case IndexUpsert(args) =>
      if ValidName(IndexOf(args)) { UpsertView(F, args, db); }
    case IndexDelete(args) => ErasedInv(db, IndexOf(args), KeyOf(args));
    case IndexReindex(args) =>
      if ValidName(IndexOf(args)) && ParseEmbedding(Get(args, "embedding")).Some? {
        ReindexView(F, args, db, ParseEmbedding(Get(args, "embedding")).value);
      }
    case _ => RowsOnly(db, after);
  }

  lemma RowsOnly(a: Db, b: Db)
    requires Inv(a) && b.meta == a.meta && b.tables == a.tables && b.payloads == a.payloads
    ensures Inv(b)
  {
    forall i | i in b.meta ensures IndexOk(b, i) { assert IndexOk(a, i); }
  }

  // --- a reindex is upserts into a fresh index --------------------------------------------

  /** The argument object of the upsert that writes one row of a reindex. */
  function UpsertArgs(index: Bytes, embedding: Value, row: Value): Value {
    Obj([Field("embedding", embedding), Field("index", Str(index)), Field("key", Get(row, "key")),
         Field("value", Get(row, "value")), Field("vector", Get(row, "vector"))])
  }

  ghost function UpsertAll(F: Floats, index: Bytes, embedding: Value, rows: seq<Value>, db: Db): Db
    decreases |rows|
  {
    if rows == [] then db
    else UpsertAll(F, index, embedding, rows[1..],
      Effect(F, IndexUpsert(UpsertArgs(index, embedding, rows[0])), db).db)
  }

  lemma ArgsRead(index: Bytes, embedding: Value, row: Value)
    ensures var args := UpsertArgs(index, embedding, row);
      && IndexOf(args) == index && Get(args, "embedding") == embedding && KeyOf(args) == KeyOf(row)
      && Get(args, "vector") == Get(row, "vector") && Get(args, "value") == Get(row, "value")
  {
    var fs := UpsertArgs(index, embedding, row).fields;
    assert Lookup(fs, "index") == Lookup(fs[1..], "index");
    assert Lookup(fs, "key") == Lookup(fs[1..], "key") == Lookup(fs[1..][1..], "key");
    assert fs[1..][1..] == fs[2..] && fs[2..][1..] == fs[3..] && fs[3..][1..] == fs[4..];
    assert Lookup(fs, "value") == Lookup(fs[1..], "value") == Lookup(fs[2..], "value") == Lookup(fs[3..], "value");
    assert Lookup(fs, "vector") == Lookup(fs[1..], "vector") == Lookup(fs[2..], "vector")
        == Lookup(fs[3..], "vector") == Lookup(fs[4..], "vector");
  }

  lemma {:induction false} UpsertAllView(F: Floats, index: Bytes, embedding: Value, rows: seq<Value>, db: Db,
                                         e: Embedding)
    requires Inv(db) && ValidName(index) && ParseEmbedding(embedding) == Some(e)
    requires index in View(db) && View(db)[index].embedding == e
    requires GoodPrefix(rows, e) == |rows|
    ensures View(UpsertAll(F, index, embedding, rows, db)) ==
      View(db)[index := Index(e, Entries(F, View(db)[index].entries, rows))]
    decreases |rows|
  {
    hide Inv;
    hide View;
    hide Get;
    hide ParseEmbedding;
    hide ReadVector;
    hide Upsert;
    hide UpsertArgs;
    hide ValidName;
    hide StoredText;
    if rows != [] {
      var args := UpsertArgs(index, embedding, rows[0]);
      ArgsRead(index, embedding, rows[0]);
      UpsertView(F, args, db);
      var next := Effect(F, IndexUpsert(args), db).db;
      var x := EntryOf(F, rows[0]);
      var entries := View(db)[index].entries[KeyOf(rows[0]) := x];
      assert View(next) == View(db)[index := Index(e, entries)];
      UpsertAllView(F, index, embedding, rows[1..], next, e);
      UpdateTwice(View(db), View(db), index, Index(e, entries), Index(e, Entries(F, entries, rows[1..])));
    } else {
      SelfAgain(View(db), index);
    }
  }

  /** A successful reindex leaves what upserts in list order into any fresh index of that name and
      provenance leave, whatever the index held before. */
  lemma ReindexIsUpserts(F: Floats, args: Value, db: Db, other: Db, e: Embedding)
    requires Inv(db) && Inv(other) && ValidName(IndexOf(args))
    requires ParseEmbedding(Get(args, "embedding")) == Some(e)
    requires IndexOf(args) in View(other) && View(other)[IndexOf(args)] == Index(e, map[])
    requires Effect(F, IndexReindex(args), db).reply == Done
    ensures var index := IndexOf(args);
      var upserts := UpsertAll(F, index, Get(args, "embedding"), AsItems(Get(args, "vectors")), other);
      var after := View(Effect(F, IndexReindex(args), db).db);
      && index in after && index in View(upserts) && after[index] == View(upserts)[index]
      && after - {index} == View(db) - {index} && View(upserts) - {index} == View(other) - {index}
  {
    hide Inv;
    hide View;
    hide Get;
    hide ParseEmbedding;
    hide UpsertAll;
    hide Entries;
    hide ValidName;
    hide Reindex;
    var rows := AsItems(Get(args, "vectors"));
    ReindexView(F, args, db, e);
    assert rows[..|rows|] == rows;
    UpsertAllView(F, IndexOf(args), Get(args, "embedding"), rows, other, e);
    assert GoodPrefix(rows, e) == |rows|;
    var entries := Entries(F, map[], rows);
    OthersAgain(View(db), IndexOf(args), Index(e, entries));
    OthersAgain(View(other), IndexOf(args), Index(e, entries));
  }

  lemma OthersAgain(a: map<Bytes, Index>, i: Bytes, x: Index)
    ensures a[i := x] - {i} == a - {i}
  {
  }

  // --- what a refusal leaves -----------------------------------------------------------------

  /** A refused upsert changes nothing exactly when it is refused before the index is looked at, or the index
      is there already. */
  lemma RefusedUpsert(F: Floats, args: Value, db: Db)
    requires Effect(F, IndexUpsert(args), db).reply.Refused?
    ensures Effect(F, IndexUpsert(args), db).db == db <==>
      || !ValidName(IndexOf(args)) || ParseEmbedding(Get(args, "embedding")).None?
      || ReadVector(Get(args, "vector")).None? || IndexOf(args) in db.meta
  {
    hide ValidName;
    hide Get;
    hide ParseEmbedding;
    hide ReadVector;
    hide Mismatch;
    hide Created;
    hide WriteChecked;
    hide Inv;
    var index := IndexOf(args);
    if ParseEmbedding(Get(args, "embedding")).Some? && ReadVector(Get(args, "vector")).Some? {
      var e, vector := ParseEmbedding(Get(args, "embedding")).value, ReadVector(Get(args, "vector")).value;
      if index in db.meta {
        RefusedWrite(F, db, index, e, KeyOf(args), vector, Get(args, "value"));
      } else {
        RefusedWrite(F, Created(db, index, e), index, e, KeyOf(args), vector, Get(args, "value"));
        CreatedHas(db, index, e);
      }
    }
  }

  lemma RefusedWrite(F: Floats, db: Db, index: Bytes, e: Embedding, key: Bytes, vector: Vector, value: Value)
    ensures WriteChecked(F, db, index, e, key, vector, value).reply.Refused? ==>
      WriteChecked(F, db, index, e, key, vector, value).db == db
  {
  }

  lemma CreatedHas(db: Db, index: Bytes, e: Embedding)
    ensures index in Created(db, index, e).meta
  {
  }

  /** A refused reindex leaves every index as it was exactly when it is refused before the index is dropped,
      or the index already held just the rows before the bad one, under that provenance. */
  lemma RefusedReindex(F: Floats, args: Value, db: Db)
    requires Inv(db) && Effect(F, IndexReindex(args), db).reply.Refused?
    ensures View(Effect(F, IndexReindex(args), db).db) == View(db) <==>
      || !ValidName(IndexOf(args)) || ParseEmbedding(Get(args, "embedding")).None?
      || (var e, rows := ParseEmbedding(Get(args, "embedding")).value, AsItems(Get(args, "vectors"));
          && IndexOf(args) in View(db)
          && View(db)[IndexOf(args)] == Index(e, Entries(F, map[], rows[..GoodPrefix(rows, e)])))
  {
    hide ValidName;
    hide Get;
    hide ParseEmbedding;
    hide Inv;
    hide View;
    hide Filled;
    hide Created;
    hide Dropped;
    hide Entries;
    hide GoodPrefix;
    if ValidName(IndexOf(args)) && ParseEmbedding(Get(args, "embedding")).Some? {
      var e, rows := ParseEmbedding(Get(args, "embedding")).value, AsItems(Get(args, "vectors"));
      ReindexView(F, args, db, e);
      SetSame(View(db), IndexOf(args), Index(e, Entries(F, map[], rows[..GoodPrefix(rows, e)])));
    }
  }

  lemma SetSame(a: map<Bytes, Index>, i: Bytes, x: Index)
    ensures a[i := x] == a <==> i in a && a[i] == x
  {
    assert a[i := x][i] == x;
  }

  /** One-dimensional vectors of a model `m`. */
  const LINE: Value := Obj([Field("dimension", Num(Fin(1.0))), Field("model", Str("m"))])

  lemma LineParses()
    ensures ParseEmbedding(LINE) == Some(Embedding("m", 1, None))
  {
    var fs := LINE.fields;
    assert fs[1..] == [Field("model", Str("m"))] && fs[1..][1..] == [];
    assert Lookup(fs, "model") == Lookup(fs[1..], "model") == Some(Str("m"));
    assert Lookup(fs, "revision") == Lookup(fs[1..], "revision") == Lookup(fs[1..][1..], "revision") == None;
    assert (1.0).Floor == 1;
  }

  /** A row with a vector of `n` zeros. */
  function Zeros(n: nat): Value { Obj([Field("vector", Arr(seq(n, k => Num(Fin(0.0)))))]) }

  lemma ZerosRead(n: nat)
    ensures ReadVector(Get(Zeros(n), "vector")).Some?
    ensures |ReadVector(Get(Zeros(n), "vector")).value| == n && KeyOf(Zeros(n)) == ""
  {
    var fs := Zeros(n).fields;
    assert fs[1..] == [];
    assert Lookup(fs, "key") == Lookup(fs[1..], "key");
  }

  lemma EmptyInv()
    ensures Inv(EMPTY) && View(EMPTY) == map[]
  {
  }

  lemma ShortNames()
    ensures ValidName("i")
  {
  }

  /** A first upsert refused for its length leaves the index behind. */
  lemma FirstUpsertLeaves(F: Floats)
    ensures var r := Effect(F, IndexUpsert(UpsertArgs("i", LINE, Zeros(0))), EMPTY);
      r.reply.Refused? && View(r.db) == map["i" := Index(Embedding("m", 1, None), map[])]
  {
    hide Get;
    hide ParseEmbedding;
    hide ReadVector;
    hide View;
    hide Inv;
    hide Upsert;
    hide ValidName;
    hide UpsertArgs;
    LineParses();
    ZerosRead(0);
    EmptyInv();
    ShortNames();
    ArgsRead("i", LINE, Zeros(0));
    UpsertView(F, UpsertArgs("i", LINE, Zeros(0)), EMPTY);
  }

  /** The arguments of a reindex whose one row has no vector. */
  const BARE: Value := Obj([Field("embedding", LINE), Field("index", Str("i")), Field("vectors", Arr([Null]))])

  lemma BareRead()
    ensures IndexOf(BARE) == "i" && Get(BARE, "embedding") == LINE && AsItems(Get(BARE, "vectors")) == [Null]
    ensures GoodPrefix([Null], Embedding("m", 1, None)) == 0
  {
    var fs := BARE.fields;
    assert fs[1..][1..] == [Field("vectors", Arr([Null]))];
    assert Lookup(fs, "index") == Lookup(fs[1..], "index");
    assert Lookup(fs, "vectors") == Lookup(fs[1..], "vectors") == Lookup(fs[1..][1..], "vectors");
    assert Get(Null, "vector") == Null;
  }

  /** A refused reindex loses the entry there was. */
  lemma ReindexLoses(F: Floats)
    ensures var one := Effect(F, IndexUpsert(UpsertArgs("i", LINE, Zeros(1))), EMPTY);
      var none := Effect(F, IndexReindex(BARE), one.db);
      && one.reply.Done? && "i" in View(one.db) && "" in View(one.db)["i"].entries
      && none.reply.Refused? && View(none.db) == map["i" := Index(Embedding("m", 1, None), map[])]
  {
    hide Get;
    hide ParseEmbedding;
    hide ReadVector;
    hide View;
    hide Inv;
    hide Upsert;
    hide Reindex;
    hide ValidName;
    hide UpsertArgs;
    hide GoodPrefix;
    LineParses();
    ZerosRead(1);
    EmptyInv();
    ShortNames();
    var args := UpsertArgs("i", LINE, Zeros(1));
    ArgsRead("i", LINE, Zeros(1));
    UpsertView(F, args, EMPTY);
    var one := Effect(F, IndexUpsert(args), EMPTY).db;
    BareRead();
    ReindexView(F, BARE, one, Embedding("m", 1, None));
    assert [Null][..0] == [];
  }
}
