/** The TypeScript lane: a database with its own tables, and in-memory caches of the declared stores and of
    index provenance beside it. */
module LocalStore {
  import opened Strings
  import opened Database
  import opened Scopes
  import opened StableSort
  import Nearest

  /** A `_vectors` row. */
  datatype Stored = Stored(vector: seq<real>, text: Bytes)

  datatype Contents = Contents(
    stores: set<Bytes>,                      // _stores
    rows: map<(Bytes, Bytes), Bytes>,        // _rows
    meta: map<Bytes, Embedding>,             // _index_meta
    vectors: map<(Bytes, Bytes), Stored>)    // _vectors

  const NOTHING: Contents := Contents({}, map[], map[], map[])

  datatype Cache = Cache(stores: set<Bytes>, indexes: map<Bytes, Embedding>)

  /** The database behind the lane, as a connection state, and the caches beside it. */
  datatype Lane = Lane(sql: State<Contents>, cache: Cache)

  datatype Entry = Entry(key: Bytes, vector: seq<real>, text: Bytes)

  /** A call, with the text `JSON.stringify` makes of any value. */
  datatype Call =
    | DeclareStore(name: Bytes)
    | PutText(store: Bytes, key: Bytes, text: Bytes)
    | DeleteKey(store: Bytes, key: Bytes)
    | Upsert(index: Bytes, embedding: Embedding, entry: Entry)
    | Erase(index: Bytes, key: Bytes)
    | Reindex(index: Bytes, embedding: Embedding, entries: seq<Entry>)
    | Enter(name: Bytes)
    | Leave(name: Bytes)
    | Undo(name: Bytes)
    | Backup(tag: Bytes)
    | Recover(tag: Bytes)
    | Crash

  /** A bare SQL identifier. */
  predicate IsIdentifier(s: Bytes) {
    && s != "" && (IsLetter(s[0]) || s[0] == '_')
    && forall k | 0 <= k < |s| :: IsLetter(s[k]) || IsDigit(s[k]) || s[k] == '_'
  }

  /** Letters, digits, underscore, dot and dash. */
  predicate IsTag(s: Bytes) {
    s != "" && forall k | 0 <= k < |s| :: IsLetter(s[k]) || IsDigit(s[k]) || s[k] in "_.-"
  }

  lemma LaneNamesAre(s: Bytes)
    ensures IsIdentifier(s) <==>
      s != "" && (forall k | 0 <= k < |s| :: IsWord(s[k])) && !(0x30 <= s[0] as int <= 0x39)
    ensures IsTag(s) <==> s != "" && forall k | 0 <= k < |s| :: IsWord(s[k]) || s[k] as int in [0x2D, 0x2E]
  {
    forall c: char ensures IsWord(c) <==> IsLetter(c) || IsDigit(c) || c == '_' {}
    forall c: char ensures c in "_.-" <==> c == '_' || c as int in [0x2D, 0x2E] {}
    hide IsWord;
    if s != "" { WordStart(s[0]); }
  }

  // --- what a call does to the tables ----------------------------------------------------

  function WithVector(db: Contents, index: Bytes, x: Entry): Contents {
    db.(vectors := db.vectors[(index, x.key) := Stored(x.vector, x.text)])
  }

  /** Whether an upsert is the one that records an index: the cache does not know it, and the insert
      meets no row of that name. */
  predicate Records(cache: Cache, db: Contents, index: Bytes) {
    index !in cache.indexes && index !in db.meta
  }

  function UpsertReply(cache: Cache, db: Contents, index: Bytes, e: Embedding, x: Entry): Reply {
    if index in cache.indexes && Mismatch(cache.indexes[index], e).Some? then
      Refused("embedding_mismatch", Mismatch(cache.indexes[index], e).value)
    else if index !in cache.indexes && index in db.meta then Refused("sql_failed", "")
    else if |x.vector| != e.dimension then Refused("embedding_mismatch", "dimension")
    else Done
  }

  function Upserted(cache: Cache, db: Contents, index: Bytes, e: Embedding, x: Entry): Contents {
    var ready := if Records(cache, db, index) then db.(meta := db.meta[index := e]) else db;
    if UpsertReply(cache, db, index, e, x).Done? then WithVector(ready, index, x) else ready
  }

  /** The rows of a reindex, up to the first of another width. */
  function Refilled(db: Contents, index: Bytes, e: Embedding, xs: seq<Entry>): Contents
    decreases |xs|
  {
    if xs == [] || |xs[0].vector| != e.dimension then db
    else Refilled(WithVector(db, index, xs[0]), index, e, xs[1..])
  }

  /** The index emptied, under its new provenance. */
  function Cleared(db: Contents, index: Bytes, e: Embedding): Contents {
    db.(meta := db.meta[index := e], vectors := map p | p in db.vectors && p.0 != index :: db.vectors[p])
  }

  function Changed(call: Call, cache: Cache, db: Contents): Contents {
    match call
    case DeclareStore(name) => db.(stores := db.stores + {name})
    case PutText(store, key, text) =>
      if store in cache.stores then db.(rows := db.rows[(store, key) := text]) else db
    case DeleteKey(store, key) => if store in cache.stores then db.(rows := db.rows - {(store, key)}) else db
    case Upsert(index, e, x) => Upserted(cache, db, index, e, x)
    case Erase(index, key) => db.(vectors := db.vectors - {(index, key)})
    case Reindex(index, e, xs) => Refilled(Cleared(db, index, e), index, e, xs)
    case _ => db
  }

  // --- the state machine -------------------------------------------------------------------

  /** A call as it reaches the tables: with the cache it was checked against. */
  datatype Sent = Sent(call: Call, cache: Cache)

  function LaneRules(): Rules<Contents, Sent> {
    Rules((x: Sent, db: Contents) => Changed(x.call, x.cache, db), IsIdentifier, IsTag)
  }

  /** A restore that finds its file. */
  predicate Recovers(l: Lane, call: Call) {
    call.Recover? && IsTag(call.tag) && call.tag in l.sql.snapshots
  }

  /** The step of the connection that a call makes. */
  function StepOf(l: Lane, call: Call): Step<Sent> {
    match call
    case Enter(name) => Savepoint(name)
    case Leave(name) => Release(name)
    case Undo(name) => Rollback(name)
    case Backup(tag) => Snapshot(tag)
    case Crash => Reopen
    case Recover(tag) => if Recovers(l, call) then Restore(tag) else Act(Sent(call, l.cache))
    case _ => Act(Sent(call, l.cache))
  }

  function CacheOf(db: Contents): Cache { Cache(db.stores, db.meta) }

  /** Whether a call reads the caches from the tables again. */
  predicate Reloads(l: Lane, call: Call) { call.Crash? || Recovers(l, call) }

  function CacheAfter(l: Lane, call: Call): Cache {
    match call
    case DeclareStore(name) => l.cache.(stores := l.cache.stores + {name})
    case Upsert(index, e, _) =>
      if Records(l.cache, l.sql.db, index) then l.cache.(indexes := l.cache.indexes[index := e]) else l.cache
    case Reindex(index, e, _) => l.cache.(indexes := l.cache.indexes[index := e])
    case _ => l.cache
  }

  /** What a call leaves behind, thrown errors included. */
  ghost function Next(l: Lane, call: Call): Lane {
    var sql := Apply(LaneRules(), l.sql, StepOf(l, call));
    Lane(sql, if Reloads(l, call) then CacheOf(sql.db) else CacheAfter(l, call))
  }

  ghost function Play(l: Lane, calls: seq<Call>): Lane {
    if calls == [] then l else Next(Play(l, calls[..|calls| - 1]), calls[|calls| - 1])
  }

  /** The lane right after its construction over a file's contents. */
  function Loaded(db: Contents, snapshots: map<Bytes, Contents>): Lane {
    Lane(State(db, [], snapshots), CacheOf(db))
  }

  /** The steps a run of calls makes. */
  ghost function Steps(l: Lane, calls: seq<Call>): (r: seq<Step<Sent>>)
    ensures |r| == |calls|
  {
    if calls == [] then []
    else
      var n := |calls| - 1;
      Steps(l, calls[..n]) + [StepOf(Play(l, calls[..n]), calls[n])]
  }

  /** A run of the lane is a run of its connection, so what holds of those holds here. */
  lemma {:induction false} PlayIsRun(l: Lane, calls: seq<Call>)
    ensures Play(l, calls).sql == Run(LaneRules(), l.sql, Steps(l, calls))
  {
    hide Apply;
    hide StepOf;
    hide LaneRules;
    hide CacheAfter;
    if calls != [] {
      var n := |calls| - 1;
      PlayIsRun(l, calls[..n]);
      assert Steps(l, calls)[..n] == Steps(l, calls[..n]);
    }
  }

  lemma {:induction false} PlayJoin(l: Lane, a: seq<Call>, b: seq<Call>)
    ensures Play(l, a + b) == Play(Play(l, a), b)
  {
    hide Next;
    if b == [] {
      assert a + b == a;
    } else {
      assert (a + b)[..|a + b| - 1] == a + b[..|b| - 1];
      PlayJoin(l, a, b[..|b| - 1]);
    }
  }

  lemma {:induction false} StepsAt(l: Lane, calls: seq<Call>, p: nat)
    requires p < |calls|
    ensures Steps(l, calls)[..p] == Steps(l, calls[..p])
    ensures Steps(l, calls)[p] == StepOf(Play(l, calls[..p]), calls[p])
  {
    hide StepOf;
    hide Play;
    var n := |calls| - 1;
    if p < n {
      StepsAt(l, calls[..n], p);
      assert calls[..n][..p] == calls[..p];
      assert Steps(l, calls)[..p] == Steps(l, calls[..n])[..p];
    } else {
      assert Steps(l, calls)[..n] == Steps(l, calls[..n]);
    }
  }

  // --- the caches cover the tables ------------------------------------------------------------

  predicate Over(cache: Cache, db: Contents) {
    db.stores <= cache.stores && db.meta.Keys <= cache.indexes.Keys
  }

  /** Every store and index there is, now or in a scope that may be gone back to, is in the caches. */
  ghost predicate Covers(l: Lane) {
    && Over(l.cache, l.sql.db)
    && forall k | 0 <= k < |l.sql.scopes| :: Over(l.cache, l.sql.scopes[k].saved)
  }

  lemma {:induction false} RefilledMeta(db: Contents, index: Bytes, e: Embedding, xs: seq<Entry>)
    ensures Refilled(db, index, e, xs).meta == db.meta && Refilled(db, index, e, xs).stores == db.stores
    decreases |xs|
  {
    if xs != [] && |xs[0].vector| == e.dimension { RefilledMeta(WithVector(db, index, xs[0]), index, e, xs[1..]); }
  }

  /** What a call does to the two tables the caches are read from. */
  lemma ChangedTables(call: Call, cache: Cache, db: Contents)
    ensures var after := Changed(call, cache, db);
      && after.stores == (if call.DeclareStore? then db.stores + {call.name} else db.stores)
      && after.meta == (if (call.Upsert? && Records(cache, db, call.index)) || call.Reindex?
                        then db.meta[call.index := call.embedding] else db.meta)
  {
    if call.Reindex? {
      RefilledMeta(Cleared(db, call.index, call.embedding), call.index, call.embedding, call.entries);
    }
  }

  lemma NextCovers(l: Lane, call: Call)
    requires Covers(l)
    ensures Covers(Next(l, call))
  {
    hide Changed;
    hide Records;
    ChangedTables(call, l.cache, l.sql.db);
  }

  /** In every run from a load, whatever is rolled back, crashed or restored, a declared store is in
      the cache, and so a put or a delete on it is never refused as unknown; and a recorded index is, and
      so no upsert meets a row it does not know of. */
  lemma {:induction false} CacheCovers(l: Lane, calls: seq<Call>)
    requires Covers(l)
    ensures Covers(Play(l, calls))
  {
    hide Next;
    hide Covers;
    if calls != [] {
      CacheCovers(l, calls[..|calls| - 1]);
      NextCovers(Play(l, calls[..|calls| - 1]), calls[|calls| - 1]);
    }
  }

  lemma LoadedCovers(db: Contents, snapshots: map<Bytes, Contents>, calls: seq<Call>)
    ensures Covers(Play(Loaded(db, snapshots), calls))
  {
    CacheCovers(Loaded(db, snapshots), calls);
  }

  // --- when the caches are exact -----------------------------------------------------------------

  predicate Exact(l: Lane) { l.cache == CacheOf(l.sql.db) }

  lemma ReloadIsExact(l: Lane, call: Call)
    requires Reloads(l, call)
    ensures Exact(Next(l, call)) && Next(l, call).sql.scopes == []
  {
  }

  /** One rollback keeps the caches exact exactly when they are what was saved, or, when no open scope
      has the name, when they were exact before. */
  lemma RollbackExact(l: Lane, name: Bytes)
    ensures var found := FindScope(Names(l.sql.scopes), name);
      Exact(Next(l, Undo(name))) <==>
        if IsIdentifier(name) && found.Some? then l.cache == CacheOf(l.sql.scopes[found.value].saved)
        else Exact(l)
  {
    hide IsIdentifier;
  }

  ghost predicate NoReload(l: Lane, calls: seq<Call>) {
    forall k | 0 <= k < |calls| :: !Reloads(Play(l, calls[..k]), calls[k])
  }

  lemma NoReloadPrefix(l: Lane, calls: seq<Call>, n: nat)
    requires NoReload(l, calls) && n <= |calls|
    ensures NoReload(l, calls[..n])
  {
    hide Reloads;
    hide Play;
    forall k | 0 <= k < n ensures !Reloads(Play(l, calls[..n][..k]), calls[..n][k]) {
      assert calls[..n][..k] == calls[..k];
    }
  }

  lemma NoReloadSteps(l: Lane, calls: seq<Call>)
    requires NoReload(l, calls)
    ensures NoRestore(Steps(l, calls))
  {
    hide Play;
    hide Steps;
    forall k | 0 <= k < |calls| ensures !Steps(l, calls)[k].Restore? { StepsAt(l, calls, k); }
  }

  /** The provenance call `p` gives an index, told from the calls alone: a reindex always does, an upsert
      when nothing gave it one before. */
  function Sets(loaded: map<Bytes, Embedding>, calls: seq<Call>, p: nat, index: Bytes): Option<Embedding>
    requires p < |calls|
    decreases p, 1
  {
    match calls[p]
    case Reindex(i, e, _) => if i == index then Some(e) else None
    case Upsert(i, e, _) => if i == index && LastSet(loaded, calls, p, i).None? then Some(e) else None
    case _ => None
  }

  /** The provenance last given before `n`, taken back or not; else the one loaded. */
  function LastSet(loaded: map<Bytes, Embedding>, calls: seq<Call>, n: nat, index: Bytes): Option<Embedding>
    requires n <= |calls|
    decreases n, 0
  {
    if n == 0 then (if index in loaded then Some(loaded[index]) else None)
    else
      match Sets(loaded, calls, n - 1, index)
      case Some(e) => Some(e)
      case None => LastSet(loaded, calls, n - 1, index)
  }

  /** The call is in no scope rolled back later. */
  ghost predicate Kept(l: Lane, calls: seq<Call>, p: nat) { Survives(LaneRules(), Steps(l, calls), p) }

  /** The provenance last given before `n` by a call that is not taken back; else the one loaded. */
  ghost function LastKept(l: Lane, calls: seq<Call>, n: nat, index: Bytes): Option<Embedding>
    requires n <= |calls|
  {
    if n == 0 then (if index in l.sql.db.meta then Some(l.sql.db.meta[index]) else None)
    else if Kept(l, calls, n - 1) && Sets(l.sql.db.meta, calls, n - 1, index).Some? then
      Sets(l.sql.db.meta, calls, n - 1, index)
    else LastKept(l, calls, n - 1, index)
  }

  /** Every store declared since the load was loaded, or has a declaration that is not taken back. */
  ghost predicate DeclarationsKept(l: Lane, calls: seq<Call>) {
    forall p | 0 <= p < |calls| && calls[p].DeclareStore? :: DeclarationKept(l, calls, calls[p].name)
  }

  ghost predicate DeclarationKept(l: Lane, calls: seq<Call>, name: Bytes) {
    name in l.sql.db.stores || KeptBefore(l, calls, |calls|, name)
  }

  ghost predicate KeptBefore(l: Lane, calls: seq<Call>, n: nat, name: Bytes) {
    exists q: nat :: q < n && q < |calls| && calls[q] == DeclareStore(name) && Kept(l, calls, q)
  }

  /** Every index has the provenance last given to it by a call that is not taken back. */
  ghost predicate ProvenanceKept(l: Lane, calls: seq<Call>) {
    forall i :: LastSet(l.sql.db.meta, calls, |calls|, i) == LastKept(l, calls, |calls|, i)
  }

  function Find(m: map<Bytes, Embedding>, i: Bytes): Option<Embedding> { if i in m then Some(m[i]) else None }

  lemma {:induction false} LastSetPrefix(loaded: map<Bytes, Embedding>, calls: seq<Call>, m: nat, n: nat, i: Bytes)
    requires n <= m <= |calls|
    ensures LastSet(loaded, calls[..m], n, i) == LastSet(loaded, calls, n, i)
    ensures n < m ==> Sets(loaded, calls[..m], n, i) == Sets(loaded, calls, n, i)
    decreases n
  {
    if n > 0 { LastSetPrefix(loaded, calls, m, n - 1, i); }
  }

  /** The store cache is what was loaded and all that was declared since. */
  lemma {:induction false} CachedStores(l: Lane, calls: seq<Call>, name: Bytes)
    requires NoReload(l, calls)
    ensures name in Play(l, calls).cache.stores <==> name in l.cache.stores || DeclareStore(name) in calls
  {
    hide Reloads;
    hide Next;
    if calls != [] {
      var n := |calls| - 1;
      NoReloadPrefix(l, calls, n);
      CachedStores(l, calls[..n], name);
      assert !Reloads(Play(l, calls[..n]), calls[n]);
      NextStores(Play(l, calls[..n]), calls[n]);
      assert calls == calls[..n] + [calls[n]];
    }
  }

  lemma NextStores(l: Lane, call: Call)
    requires !Reloads(l, call)
    ensures forall name :: name in Next(l, call).cache.stores <==>
      name in l.cache.stores || call == DeclareStore(name)
  {
    hide Apply;
  }

  /** The provenance cache is what was last given, taken back or not. */
  lemma {:induction false} CachedProvenance(l: Lane, calls: seq<Call>, i: Bytes)
    requires NoReload(l, calls) && Covers(l) && Exact(l)
    ensures Find(Play(l, calls).cache.indexes, i) == LastSet(l.sql.db.meta, calls, |calls|, i)
  {
    hide Reloads;
    hide Apply;
    hide Covers;
    if calls != [] {
      var n := |calls| - 1;
      var at := Play(l, calls[..n]);
      NoReloadPrefix(l, calls, n);
      assert !Reloads(at, calls[n]);
      CachedProvenance(l, calls[..n], i);
      LastSetPrefix(l.sql.db.meta, calls, n, n, i);
      CacheCovers(l, calls[..n]);
      Unmet(at);
      if calls[n].Upsert? && calls[n].index == i {
        assert Find(at.cache.indexes, i).None? <==> Records(at.cache, at.sql.db, i);
      }
    }
  }

  /** Under the cover an upsert of an index the cache does not know meets no row. */
  lemma Unmet(l: Lane)
    requires Covers(l)
    ensures forall i :: Records(l.cache, l.sql.db, i) <==> i !in l.cache.indexes
  {
  }

  lemma KeptBeforeStep(l: Lane, calls: seq<Call>, n: nat, name: Bytes)
    requires 0 < n <= |calls|
    ensures KeptBefore(l, calls, n, name) <==>
      KeptBefore(l, calls, n - 1, name) || (calls[n - 1] == DeclareStore(name) && Kept(l, calls, n - 1))
  {
    hide Kept;
    if q: nat :| q < n && q < |calls| && calls[q] == DeclareStore(name) && Kept(l, calls, q) {
      if q < n - 1 { assert KeptBefore(l, calls, n - 1, name); }
    }
  }

  /** What a call that is not taken back adds to the replay. */
  lemma ReplayKept(l: Lane, calls: seq<Call>, p: nat) returns (w: Sent, before: Contents)
    requires p < |calls| && Kept(l, calls, p)
    ensures var R, steps := LaneRules(), Steps(l, calls);
      && w == Sent(calls[p], Play(l, calls[..p]).cache)
      && before == Replay(R, l.sql.db, Survivors(R, steps, p))
      && Replay(R, l.sql.db, Survivors(R, steps, p + 1)) == Changed(calls[p], w.cache, before)
  {
    hide Changed;
    hide Replay;
    hide Survives;
    hide Steps;
    hide Play;
    var R, steps := LaneRules(), Steps(l, calls);
    StepsAt(l, calls, p);
    SurvivesAct(R, steps, p);
    w := steps[p].w;
    before := Replay(R, l.sql.db, Survivors(R, steps, p));
    ReplayOne(R, l.sql.db, Survivors(R, steps, p), w);
  }

  lemma ReplaySkipped(l: Lane, calls: seq<Call>, p: nat)
    requires p < |calls| && !Kept(l, calls, p)
    ensures var R, steps := LaneRules(), Steps(l, calls);
      Replay(R, l.sql.db, Survivors(R, steps, p + 1)) == Replay(R, l.sql.db, Survivors(R, steps, p))
  {
    hide Replay;
    hide Survives;
    hide Steps;
    var R, steps := LaneRules(), Steps(l, calls);
    assert Survivors(R, steps, p) + [] == Survivors(R, steps, p);
  }

  lemma {:induction false} TableStores(l: Lane, calls: seq<Call>, n: nat, name: Bytes)
    requires n <= |calls|
    ensures name in Replay(LaneRules(), l.sql.db, Survivors(LaneRules(), Steps(l, calls), n)).stores <==>
      name in l.sql.db.stores || KeptBefore(l, calls, n, name)
  {
    hide Changed;
    hide Replay;
    hide Survives;
    hide Steps;
    hide Play;
    hide KeptBefore;
    if n == 0 {
      ReplayNone(l);
      NoneKept(l, calls, name);
    } else {
      TableStores(l, calls, n - 1, name);
      KeptBeforeStep(l, calls, n, name);
      if Kept(l, calls, n - 1) {
        var w, before := ReplayKept(l, calls, n - 1);
        ChangedTables(calls[n - 1], w.cache, before);
      } else {
        ReplaySkipped(l, calls, n - 1);
      }
    }
  }

  lemma NoneKept(l: Lane, calls: seq<Call>, name: Bytes)
    ensures !KeptBefore(l, calls, 0, name)
  {
  }

  lemma ReplayNone(l: Lane)
    ensures Replay(LaneRules(), l.sql.db, []) == l.sql.db
  {
  }

  lemma {:induction false} TableProvenance(l: Lane, calls: seq<Call>, n: nat, i: Bytes)
    requires n <= |calls| && NoReload(l, calls) && Covers(l) && Exact(l) && l.sql.scopes == []
    ensures Find(Replay(LaneRules(), l.sql.db, Survivors(LaneRules(), Steps(l, calls), n)).meta, i)
      == LastKept(l, calls, n, i)
  {
    hide Changed;
    hide Replay;
    hide Survives;
    hide Steps;
    hide Play;
    hide Covers;
    hide NoReload;
    hide LastSet;
    if n == 0 {
      ReplayNone(l);
    } else {
      var p := n - 1;
      TableProvenance(l, calls, p, i);
      if Kept(l, calls, p) {
        var w, before := ReplayKept(l, calls, p);
        ChangedTables(calls[p], w.cache, before);
        FoundAt(l, calls, p);
        Unmet(Play(l, calls[..p]));
        NoReloadPrefix(l, calls, p);
        CachedProvenance(l, calls[..p], i);
        LastSetPrefix(l.sql.db.meta, calls, p, p, i);
        GivesProvenance(l, calls, p, i, w.cache, before);
      } else {
        ReplaySkipped(l, calls, p);
      }
    }
  }

  /** Whether a call records a provenance is told from the calls before it. */
  lemma GivesProvenance(l: Lane, calls: seq<Call>, p: nat, i: Bytes, cache: Cache, before: Contents)
    requires p < |calls| && Find(cache.indexes, i) == LastSet(l.sql.db.meta, calls, p, i)
    requires Records(cache, before, i) <==> i !in cache.indexes
    ensures var given := (calls[p].Upsert? && Records(cache, before, calls[p].index)) || calls[p].Reindex?;
      Sets(l.sql.db.meta, calls, p, i) ==
        if given && calls[p].index == i then Some(calls[p].embedding) else None
  {
    hide LastSet;
  }

  /** A call that is not taken back found the lane as the run had left it. */
  lemma FoundAt(l: Lane, calls: seq<Call>, p: nat)
    requires NoReload(l, calls) && Covers(l) && l.sql.scopes == [] && Kept(l, calls, p) && p < |calls|
    ensures var R := LaneRules();
      Replay(R, l.sql.db, Survivors(R, Steps(l, calls), p)) == Play(l, calls[..p]).sql.db
    ensures Covers(Play(l, calls[..p]))
  {
    hide Replay;
    hide Survives;
    hide Survivors;
    hide Steps;
    hide Run;
    hide Play;
    hide Covers;
    hide NoReload;
    NoReloadSteps(l, calls);
    ContentsAtSurvivor(LaneRules(), l.sql, Steps(l, calls), p);
    StepsAt(l, calls, p);
    PlayIsRun(l, calls[..p]);
    CacheCovers(l, calls[..p]);
  }

  /** The tables after a run without reloads: what was loaded and what was not taken back. */
  lemma TablesAfter(l: Lane, calls: seq<Call>)
    requires NoReload(l, calls) && Covers(l) && Exact(l) && l.sql.scopes == []
    ensures forall name :: name in Play(l, calls).sql.db.stores <==> DeclarationKept(l, calls, name)
    ensures forall i :: Find(Play(l, calls).sql.db.meta, i) == LastKept(l, calls, |calls|, i)
  {
    hide Replay;
    hide Survivors;
    hide Steps;
    hide Run;
    hide Play;
    hide Covers;
    hide NoReload;
    hide LastKept;
    hide KeptBefore;
    NoReloadSteps(l, calls);
    PlayIsRun(l, calls);
    ContentsAreSurvivors(LaneRules(), l.sql, Steps(l, calls));
    forall name ensures name in Play(l, calls).sql.db.stores <==> DeclarationKept(l, calls, name) {
      TableStores(l, calls, |calls|, name);
    }
    forall i ensures Find(Play(l, calls).sql.db.meta, i) == LastKept(l, calls, |calls|, i) {
      TableProvenance(l, calls, |calls|, i);
    }
  }

  lemma SameMaps(a: map<Bytes, Embedding>, b: map<Bytes, Embedding>)
    ensures a == b <==> forall i :: Find(a, i) == Find(b, i)
  {
    if forall i :: Find(a, i) == Find(b, i) {
      forall i ensures i in a <==> i in b { assert Find(a, i) == Find(b, i); }
      forall i | i in a ensures a[i] == b[i] { assert Find(a, i) == Find(b, i); }
    }
  }

  /** After a load, the store cache is exact exactly when every declaration since is of a loaded store or
      of one with a declaration that is not taken back; the provenance cache exactly when every index
      was last given its provenance by a call that is not taken back. */
  lemma ExactSince(l: Lane, calls: seq<Call>)
    requires NoReload(l, calls) && Exact(l) && l.sql.scopes == []
    ensures Play(l, calls).cache.stores == Play(l, calls).sql.db.stores <==> DeclarationsKept(l, calls)
    ensures Play(l, calls).cache.indexes == Play(l, calls).sql.db.meta <==> ProvenanceKept(l, calls)
  {
    hide Play;
    hide NoReload;
    hide LastSet;
    hide LastKept;
    hide DeclarationKept;
    var now := Play(l, calls);
    TablesAfter(l, calls);
    CacheCovers(l, calls);
    forall name ensures name in now.cache.stores <==>
      name in l.cache.stores || DeclareStore(name) in calls
    {
      CachedStores(l, calls, name);
    }
    LoadedKept(l, calls);
    forall i ensures Find(now.cache.indexes, i) == LastSet(l.sql.db.meta, calls, |calls|, i) {
      CachedProvenance(l, calls, i);
    }
    SameMaps(now.cache.indexes, now.sql.db.meta);
    ExactStores(l, calls, now);
  }

  lemma LoadedKept(l: Lane, calls: seq<Call>)
    ensures forall name | name in l.sql.db.stores :: DeclarationKept(l, calls, name)
  {
  }

  lemma ExactStores(l: Lane, calls: seq<Call>, now: Lane)
    requires Exact(l) && Over(now.cache, now.sql.db)
    requires forall name :: name in now.sql.db.stores <==> DeclarationKept(l, calls, name)
    requires forall name :: name in now.cache.stores <==>
      name in l.cache.stores || DeclareStore(name) in calls
    requires forall name | name in l.sql.db.stores :: DeclarationKept(l, calls, name)
    ensures now.cache.stores == now.sql.db.stores <==> DeclarationsKept(l, calls)
  {
    hide DeclarationKept;
    if now.cache.stores == now.sql.db.stores {
      forall p | 0 <= p < |calls| && calls[p].DeclareStore? ensures DeclarationKept(l, calls, calls[p].name) {
        assert calls[p] == DeclareStore(calls[p].name);
        assert calls[p].name in now.cache.stores;
      }
    }
    if DeclarationsKept(l, calls) {
      forall name | name in now.cache.stores ensures name in now.sql.db.stores {
        if name !in l.cache.stores {
          var p :| 0 <= p < |calls| && calls[p] == DeclareStore(name);
        }
      }
    }
  }

  /** The position after the last reload. */
  ghost function LastReload(l: Lane, calls: seq<Call>): (r: nat)
    ensures r <= |calls|
  {
    if calls == [] then 0
    else
      var n := |calls| - 1;
      if Reloads(Play(l, calls[..n]), calls[n]) then |calls| else LastReload(l, calls[..n])
  }

  lemma NoReloadMore(l: Lane, calls: seq<Call>)
    requires calls != [] && NoReload(l, calls[..|calls| - 1])
    requires !Reloads(Play(l, calls[..|calls| - 1]), calls[|calls| - 1])
    ensures NoReload(l, calls)
  {
    hide Reloads;
    hide Play;
    var n := |calls| - 1;
    forall k | 0 <= k < |calls| ensures !Reloads(Play(l, calls[..k]), calls[k]) {
      if k < n { assert calls[..n][..k] == calls[..k] && calls[..n][k] == calls[k]; }
    }
  }

  /** The lane and the calls after the last reload. */
  lemma {:induction false} SinceReload(l: Lane, calls: seq<Call>)
    requires Exact(l) && l.sql.scopes == []
    ensures var r := LastReload(l, calls);
      var base := Play(l, calls[..r]);
      Exact(base) && base.sql.scopes == [] && NoReload(base, calls[r..])
  {
    hide Reloads;
    hide Next;
    hide NoReload;
    if calls == [] {
      assert NoReload(l, []) by { NothingReloads(l); }
    } else {
      var n := |calls| - 1;
      if Reloads(Play(l, calls[..n]), calls[n]) {
        assert calls[..|calls|] == calls && calls[|calls|..] == [];
        ReloadIsExact(Play(l, calls[..n]), calls[n]);
        NothingReloads(Play(l, calls));
      } else {
        SinceReload(l, calls[..n]);
        var r := LastReload(l, calls[..n]);
        var since := calls[r..];
        assert calls[..n][..r] == calls[..r] && calls[..n][r..] == since[..n - r];
        PlayJoin(l, calls[..r], since[..n - r]);
        assert calls[..r] + since[..n - r] == calls[..n];
        NoReloadMore(Play(l, calls[..r]), since);
      }
    }
  }

  lemma NothingReloads(l: Lane)
    ensures NoReload(l, [])
  {
  }

  /** Over every run from a load: the caches equal the tables exactly when, since the last reload, every
      declared store and every index provenance given is backed by a call in no scope rolled back. */
  lemma CacheExactWhen(db: Contents, snapshots: map<Bytes, Contents>, calls: seq<Call>)
    ensures var l := Loaded(db, snapshots);
      var base, since := Play(l, calls[..LastReload(l, calls)]), calls[LastReload(l, calls)..];
      Exact(Play(l, calls)) <==> DeclarationsKept(base, since) && ProvenanceKept(base, since)
  {
    hide Play;
    hide DeclarationsKept;
    hide ProvenanceKept;
    hide NoReload;
    hide LastReload;
    var l := Loaded(db, snapshots);
    var r := LastReload(l, calls);
    SinceReload(l, calls);
    assert calls == calls[..r] + calls[r..];
    PlayJoin(l, calls[..r], calls[r..]);
    ExactSince(Play(l, calls[..r]), calls[r..]);
  }

  /** After a rolled-back declaration they are not: the lane then takes a put into a store that is
      declared nowhere. */
  lemma RolledBackDeclaration()
    ensures var l := Play(Loaded(NOTHING, map[]), [Enter("t"), DeclareStore("a"), Undo("t")]);
      && "a" !in l.sql.db.stores && "a" in l.cache.stores
      && ("a", "k") in Next(l, PutText("a", "k", "{}")).sql.db.rows
  {
    var l0 := Loaded(NOTHING, map[]);
    PlayThree(l0, Enter("t"), DeclareStore("a"), Undo("t"));
    UndoneCall(l0, DeclareStore("a"));
  }

  /** Nor after a rolled-back reindex: the lane then refuses the very embedding its table records. */
  lemma RolledBackReindex(e: Embedding, f: Embedding)
    requires e != f
    ensures var l := Play(Loaded(NOTHING.(meta := map["i" := e]), map[]), [Enter("t"), Reindex("i", f, []), Undo("t")]);
      && l.sql.db.meta == map["i" := e] && l.cache.indexes == map["i" := f]
      && UpsertReply(l.cache, l.sql.db, "i", e, Entry("k", [], "{}")).Refused?
  {
    hide Next;
    var l0 := Loaded(NOTHING.(meta := map["i" := e]), map[]);
    PlayThree(l0, Enter("t"), Reindex("i", f, []), Undo("t"));
    UndoneCall(l0, Reindex("i", f, []));
  }

  /** A call inside a scope of its own that is rolled back leaves the tables alone and its mark in the caches. */
  lemma UndoneCall(l: Lane, call: Call)
    requires l.sql.scopes == [] && (call.DeclareStore? || call.Reindex?)
    ensures Next(Next(Next(l, Enter("t")), call), Undo("t")) == Lane(l.sql, CacheAfter(l, call))
  {
    hide Changed;
    var inside := Next(Next(l, Enter("t")), call);
    assert Names(inside.sql.scopes) == ["t"];
    assert FindScope(["t"], "t") == Some(0);
  }

  lemma PlayThree(l: Lane, a: Call, b: Call, c: Call)
    ensures Play(l, [a, b, c]) == Next(Next(Next(l, a), b), c)
  {
    hide Next;
    assert [a, b, c][..2] == [a, b] && [a, b][..1] == [a] && [a][..0] == [];
    assert Play(l, [a]) == Next(Play(l, []), a);
    assert Play(l, [a, b]) == Next(Play(l, [a]), b);
  }

  // --- the class -------------------------------------------------------------------------

  class Local {
    var db: Contents
    var scopes: seq<Scope<Contents>>
    var snapshots: map<Bytes, Contents>
    var stores: set<Bytes>
    var indexes: map<Bytes, Embedding>

    ghost function Now(): Lane
      reads this
    {
      Lane(State(db, scopes, snapshots), Cache(stores, indexes))
    }

    constructor (file: Contents, snapshots: map<Bytes, Contents>)
      ensures Now() == Loaded(file, snapshots)
    {
      db, scopes, this.snapshots := file, [], snapshots;
      stores, indexes := file.stores, file.meta;
    }

    method Reload()
      modifies this`stores, this`indexes
      ensures Cache(stores, indexes) == CacheOf(db)
    {
      stores := db.stores;
      indexes := db.meta;
    }

    method Declare(name: Bytes)
      modifies this`db, this`stores
      ensures Now() == Next(old(Now()), DeclareStore(name))
      ensures db == old(db).(stores := old(db.stores) + {name}) && stores == old(stores) + {name}
    {
      db := db.(stores := db.stores + {name});
      stores := stores + {name};
    }

    /** False when the store is refused as unknown. */
    method Put(store: Bytes, key: Bytes, text: Bytes) returns (ok: bool)
      modifies this`db
      ensures Now() == Next(old(Now()), PutText(store, key, text))
      ensures ok <==> store in stores
      ensures db == if ok then old(db).(rows := old(db.rows)[(store, key) := text]) else old(db)
    {
      if store !in stores { return false; }
      db := db.(rows := db.rows[(store, key) := text]);
      ok := true;
    }

    /** The stored text, none for a miss. */
    method Get(store: Bytes, key: Bytes) returns (ok: bool, text: Option<Bytes>)
      ensures ok <==> store in stores
      ensures ok ==> text == if (store, key) in db.rows then Some(db.rows[(store, key)]) else None
    {
      if store !in stores { return false, None; }
      if (store, key) in db.rows { return true, Some(db.rows[(store, key)]); }
      return true, None;
    }

    method Delete(store: Bytes, key: Bytes) returns (ok: bool, deleted: nat)
      modifies this`db
      ensures Now() == Next(old(Now()), DeleteKey(store, key))
      ensures ok <==> store in stores
      ensures ok ==> deleted == if (store, key) in old(db.rows) then 1 else 0
      ensures db == if ok then old(db).(rows := old(db.rows) - {(store, key)}) else old(db)
    {
      if store !in stores { return false, 0; }
      deleted := if (store, key) in db.rows then 1 else 0;
      db := db.(rows := db.rows - {(store, key)});
      ok := true;
    }

    // --- scopes and snapshots -------------------------------------------------------------

    method OpenScope(name: Bytes) returns (ok: bool)
      modifies this`scopes
      ensures Now() == Next(old(Now()), Enter(name)) && ok == IsIdentifier(name)
    {
      if !IsIdentifier(name) { return false; }
      scopes := scopes + [Scope(name, db)];
      ok := true;
    }

    method ReleaseScope(name: Bytes) returns (ok: bool)
      modifies this`scopes
      ensures Now() == Next(old(Now()), Leave(name))
      ensures ok <==> IsIdentifier(name) && FindScope(Names(old(scopes)), name).Some?
    {
      if !IsIdentifier(name) { return false; }
      match FindScope(Names(scopes), name)
      case Some(k) =>
        scopes := scopes[..k];
        ok := true;
      case None => ok := false;
    }

    method RollbackScope(name: Bytes) returns (ok: bool)
      modifies this`db, this`scopes
      ensures Now() == Next(old(Now()), Undo(name))
      ensures ok <==> IsIdentifier(name) && FindScope(Names(old(scopes)), name).Some?
    {
      if !IsIdentifier(name) { return false; }
      match FindScope(Names(scopes), name)
      case Some(k) =>
        db := scopes[k].saved;
        scopes := scopes[..k];
        ok := true;
      case None => ok := false;
    }

    method TakeSnapshot(tag: Bytes) returns (ok: bool)
      modifies this`snapshots
      ensures Now() == Next(old(Now()), Backup(tag))
      ensures ok <==> IsTag(tag) && scopes == []
    {
      if !IsTag(tag) { return false; }
      snapshots := snapshots - {tag};
      if scopes != [] { return false; }
      assert snapshots[tag := db] == old(snapshots)[tag := db];
      snapshots := snapshots[tag := db];
      ok := true;
    }

    method RestoreSnapshot(tag: Bytes) returns (ok: bool)
      modifies this
      ensures Now() == Next(old(Now()), Recover(tag))
      ensures ok <==> IsTag(tag) && tag in snapshots
    {
      if !IsTag(tag) || tag !in snapshots { return false; }
      db, scopes := snapshots[tag], [];
      Reload();
      ok := true;
    }

    method CrashFile()
      modifies this
      ensures Now() == Next(old(Now()), Crash)
    {
      if scopes != [] { db := scopes[0].saved; }
      scopes := [];
      Reload();
    }

    // --- indexes --------------------------------------------------------------------------

    method IndexUpsert(index: Bytes, e: Embedding, x: Entry) returns (reply: Reply)
      modifies this`db, this`indexes
      ensures Now() == Next(old(Now()), Upsert(index, e, x))
      ensures reply == UpsertReply(old(Now()).cache, old(db), index, e, x)
      ensures reply.Done? <==>
        && (if index in old(indexes) then old(indexes)[index] == e else index !in old(db.meta))
        && |x.vector| == e.dimension
      ensures db.vectors == if reply.Refused? then old(db.vectors)
                            else old(db.vectors)[(index, x.key) := Stored(x.vector, x.text)]
      ensures db.meta == if index in old(indexes) || index in old(db.meta) then old(db.meta)
                         else old(db.meta)[index := e]
      ensures indexes == if index in old(indexes) || index in old(db.meta) then old(indexes)
                         else old(indexes)[index := e]
      ensures db == old(db).(vectors := db.vectors, meta := db.meta)
    {
      if index !in indexes {
        if index in db.meta { return Refused("sql_failed", ""); }
        db := db.(meta := db.meta[index := e]);
        indexes := indexes[index := e];
      } else {
        var why := Mismatch(indexes[index], e);
        MismatchIs(indexes[index], e);
        if why.Some? { return Refused("embedding_mismatch", why.value); }
      }
      if |x.vector| != e.dimension { return Refused("embedding_mismatch", "dimension"); }
      db := db.(vectors := db.vectors[(index, x.key) := Stored(x.vector, x.text)]);
      reply := Done;
    }

    method IndexDelete(index: Bytes, key: Bytes)
      modifies this`db
      ensures Now() == Next(old(Now()), Erase(index, key))
      ensures db == old(db).(vectors := old(db.vectors) - {(index, key)})
    {
      db := db.(vectors := db.vectors - {(index, key)});
    }

    method IndexReindex(index: Bytes, e: Embedding, xs: seq<Entry>) returns (reply: Reply)
      modifies this`db, this`indexes
      ensures Now() == Next(old(Now()), Reindex(index, e, xs))
      ensures reply == if forall k | 0 <= k < |xs| :: |xs[k].vector| == e.dimension then Done
                       else Refused("embedding_mismatch", "dimension")
    {
      hide Refilled;
      hide Next;
      hide UpsertReply;
      ghost var l := Now();
      db := db.(vectors := map p | p in db.vectors && p.0 != index :: db.vectors[p]);
      db := db.(meta := db.meta[index := e]);
      indexes := indexes[index := e];
      ghost var start, known := db, indexes;
      ReindexNext(l, index, e, xs);
      assert start == Cleared(l.sql.db, index, e);
      for k := 0 to |xs|
        invariant indexes == known
        invariant forall m | 0 <= m < k :: |xs[m].vector| == e.dimension
        invariant Refilled(start, index, e, xs) == Refilled(db, index, e, xs[k..])
      {
        RefilledStep(db, index, e, xs, k);
        ghost var before := Now();
        reply := IndexUpsert(index, e, xs[k]);
        KnownUpsert(before, index, e, xs[k]);
        if reply.Refused? { return; }
      }
      RefilledNone(db, index, e, xs);
      reply := Done;
    }

    /** What a search scans: the rows of the index, in the order the table gives them. */
    method Scanned(index: Bytes) returns (entries: seq<(Bytes, Nearest.Point)>)
      ensures Lists(db, index, entries)
    {
      entries := [];
      var left := db.vectors.Keys;
      while left != {}
        invariant left <= db.vectors.Keys && DistinctEntries(entries)
        invariant forall x | x in entries ::
          (index, x.0) in db.vectors && (index, x.0) !in left && db.vectors[(index, x.0)].vector == x.1
        invariant forall key | (index, key) in db.vectors && (index, key) !in left ::
          (key, db.vectors[(index, key)].vector) in entries
        decreases |left|
      {
        var p :| p in left;
        if p.0 == index {
          ghost var was := entries;
          entries := entries + [(p.1, db.vectors[p].vector)];
          assert forall x :: x in entries <==> x in was || x == (p.1, db.vectors[p].vector);
        }
        left := left - {p};
      }
    }

    /** Nearest first by the distance `root` gives, ties by the order `keys` of keys, cut at a positive `k`. */
    method IndexSearch(root: real -> real, keys: (Bytes, Bytes) -> int, index: Bytes, query: Nearest.Point,
                       e: Embedding, k: int)
      returns (reply: Reply, hits: seq<Nearest.Hit>, texts: seq<Bytes>)
      requires TotalPreorder(keys)
      ensures reply == if index in indexes && Mismatch(indexes[index], e).Some?
                       then Refused("embedding_mismatch", Mismatch(indexes[index], e).value) else Done
      ensures index !in indexes ==> hits == []
      ensures reply.Done? && index in indexes ==>
        exists entries :: Lists(db, index, entries) &&
          hits == Nearest.Slice(Sorted(Nearest.ByDistanceThen(keys), Nearest.Measured(root, query, entries)), k)
      ensures |texts| == |hits| && forall i | 0 <= i < |hits| ::
        (index, hits[i].key) in db.vectors && texts[i] == db.vectors[(index, hits[i].key)].text
    {
      hide Mismatch;
      hide Lists;
      hide TotalPreorder;
      hide Sorted;
      hits, texts, reply := [], [], Done;
      if index !in indexes { return; }
      var why := Mismatch(indexes[index], e);
      if why.Some? { return Refused("embedding_mismatch", why.value), [], []; }
      var entries := Scanned(index);
      hits := Nearest.Scan(root, keys, query, entries, k);
      HitsAreEntries(root, keys, db, index, query, entries, k);
      texts := TextsOf(index, hits);
    }

    method TextsOf(index: Bytes, hits: seq<Nearest.Hit>) returns (texts: seq<Bytes>)
      requires forall h | h in hits :: (index, h.key) in db.vectors
      ensures |texts| == |hits| && forall i | 0 <= i < |hits| ::
        (index, hits[i].key) in db.vectors && texts[i] == db.vectors[(index, hits[i].key)].text
    {
      assert forall i | 0 <= i < |hits| :: hits[i] in hits;
      texts := [];
      for i := 0 to |hits|
        invariant |texts| == i && forall m | 0 <= m < i :: texts[m] == db.vectors[(index, hits[m].key)].text
      {
        texts := texts + [db.vectors[(index, hits[i].key)].text];
      }
    }
  }

  predicate DistinctEntries(entries: seq<(Bytes, Nearest.Point)>) {
    forall i, j | 0 <= i < j < |entries| :: entries[i].0 != entries[j].0
  }

  /** The rows of one index, each once. */
  predicate Lists(db: Contents, index: Bytes, entries: seq<(Bytes, Nearest.Point)>) {
    && DistinctEntries(entries)
    && (forall x | x in entries :: (index, x.0) in db.vectors && db.vectors[(index, x.0)].vector == x.1)
    && (forall p | p in db.vectors && p.0 == index :: (p.1, db.vectors[p].vector) in entries)
  }

  lemma ListsIs(db: Contents, index: Bytes, entries: seq<(Bytes, Nearest.Point)>)
    ensures Lists(db, index, entries) <==>
      && (forall i, j | 0 <= i < j < |entries| :: entries[i].0 != entries[j].0)
      && forall x :: x in entries <==> (index, x.0) in db.vectors && db.vectors[(index, x.0)].vector == x.1
  {
    if forall x :: x in entries <==> (index, x.0) in db.vectors && db.vectors[(index, x.0)].vector == x.1 {
      forall p | p in db.vectors && p.0 == index ensures (p.1, db.vectors[p].vector) in entries {
        assert p == (index, p.1);
      }
    }
    if Lists(db, index, entries) {
      forall x: (Bytes, Nearest.Point) | (index, x.0) in db.vectors && db.vectors[(index, x.0)].vector == x.1
        ensures x in entries
      {
        assert x == (x.0, db.vectors[(index, x.0)].vector);
      }
    }
  }

  lemma HitsAreEntries(root: real -> real, keys: (Bytes, Bytes) -> int, db: Contents, index: Bytes,
                       query: Nearest.Point, entries: seq<(Bytes, Nearest.Point)>, k: int)
    requires TotalPreorder(keys) && Lists(db, index, entries)
    ensures var hits := Nearest.Slice(Sorted(Nearest.ByDistanceThen(keys), Nearest.Measured(root, query, entries)), k);
      forall h | h in hits :: (index, h.key) in db.vectors
  {
    hide Sorted;
    hide TotalPreorder;
    var measured := Nearest.Measured(root, query, entries);
    var all := Sorted(Nearest.ByDistanceThen(keys), measured);
    SortedPermutes(Nearest.ByDistanceThen(keys), measured);
    forall h | h in Nearest.Slice(all, k) ensures (index, h.key) in db.vectors {
      assert h in multiset(all);
      var m :| 0 <= m < |measured| && measured[m] == h;
      assert entries[m] in entries;
    }
  }

  lemma RefilledStep(db: Contents, index: Bytes, e: Embedding, xs: seq<Entry>, k: nat)
    requires k < |xs|
    ensures Refilled(db, index, e, xs[k..]) ==
      if |xs[k].vector| != e.dimension then db else Refilled(WithVector(db, index, xs[k]), index, e, xs[k + 1..])
  {
    assert xs[k..][1..] == xs[k + 1..];
  }

  lemma {:induction false} RefilledOthers(db: Contents, index: Bytes, e: Embedding, xs: seq<Entry>, p: (Bytes, Bytes))
    requires p.0 == index ==> forall k | 0 <= k < |xs| :: xs[k].key != p.1
    ensures p in Refilled(db, index, e, xs).vectors <==> p in db.vectors
    ensures p in db.vectors ==> Refilled(db, index, e, xs).vectors[p] == db.vectors[p]
    decreases |xs|
  {
    if xs != [] && |xs[0].vector| == e.dimension { RefilledOthers(WithVector(db, index, xs[0]), index, e, xs[1..], p); }
  }

  lemma {:induction false} RefilledLast(db: Contents, index: Bytes, e: Embedding, xs: seq<Entry>, k: nat)
    requires k < |xs| && (forall j | 0 <= j <= k :: |xs[j].vector| == e.dimension)
    requires forall j | k < j < |xs| :: xs[j].key != xs[k].key
    ensures (index, xs[k].key) in Refilled(db, index, e, xs).vectors
    ensures Refilled(db, index, e, xs).vectors[(index, xs[k].key)] == Stored(xs[k].vector, xs[k].text)
    decreases |xs|
  {
    if k > 0 {
      RefilledLast(WithVector(db, index, xs[0]), index, e, xs[1..], k - 1);
    } else {
      RefilledOthers(WithVector(db, index, xs[0]), index, e, xs[1..], (index, xs[0].key));
    }
  }

  /** Entry `k` is the last of its key among the first `n`. */
  predicate LastEntry(xs: seq<Entry>, n: nat, k: nat) {
    k < n <= |xs| && forall j | k < j < n :: xs[j].key != xs[k].key
  }

  lemma {:induction false} SomeLast(xs: seq<Entry>, n: nat, i: nat) returns (k: nat)
    requires i < n <= |xs|
    ensures LastEntry(xs, n, k) && xs[k].key == xs[i].key
    decreases n - i
  {
    if j :| i < j < n && xs[j].key == xs[i].key { k := SomeLast(xs, n, j); } else { k := i; }
  }

  lemma {:induction false} RefilledCut(db: Contents, index: Bytes, e: Embedding, xs: seq<Entry>, n: nat)
    requires n <= |xs| && (forall k | 0 <= k < n :: |xs[k].vector| == e.dimension)
    requires n < |xs| ==> |xs[n].vector| != e.dimension
    ensures Refilled(db, index, e, xs) == Refilled(db, index, e, xs[..n])
    decreases |xs|
  {
    if n > 0 {
      RefilledCut(WithVector(db, index, xs[0]), index, e, xs[1..], n - 1);
      assert xs[..n][1..] == xs[1..][..n - 1];
    }
  }

  /** A reindex that meets its first entry of another width at `n`, or none: of the entries before it with one key
      the last is in the index, nothing else is, and every other index is as it was. */
  lemma ReindexEntries(l: Lane, index: Bytes, e: Embedding, xs: seq<Entry>, n: nat, p: (Bytes, Bytes))
    requires n <= |xs| && (forall k | 0 <= k < n :: |xs[k].vector| == e.dimension)
    requires n < |xs| ==> |xs[n].vector| != e.dimension
    ensures var was, now := l.sql.db, Next(l, Reindex(index, e, xs)).sql.db;
      && now == was.(meta := was.meta[index := e], vectors := now.vectors)
      && (p.0 != index ==>
            (p in now.vectors <==> p in was.vectors) && (p in was.vectors ==> now.vectors[p] == was.vectors[p]))
      && (p.0 == index ==> (p in now.vectors <==> exists k :: 0 <= k < n && xs[k].key == p.1))
      && (p.0 == index ==> forall k | 0 <= k < n && xs[k].key == p.1 && LastEntry(xs, n, k) ::
            now.vectors[p] == Stored(xs[k].vector, xs[k].text))
  {
    hide Next;
    hide Refilled;
    hide WithVector;
    var cleared := Cleared(l.sql.db, index, e);
    ReindexNext(l, index, e, xs);
    RefilledMeta(cleared, index, e, xs);
    RefilledCut(cleared, index, e, xs, n);
    RefilledRows(cleared, index, e, xs);
    if exists k :: 0 <= k < n && xs[k].key == p.1 && p.0 == index {
      forall k: nat | LastEntry(xs, n, k) && xs[k].key == p.1
        ensures p in Refilled(cleared, index, e, xs[..n]).vectors
        ensures Refilled(cleared, index, e, xs[..n]).vectors[p] == Stored(xs[k].vector, xs[k].text)
      {
        RefilledLast(cleared, index, e, xs[..n], k);
      }
      var i :| 0 <= i < n && xs[i].key == p.1;
      var k := SomeLast(xs, n, i);
    } else {
      RefilledOthers(cleared, index, e, xs[..n], p);
    }
  }

  lemma {:induction false} RefilledRows(db: Contents, index: Bytes, e: Embedding, xs: seq<Entry>)
    ensures Refilled(db, index, e, xs).rows == db.rows
    decreases |xs|
  {
    if xs != [] && |xs[0].vector| == e.dimension { RefilledRows(WithVector(db, index, xs[0]), index, e, xs[1..]); }
  }

  lemma ReindexNext(l: Lane, index: Bytes, e: Embedding, xs: seq<Entry>)
    ensures Next(l, Reindex(index, e, xs)) ==
      Lane(l.sql.(db := Refilled(Cleared(l.sql.db, index, e), index, e, xs)),
           l.cache.(indexes := l.cache.indexes[index := e]))
  {
  }

  lemma RefilledNone(db: Contents, index: Bytes, e: Embedding, xs: seq<Entry>)
    ensures Refilled(db, index, e, xs[|xs|..]) == db
  {
  }

  /** An upsert into an index the cache knows under this very embedding. */
  lemma KnownUpsert(l: Lane, index: Bytes, e: Embedding, x: Entry)
    requires index in l.cache.indexes && l.cache.indexes[index] == e
    ensures var after := Next(l, Upsert(index, e, x));
      && after.cache == l.cache && after.sql.scopes == l.sql.scopes && after.sql.snapshots == l.sql.snapshots
      && after.sql.db == (if |x.vector| == e.dimension then WithVector(l.sql.db, index, x) else l.sql.db)
    ensures UpsertReply(l.cache, l.sql.db, index, e, x) ==
      if |x.vector| == e.dimension then Done else Refused("embedding_mismatch", "dimension")
  {
  }
}
