/** The agent's turns over one lane: a snapshot before the first write, each write in a scope of its own. */
module AgentProtocol {
  import opened Strings
  import opened Scopes
  import opened LocalStore

  /** A tool's declaration: whether it writes, and whether this run makes it fail. */
  datatype Tool = Tool(name: Bytes, mutates: bool, fails: bool)

  /** One step of a turn: no tool, or a call with the note it writes. */
  datatype AgentStep = NoTool | ToolCall(name: Bytes, key: Bytes, text: Bytes)

  /** The first declaration of a name. */
  function FindTool(tools: seq<Tool>, name: Bytes): Option<Tool> {
    if tools == [] then None
    else if tools[0].name == name then Some(tools[0]) else FindTool(tools[1..], name)
  }

  /** The step calls a declared tool that writes. */
  predicate Mutates(tools: seq<Tool>, step: AgentStep) {
    step.ToolCall? && FindTool(tools, step.name).Some? && FindTool(tools, step.name).value.mutates
  }

  /** And its write goes through. */
  predicate Succeeds(tools: seq<Tool>, known: set<Bytes>, step: AgentStep) {
    Mutates(tools, step) && !FindTool(tools, step.name).value.fails && "notes" in known
  }

  /** Tool `k` is the first declared under its name. */
  predicate FirstNamed(tools: seq<Tool>, k: nat) {
    k < |tools| && forall j | 0 <= j < k :: tools[j].name != tools[k].name
  }

  /** What a step does is told by the first declaration of its name; a name nobody declared does nothing. */
  lemma MutatesIs(tools: seq<Tool>, known: set<Bytes>, step: AgentStep)
    ensures Mutates(tools, step) <==>
      && step != NoTool
      && exists k: nat :: FirstNamed(tools, k) && tools[k].name == step.name && tools[k].mutates
    ensures Succeeds(tools, known, step) <==>
      && step != NoTool && "notes" in known
      && exists k: nat :: FirstNamed(tools, k) && tools[k].name == step.name && tools[k].mutates && !tools[k].fails
  {
    if step.ToolCall? {
      var k := Declaration(tools, step.name);
      assert forall j: nat | FirstNamed(tools, j) && tools[j].name == step.name :: j == k;
    }
  }

  /** The position of the first declaration, or the number of tools. */
  lemma {:induction false} Declaration(tools: seq<Tool>, name: Bytes) returns (k: nat)
    ensures k <= |tools| && forall j | 0 <= j < k :: tools[j].name != name
    ensures k < |tools| ==> tools[k].name == name
    ensures FindTool(tools, name) == if k < |tools| then Some(tools[k]) else None
  {
    if tools == [] || tools[0].name == name {
      k := 0;
    } else {
      k := Declaration(tools[1..], name);
      k := k + 1;
      assert forall j | 0 < j < k :: tools[j] == tools[1..][j - 1];
    }
  }

  /** The names of the mutating tools a list of steps dispatches, in order. */
  function Dispatched(tools: seq<Tool>, steps: seq<AgentStep>): seq<Bytes> {
    if steps == [] then []
    else (if Mutates(tools, steps[0]) then [steps[0].name] else []) + Dispatched(tools, steps[1..])
  }

  /** The contents after one step: its note, when its write goes through. */
  function NoteOf(tools: seq<Tool>, known: set<Bytes>, step: AgentStep, db: Contents): Contents {
    if Succeeds(tools, known, step) then db.(rows := db.rows[("notes", step.key) := step.text]) else db
  }

  /** The successful writes in order, on the rows. */
  function Noted(tools: seq<Tool>, known: set<Bytes>, steps: seq<AgentStep>, db: Contents): Contents {
    if steps == [] then db else Noted(tools, known, steps[1..], NoteOf(tools, known, steps[0], db))
  }

  function Flat<T>(parts: seq<seq<T>>): seq<T> {
    if parts == [] then [] else parts[0] + Flat(parts[1..])
  }

  lemma {:induction false} DispatchedJoin(tools: seq<Tool>, a: seq<AgentStep>, b: seq<AgentStep>)
    ensures Dispatched(tools, a + b) == Dispatched(tools, a) + Dispatched(tools, b)
  {
    hide FindTool;
    if a == [] {
      assert a + b == b;
    } else {
      assert (a + b)[1..] == a[1..] + b;
      DispatchedJoin(tools, a[1..], b);
      var first := if Mutates(tools, a[0]) then [a[0].name] else [];
      assert first + (Dispatched(tools, a[1..]) + Dispatched(tools, b))
          == first + Dispatched(tools, a[1..]) + Dispatched(tools, b);
    }
  }

  lemma {:induction false} NotedJoin(tools: seq<Tool>, known: set<Bytes>, a: seq<AgentStep>, b: seq<AgentStep>,
                                     db: Contents)
    ensures Noted(tools, known, a + b, db) == Noted(tools, known, b, Noted(tools, known, a, db))
    decreases |a|
  {
    hide NoteOf;
    if a == [] {
      assert a + b == b;
    } else {
      assert (a + b)[1..] == a[1..] + b;
      NotedJoin(tools, known, a[1..], b, NoteOf(tools, known, a[0], db));
    }
  }

  /** Nothing but notes is written, and a note only by a successful step of its key. */
  lemma {:induction false} NotedKeeps(tools: seq<Tool>, known: set<Bytes>, steps: seq<AgentStep>, db: Contents,
                                      row: (Bytes, Bytes))
    requires row.0 == "notes" ==>
      forall k | 0 <= k < |steps| && Succeeds(tools, known, steps[k]) :: steps[k].key != row.1
    ensures var after := Noted(tools, known, steps, db);
      && after == db.(rows := after.rows)
      && (row in after.rows <==> row in db.rows) && (row in db.rows ==> after.rows[row] == db.rows[row])
    decreases |steps|
  {
    hide Succeeds;
    if steps != [] { NotedKeeps(tools, known, steps[1..], NoteOf(tools, known, steps[0], db), row); }
  }

  /** And the last successful step of a key leaves its text. */
  lemma {:induction false} NotedLast(tools: seq<Tool>, known: set<Bytes>, steps: seq<AgentStep>, db: Contents, k: nat)
    requires k < |steps| && Succeeds(tools, known, steps[k])
    requires forall j | k < j < |steps| && Succeeds(tools, known, steps[j]) :: steps[j].key != steps[k].key
    ensures var rows := Noted(tools, known, steps, db).rows;
      ("notes", steps[k].key) in rows && rows[("notes", steps[k].key)] == steps[k].text
    decreases |steps|
  {
    assert steps[k].ToolCall?;
    hide Succeeds;
    if k > 0 {
      NotedLast(tools, known, steps[1..], NoteOf(tools, known, steps[0], db), k - 1);
    } else {
      NotedKeeps(tools, known, steps[1..], NoteOf(tools, known, steps[0], db), ("notes", steps[0].key));
    }
  }

  lemma ToolSnapshot(l: Lane)
    requires l.sql.scopes == []
    ensures Next(l, Backup("agent")) == l.(sql := l.sql.(snapshots := l.sql.snapshots["agent" := l.sql.db]))
  {
  }

  lemma AgentRecovers(l: Lane)
    requires "agent" in l.sql.snapshots
    ensures Next(l, Recover("agent")).sql == State(l.sql.snapshots["agent"], [], l.sql.snapshots)
  {
  }

  /** A note written inside a scope of its own stays when the scope is released and goes when it is
      rolled back. */
  lemma ToolScope(l: Lane, key: Bytes, text: Bytes)
    requires l.sql.scopes == []
    ensures var inside := Next(l, Enter("tool"));
      var put := Next(inside, PutText("notes", key, text));
      && inside.cache == l.cache
      && Next(inside, Undo("tool")) == l == Next(put, Undo("tool"))
      && ("notes" in l.cache.stores ==>
            Next(put, Leave("tool"))
            == l.(sql := l.sql.(db := l.sql.db.(rows := l.sql.db.rows[("notes", key) := text]))))
  {
    var inside := Next(l, Enter("tool"));
    var put := Next(inside, PutText("notes", key, text));
    assert Names(inside.sql.scopes) == Names(put.sql.scopes) == ["tool"];
    assert FindScope(["tool"], "tool") == Some(0);
  }

  /** The conformance harness around one store. */
  class Harness {
    const base: Local
    var toolDispatched: seq<Bytes>
    var snapshotBeforeFirstWrite: bool

    constructor (base: Local)
      ensures this.base == base && toolDispatched == [] && !snapshotBeforeFirstWrite
    {
      this.base := base;
      toolDispatched, snapshotBeforeFirstWrite := [], false;
    }

    /** The run so far: from contents `db0`, snapshots `snaps0` and caches `cache`, after `steps`. */
    ghost predicate After(tools: seq<Tool>, db0: Contents, snaps0: map<Bytes, Contents>, cache: Cache,
                          steps: seq<AgentStep>)
      reads this, base
    {
      && base.scopes == [] && Cache(base.stores, base.indexes) == cache
      && base.db == Noted(tools, cache.stores, steps, db0)
      && toolDispatched == Dispatched(tools, steps)
      && snapshotBeforeFirstWrite == (Dispatched(tools, steps) != [])
      && base.snapshots == if Dispatched(tools, steps) == [] then snaps0 else snaps0["agent" := db0]
    }

    /** A mutating call: a snapshot before the first, then the write inside its own scope. */
    method Dispatch(step: AgentStep, spec: Tool)
      requires step.ToolCall? && base.scopes == []
      modifies this, base
      ensures base.scopes == [] && base.stores == old(base.stores) && base.indexes == old(base.indexes)
      ensures toolDispatched == old(toolDispatched) + [step.name]
      ensures base.db == if spec.fails || "notes" !in base.stores then old(base.db)
        else old(base.db).(rows := old(base.db).rows[("notes", step.key) := step.text])
      ensures old(toolDispatched) == [] ==>
        snapshotBeforeFirstWrite && base.snapshots == old(base.snapshots)["agent" := old(base.db)]
      ensures old(toolDispatched) != [] ==>
        snapshotBeforeFirstWrite == old(snapshotBeforeFirstWrite) && base.snapshots == old(base.snapshots)
    {
      hide Next;
      ghost var l := base.Now();
      ToolSnapshot(l);
      if |toolDispatched| == 0 {
        var _ := base.TakeSnapshot("agent");
        snapshotBeforeFirstWrite := true;
      }
      ToolScope(base.Now(), step.key, step.text);
      var _ := base.OpenScope("tool");
      var written := false;
      if !spec.fails { written := base.Put("notes", step.key, step.text); }
      if written {
        var _ := base.ReleaseScope("tool");
      } else {
        var _ := base.RollbackScope("tool");
      }
      toolDispatched := toolDispatched + [step.name];
    }

    /** The steps of one turn. */
    method RunTurn(tools: seq<Tool>, turn: seq<AgentStep>, ghost db0: Contents, ghost snaps0: map<Bytes, Contents>,
                   ghost cache: Cache, ghost done: seq<AgentStep>)
      requires After(tools, db0, snaps0, cache, done)
      modifies this, base
      ensures After(tools, db0, snaps0, cache, done + turn)
    {
      assert done + turn[..0] == done;
      for k := 0 to |turn|
        invariant After(tools, db0, snaps0, cache, done + turn[..k])
      {
        assert done + turn[..k + 1] == done + turn[..k] + [turn[k]];
        DispatchedJoin(tools, done + turn[..k], [turn[k]]);
        NotedJoin(tools, cache.stores, done + turn[..k], [turn[k]], db0);
        OneStep(tools, cache.stores, turn[k], base.db);
        if toolDispatched == [] { QuietUntilDispatched(tools, cache.stores, done + turn[..k], db0); }
        if turn[k].NoTool? { continue; }
        var spec := FindTool(tools, turn[k].name);
        if spec.None? { continue; }
        if spec.value.mutates { Dispatch(turn[k], spec.value); }
      }
      assert turn[..|turn|] == turn;
    }

    method RunModel(tools: seq<Tool>, turns: seq<seq<AgentStep>>, ghost db0: Contents,
                    ghost snaps0: map<Bytes, Contents>, ghost cache: Cache, ghost done: seq<AgentStep>)
      requires After(tools, db0, snaps0, cache, done)
      modifies this, base
      ensures After(tools, db0, snaps0, cache, done + Flat(turns))
    {
      ghost var sofar := done;
      for k := 0 to |turns|
        invariant After(tools, db0, snaps0, cache, sofar)
        invariant sofar + Flat(turns[k..]) == done + Flat(turns)
      {
        RunTurn(tools, turns[k], db0, snaps0, cache, sofar);
        assert turns[k..][1..] == turns[k + 1..];
        assert sofar + (turns[k] + Flat(turns[k + 1..])) == sofar + turns[k] + Flat(turns[k + 1..]);
        sofar := sofar + turns[k];
      }
      assert turns[|turns|..] == [];
      assert sofar + [] == sofar;
    }

    /** Every turn of every model. From no open scope the protocol ends with none, with the initial
        contents and the successful writes in order; when a mutating tool ran, the snapshot named agent
        holds the initial contents, so that restoring it undoes everything. */
    method RunAgentTurn(tools: seq<Tool>, models: seq<seq<seq<AgentStep>>>)
      requires base.scopes == [] && toolDispatched == [] && !snapshotBeforeFirstWrite
      modifies this, base
      ensures var steps := Flat(Flat(models));
        && base.scopes == [] && base.stores == old(base.stores) && base.indexes == old(base.indexes)
        && base.db == Noted(tools, base.stores, steps, old(base.db))
        && toolDispatched == Dispatched(tools, steps)
        && snapshotBeforeFirstWrite == (Dispatched(tools, steps) != [])
        && (Dispatched(tools, steps) == [] ==> base.snapshots == old(base.snapshots))
        && (Dispatched(tools, steps) != [] ==>
              && base.snapshots == old(base.snapshots)["agent" := old(base.db)]
              && Next(base.Now(), Recover("agent")).sql == State(old(base.db), [], base.snapshots))
    {
      hide Next;
      hide Recovers;
      ghost var db0, snaps0, cache := base.db, base.snapshots, Cache(base.stores, base.indexes);
      ghost var sofar: seq<AgentStep> := [];
      for k := 0 to |models|
        invariant After(tools, db0, snaps0, cache, sofar)
        invariant sofar + Flat(Flat(models[k..])) == Flat(Flat(models))
      {
        RunModel(tools, models[k], db0, snaps0, cache, sofar);
        assert models[k..][1..] == models[k + 1..];
        FlatJoin(models[k], Flat(models[k + 1..]));
        assert sofar + (Flat(models[k]) + Flat(Flat(models[k + 1..])))
            == sofar + Flat(models[k]) + Flat(Flat(models[k + 1..]));
        sofar := sofar + Flat(models[k]);
      }
      assert models[|models|..] == [];
      assert sofar + [] == sofar;
      if "agent" in base.snapshots { AgentRecovers(base.Now()); }
    }
  }

  lemma OneStep(tools: seq<Tool>, known: set<Bytes>, step: AgentStep, db: Contents)
    ensures Dispatched(tools, [step]) == if Mutates(tools, step) then [step.name] else []
    ensures Noted(tools, known, [step], db) == NoteOf(tools, known, step, db)
  {
    assert [step][1..] == [];
  }

  /** Before the first mutating call nothing is written. */
  lemma {:induction false} QuietUntilDispatched(tools: seq<Tool>, known: set<Bytes>, steps: seq<AgentStep>,
                                                db: Contents)
    requires Dispatched(tools, steps) == []
    ensures Noted(tools, known, steps, db) == db
    decreases |steps|
  {
    if steps != [] {
      assert !Mutates(tools, steps[0]);
      QuietUntilDispatched(tools, known, steps[1..], db);
    }
  }

  lemma {:induction false} FlatJoin<T>(a: seq<seq<T>>, b: seq<seq<T>>)
    ensures Flat(a + b) == Flat(a) + Flat(b)
  {
    if a == [] {
      assert a + b == b;
    } else {
      assert (a + b)[1..] == a[1..] + b;
      FlatJoin(a[1..], b);
    }
  }
}
