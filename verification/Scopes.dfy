/** Scopes, snapshots and reopening, as SQLite defines them for one connection, over whole runs and for
    whatever contents and writes a store has. */
module Scopes {
  import opened Strings

  /** An open savepoint and what a rollback goes back to: contents or, in a history, a position. */
  datatype Scope<T> = Scope(name: Bytes, saved: T)

  /** What the connection sees, its open scopes from the outermost in, and the snapshot files. */
  datatype State<D> = State(db: D, scopes: seq<Scope<D>>, snapshots: map<Bytes, D>)

  /** What one store adds: what its writes do, and which scope names and labels it lets through. */
  datatype Rules<!D, !W> = Rules(act: (W, D) -> D, okName: Bytes -> bool, okLabel: Bytes -> bool)

  datatype Step<W> =
    | Act(w: W)
    | Savepoint(name: Bytes)
    | Release(name: Bytes)
    | Rollback(name: Bytes)
    | Snapshot(tag: Bytes)
    | Restore(tag: Bytes)
    | Reopen

  function LowerByte(c: char): char {
    if 'A' <= c <= 'Z' then (c as int + 32) as char else c
  }

  /** Savepoint names match whatever their letter case. */
  predicate SameName(a: Bytes, b: Bytes) {
    |a| == |b| && forall k | 0 <= k < |a| :: LowerByte(a[k]) == LowerByte(b[k])
  }

  /** Equal, or one letter of the ASCII alphabet in two cases. */
  predicate SameLetter(c: char, d: char) {
    || c == d
    || (0x41 <= c as int <= 0x5A && d as int == c as int + 0x20)
    || (0x41 <= d as int <= 0x5A && c as int == d as int + 0x20)
  }

  lemma SameNameIs(a: Bytes, b: Bytes)
    ensures SameName(a, b) <==> |a| == |b| && forall k | 0 <= k < |a| :: SameLetter(a[k], b[k])
  {
    forall c: char, d: char ensures LowerByte(c) == LowerByte(d) <==> SameLetter(c, d) {}
    hide LowerByte;
    hide SameLetter;
  }

  /** The innermost open scope of a name. */
  function FindScope(names: seq<Bytes>, name: Bytes): (r: Option<nat>)
    ensures r.Some? ==> r.value < |names| && SameName(names[r.value], name)
    ensures r.Some? ==> forall k | r.value < k < |names| :: !SameName(names[k], name)
    ensures r.None? ==> forall k | 0 <= k < |names| :: !SameName(names[k], name)
  {
    if names == [] then None
    else if SameName(names[|names| - 1], name) then Some(|names| - 1)
    else FindScope(names[..|names| - 1], name)
  }

  function Names<T>(scopes: seq<Scope<T>>): (r: seq<Bytes>)
    ensures |r| == |scopes| && forall k | 0 <= k < |scopes| :: r[k] == scopes[k].name
  {
    seq(|scopes|, k requires 0 <= k < |scopes| => scopes[k].name)
  }

  /** What has been committed: the contents under the outermost open scope. */
  function Committed<D>(s: State<D>): D { if s.scopes == [] then s.db else s.scopes[0].saved }

  /** `ROLLBACK TO`: the contents go back and the scope stays. */
  function RolledBackTo<D>(s: State<D>, k: nat): State<D>
    requires k < |s.scopes|
  {
    s.(db := s.scopes[k].saved, scopes := s.scopes[..k + 1])
  }

  /** `RELEASE`: the scope and those inside it end, and their writes stay. */
  function Released<D>(s: State<D>, k: nat): State<D>
    requires k < |s.scopes|
  {
    s.(scopes := s.scopes[..k])
  }

  ghost function Apply<D, W>(R: Rules<D, W>, s: State<D>, step: Step<W>): State<D> {
    match step
    case Act(w) => s.(db := R.act(w, s.db))
    case Savepoint(name) =>
      if R.okName(name) then s.(scopes := s.scopes + [Scope(name, s.db)]) else s
    case Release(name) =>
      (match FindScope(Names(s.scopes), name)
       case Some(k) => if R.okName(name) then Released(s, k) else s
       case None => s)
    case Rollback(name) =>
      (match FindScope(Names(s.scopes), name)
       case Some(k) => if R.okName(name) then Released(RolledBackTo(s, k), k) else s
       case None => s)
    case Snapshot(tag) =>
      if !R.okLabel(tag) then s
      else if s.scopes != [] then s.(snapshots := s.snapshots - {tag})
      else s.(snapshots := s.snapshots[tag := s.db])
    case Restore(tag) =>
      if R.okLabel(tag) && tag in s.snapshots then s.(db := s.snapshots[tag], scopes := []) else s
    case Reopen => s.(db := Committed(s), scopes := [])
  }

  ghost function Run<D, W>(R: Rules<D, W>, s: State<D>, steps: seq<Step<W>>): State<D> {
    if steps == [] then s else Apply(R, Run(R, s, steps[..|steps| - 1]), steps[|steps| - 1])
  }

  // --- which writes survive, told from the history alone ---------------------------------

  /** An open savepoint and the position it was opened at. */
  type Mark = Scope<nat>

  /** The savepoint a release or a rollback ends. */
  function Ends<D, W>(R: Rules<D, W>, marks: seq<Mark>, name: Bytes): (r: Option<nat>)
    ensures r.Some? ==> r.value < |marks|
  {
    if R.okName(name) then FindScope(Names(marks), name) else None
  }

  /** The savepoints open after a history without restores. */
  function Open<D, W>(R: Rules<D, W>, steps: seq<Step<W>>): seq<Mark> {
    if steps == [] then []
    else
      var n := |steps| - 1;
      var marks := Open(R, steps[..n]);
      match steps[n]
      case Savepoint(name) => if R.okName(name) then marks + [Scope(name, n)] else marks
      case Release(name) => (match Ends(R, marks, name) case Some(k) => marks[..k] case None => marks)
      case Rollback(name) => (match Ends(R, marks, name) case Some(k) => marks[..k] case None => marks)
      case Reopen => []
      case _ => marks
  }

  /** The position from which step `q` takes writes back: the rolled-back savepoint, or the outermost
      one still open at a reopen. */
  function UndoneFrom<D, W>(R: Rules<D, W>, steps: seq<Step<W>>, q: nat): Option<nat>
    requires q < |steps|
  {
    var marks := Open(R, steps[..q]);
    match steps[q]
    case Rollback(name) => (match Ends(R, marks, name) case Some(k) => Some(marks[k].saved) case None => None)
    case Reopen => if marks != [] then Some(marks[0].saved) else None
    case _ => None
  }

  /** The write at `p` is in no rolled-back scope and in no scope still open at a reopen. */
  ghost predicate Survives<D, W>(R: Rules<D, W>, steps: seq<Step<W>>, p: nat) {
    && p < |steps| && steps[p].Act?
    && forall q | p < q < |steps| :: UndoneFrom(R, steps, q).None? || p < UndoneFrom(R, steps, q).value
  }

  /** The surviving writes before `n`, in order. */
  ghost function Survivors<D, W>(R: Rules<D, W>, steps: seq<Step<W>>, n: nat): seq<W> {
    if n == 0 then []
    else Survivors(R, steps, n - 1) + if Survives(R, steps, n - 1) then [steps[n - 1].w] else []
  }

  ghost function Replay<D, W>(R: Rules<D, W>, db: D, ws: seq<W>): D {
    if ws == [] then db
    else R.act(ws[|ws| - 1], Replay(R, db, ws[..|ws| - 1]))
  }

  // --- the theorem ------------------------------------------------------------------------

  lemma UndoneFromPrefix<D, W>(R: Rules<D, W>, steps: seq<Step<W>>, n: nat, q: nat)
    requires q < n <= |steps|
    ensures UndoneFrom(R, steps[..n], q) == UndoneFrom(R, steps, q)
  {
    assert steps[..n][..q] == steps[..q];
  }

  /** A write before the last step survives when it did before and the last step leaves it. */
  lemma SurvivesStep<D, W>(R: Rules<D, W>, steps: seq<Step<W>>, p: nat)
    requires p < |steps| - 1
    ensures var n := |steps| - 1;
      Survives(R, steps, p) <==>
        Survives(R, steps[..n], p) && (UndoneFrom(R, steps, n).None? || p < UndoneFrom(R, steps, n).value)
  {
    hide UndoneFrom;
    var n := |steps| - 1;
    forall q | p < q < n ensures UndoneFrom(R, steps[..n], q) == UndoneFrom(R, steps, q) {
      UndoneFromPrefix(R, steps, n, q);
    }
  }

  /** The survivors before `m` are those of the history so far, when the last step takes nothing
      before `m` back. */
  lemma {:induction false} SurvivorsKept<D, W>(R: Rules<D, W>, steps: seq<Step<W>>, m: nat)
    requires steps != [] && m <= |steps| - 1
    requires UndoneFrom(R, steps, |steps| - 1).None? || m <= UndoneFrom(R, steps, |steps| - 1).value
    ensures Survivors(R, steps, m) == Survivors(R, steps[..|steps| - 1], m)
  {
    hide UndoneFrom;
    if m > 0 {
      SurvivesStep(R, steps, m - 1);
      SurvivorsKept(R, steps, m - 1);
    }
  }

  /** Nothing from `u` on survives when the last step takes it all back. */
  lemma {:induction false} SurvivorsCut<D, W>(R: Rules<D, W>, steps: seq<Step<W>>, u: nat, m: nat)
    requires steps != [] && u <= m <= |steps| && !steps[|steps| - 1].Act?
    requires UndoneFrom(R, steps, |steps| - 1) == Some(u)
    ensures Survivors(R, steps, m) == Survivors(R, steps, u)
  {
    hide UndoneFrom;
    if u < m {
      SurvivorsCut(R, steps, u, m - 1);
    }
  }

  /** The open scopes are the marks, each saving the replay of the survivors before it. */
  ghost predicate Explained<D, W>(R: Rules<D, W>, db: D, steps: seq<Step<W>>, s: State<D>) {
    var marks := Open(R, steps);
    && |s.scopes| == |marks|
    && (forall k | 0 <= k < |marks| :: ScopeExplained(R, db, steps, s.scopes[k], marks[k]))
    && (forall i, j | 0 <= i < j < |marks| :: marks[i].saved < marks[j].saved)
    && s.db == Replay(R, db, Survivors(R, steps, |steps|))
  }

  ghost predicate ScopeExplained<D, W>(R: Rules<D, W>, db: D, steps: seq<Step<W>>, scope: Scope<D>, mark: Mark) {
    && scope.name == mark.name && mark.saved < |steps|
    && scope.saved == Replay(R, db, Survivors(R, steps, mark.saved))
  }

  predicate NoRestore<W>(steps: seq<Step<W>>) {
    forall k | 0 <= k < |steps| :: !steps[k].Restore?
  }

  lemma NamesAgree<D>(scopes: seq<Scope<D>>, marks: seq<Mark>)
    requires |scopes| == |marks| && forall k | 0 <= k < |marks| :: scopes[k].name == marks[k].name
    ensures Names(scopes) == Names(marks)
  {
  }

  /** A scope opened before everything the last step takes back stays explained. */
  lemma ScopeStays<D, W>(R: Rules<D, W>, db: D, steps: seq<Step<W>>, scope: Scope<D>, mark: Mark)
    requires steps != [] && ScopeExplained(R, db, steps[..|steps| - 1], scope, mark)
    requires UndoneFrom(R, steps, |steps| - 1).None? || mark.saved <= UndoneFrom(R, steps, |steps| - 1).value
    ensures ScopeExplained(R, db, steps, scope, mark)
  {
    hide UndoneFrom;
    hide Replay;
    SurvivorsKept(R, steps, mark.saved);
  }

  lemma {:induction false} RunExplained<D, W>(R: Rules<D, W>, s: State<D>, steps: seq<Step<W>>)
    requires s.scopes == [] && NoRestore(steps)
    ensures Explained(R, s.db, steps, Run(R, s, steps))
  {
    if steps != [] {
      var n := |steps| - 1;
      RunExplained(R, s, steps[..n]);
      StepExplained(R, s.db, steps, Run(R, s, steps[..n]));
    }
  }

  lemma MarksNamed<D, W>(R: Rules<D, W>, db: D, steps: seq<Step<W>>, s: State<D>)
    requires Explained(R, db, steps, s)
    ensures Names(s.scopes) == Names(Open(R, steps))
    ensures forall k | 0 <= k < |Open(R, steps)| :: Open(R, steps)[k].saved < |steps|
  {
    hide Open;
    hide Survivors;
    hide Replay;
    NamesAgree(s.scopes, Open(R, steps));
  }

  lemma StepExplained<D, W>(R: Rules<D, W>, db: D, steps: seq<Step<W>>, s: State<D>)
    requires steps != [] && NoRestore(steps) && Explained(R, db, steps[..|steps| - 1], s)
    ensures Explained(R, db, steps, Apply(R, s, steps[|steps| - 1]))
  {
    hide Open;
    hide UndoneFrom;
    hide Survivors;
    hide Replay;
    hide ScopeExplained;
    hide NoRestore;
    var n := |steps| - 1;
    var marks := Open(R, steps[..n]);
    MarksNamed(R, db, steps[..n], s);
    if UndoneFrom(R, steps, n).None? {
      SurvivorsKept(R, steps, n);
      forall k | 0 <= k < |marks| ensures ScopeExplained(R, db, steps, s.scopes[k], marks[k]) {
        ScopeStays(R, db, steps, s.scopes[k], marks[k]);
      }
      QuietStep(R, db, steps, s);
    } else {
      var u := UndoneFrom(R, steps, n).value;
      forall k | 0 <= k < |marks| && marks[k].saved <= u
        ensures ScopeExplained(R, db, steps, s.scopes[k], marks[k])
      {
        ScopeStays(R, db, steps, s.scopes[k], marks[k]);
      }
      UndoingIsNoAct(R, steps, marks);
      SurvivorsCut(R, steps, u, |steps|);
      UndoingStep(R, db, steps, s);
    }
  }

  lemma UndoingIsNoAct<D, W>(R: Rules<D, W>, steps: seq<Step<W>>, marks: seq<Mark>)
    requires steps != [] && UndoneFrom(R, steps, |steps| - 1).Some?
    requires marks == Open(R, steps[..|steps| - 1]) && forall k | 0 <= k < |marks| :: marks[k].saved < |steps|
    ensures !steps[|steps| - 1].Act? && UndoneFrom(R, steps, |steps| - 1).value <= |steps|
  {
    hide Open;
    hide Ends;
    match steps[|steps| - 1]
    case Rollback(name) =>
      var k := Ends(R, marks, name).value;
      assert marks[k].saved < |steps|;
    case Reopen => assert marks[0].saved < |steps|;
    case _ =>
  }

  /** Everything before the last step, which takes nothing back, is explained already. */
  ghost predicate ReadyForQuiet<D, W>(R: Rules<D, W>, db: D, steps: seq<Step<W>>, s: State<D>) {
    && steps != [] && NoRestore(steps) && UndoneFrom(R, steps, |steps| - 1).None?
    && var marks := Open(R, steps[..|steps| - 1]);
       && |s.scopes| == |marks| && Names(s.scopes) == Names(marks)
       && (forall k | 0 <= k < |marks| :: ScopeExplained(R, db, steps, s.scopes[k], marks[k]))
       && (forall i, j | 0 <= i < j < |marks| :: marks[i].saved < marks[j].saved)
       && (forall k | 0 <= k < |marks| :: marks[k].saved < |steps| - 1)
       && s.db == Replay(R, db, Survivors(R, steps, |steps| - 1))
  }

  lemma ActStep<D, W>(R: Rules<D, W>, db: D, steps: seq<Step<W>>, s: State<D>)
    requires ReadyForQuiet(R, db, steps, s) && steps[|steps| - 1].Act?
    ensures Explained(R, db, steps, Apply(R, s, steps[|steps| - 1]))
  {
    hide ScopeExplained;
    hide NoRestore;
    var n := |steps| - 1;
    var w := steps[n].w;
    assert Survives(R, steps, n);
    assert Survivors(R, steps, n + 1) == Survivors(R, steps, n) + [w];
    assert (Survivors(R, steps, n) + [w])[..|Survivors(R, steps, n)|] == Survivors(R, steps, n);
    assert Open(R, steps) == Open(R, steps[..n]);
  }

  lemma OpenAfterSavepoint<D, W>(R: Rules<D, W>, steps: seq<Step<W>>)
    requires steps != [] && steps[|steps| - 1].Savepoint? && R.okName(steps[|steps| - 1].name)
    ensures var n := |steps| - 1; Open(R, steps) == Open(R, steps[..n]) + [Scope(steps[n].name, n)]
  {
  }

  lemma ScopesExtend<D, W>(R: Rules<D, W>, db: D, steps: seq<Step<W>>, scopes: seq<Scope<D>>, marks: seq<Mark>,
                     scope: Scope<D>, mark: Mark)
    requires |scopes| == |marks| && ScopeExplained(R, db, steps, scope, mark)
    requires forall k | 0 <= k < |marks| :: ScopeExplained(R, db, steps, scopes[k], marks[k])
    requires forall i, j | 0 <= i < j < |marks| :: marks[i].saved < marks[j].saved
    requires forall k | 0 <= k < |marks| :: marks[k].saved < mark.saved
    ensures var ss, ms := scopes + [scope], marks + [mark];
      && (forall k | 0 <= k < |ms| :: ScopeExplained(R, db, steps, ss[k], ms[k]))
      && (forall i, j | 0 <= i < j < |ms| :: ms[i].saved < ms[j].saved)
  {
    hide ScopeExplained;
  }

  lemma SavepointStep<D, W>(R: Rules<D, W>, db: D, steps: seq<Step<W>>, s: State<D>)
    requires ReadyForQuiet(R, db, steps, s)
    requires steps[|steps| - 1].Savepoint? && R.okName(steps[|steps| - 1].name)
    requires Survivors(R, steps, |steps|) == Survivors(R, steps, |steps| - 1)
    ensures Explained(R, db, steps, Apply(R, s, steps[|steps| - 1]))
  {
    hide ScopeExplained;
    hide NoRestore;
    hide Survivors;
    hide Replay;
    hide Open;
    hide UndoneFrom;
    var n := |steps| - 1;
    var name, marks := steps[n].name, Open(R, steps[..n]);
    ScopeOpened(R, db, steps, name, s.db);
    OpenAfterSavepoint(R, steps);
    ScopesExtend(R, db, steps, s.scopes, marks, Scope(name, s.db), Scope(name, n));
  }

  /** A step that takes nothing back. */
  lemma QuietStep<D, W>(R: Rules<D, W>, db: D, steps: seq<Step<W>>, s: State<D>)
    requires ReadyForQuiet(R, db, steps, s)
    ensures Explained(R, db, steps, Apply(R, s, steps[|steps| - 1]))
  {
    hide ScopeExplained;
    hide Replay;
    var n := |steps| - 1;
    var marks := Open(R, steps[..n]);
    assert !steps[n].Act? ==> Survivors(R, steps, |steps|) == Survivors(R, steps, n);
    hide Survivors;
    match steps[n]
    case Act(_) => ActStep(R, db, steps, s);
    case Savepoint(name) =>
      if R.okName(name) { SavepointStep(R, db, steps, s); }
    case Release(name) =>
      if Ends(R, marks, name).Some? {
        var k := Ends(R, marks, name).value;
        assert Open(R, steps) == marks[..k];
        assert Apply(R, s, steps[n]) == Released(s, k);
      }
    case _ =>
  }

  lemma ScopeOpened<D, W>(R: Rules<D, W>, db: D, steps: seq<Step<W>>, name: Bytes, saved: D)
    requires steps != [] && saved == Replay(R, db, Survivors(R, steps, |steps| - 1))
    ensures ScopeExplained(R, db, steps, Scope(name, saved), Scope(name, |steps| - 1))
  {
  }

  /** A rollback or a reopen that takes writes back. */
  lemma UndoingStep<D, W>(R: Rules<D, W>, db: D, steps: seq<Step<W>>, s: State<D>)
    requires steps != [] && UndoneFrom(R, steps, |steps| - 1).Some?
    requires var marks, u := Open(R, steps[..|steps| - 1]), UndoneFrom(R, steps, |steps| - 1).value;
      && |s.scopes| == |marks| && Names(s.scopes) == Names(marks)
      && (forall k | 0 <= k < |marks| && marks[k].saved <= u :: ScopeExplained(R, db, steps, s.scopes[k], marks[k]))
      && (forall i, j | 0 <= i < j < |marks| :: marks[i].saved < marks[j].saved)
      && Survivors(R, steps, |steps|) == Survivors(R, steps, u)
    ensures Explained(R, db, steps, Apply(R, s, steps[|steps| - 1]))
  {
    hide Survivors;
    hide Replay;
  }

  /** Over any run of writes, savepoints, releases, rollbacks, snapshots and reopens, with any nesting
      and any repetition of names, the contents are a replay of exactly the writes that survive. */
  lemma ContentsAreSurvivors<D, W>(R: Rules<D, W>, s: State<D>, steps: seq<Step<W>>)
    requires s.scopes == [] && NoRestore(steps)
    ensures Run(R, s, steps).db == Replay(R, s.db, Survivors(R, steps, |steps|))
  {
    RunExplained(R, s, steps);
  }

  lemma ActUndoesNothing<D, W>(R: Rules<D, W>, steps: seq<Step<W>>, p: nat)
    requires p < |steps| && steps[p].Act?
    ensures UndoneFrom(R, steps, p) == None
  {
  }

  /** Before a surviving write, the survivors are what they were when it was made. */
  lemma {:induction false} SurvivorsSettled<D, W>(R: Rules<D, W>, steps: seq<Step<W>>, p: nat, m: nat)
    requires Survives(R, steps, p) && m <= p
    ensures Survivors(R, steps, m) == Survivors(R, steps[..p], m)
  {
    hide UndoneFrom;
    if m > 0 {
      SurvivorsSettled(R, steps, p, m - 1);
      ActUndoesNothing(R, steps, p);
      forall q | 0 <= q < p ensures UndoneFrom(R, steps[..p], q) == UndoneFrom(R, steps, q) {
        UndoneFromPrefix(R, steps, p, q);
      }
    }
  }

  lemma ReplayOne<D, W>(R: Rules<D, W>, db: D, ws: seq<W>, w: W)
    ensures Replay(R, db, ws + [w]) == R.act(w, Replay(R, db, ws))
  {
    assert (ws + [w])[..|ws|] == ws;
  }

  /** A surviving write found the contents that the survivors before it leave. */
  lemma ContentsAtSurvivor<D, W>(R: Rules<D, W>, s: State<D>, steps: seq<Step<W>>, p: nat)
    requires s.scopes == [] && NoRestore(steps) && Survives(R, steps, p)
    ensures Run(R, s, steps[..p]).db == Replay(R, s.db, Survivors(R, steps, p))
  {
    hide Survives;
    hide Survivors;
    hide Replay;
    hide Run;
    SurvivesAct(R, steps, p);
    ContentsAreSurvivors(R, s, steps[..p]);
    SurvivorsSettled(R, steps, p, p);
  }

  lemma SurvivesAct<D, W>(R: Rules<D, W>, steps: seq<Step<W>>, p: nat)
    requires Survives(R, steps, p)
    ensures p < |steps| && steps[p].Act?
  {
  }

  lemma {:induction false} RunJoin<D, W>(R: Rules<D, W>, s: State<D>, a: seq<Step<W>>, b: seq<Step<W>>)
    ensures Run(R, s, a + b) == Run(R, Run(R, s, a), b)
  {
    hide Apply;
    if b == [] {
      assert a + b == a;
    } else {
      assert (a + b)[..|a + b| - 1] == a + b[..|b| - 1];
      RunJoin(R, s, a, b[..|b| - 1]);
    }
  }

  /** With restores too: from any state, the contents are the last restored snapshot and, replayed on
      it, the surviving writes since. */
  lemma ContentsSinceRestore<D, W>(R: Rules<D, W>, s: State<D>, before: seq<Step<W>>, tag: Bytes, since: seq<Step<W>>)
    requires R.okLabel(tag) && tag in Run(R, s, before).snapshots && NoRestore(since)
    ensures Run(R, s, before + [Restore(tag)] + since).db ==
            Replay(R, Run(R, s, before).snapshots[tag], Survivors(R, since, |since|))
  {
    hide Replay;
    hide Survivors;
    var at := before + [Restore(tag)];
    assert at[..|at| - 1] == before;
    RunJoin(R, s, at, since);
    ContentsAreSurvivors(R, Run(R, s, at), since);
  }

  // --- scopes that are not there ------------------------------------------------------------

  /** Whether a release or a rollback names an open scope. */
  predicate NamesOpen<D>(s: State<D>, name: Bytes) {
    exists k | 0 <= k < |s.scopes| :: SameName(s.scopes[k].name, name)
  }

  /** A release or a rollback of a valid name changes nothing exactly when no open scope has it. */
  lemma UnknownScope<D, W>(R: Rules<D, W>, s: State<D>, name: Bytes)
    requires R.okName(name)
    ensures Apply(R, s, Release(name)) == s <==> !NamesOpen(s, name)
    ensures Apply(R, s, Rollback(name)) == s <==> !NamesOpen(s, name)
  {
    var found := FindScope(Names(s.scopes), name);
    if found.Some? {
      assert SameName(s.scopes[found.value].name, name);
      assert |Apply(R, s, Release(name)).scopes| == found.value < |s.scopes|;
    }
  }

  // --- snapshots ------------------------------------------------------------------------------

  /** No snapshot call names the label. */
  predicate LeavesSnapshot<W>(steps: seq<Step<W>>, tag: Bytes) {
    forall k | 0 <= k < |steps| :: !(steps[k].Snapshot? && steps[k].tag == tag)
  }

  lemma {:induction false} SnapshotLasts<D, W>(R: Rules<D, W>, s: State<D>, steps: seq<Step<W>>, tag: Bytes)
    requires tag in s.snapshots && LeavesSnapshot(steps, tag)
    ensures tag in Run(R, s, steps).snapshots && Run(R, s, steps).snapshots[tag] == s.snapshots[tag]
  {
    if steps != [] { SnapshotLasts(R, s, steps[..|steps| - 1], tag); }
  }

  /** Whatever runs between a successful snapshot and a restore of its label, scopes, reopens, other
      snapshots and other restores included, the restore brings back the contents at the snapshot
      with no scope open. A snapshot succeeds exactly when no scope is open. */
  lemma RestoreReturns<D, W>(R: Rules<D, W>, s: State<D>, steps: seq<Step<W>>, tag: Bytes)
    requires R.okLabel(tag) && s.scopes == [] && LeavesSnapshot(steps, tag)
    ensures var before := Run(R, Apply(R, s, Snapshot(tag)), steps);
      Apply(R, before, Restore(tag)) == State(s.db, [], before.snapshots)
  {
    SnapshotLasts(R, Apply(R, s, Snapshot(tag)), steps, tag);
  }

  /** Under an open scope the snapshot fails, and the earlier file of that label is gone. */
  lemma SnapshotInScopeLoses<D, W>(R: Rules<D, W>, s: State<D>, tag: Bytes)
    requires R.okLabel(tag) && s.scopes != []
    ensures var after := Apply(R, s, Snapshot(tag));
      && tag !in after.snapshots && after.(snapshots := s.snapshots) == s
      && Apply(R, after, Restore(tag)) == after
  {
  }

  /** A snapshot that fails changes nothing exactly when its label is refused or had no file. */
  lemma RefusedSnapshot<D, W>(R: Rules<D, W>, s: State<D>, tag: Bytes)
    requires !(R.okLabel(tag) && s.scopes == [])
    ensures Apply(R, s, Snapshot(tag)) == s <==> !R.okLabel(tag) || tag !in s.snapshots
  {
    if R.okLabel(tag) {
      if tag in s.snapshots {
        assert tag !in Apply(R, s, Snapshot(tag)).snapshots;
      } else {
        assert s.snapshots - {tag} == s.snapshots;
      }
    }
  }

  /** A restore changes nothing exactly when its label has no snapshot, or when no scope is open and
      the snapshot is what is there already. */
  lemma UnknownLabel<D, W>(R: Rules<D, W>, s: State<D>, tag: Bytes)
    requires R.okLabel(tag)
    ensures Apply(R, s, Restore(tag)) == s <==>
      tag !in s.snapshots || (s.scopes == [] && s.snapshots[tag] == s.db)
  {
    if tag in s.snapshots && Apply(R, s, Restore(tag)) == s {
      assert Apply(R, s, Restore(tag)).scopes == [] && Apply(R, s, Restore(tag)).db == s.snapshots[tag];
    }
  }
}
