/** The store's runs: its writes under SQLite's scopes, and the index invariant in every state they reach. */
module Transactions {
  import opened Json
  import opened Database
  import opened IndexLayer
  import opened IndexActions
  import opened Scopes

  /** What the engine's actions do, and the scope names and labels it accepts. */
  ghost function StoreRules(F: Floats): Rules<Db, Write> {
    Rules((w, db) => Effect(F, w, db).db, ValidSavepoint, ValidLabel)
  }

  /** The index invariant in the contents, in every open scope, and in every snapshot. */
  ghost predicate AllInv(s: State<Db>) {
    && Inv(s.db)
    && (forall k | 0 <= k < |s.scopes| :: Inv(s.scopes[k].saved))
    && (forall t | t in s.snapshots :: Inv(s.snapshots[t]))
  }

  lemma StepKeepsInv(F: Floats, s: State<Db>, step: Step<Write>)
    requires AllInv(s)
    ensures AllInv(Apply(StoreRules(F), s, step))
  {
    hide Inv;
    hide Effect;
    match step
    case Act(w) => EffectKeepsInv(F, w, s.db);
    case _ =>
  }

  /** In every state any run reaches, typed errors, rollbacks, restores and reopens included, the
      three tables of every index are linked as they should be. */
  lemma {:induction false} RunKeepsInv(F: Floats, s: State<Db>, steps: seq<Step<Write>>)
    requires AllInv(s)
    ensures AllInv(Run(StoreRules(F), s, steps))
  {
    hide AllInv;
    if steps != [] {
      RunKeepsInv(F, s, steps[..|steps| - 1]);
      StepKeepsInv(F, Run(StoreRules(F), s, steps[..|steps| - 1]), steps[|steps| - 1]);
    }
  }

  /** So a new store stays well linked for ever. */
  lemma FreshStoreLinked(F: Floats, steps: seq<Step<Write>>)
    ensures Inv(Run(StoreRules(F), State(EMPTY, [], map[]), steps).db)
  {
    assert Inv(EMPTY);
    RunKeepsInv(F, State(EMPTY, [], map[]), steps);
  }

  /** A run in which a snapshot that fails loses the one before it. */
  lemma SnapshotLost(F: Floats)
    ensures var R, s := StoreRules(F), State(EMPTY, [], map[]);
      && "a" in Run(R, s, [Snapshot("a"), Savepoint("t")]).snapshots
      && "a" !in Run(R, s, [Snapshot("a"), Savepoint("t"), Snapshot("a")]).snapshots
  {
    var R, s := StoreRules(F), State(EMPTY, [], map[]);
    var steps: seq<Step<Write>> := [Snapshot("a"), Savepoint("t"), Snapshot("a")];
    assert steps[..2] == [Snapshot("a"), Savepoint("t")];
    assert steps[..2][..1] == [Snapshot("a")] && steps[..1][..0] == [];
    var one := Run(R, s, steps[..2][..1]);
    assert Run(R, s, steps[..2][..1][..0]) == s;
    assert one == Apply(R, s, Snapshot("a"));
    assert Run(R, s, steps[..2]) == Apply(R, one, Savepoint("t"));
  }
}
