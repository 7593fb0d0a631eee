/** Which sets of operations are safe to run concurrently: the condition on the operations alone
    under which every interleaving, from every table, is a sequence of whole operations.
  */
module Serialisability {
  import opened Order
  import opened Incidents
  import opened Store
  import opened Transactions
  import opened Histories

  type Actions = map<TxId, Action>

  /** A table and one transaction for each action, not started. */
  function Start(rows: Rows, actions: Actions): World {
    World(rows, map t | t in actions :: Begin(actions[t]), [])
  }

  function ActionsOf(w: World): Actions {
    map t | t in w.txs :: w.txs[t].action
  }

  ghost predicate ActionsValid(actions: Actions) {
    forall t :: t in actions ==> ActionValid(actions[t])
  }

  /** No problem reports an object that a recovery among the actions covers, refused ones aside. */
  ghost predicate Compatible(actions: Actions) {
    forall t, u :: t in actions && u in actions ==> !Endangers(actions[t], actions[u])
  }

  /** Problems do not run beside operations on single ids, refused ones aside. */
  predicate Untargeted(actions: Actions) {
    forall t, u :: t in actions && u in actions ==> !(actions[t].Problem? && Targets(actions[u]))
  }

  /** Callers name ids of rows that exist: an operation on an id finds the row when it looks it up. */
  predicate Known(w: World, s: Step) {
    s.Snapshot? && s.tx in w.txs && Targets(w.txs[s.tx].action) ==> w.txs[s.tx].action.id in w.rows
  }

  ghost predicate AllKnown(w: World, steps: seq<Step>)
    requires Runs(w, steps)
  {
    steps != [] ==> AllKnown(w, steps[..|steps| - 1]) && Known(Reach(w, steps[..|steps| - 1]), steps[|steps| - 1])
  }

  /** Every committed operation of the run did all that it does alone. */
  ghost predicate WholeRun(w: World, steps: seq<Step>)
    requires Runs(w, steps)
  {
    Reach(w, steps).rows == SerialRun(w.rows, Reach(w, steps).log) && WholeLog(w.rows, Reach(w, steps).log)
  }

  // ---------------------------------------------------------------------------------------
  // Compatible operations
  // ---------------------------------------------------------------------------------------

  lemma {:induction false} StartIsInitial(rows: Rows, actions: Actions)
    requires RowsValid(rows) && ActionsValid(actions)
    ensures Initial(Start(rows, actions))
  {
    hide RowsValid, ActionValid;
  }

  /** Transactions keep their actions. */
  lemma {:induction false} ActionsStay(w: World, steps: seq<Step>)
    requires Runs(w, steps)
    ensures Reach(w, steps).txs.Keys == w.txs.Keys
    ensures forall t :: t in w.txs ==> Reach(w, steps).txs[t].action == w.txs[t].action
  {
    hide Apply, Enabled;
    if steps != [] {
      ActionsStay(w, steps[..|steps| - 1]);
      SameActions(Reach(w, steps[..|steps| - 1]), steps[|steps| - 1]);
    }
  }

  /** An operation on an id that is under way has its row in the table. */
  ghost predicate TargetsFound(w: World) {
    forall t :: t in w.txs && w.txs[t].phase.Picking? && Targets(w.txs[t].action) ==> w.txs[t].action.id in w.rows
  }

  lemma {:induction false} CommitKeepsRows(rows: Rows, tx: Tx)
    requires Committable(tx)
    ensures forall id :: id in rows ==> id in After(rows, tx)
  {}

  lemma {:induction false} FoundStep(w: World, s: Step)
    requires Enabled(w, s) && Known(w, s) && TargetsFound(w)
    ensures TargetsFound(Apply(w, s))
  {
    hide Selected, Selects, Effect, Fails, Locked, PendingKey, FreshId, After, EntryOf;
    if s.Commit? { CommitKeepsRows(w.rows, w.txs[s.tx]); }
  }

  lemma {:induction false} CompatibleIsApart(w: World, steps: seq<Step>)
    requires Initial(w) && Runs(w, steps) && (AllKnown(w, steps) || Untargeted(ActionsOf(w)))
    requires Compatible(ActionsOf(w))
    ensures AllApart(w, steps)
    ensures AllKnown(w, steps) ==> TargetsFound(Reach(w, steps))
  {
    hide Inv, Enabled, Apply, Endangers;
    if steps != [] {
      var before, s := steps[..|steps| - 1], steps[|steps| - 1];
      var v := Reach(w, before);
      CompatibleIsApart(w, before);
      AlwaysSafe(w, before);
      ActionsStay(w, before);
      if AllKnown(w, steps) { FoundStep(v, s); }
      ApartOf(v, s);
    }
  }

  lemma {:induction false} ApartOf(w: World, s: Step)
    requires Inv(w) && Enabled(w, s) && (TargetsFound(w) || Untargeted(ActionsOf(w)))
    requires Compatible(ActionsOf(w))
    ensures Apart(w, s)
  {
    hide Endangers, RowsValid, Exclusive, Permits, ReadsCurrent, Tracked, Selected, ActionValid;
    if s.Commit? && s.tx in w.txs && w.txs[s.tx].action.Problem? {
      var actions := ActionsOf(w);
      assert TxValid(w.rows, w.txs[s.tx]);
      forall u | u in w.txs && w.txs[u].phase.Picking?
        ensures !Endangers(w.txs[s.tx].action, w.txs[u].action)
        ensures !(Targets(w.txs[u].action) && w.txs[s.tx].phase == HoldsInsert(w.txs[u].action.id))
      {
        assert s.tx in actions && u in actions;
        assert actions[s.tx] == w.txs[s.tx].action && actions[u] == w.txs[u].action;
      }
    }
  }

  lemma {:induction false} StartActions(rows: Rows, actions: Actions)
    ensures ActionsOf(Start(rows, actions)) == actions
  {}

  /** Compatible operations run as whole operations, in commit order. */
  lemma {:induction false} CompatibleIsWhole(rows: Rows, actions: Actions, steps: seq<Step>)
    requires Initial(Start(rows, actions)) && Runs(Start(rows, actions), steps) && Compatible(actions)
    requires AllKnown(Start(rows, actions), steps) || Untargeted(actions)
    ensures WholeRun(Start(rows, actions), steps)
  {
    hide *;
    StartActions(rows, actions);
    CompatibleIsApart(Start(rows, actions), steps);
    WholeFromApart(Start(rows, actions), steps);
  }

  lemma {:induction false} WholeFromApart(w: World, steps: seq<Step>)
    requires Initial(w) && Runs(w, steps) && AllApart(w, steps)
    ensures WholeRun(w, steps)
  {
    FullySerialisable(w, steps);
  }

  // ---------------------------------------------------------------------------------------
  // Incompatible operations
  // ---------------------------------------------------------------------------------------

  lemma {:induction false} Proceed(w: World, steps: seq<Step>, s: Step) returns (more: seq<Step>)
    requires Runs(w, steps) && Enabled(Reach(w, steps), s)
    ensures Runs(w, more) && Reach(w, more) == Apply(Reach(w, steps), s)
    ensures AllKnown(w, steps) && Known(Reach(w, steps), s) ==> AllKnown(w, more)
  {
    hide Enabled, Apply, Known;
    more := steps + [s];
    assert more[..|more| - 1] == steps;
  }

  lemma {:induction false} NoSteps(w: World)
    ensures Runs(w, []) && Reach(w, []) == w && AllKnown(w, [])
  {}

  /** The row a problem inserts is under a recovery of what it reports and under an operation on its id. */
  lemma {:induction false} InsertedIsSelected(p: Action, a: Action, id: Id, rows: Rows)
    requires p.Problem? && p.input.Valid()
    requires rows == map[id := Finished(InsertedRow(p.input), p.input)]
    requires Endangers(p, a) || (Targets(a) && a.id == id)
    ensures Selected(a, rows) == {id} && Effect(a, rows[id]) != rows[id] && !Fails(a, rows[id])
  {
    hide Endangers, Effect, Finished, InsertedRow, Selects, Fails, Targets;
    KindOf(p, a);
    InsertedChanges(p, a, id, rows[id]);
  }

  lemma {:induction false} InsertedChanges(p: Action, a: Action, id: Id, row: Row)
    requires p.Problem? && p.input.Valid() && row == Finished(InsertedRow(p.input), p.input)
    requires Endangers(p, a) || (Targets(a) && a.id == id)
    ensures Selects(a, id, row) && Effect(a, row) != row && !Fails(a, row)
  {
    hide Effect, Fails, Refused;
    if Endangers(p, a) {
      hide RecoveredRow;
      InputObjectsAreReported(p.input);
      var o :| Reports(p.input, o) && Covers(a, o);
      assert o in row.objects;
      RecoveryChanges(a, id, row);
      FailsIff(a, row);
    } else {
      TargetChanges(p, a, row);
    }
  }

  lemma {:induction false} TargetChanges(p: Action, a: Action, row: Row)
    requires p.Problem? && row == Finished(InsertedRow(p.input), p.input) && Targets(a)
    ensures Effect(a, row) != row && !Fails(a, row)
  {
    hide InputObjects, AffectedHosts, AffectedServices, Start, Refused, SafeResult;
  }

  lemma {:induction false} EmptyTable(a: Action)
    ensures RowsValid(map[]) && Selected(a, map[]) == {}
  {}

  /** The selection of `u` finds nothing; then the problem of `t` inserts a row and commits. */
  lemma {:induction false} Inserts(actions: Actions, t: TxId, u: TxId, id: Id) returns (steps: seq<Step>)
    requires t in actions && u in actions && t != u && actions[t].Problem? && !actions[u].Problem? && !actions[u].Expire?
    ensures var w := Start(map[], actions);
            && Runs(w, steps) && (!Targets(actions[u]) ==> AllKnown(w, steps))
            && var v, p := Reach(w, steps), actions[t];
            && v.rows == map[id := Finished(InsertedRow(p.input), p.input)] && v.txs.Keys == actions.Keys
            && v.txs[u].action == actions[u] && v.txs[u].phase == Picking({}) && v.txs[u].seen == map[] && v.txs[u].written == map[]
  {
    hide RowsValid, Runs, Reach, AllKnown, ActionValid, Selected, Selects, Effect, Fails, Finished, InsertedRow;
    hide PlansDispatch;
    var w := Start(map[], actions);
    EmptyTable(actions[t]);
    EmptyTable(actions[u]);
    NoSteps(w);
    steps := Proceed(w, [], Snapshot(u, {}));
    steps := Proceed(w, steps, Insert(t, id));
    steps := Proceed(w, steps, Commit(t));
  }

  /** Then `u` commits without having touched the new row. */
  lemma {:induction false} Overtakes(actions: Actions, t: TxId, u: TxId, id: Id) returns (steps: seq<Step>)
    requires ActionsValid(actions) && t in actions && u in actions && actions[t].Problem?
    requires Endangers(actions[t], actions[u]) || (Targets(actions[u]) && actions[u].id == id)
    ensures Initial(Start(map[], actions)) && Runs(Start(map[], actions), steps)
    ensures !WholeRun(Start(map[], actions), steps)
    ensures Endangers(actions[t], actions[u]) ==> AllKnown(Start(map[], actions), steps)
  {
    hide Endangers, RowsValid, Runs, Reach, AllKnown, ActionValid, Selected, Selects, Effect, Fails, Finished, InsertedRow;
    hide WholeRun, Initial, Whole, PlansDispatch;
    var w := Start(map[], actions);
    var p, a := actions[t], actions[u];
    KindOf(p, a);
    ValidInput(p);
    EmptyTable(p);
    StartIsInitial(map[], actions);
    var before := Inserts(actions, t, u, id);
    var v := Reach(w, before);
    InsertedIsSelected(p, a, id, v.rows);
    steps := Proceed(w, before, Commit(u));
    var e := EntryOf(v.txs[u]);
    assert Reach(w, steps).log == v.log + [e] && e.action == a && e.touched == {} && e.inserted == None;
    NotWhole(v.rows, e, id);
    SerialisedInCommitOrder(w, before);
    LastNotWhole(w, steps, v, e);
  }

  lemma {:induction false} KindOf(p: Action, a: Action)
    requires Endangers(p, a) || Targets(a)
    ensures (Recovers(a) || Targets(a)) && !a.Problem? && !a.Expire?
    ensures Endangers(p, a) ==> !Targets(a)
  {}

  lemma {:induction false} ValidInput(p: Action)
    requires ActionValid(p) && p.Problem?
    ensures p.input.Valid()
  {}

  lemma {:induction false} NotWhole(rows: Rows, e: Entry, id: Id)
    requires (Recovers(e.action) || Targets(e.action)) && e.touched == {} && e.inserted == None
    requires id in rows && Selected(e.action, rows) == {id} && Effect(e.action, rows[id]) != rows[id]
    requires !Fails(e.action, rows[id])
    ensures !Whole(rows, e)
  {
    hide Selected, Effect, Fails, Refused;
    UpdateNone(e.action, rows);
    assert Updates(e.action, {id}, rows)[id] == Effect(e.action, rows[id]);
  }

  lemma {:induction false} LastNotWhole(w: World, steps: seq<Step>, v: World, e: Entry)
    requires Runs(w, steps) && Reach(w, steps).log == v.log + [e]
    requires v.rows == SerialRun(w.rows, v.log) && !Whole(v.rows, e)
    ensures !WholeRun(w, steps)
  {
    hide Whole, SerialRun;
    var log := v.log + [e];
    assert log[..|log| - 1] == v.log && log[|log| - 1] == e;
  }

  // ---------------------------------------------------------------------------------------
  // The exact conditions
  // ---------------------------------------------------------------------------------------

  ghost predicate AlwaysWhole(actions: Actions) {
    forall rows, steps | Initial(Start(rows, actions)) && Runs(Start(rows, actions), steps) && AllKnown(Start(rows, actions), steps)
      :: WholeRun(Start(rows, actions), steps)
  }

  ghost predicate AlwaysWholeUnknown(actions: Actions) {
    forall rows, steps | Initial(Start(rows, actions)) && Runs(Start(rows, actions), steps)
      :: WholeRun(Start(rows, actions), steps)
  }

  /** Main theorem: for any set of operations, every interleaving from every table, with aborts, runs
      them as whole operations in commit order, exactly when none of the problems reports an object
      that one of the recoveries, unless it is refused, covers. Operations on ids name rows that exist. */
  lemma {:induction false} WholeIffCompatible(actions: Actions)
    requires ActionsValid(actions)
    ensures AlwaysWhole(actions) <==> Compatible(actions)
  {
    hide Endangers, Initial, Runs, AllKnown, WholeRun, Start;
    if Compatible(actions) {
      forall rows, steps | Initial(Start(rows, actions)) && Runs(Start(rows, actions), steps) && AllKnown(Start(rows, actions), steps)
        ensures WholeRun(Start(rows, actions), steps)
      {
        CompatibleIsWhole(rows, actions, steps);
      }
    } else {
      var t, u :| t in actions && u in actions && Endangers(actions[t], actions[u]);
      KindOf(actions[t], actions[u]);
      EndangersProblem(actions[t], actions[u]);
      var steps := Overtakes(actions, t, u, 0);
    }
  }

  lemma {:induction false} EndangersProblem(p: Action, a: Action)
    requires Endangers(p, a)
    ensures p.Problem?
  {}

  /** If callers may name ids that no row has yet, problems and such operations must not meet either. */
  lemma {:induction false} WholeIffAlsoUntargeted(actions: Actions)
    requires ActionsValid(actions)
    ensures AlwaysWholeUnknown(actions) <==> Compatible(actions) && Untargeted(actions)
  {
    hide Endangers, Initial, Runs, AllKnown, WholeRun, Start, Targets;
    if Compatible(actions) && Untargeted(actions) {
      forall rows, steps | Initial(Start(rows, actions)) && Runs(Start(rows, actions), steps)
        ensures WholeRun(Start(rows, actions), steps)
      {
        CompatibleIsWhole(rows, actions, steps);
      }
    } else if !Compatible(actions) {
      var t, u :| t in actions && u in actions && Endangers(actions[t], actions[u]);
      EndangersProblem(actions[t], actions[u]);
      var steps := Overtakes(actions, t, u, 0);
    } else {
      var t, u :| t in actions && u in actions && actions[t].Problem? && Targets(actions[u]);
      TargetsHasId(actions[u]);
      var steps := Overtakes(actions, t, u, actions[u].id);
    }
  }

  lemma {:induction false} TargetsHasId(a: Action)
    ensures Targets(a) ==> a.Acknowledge? || a.Close? || a.Notify?
  {}

  // ---------------------------------------------------------------------------------------
  // Any order
  // ---------------------------------------------------------------------------------------

  function Acts(log: seq<Entry>): seq<Action> {
    seq(|log|, i requires 0 <= i < |log| => log[i].action)
  }

  /** Some order of the committed operations, each of them whole, leads to this table. */
  ghost predicate Explained(rows: Rows, log: seq<Entry>, final: Rows) {
    exists es: seq<Entry> :: multiset(Acts(es)) == multiset(Acts(log)) && WholeLog(rows, es) && SerialRun(rows, es) == final
  }

  lemma {:induction false} WholeRunIsExplained(w: World, steps: seq<Step>)
    requires Runs(w, steps) && WholeRun(w, steps)
    ensures Explained(w.rows, Reach(w, steps).log, Reach(w, steps).rows)
  {
    hide WholeLog, SerialRun;
  }
}
