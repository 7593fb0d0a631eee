/** What concurrent histories guarantee beyond commit-order serialisation: when every committed
    operation is the whole operation, when one is not, and how many dispatches are planned.
  */
module Histories {
  import opened Order
  import opened Windows
  import opened Crossings
  import opened Incidents
  import opened Store
  import Lives
  import opened Transactions

  // ---------------------------------------------------------------------------------------
  // Whole operations
  // ---------------------------------------------------------------------------------------

  /** An operation on the row with a given id, with texts that can be noted. */
  predicate Targets(a: Action) {
    (a.Acknowledge? || a.Close? || a.Notify?) && !Refused(a)
  }

  /** A recovery with texts that can be noted. */
  predicate Recovers(a: Action) {
    a.IsRecovery() && !Refused(a)
  }

  /** The committed transaction did to the table exactly what the repository operation does alone.
      An expiry may skip rows that others hold; whatever it touches was stale and is closed. */
  ghost predicate Whole(rows: Rows, e: Entry) {
    match e.action
    case Problem(input) =>
      && (e.inserted.Some? <==> Selected(e.action, rows) == {})
      && (e.inserted.Some? ==> e.inserted.value !in rows)
      && Atomic(rows, e) == AfterProblem(input, if e.inserted.Some? then e.inserted.value else 0, rows)
    case Expire(now) => ExpiresStale(rows, Atomic(rows, e), e.touched, now)
    case _ => Atomic(rows, e) == Alone(e.action, rows)
  }

  /** Exactly the touched rows changed; each was stale and was closed now. */
  ghost predicate ExpiresStale(rows: Rows, after: Rows, touched: set<Id>, now: int) {
    && touched <= rows.Keys == after.Keys
    && forall id :: id in rows ==>
         if id in touched then
           rows[id].status.Open? && Stale(rows[id], now) && after[id].status.Closed? && after[id].closedAt == Some(now)
         else after[id] == rows[id]
  }

  lemma {:induction false} ProblemIsWhole(rows: Rows, e: Entry)
    requires Legitimate(rows, e) && e.action.Problem?
    ensures Whole(rows, e)
  {
    hide Effect, Selects, Fails, InsertedRow;
  }

  lemma {:induction false} ExpiryIsWhole(rows: Rows, e: Entry)
    requires Legitimate(rows, e) && e.action.Expire?
    ensures Whole(rows, e)
  {
    forall id | id in e.touched ensures Selects(e.action, id, rows[id]) {
      assert id in Selected(e.action, rows);
    }
  }

  /** A recovery changes every row that it picks. */
  lemma {:induction false} RecoveryChanges(action: Action, id: Id, row: Row)
    requires action.IsRecovery() && Selects(action, id, row)
    ensures Effect(action, row) != row
  {
    RemainingMembers(row.objects, action);
    var o :| o in row.objects && Covers(action, o);
    var left := Remaining(row.objects, action);
    if left != [] {
      assert forall x :: x in SortObjects(left) ==> x in left by { SortMembers(left); }
    }
  }

  lemma {:induction false} SortMembers(objects: seq<Object>)
    ensures forall o :: o in SortObjects(objects) ==> o in objects
  {
    ObjectLessIsStrictTotal();
    SortUniqueSorts(ObjectLess, objects);
  }

  /** A committing operation that lost sight of no row, or that can change none, is whole. */
  lemma {:induction false} NothingMissedIsWhole(w: World, t: TxId)
    requires Inv(w) && Enabled(w, Commit(t)) && !w.txs[t].action.Problem? && !w.txs[t].action.Expire?
    requires Legitimate(w.rows, EntryOf(w.txs[t]))
    requires Recovers(w.txs[t].action) || Targets(w.txs[t].action) ==> w.txs[t].missed == {}
    ensures Whole(w.rows, EntryOf(w.txs[t]))
  {
    hide Effect, Selects, Fails, RowsValid, Refused, Updates;
    var tx := w.txs[t];
    assert TxValid(w.rows, tx);
    if Refused(tx.action) {
      RefusedIsWhole(w.rows, EntryOf(tx));
    } else {
      assert Selected(tx.action, w.rows) == tx.seen.Keys;
    }
  }

  /** An operation that is refused touches nothing, whatever it picks. */
  lemma {:induction false} RefusedIsWhole(rows: Rows, e: Entry)
    requires Legitimate(rows, e) && Refused(e.action)
    ensures e.touched == {} && Whole(rows, e)
  {
    hide Selects, Effect, Updates;
    assert forall id :: id in rows ==> Fails(e.action, rows[id]);
    UpdateNone(e.action, rows);
    if id :| id in Selected(e.action, rows) {
      assert Fails(e.action, rows[id]);
      assert Alone(e.action, rows) == rows;
    } else {
      assert Selected(e.action, rows) == {};
    }
    assert e.touched == {};
  }

  /** Only a problem that reports a covered object can bring a row under a recovery. */
  lemma {:induction false} MissedNeedsReport(w: World, t: TxId, action: Action, id: Id)
    requires Inv(w) && t in w.txs && Committable(w.txs[t]) && action.IsRecovery()
    requires id in Selected(action, After(w.rows, w.txs[t])) && id !in Selected(action, w.rows)
    ensures w.txs[t].action.Problem? && exists o :: Reports(w.txs[t].action.input, o) && Covers(action, o)
  {
    hide Fails, Covers, Reports, RowValid;
    var tx := w.txs[t];
    assert TxValid(w.rows, tx);
    var rows := After(w.rows, tx);
    var o :| o in rows[id].objects && Covers(action, o);
    if tx.phase.HoldsInsert? && tx.phase.id == id {
      InputObjectsAreReported(tx.action.input);
    } else {
      assert id in tx.written;
      var row := w.rows[id];
      EffectKeepsKey(tx.action, row);
      Lives.StepMembers(id, row, tx.action, o);
      assert o !in row.objects;
    }
  }

  /** Only the insertion of a row can bring it under an operation on its id. */
  lemma {:induction false} MissedNeedsInsert(w: World, t: TxId, action: Action, id: Id)
    requires Inv(w) && t in w.txs && Committable(w.txs[t]) && Targets(action)
    requires id in Selected(action, After(w.rows, w.txs[t])) && id !in Selected(action, w.rows)
    ensures w.txs[t].phase == HoldsInsert(id) && action.id == id && w.txs[t].action.Problem? && id !in w.rows
  {
    hide Fails, RowValid, Effect;
    var tx := w.txs[t];
    assert TxValid(w.rows, tx);
    if !(tx.phase.HoldsInsert? && tx.phase.id == id) && id in tx.written {
      EffectKeepsKey(tx.action, w.rows[id]);
    }
  }

  /** The first action may commit a row that the second should see and change. */
  ghost predicate Endangers(p: Action, a: Action) {
    p.Problem? && Recovers(a) && exists o :: Reports(p.input, o) && Covers(a, o)
  }

  /** No problem commits while a recovery of an object it reports is between its selection and its
      commit, nor inserts a row under an id that another operation has just looked up in vain. */
  ghost predicate Apart(w: World, s: Step) {
    s.Commit? && s.tx in w.txs && w.txs[s.tx].action.Problem? ==>
      forall u | u in w.txs && w.txs[u].phase.Picking? ::
        && !Endangers(w.txs[s.tx].action, w.txs[u].action)
        && !(Targets(w.txs[u].action) && w.txs[s.tx].phase == HoldsInsert(w.txs[u].action.id))
  }

  ghost predicate AllApart(w: World, steps: seq<Step>)
    requires Runs(w, steps)
  {
    steps != [] ==> AllApart(w, steps[..|steps| - 1]) && Apart(Reach(w, steps[..|steps| - 1]), steps[|steps| - 1])
  }

  ghost predicate NothingMissed(w: World) {
    forall t :: t in w.txs && (Recovers(w.txs[t].action) || Targets(w.txs[t].action)) ==> w.txs[t].missed == {}
  }

  /** A commit that keeps apart brings no row under a selection that is under way. */
  lemma {:induction false} ApartCommit(w: World, s: Step, t: TxId)
    requires Inv(w) && Enabled(w, s) && s.Commit? && Apart(w, s)
    requires t in w.txs && w.txs[t].phase.Picking? && (Recovers(w.txs[t].action) || Targets(w.txs[t].action))
    ensures Selected(w.txs[t].action, After(w.rows, w.txs[s.tx])) <= Selected(w.txs[t].action, w.rows)
  {
    hide RowsValid, TxValid, Exclusive, Effect, Fails, Selects, Reports, Covers, After;
    var action, rows := w.txs[t].action, After(w.rows, w.txs[s.tx]);
    forall id | id in Selected(action, rows) ensures id in Selected(action, w.rows) {
      if id !in Selected(action, w.rows) {
        if action.IsRecovery() {
          MissedNeedsReport(w, s.tx, action, id);
        } else {
          MissedNeedsInsert(w, s.tx, action, id);
        }
        assert false;
      }
    }
  }

  lemma {:induction false} ApartStep(w: World, s: Step)
    requires Inv(w) && Enabled(w, s) && Apart(w, s) && NothingMissed(w)
    ensures NothingMissed(Apply(w, s))
  {
    hide Inv, RowsValid, TxValid, Exclusive, Effect, Fails, Selects, Apart, After, Selected, Permits, Local;
    var w' := Apply(w, s);
    if s.Commit? {
      CommitLog(w, s.tx);
      forall t | t in w'.txs && (Recovers(w'.txs[t].action) || Targets(w'.txs[t].action)) ensures w'.txs[t].missed == {} {
        if t != s.tx && w.txs[t].phase.Picking? {
          ApartCommit(w, s, t);
        }
      }
    } else {
      LocalMissed(w, s);
    }
  }

  lemma {:induction false} LocalMissed(w: World, s: Step)
    requires Enabled(w, s) && !s.Commit?
    ensures Apply(w, s).txs.Keys == w.txs.Keys
    ensures forall t :: t in w.txs ==>
              Apply(w, s).txs[t].action == w.txs[t].action && Apply(w, s).txs[t].missed <= w.txs[t].missed
  {
    hide Effect, Selects, Fails, Locked, PendingKey, FreshId;
  }

  ghost predicate WholeLog(rows: Rows, log: seq<Entry>) {
    forall i :: 0 <= i < |log| ==> Whole(SerialRun(rows, log[..i]), log[i])
  }

  /** While problems keep apart from the selections they could disturb, the table is the result of
      running the repository's whole operations one after another, in commit order. */
  lemma {:induction false} FullySerialisable(w: World, steps: seq<Step>)
    requires Initial(w) && Runs(w, steps) && AllApart(w, steps)
    ensures Reach(w, steps).rows == SerialRun(w.rows, Reach(w, steps).log)
    ensures WholeLog(w.rows, Reach(w, steps).log) && NothingMissed(Reach(w, steps))
  {
    hide Inv, Enabled, Legitimate, Atomic, Whole, Apart, NothingMissed, LegitimateLog;
    SerialisedInCommitOrder(w, steps);
    if steps == [] {
      NothingMissedYet(w);
    } else {
      var before, s := steps[..|steps| - 1], steps[|steps| - 1];
      var v := Reach(w, before);
      FullySerialisable(w, before);
      AlwaysSafe(w, before);
      ApartStep(v, s);
      WholeStep(w.rows, v, s);
    }
  }

  lemma {:induction false} NothingMissedYet(w: World)
    requires Initial(w)
    ensures NothingMissed(w)
  {}

  lemma {:induction false} WholeStep(rows0: Rows, w: World, s: Step)
    requires Inv(w) && Enabled(w, s) && NothingMissed(w)
    requires w.rows == SerialRun(rows0, w.log) && WholeLog(rows0, w.log)
    ensures WholeLog(rows0, Apply(w, s).log)
  {
    hide Inv, Legitimate, Whole, Apply, Permits, Local, NothingMissed;
    if s.Commit? {
      CommitLog(w, s.tx);
      WholeCommit(w, s.tx);
      WholeLogSnoc(rows0, w.log, EntryOf(w.txs[s.tx]));
    } else {
      LocalStep(w, s);
    }
  }

  lemma {:induction false} WholeLogSnoc(rows0: Rows, log: seq<Entry>, e: Entry)
    requires WholeLog(rows0, log)
    ensures WholeLog(rows0, log + [e]) <==> Whole(SerialRun(rows0, log), e)
  {
    hide Whole, SerialRun;
    var all := log + [e];
    assert all[..|log|] == log && all[|log|] == e;
    forall i | 0 <= i < |log| ensures Whole(SerialRun(rows0, all[..i]), all[i]) {
      assert all[..i] == log[..i];
    }
  }

  lemma {:induction false} WholeCommit(w: World, t: TxId)
    requires Inv(w) && Enabled(w, Commit(t)) && NothingMissed(w)
    ensures Whole(w.rows, EntryOf(w.txs[t]))
  {
    hide Inv, Legitimate, Atomic, Selected;
    CommitRows(w, t);
    var e := EntryOf(w.txs[t]);
    if e.action.Problem? {
      ProblemIsWhole(w.rows, e);
    } else if e.action.Expire? {
      ExpiryIsWhole(w.rows, e);
    } else {
      NothingMissedIsWhole(w, t);
    }
  }

  // ---------------------------------------------------------------------------------------
  // Dispatches over all transactions
  // ---------------------------------------------------------------------------------------

  predicate Concerns(e: Entry, id: Id) {
    e.inserted == Some(id) || id in e.touched
  }

  /** How many committed transactions planned a dispatch for this incident. */
  function Planned(log: seq<Entry>, id: Id): nat {
    if log == [] then 0
    else Planned(log[..|log| - 1], id) + if log[|log| - 1].planned && Concerns(log[|log| - 1], id) then 1 else 0
  }

  /** All problems of one key carry the same threshold. */
  ghost predicate FixedRules(w: World) {
    forall t, u :: t in w.txs && u in w.txs && SameKey(w.txs[t].action, w.txs[u].action)
      ==> w.txs[t].action.input.threshold == w.txs[u].action.input.threshold
  }

  /** Stored thresholds are those of the rules. */
  ghost predicate StoredRules(w: World) {
    forall t, id :: t in w.txs && id in w.rows && w.txs[t].action.Problem?
                    && w.txs[t].action.input.rule == w.rows[id].rule && w.txs[t].action.input.group == w.rows[id].group
      ==> w.txs[t].action.input.threshold == w.rows[id].agg.window.threshold
  }

  ghost predicate DispatchInv(w: World) {
    && FixedRules(w) && StoredRules(w)
    && forall id :: Planned(w.log, id) == if id in w.rows && w.rows[id].agg.crossed then 1 else 0
  }

  /** Main theorem: however problems, recoveries, operator actions, expiries and notification
      records interleave, the committed transactions have planned exactly one dispatch for each
      incident whose marker is set and none for the others. */
  lemma {:induction false} OneDispatchPerIncident(w: World, steps: seq<Step>)
    requires Initial(w) && w.rows == map[] && FixedRules(w) && Runs(w, steps)
    ensures forall id :: Planned(Reach(w, steps).log, id)
                      == if id in Reach(w, steps).rows && Reach(w, steps).rows[id].agg.crossed then 1 else 0
    ensures DispatchInv(Reach(w, steps))
  {
    hide Inv, Enabled, Apply, FixedRules, StoredRules;
    if steps == [] {
      NoRowsStored(w);
    } else {
      var before, s := steps[..|steps| - 1], steps[|steps| - 1];
      OneDispatchPerIncident(w, before);
      AlwaysSafe(w, before);
      DispatchStep(Reach(w, before), s);
    }
  }

  lemma {:induction false} NoRowsStored(w: World)
    requires w.rows == map[]
    ensures StoredRules(w)
  {}

  lemma {:induction false} DispatchStep(w: World, s: Step)
    requires Inv(w) && Enabled(w, s) && DispatchInv(w)
    ensures DispatchInv(Apply(w, s))
  {
    hide Inv, RowsValid, Permits, Local, Notice, After;
    SameActions(w, s);
    if s.Commit? {
      CommitLog(w, s.tx);
      DispatchCommit(w, s.tx);
    } else {
      LocalStep(w, s);
    }
  }

  lemma {:induction false} SameActions(w: World, s: Step)
    requires Enabled(w, s)
    ensures Apply(w, s).txs.Keys == w.txs.Keys
    ensures forall t :: t in w.txs ==> Apply(w, s).txs[t].action == w.txs[t].action
  {
    hide Selects, Effect, Fails, Locked, PendingKey, FreshId, After;
  }

  lemma {:induction false} DispatchCommit(w: World, t: TxId)
    requires Inv(w) && t in w.txs && Committable(w.txs[t]) && DispatchInv(w)
    ensures var rows, e := After(w.rows, w.txs[t]), EntryOf(w.txs[t]);
            && StoredRules(World(rows, w.txs, []))
            && (forall id :: Planned(w.log + [e], id) == if id in rows && rows[id].agg.crossed then 1 else 0)
  {
    hide RowsValid, Exclusive, Effect, Selects, Fails, PlansDispatch, After, Committable;
    var rows, e := After(w.rows, w.txs[t]), EntryOf(w.txs[t]);
    assert (w.log + [e])[..|w.log + [e]| - 1] == w.log;
    forall id
      ensures (id in rows && rows[id].agg.crossed) <==>
              (id in w.rows && w.rows[id].agg.crossed) || (e.planned && Concerns(e, id))
      ensures !(id in w.rows && w.rows[id].agg.crossed && e.planned && Concerns(e, id))
    {
      DispatchOf(w, t, id);
    }
    forall u, id | u in w.txs && id in rows && w.txs[u].action.Problem?
                   && w.txs[u].action.input.rule == rows[id].rule && w.txs[u].action.input.group == rows[id].group
      ensures w.txs[u].action.input.threshold == rows[id].agg.window.threshold
    {
      ThresholdOf(w, t, id);
    }
  }

  /** What a committing transaction leaves in one row. */
  lemma {:induction false} CommittedRow(w: World, t: TxId, id: Id)
    requires Inv(w) && t in w.txs && Committable(w.txs[t])
    ensures var tx, rows := w.txs[t], After(w.rows, w.txs[t]);
            if tx.phase.HoldsInsert? && id == tx.phase.id then
              tx.action.Problem? && id !in w.rows && id in rows
              && rows[id] == Finished(InsertedRow(tx.action.input), tx.action.input)
              && tx.written == map[]
            else
              && (id in rows <==> id in w.rows)
              && (id in w.rows ==> rows[id] == if id in tx.written then Effect(tx.action, w.rows[id]) else w.rows[id])
              && (id in tx.written ==> id in w.rows && !tx.phase.HoldsInsert? && Selects(tx.action, id, w.rows[id]))
  {
    hide RowsValid, Exclusive, Effect, Selects, Fails;
    assert TxValid(w.rows, w.txs[t]);
  }

  /** The dispatch decision of a committing problem transaction is that of its one row. */
  lemma {:induction false} PlanOf(w: World, t: TxId)
    requires Inv(w) && t in w.txs && Committable(w.txs[t]) && w.txs[t].action.Problem? && !w.txs[t].phase.HoldsInsert?
    ensures exists id :: w.txs[t].written.Keys == {id} && id in w.rows && Selects(w.txs[t].action, id, w.rows[id])
                         && (PlansDispatch(w.txs[t]) <==>
                             PushOutcome(w.rows[id].agg, w.txs[t].action.input.Occurrence()).Planned())
  {
    hide RowValid, Exclusive, Effect, Selects, Fails, PushOutcome;
    var tx := w.txs[t];
    assert TxValid(w.rows, tx);
    var id :| id in tx.seen;
    assert id in Selected(tx.action, w.rows);
    ProblemSelectsOne(tx.action.input, id, w.rows);
    forall other | other in tx.seen ensures other == id {
      assert other in Selected(tx.action, w.rows);
    }
    assert tx.written.Keys == {id};
  }

  lemma {:induction false} DispatchOf(w: World, t: TxId, id: Id)
    requires Inv(w) && t in w.txs && Committable(w.txs[t]) && DispatchInv(w)
    ensures var rows, e := After(w.rows, w.txs[t]), EntryOf(w.txs[t]);
            && ((id in rows && rows[id].agg.crossed) <==>
                 (id in w.rows && w.rows[id].agg.crossed) || (e.planned && Concerns(e, id)))
            && !(id in w.rows && w.rows[id].agg.crossed && e.planned && Concerns(e, id))
  {
    hide RowValid, Exclusive, Effect, Fails, After, PushOutcome, Push, StartOutcome, Start, InsertedRow;
    var tx := w.txs[t];
    CommittedRow(w, t, id);
    if tx.phase.HoldsInsert? {
      InsertedDispatch(tx.action.input);
    } else if id in tx.written {
      var row := w.rows[id];
      Lives.EffectAgg(row, tx.action);
      if tx.action.Problem? {
        PlanOf(w, t);
        Lives.SelectedKey(id, row, tx.action);
        assert RowValid(row) && TxValid(w.rows, tx);
        Lives.ProblemDispatch(id, row, tx.action);
      }
    }
  }

  lemma {:induction false} InsertedDispatch(input: Input)
    ensures Finished(InsertedRow(input), input).agg == Start(input.Occurrence())
    ensures StartOutcome(input.Occurrence()).Planned() == Start(input.Occurrence()).crossed
    ensures Start(input.Occurrence()).window.threshold == input.threshold
    ensures InsertedRow(input).rule == input.rule && InsertedRow(input).group == input.group
  {}

  lemma {:induction false} ThresholdOf(w: World, t: TxId, id: Id)
    requires Inv(w) && t in w.txs && Committable(w.txs[t]) && DispatchInv(w)
    requires id in After(w.rows, w.txs[t])
    ensures forall u :: u in w.txs && w.txs[u].action.Problem?
                        && w.txs[u].action.input.rule == After(w.rows, w.txs[t])[id].rule
                        && w.txs[u].action.input.group == After(w.rows, w.txs[t])[id].group
              ==> w.txs[u].action.input.threshold == After(w.rows, w.txs[t])[id].agg.window.threshold
  {
    hide RowValid, Exclusive, Effect, Fails, After, Push, Start, InsertedRow, Planned;
    var tx := w.txs[t];
    CommittedRow(w, t, id);
    if tx.phase.HoldsInsert? && id == tx.phase.id {
      InsertedDispatch(tx.action.input);
    } else if id in tx.written {
      Lives.EffectAgg(w.rows[id], tx.action);
      EffectKeepsKey(tx.action, w.rows[id]);
      if tx.action.Problem? { Lives.SelectedKey(id, w.rows[id], tx.action); }
    }
  }
}
