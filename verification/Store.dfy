/** The incident repository as an object: a table of rows that its methods change in place. */
module Store {
  import opened Order
  import opened Windows
  import opened Crossings
  import opened Incidents

  datatype WriteEffect = Inserted | Updated

  datatype ProblemWrite = ProblemWrite(id: Id, effect: WriteEffect, outcome: Outcome, count: nat)

  datatype NoDispatchReason = BelowThreshold | ReplayReason | AlreadyNotified

  datatype ProblemResult = ProblemResult(write: ProblemWrite, reason: Option<NoDispatchReason>)

  datatype LifecycleEffect = AffectedSetShrunk | ResolvedEffect | Noop | Acknowledged | ClosedEffect

  datatype LifecycleWrite = LifecycleWrite(
    id: Id, effect: LifecycleEffect, previousHosts: nat, previousServices: nat, removed: bool)

  function NoDispatch(o: Outcome): (r: Option<NoDispatchReason>)
    ensures r.None? <==> o.Planned()
    ensures r == Some(ReplayReason) <==> o.replay
    ensures r == Some(AlreadyNotified) <==> !o.replay && !o.first && o.crossed
  {
    if o.replay then Some(ReplayReason)
    else if o.first then None
    else if o.crossed then Some(AlreadyNotified)
    else Some(BelowThreshold)
  }

  /** What each reason tells about the marker, for a row whose threshold is not lowered. */
  lemma {:induction false} ReasonTellsMarker(a: Aggregate, o: Occurrence)
    requires Sound(a) && o.Valid() && o.threshold >= a.window.threshold
    ensures var reason, replay := NoDispatch(PushOutcome(a, o)), Replay(a.lastUpdate, a.window.stamps, o);
            && (reason == None <==> !a.crossed && Push(a, o).crossed)
            && (reason == Some(ReplayReason) <==> replay)
            && (reason == Some(AlreadyNotified) <==> !replay && a.crossed)
            && (reason == Some(BelowThreshold) <==> !replay && !Push(a, o).crossed)
  {
    ReplayNeverFirst(a, o);
  }

  /** What an outcome says, told from the aggregation columns before, if there was a row, and after. */
  ghost predicate Tells(outcome: Outcome, before: Option<Aggregate>, after: Aggregate, o: Occurrence) {
    && outcome.crossed == after.crossed
    && (outcome.windowCrossed <==> after.window.counted >= o.threshold)
    && (outcome.first <==> after.crossed && (before.None? || !before.value.crossed))
    && (outcome.counted <==> outcome.inside && !outcome.replay)
    && if before.None? then outcome.inside && !outcome.replay && after.crossed == (o.threshold <= 1)
       else
         var a := before.value;
         var end := if a.lastUpdate < o.time then o.time else a.lastUpdate;
         var start := end - o.seconds * 1_000_000;
         && (outcome.inside <==> start <= o.time <= end)
         && (outcome.replay <==>
               o.fingerprint in a.window.stamps && start <= a.window.stamps[o.fingerprint] <= end)
         && after.crossed == (a.crossed || after.window.counted >= o.threshold)
  }

  lemma {:induction false} OutcomesTell(a: Aggregate, o: Occurrence)
    requires o.Valid()
    ensures Tells(StartOutcome(o), None, Start(o), o)
    ensures Tells(PushOutcome(a, o), Some(a), Push(a, o), o)
  {
    hide Retained;
  }

  /** The reasons in terms of the flags; a new incident dispatches exactly at a threshold of one. */
  lemma {:induction false} ReasonsTell(outcome: Outcome, before: Option<Aggregate>, after: Aggregate, o: Occurrence)
    requires Tells(outcome, before, after, o) && o.Valid()
    ensures var r := NoDispatch(outcome);
            && (r == Some(ReplayReason) <==> outcome.replay)
            && (r == None <==> !outcome.replay && outcome.first)
            && (r == Some(AlreadyNotified) <==> !outcome.replay && !outcome.first && outcome.crossed)
            && (r == Some(BelowThreshold) <==> !outcome.replay && !outcome.crossed)
            && (before.None? ==> r == if o.threshold == 1 then None else Some(BelowThreshold))
  {}

  // ---------------------------------------------------------------------------------------
  // Tables
  // ---------------------------------------------------------------------------------------

  type Rows = map<Id, Row>

  predicate SameOpenKey(a: Row, b: Row) {
    a.status.Open? && b.status.Open? && a.rule == b.rule && a.group == b.group
  }

  /** The partial unique index: one OPEN row per rule and group. */
  ghost predicate UniqueOpen(rows: Rows) {
    forall a, b :: a in rows && b in rows && SameOpenKey(rows[a], rows[b]) ==> a == b
  }

  ghost predicate RowsValid(rows: Rows) {
    UniqueOpen(rows) && forall id :: id in rows ==> RowValid(rows[id])
  }

  function Selected(action: Action, rows: Rows): set<Id> {
    set id | id in rows && Selects(action, id, rows[id])
  }

  /** The table after an operation has updated the rows in `ids`. */
  function Updates(action: Action, ids: set<Id>, rows: Rows): Rows {
    map id | id in rows :: if id in ids then Effect(action, rows[id]) else rows[id]
  }

  predicate Succeeds(action: Action, rows: Rows) {
    forall id :: id in Selected(action, rows) ==> !Fails(action, rows[id])
  }

  /** The table after an operation that has all the rows it picks: each of them updated, or nothing
      changed when the operation raises on one. */
  function Alone(action: Action, rows: Rows): Rows {
    if Succeeds(action, rows) then Updates(action, Selected(action, rows), rows) else rows
  }

  /** A recovery or operator action succeeds by its texts. */
  lemma {:induction false} SucceedsIff(action: Action, rows: Rows)
    requires action.IsRecovery() || action.Acknowledge? || action.Close?
    ensures Succeeds(action, rows) <==> Selected(action, rows) == {} || !Refused(action)
  {
    hide Fails, Refused, Selects;
    forall id | id in Selected(action, rows) ensures Fails(action, rows[id]) <==> Refused(action) { FailsIff(action, rows[id]); }
    if Selected(action, rows) != {} { var id :| id in Selected(action, rows); }
  }

  /** The table after a problem: its one OPEN row updated, or a row inserted at `newId`. */
  function AfterProblem(input: Input, newId: Id, rows: Rows): Rows {
    var ids := Selected(Problem(input), rows);
    if ids == {} then rows[newId := Finished(InsertedRow(input), input)] else Updates(Problem(input), ids, rows)
  }

  lemma {:induction false} UpdatesKeepValid(action: Action, ids: set<Id>, rows: Rows)
    requires RowsValid(rows) && ActionValid(action)
    requires forall id :: id in ids ==> id in rows && Selects(action, id, rows[id]) && !Fails(action, rows[id])
    ensures RowsValid(Updates(action, ids, rows))
  {
    hide RowValid, Effect, Selects, Fails;
    forall id | id in rows
      ensures RowValid(Updates(action, ids, rows)[id])
      ensures Updates(action, ids, rows)[id].status.Open? ==> rows[id].status.Open?
      ensures Updates(action, ids, rows)[id].rule == rows[id].rule && Updates(action, ids, rows)[id].group == rows[id].group
    {
      if id in ids {
        EffectKeepsValid(action, id, rows[id]);
        EffectKeepsKey(action, rows[id]);
      }
    }
  }

  lemma {:induction false} InsertedKey(input: Input)
    ensures InsertedRow(input).rule == input.rule && InsertedRow(input).group == input.group
    ensures Finished(InsertedRow(input), input).rule == input.rule && Finished(InsertedRow(input), input).group == input.group
  {}

  lemma {:induction false} InsertKeepsRowsValid(input: Input, newId: Id, rows: Rows)
    requires RowsValid(rows) && input.Valid() && newId !in rows && Selected(Problem(input), rows) == {}
    ensures RowsValid(rows[newId := InsertedRow(input)])
    ensures RowsValid(rows[newId := Finished(InsertedRow(input), input)])
  {
    hide RowValid, InsertedRow, Finished;
    InsertKeepsValid(input);
    InsertedKey(input);
    forall id | id in rows && rows[id].rule == input.rule && rows[id].group == input.group
      ensures !rows[id].status.Open?
    {
      assert id !in Selected(Problem(input), rows);
    }
  }

  lemma {:induction false} SelectedIsOpen(input: Input, id: Id, rows: Rows)
    requires id in Selected(Problem(input), rows)
    ensures id in rows && rows[id].status.Open?
  {}

  /** The unique index makes the selection of a problem at most one row. */
  lemma {:induction false} ProblemSelectsOne(input: Input, id: Id, rows: Rows)
    requires UniqueOpen(rows) && id in Selected(Problem(input), rows)
    ensures Selected(Problem(input), rows) == {id}
  {}

  function HostCount(objects: seq<Object>): nat {
    |Dedup(HostsIn(objects))|
  }

  function ServiceCount(objects: seq<Object>): nat {
    |Dedup(ServicesIn(objects))|
  }

  /** What a recovery reports about a row it changed. */
  function RecoveryWrite(action: Action, id: Id, row: Row): LifecycleWrite
    requires action.IsRecovery()
  {
    LifecycleWrite(id, if Remaining(row.objects, action) == [] then ResolvedEffect else AffectedSetShrunk,
                   HostCount(row.objects), ServiceCount(row.objects), true)
  }

  /** What an operator action reports about the row it was asked to change. */
  function OperatorWrite(id: Id, row: Row, effect: LifecycleEffect): LifecycleWrite {
    LifecycleWrite(id, if row.status.Open? then effect else Noop, HostCount(row.objects), ServiceCount(row.objects), false)
  }

  lemma {:induction false} HostsInMembers(objects: seq<Object>)
    ensures forall t: Text :: t in HostsIn(objects) <==> exists o :: o in objects && o.host == t
  {
    forall t | exists o :: o in objects && o.host == t ensures t in HostsIn(objects) {
      var o :| o in objects && o.host == t;
      var i :| 0 <= i < |objects| && objects[i] == o;
      assert HostsIn(objects)[i] == t;
    }
    forall t | t in HostsIn(objects) ensures exists o :: o in objects && o.host == t {
      var i :| 0 <= i < |objects| && HostsIn(objects)[i] == t;
      assert objects[i] in objects;
    }
  }

  function HostSet(objects: seq<Object>): set<Text> {
    set o | o in objects :: o.host
  }

  lemma {:induction false} HostCountIsDistinct(objects: seq<Object>)
    ensures HostCount(objects) == |HostSet(objects)|
  {
    HostsInMembers(objects);
    DedupDistinct(HostsIn(objects));
    DistinctCount(Dedup(HostsIn(objects)));
    assert (set t | t in Dedup(HostsIn(objects))) == HostSet(objects);
  }

  function ServiceSet(objects: seq<Object>): set<Text> {
    set o | o in objects && o.service.Some? :: o.service.value
  }

  lemma {:induction false} ServicesInMembers(objects: seq<Object>)
    ensures forall t: Text :: t in ServicesIn(objects) <==> exists o :: o in objects && o.service.Some? && o.service.value == t
  {
    if objects != [] {
      ServicesInMembers(objects[1..]);
      assert objects == [objects[0]] + objects[1..];
      assert forall o :: o in objects <==> o == objects[0] || o in objects[1..];
    }
  }

  lemma {:induction false} ServiceCountIsDistinct(objects: seq<Object>)
    ensures ServiceCount(objects) == |ServiceSet(objects)|
  {
    hide ServicesIn;
    ServicesInMembers(objects);
    DedupDistinct(ServicesIn(objects));
    DistinctCount(Dedup(ServicesIn(objects)));
    assert (set t | t in Dedup(ServicesIn(objects))) == ServiceSet(objects);
  }

  /** A write result gives the id and the numbers of distinct hosts and services the row had. */
  ghost predicate CountsBefore(w: LifecycleWrite, id: Id, row: Row) {
    w.id == id && w.previousHosts == |HostSet(row.objects)| && w.previousServices == |ServiceSet(row.objects)|
  }

  lemma {:induction false} WritesTell(action: Action, id: Id, row: Row, effect: LifecycleEffect)
    ensures CountsBefore(OperatorWrite(id, row, effect), id, row) && !OperatorWrite(id, row, effect).removed
    ensures OperatorWrite(id, row, effect).effect == if row.status.Open? then effect else Noop
    ensures action.IsRecovery() ==>
              var w := RecoveryWrite(action, id, row);
              && CountsBefore(w, id, row) && w.removed
              && w.effect == if forall o :: o in row.objects ==> Named(action, o) then ResolvedEffect else AffectedSetShrunk
  {
    hide HostCount, ServiceCount, HostSet, ServiceSet;
    HostCountIsDistinct(row.objects);
    ServiceCountIsDistinct(row.objects);
    if action.IsRecovery() {
      RemainingMembers(row.objects, action);
      var left := Remaining(row.objects, action);
      if left != [] { assert left[0] in left; }
      assert forall o :: Named(action, o) <==> Covers(action, o);
    }
  }

  /** The recovery names this object, or the host of it. */
  predicate Named(action: Action, o: Object)
    requires action.IsRecovery()
  {
    o.host == action.host && (action.ServiceRecovery? ==> o.service == Some(action.service))
  }

  /** What a recovery does to one row, in terms of its objects. */
  ghost predicate Relieved(action: Action, row: Row, after: Row)
    requires action.IsRecovery()
  {
    && (forall o :: o in after.objects <==> o in row.objects && !(row.status.Open? && Named(action, o)))
    && after.status == (if row.status.Open? && forall o :: o in row.objects ==> Named(action, o) then Resolved else row.status)
    && after.resolvedAt == (if after.status == row.status then row.resolvedAt else Some(action.now))
    && after.agg == row.agg && after.eventCount == row.eventCount && after.severity == row.severity
    && after.startTime == row.startTime && after.closedAt == row.closedAt
  }

  lemma {:induction false} RowRelieved(action: Action, id: Id, row: Row)
    requires action.IsRecovery() && RowValid(row)
    ensures Selects(action, id, row) ==> Relieved(action, row, Effect(action, row))
    ensures !Selects(action, id, row) ==> Relieved(action, row, row)
  {
    hide Remaining, SortObjects, AffectedHosts, AffectedServices, LifecycleContext, WindowValid, RecordsValid;
    assert forall o :: Named(action, o) <==> Covers(action, o);
    if Selects(action, id, row) {
      RecoveryMembersOf(row, action);
    } else if row.status.Open? {
      assert row.objects[0] in row.objects;
    }
  }

  lemma {:induction false} RecoveryMembersOf(row: Row, action: Action)
    requires action.IsRecovery() && RowValid(row) && row.status.Open?
    ensures forall o :: o in RecoveredRow(row, action).objects <==> o in row.objects && !Covers(action, o)
    ensures RecoveredRow(row, action).status ==
            if forall o :: o in row.objects ==> Covers(action, o) then Resolved else Open
    ensures RecoveredRow(row, action).resolvedAt ==
            if forall o :: o in row.objects ==> Covers(action, o) then Some(action.now) else row.resolvedAt
  {
    hide RowValid, Covers, Remaining, SortObjects, AffectedHosts, AffectedServices, LifecycleContext;
    RecoveryKeepsValid(row, action);
    RemainingMembers(row.objects, action);
    var left := Remaining(row.objects, action);
    if left != [] { assert left[0] in left; }
  }

  /** What a whole recovery does to the table. */
  ghost predicate TableRelieved(action: Action, rows: Rows, after: Rows)
    requires action.IsRecovery()
  {
    after.Keys == rows.Keys && forall id :: id in rows ==> Relieved(action, rows[id], after[id])
  }

  lemma {:induction false} RecoveryRelieves(action: Action, rows: Rows)
    requires action.IsRecovery() && RowsValid(rows) && Succeeds(action, rows)
    ensures TableRelieved(action, rows, Alone(action, rows))
  {
    hide Relieved, Selects, Effect, RowValid, Succeeds;
    forall id | id in rows ensures Relieved(action, rows[id], Alone(action, rows)[id]) {
      RowRelieved(action, id, rows[id]);
    }
  }

  lemma {:induction false} HostRemoved(action: Action, row: Row)
    requires action.HostRecovery? && exists o :: o in row.objects && Covers(action, o)
    ensures HostCount(Remaining(row.objects, action)) == HostCount(row.objects) - 1
  {
    hide HostCount, Remaining;
    var left := Remaining(row.objects, action);
    RemainingMembers(row.objects, action);
    HostCountIsDistinct(row.objects);
    HostCountIsDistinct(left);
    assert HostSet(left) == HostSet(row.objects) - {action.host};
    assert action.host in HostSet(row.objects);
  }

  lemma {:induction false} ObjectRemoved(action: Action, row: Row)
    requires action.ServiceRecovery? && SortedBy(ObjectLess, row.objects) && exists o :: o in row.objects && Covers(action, o)
    ensures |Remaining(row.objects, action)| == |row.objects| - 1
  {
    hide Remaining;
    var left := Remaining(row.objects, action);
    RemainingMembers(row.objects, action);
    ObjectLessIsStrictTotal();
    assert Distinct(row.objects) && Distinct(left);
    hide ObjectLess;
    DistinctCount(row.objects);
    DistinctCount(left);
    assert (set o | o in left) == (set o | o in row.objects) - {Object(action.host, Some(action.service))};
  }

  /** A recovery takes exactly what it names from each row it picks: a host recovery one host with
      all its objects, a service recovery one object. */
  lemma {:induction false} RecoveryRemovesOne(action: Action, id: Id, row: Row)
    requires action.IsRecovery() && Selects(action, id, row) && SortedBy(ObjectLess, row.objects)
    ensures action.HostRecovery? ==> HostCount(Remaining(row.objects, action)) == HostCount(row.objects) - 1
    ensures action.ServiceRecovery? ==> |Remaining(row.objects, action)| == |row.objects| - 1
  {
    if action.HostRecovery? { HostRemoved(action, row); } else { ObjectRemoved(action, row); }
  }

  datatype LifecycleResult = LifecycleResult(
    ids: seq<Id>, effect: LifecycleEffect, previousHosts: nat, previousServices: nat, removed: bool)

  function SumHosts(writes: seq<LifecycleWrite>): nat {
    if writes == [] then 0 else writes[0].previousHosts + SumHosts(writes[1..])
  }

  function SumServices(writes: seq<LifecycleWrite>): nat {
    if writes == [] then 0 else writes[0].previousServices + SumServices(writes[1..])
  }

  /** One result for a recovery that may have changed several incidents. */
  function ResultFromWrites(writes: seq<LifecycleWrite>): LifecycleResult {
    if writes == [] then LifecycleResult([], Noop, 0, 0, false)
    else LifecycleResult(
      seq(|writes|, i requires 0 <= i < |writes| => writes[i].id),
      if exists w :: w in writes && w.effect == ResolvedEffect then ResolvedEffect
      else if exists w :: w in writes && w.effect == AffectedSetShrunk then AffectedSetShrunk
      else writes[0].effect,
      SumHosts(writes), SumServices(writes), exists w :: w in writes && w.removed)
  }

  lemma {:induction false} ResultIds(writes: seq<LifecycleWrite>)
    ensures forall id :: id in ResultFromWrites(writes).ids <==> exists w :: w in writes && w.id == id
  {
    var r := ResultFromWrites(writes);
    forall id | exists w :: w in writes && w.id == id ensures id in r.ids {
      var w :| w in writes && w.id == id;
      var i :| 0 <= i < |writes| && writes[i] == w;
      assert r.ids[i] == id;
    }
    forall id | id in r.ids ensures exists w :: w in writes && w.id == id {
      var i :| 0 <= i < |r.ids| && r.ids[i] == id;
      assert writes[i] in writes;
    }
  }

  lemma {:induction false} ResultEffect(writes: seq<LifecycleWrite>)
    requires forall w :: w in writes ==> w.removed && (w.effect == ResolvedEffect || w.effect == AffectedSetShrunk)
    ensures var r := ResultFromWrites(writes);
            && (r.effect == ResolvedEffect <==> exists w :: w in writes && w.effect == ResolvedEffect)
            && (r.effect == Noop <==> writes == []) && (r.removed <==> writes != [])
  {
    hide SumHosts, SumServices;
    if writes != [] { assert writes[0] in writes; }
  }

  lemma {:induction false} SumsAdd(a: seq<LifecycleWrite>, b: seq<LifecycleWrite>)
    ensures SumHosts(a + b) == SumHosts(a) + SumHosts(b) && SumServices(a + b) == SumServices(a) + SumServices(b)
  {
    if a == [] {
      assert a + b == b;
    } else {
      SumsAdd(a[1..], b);
      assert (a + b)[1..] == a[1..] + b;
    }
  }

  /** The combined result lists the incidents in order, adds up the previous counts, and for one
      incident is its own result. */
  lemma {:induction false} ResultAdds(a: seq<LifecycleWrite>, b: seq<LifecycleWrite>)
    ensures var x, y, all := ResultFromWrites(a), ResultFromWrites(b), ResultFromWrites(a + b);
            && all.ids == x.ids + y.ids
            && all.previousHosts == x.previousHosts + y.previousHosts
            && all.previousServices == x.previousServices + y.previousServices
    ensures |a| == 1 ==>
              var x := ResultFromWrites(a);
              x.ids == [a[0].id] && x.previousHosts == a[0].previousHosts && x.previousServices == a[0].previousServices
  {
    SumsAdd(a, b);
    if |a| == 1 { assert a[1..] == []; }
  }

  /** A recovery changes exactly the rows it picks. */
  lemma {:induction false} RecoveryOnTable(action: Action, rows: Rows)
    requires RowsValid(rows) && action.IsRecovery()
    ensures var after := Updates(action, Selected(action, rows), rows);
            && after.Keys == rows.Keys && Selected(action, rows) <= rows.Keys
            && forall id :: id in rows ==>
                 && (after[id] != rows[id] <==> id in Selected(action, rows))
                 && (id in Selected(action, rows) ==>
                       rows[id].status.Open?
                       && (after[id].status.Resolved? <==> RecoveryWrite(action, id, rows[id]).effect == ResolvedEffect))
                 && (id !in Selected(action, rows) ==> after[id] == rows[id])
  {
    hide Effect, Selects, RowValid, HostCount, ServiceCount, Remaining;
    forall id | id in Selected(action, rows)
      ensures Effect(action, rows[id]) != rows[id] && rows[id].status.Open?
      ensures Effect(action, rows[id]).status.Resolved? <==> RecoveryWrite(action, id, rows[id]).effect == ResolvedEffect
    {
      RecoveredRowDiffers(action, id, rows[id]);
    }
  }

  /** The aggregate tells what happened to the table: some incident was resolved, or only shrunk,
      or nothing was touched. */
  lemma {:induction false} AggregateTellsOutcome(action: Action, rows: Rows, writes: seq<LifecycleWrite>)
    requires RowsValid(rows) && action.IsRecovery()
    requires WritesFor(action, writes, Selected(action, rows), rows)
    ensures var after, r := Updates(action, Selected(action, rows), rows), ResultFromWrites(writes);
            && (r.effect == ResolvedEffect <==> exists id :: id in rows && rows[id].status.Open? && after[id].status.Resolved?)
            && (r.effect == Noop <==> after == rows)
            && (r.removed <==> after != rows)
            && (forall id :: id in r.ids <==> id in rows && after[id] != rows[id])
  {
    hide *;
    RecoveryOnTable(action, rows);
    WritesOf(action, rows, writes);
    ResultIds(writes);
    ResultEffect(writes);
    var after := Updates(action, Selected(action, rows), rows);
    if Selected(action, rows) == {} {
      assert after == rows;
    } else {
      var id :| id in Selected(action, rows);
      assert after[id] != rows[id];
    }
  }

  /** The writes are those of the selected rows, one for each. */
  lemma {:induction false} WritesOf(action: Action, rows: Rows, writes: seq<LifecycleWrite>)
    requires action.IsRecovery()
    requires WritesFor(action, writes, Selected(action, rows), rows)
    ensures forall w :: w in writes ==> w.removed && (w.effect == ResolvedEffect || w.effect == AffectedSetShrunk)
    ensures forall id :: id in Selected(action, rows) <==> exists w :: w in writes && w.id == id
    ensures (exists w :: w in writes && w.effect == ResolvedEffect) <==>
            exists id :: id in Selected(action, rows) && RecoveryWrite(action, id, rows[id]).effect == ResolvedEffect
    ensures writes == [] <==> Selected(action, rows) == {}
  {
    hide Selects, HostCount, ServiceCount, Remaining;
    forall id | id in Selected(action, rows) ensures RecoveryWrite(action, id, rows[id]) in writes {
      assert RecoveryWrite(action, id, rows[id]).id == id;
    }
    if writes != [] { assert writes[0] in writes; }
  }

  lemma {:induction false} RecoveredRowDiffers(action: Action, id: Id, row: Row)
    requires action.IsRecovery() && Selects(action, id, row) && RowValid(row)
    ensures Effect(action, row) != row && row.status.Open?
    ensures Effect(action, row).status.Resolved? <==> Remaining(row.objects, action) == []
  {
    RemainingMembers(row.objects, action);
    RecoveryKeepsValid(row, action);
    var o :| o in row.objects && Covers(action, o);
    assert o !in Effect(action, row).objects;
  }

  /** The row an update statement writes, from the computed window. */
  function Composed(row: Row, input: Input, state: WindowState, counted: bool, crossed: bool): Row {
    var objects := SortObjects(row.objects + InputObjects(input));
    row.(eventCount := row.eventCount + (if counted then 1 else 0),
         severity := MaxSeverity(row.severity, input.severity),
         summary := if counted then input.summary else row.summary,
         objects := objects, hosts := AffectedHosts(objects), services := AffectedServices(objects),
         context := PreserveRecords(row.context, PreliminaryContext(input)),
         agg := Aggregate(Max(row.agg.lastUpdate, input.time), state, crossed))
  }

  lemma {:induction false} ComposedIsUpdate(row: Row, input: Input)
    ensures var o := input.Occurrence();
            var state := NextWindow(row.agg.lastUpdate, row.agg.window.stamps, o);
            var counted := Inside(row.agg.lastUpdate, o) && !Replay(row.agg.lastUpdate, row.agg.window.stamps, o);
            var crossed := row.agg.crossed || state.counted >= state.threshold;
            && Composed(row, input, state, counted, crossed) == UpdatedRow(row, input)
            && UpdatedRow(row, input).agg.window == state
            && PushOutcome(row.agg, o) == Outcome(Replay(row.agg.lastUpdate, row.agg.window.stamps, o),
                                                  Inside(row.agg.lastUpdate, o), counted,
                                                  state.counted >= state.threshold, crossed, !row.agg.crossed && crossed)
  {
    hide NextWindow, SortObjects, AffectedHosts, AffectedServices, Inside, Replay;
  }

  /** The aggregation columns that a problem writes, and what the flags say about them. */
  lemma {:induction false} WrittenTells(row: Row, input: Input)
    requires input.Valid()
    ensures InsertedRow(input).agg.window.counted == 1
    ensures Tells(StartOutcome(input.Occurrence()), None, InsertedRow(input).agg, input.Occurrence())
    ensures Tells(PushOutcome(row.agg, input.Occurrence()), Some(row.agg), UpdatedRow(row, input).agg, input.Occurrence())
  {
    hide Tells, PushOutcome, StartOutcome, Push;
    OutcomesTell(row.agg, input.Occurrence());
  }

  lemma {:induction false} UpdateKeepsRowsValid(rows: Rows, id: Id, input: Input)
    requires RowsValid(rows) && input.Valid() && id in rows && rows[id].status.Open?
    ensures RowsValid(rows[id := UpdatedRow(rows[id], input)])
    ensures RowsValid(rows[id := Finished(UpdatedRow(rows[id], input), input)])
  {
    UpdateKeepsValid(rows[id], input);
    ReplaceKeepsValid(rows, id, UpdatedRow(rows[id], input));
    ReplaceKeepsValid(rows, id, Finished(UpdatedRow(rows[id], input), input));
  }

  /** What one recovered row becomes and what is reported about it. */
  lemma {:induction false} RecoveredIsEffect(action: Action, row: Row)
    requires action.IsRecovery()
    ensures Effect(action, row) == RecoveredRow(row, action)
  {}

  lemma {:induction false} RecoveryKeepsRows(action: Action, rows: Rows)
    requires RowsValid(rows) && action.IsRecovery() && Succeeds(action, rows)
    ensures RowsValid(Updates(action, Selected(action, rows), rows))
  {
    hide RowsValid, Fails, Updates, Selects;
    UpdatesKeepValid(action, Selected(action, rows), rows);
  }

  /** One write for each of the rows in `ids`, and no other. */
  ghost predicate WritesFor(action: Action, writes: seq<LifecycleWrite>, ids: set<Id>, rows: Rows)
    requires action.IsRecovery() && ids <= rows.Keys
  {
    (forall w :: w in writes <==> w.id in ids && w == RecoveryWrite(action, w.id, rows[w.id])) && |writes| == |ids|
  }

  lemma {:induction false} NoWrites(action: Action, rows: Rows)
    requires action.IsRecovery()
    ensures WritesFor(action, [], {}, rows)
  {}

  lemma {:induction false} WritesSnoc(action: Action, writes: seq<LifecycleWrite>, ids: set<Id>, rows: Rows, id: Id)
    requires action.IsRecovery() && ids <= rows.Keys && id in rows && id !in ids && WritesFor(action, writes, ids, rows)
    ensures WritesFor(action, writes + [RecoveryWrite(action, id, rows[id])], ids + {id}, rows)
  {
    hide Remaining, HostCount, ServiceCount;
    var write := RecoveryWrite(action, id, rows[id]);
    assert forall w :: w in writes + [write] <==> w in writes || w == write;
  }

  lemma {:induction false} UpdateNone(action: Action, rows: Rows)
    ensures Updates(action, {}, rows) == rows
  {}

  lemma {:induction false} UpdateOneMore(action: Action, done: set<Id>, id: Id, rows: Rows)
    requires id in rows
    ensures Updates(action, done + {id}, rows) == Updates(action, done, rows)[id := Effect(action, rows[id])]
  {
    hide Effect;
  }

  lemma {:induction false} RefusedAlone(action: Action, rows: Rows, id: Id)
    requires id in Selected(action, rows) && Fails(action, rows[id])
    ensures Alone(action, rows) == rows && Selected(action, rows) != {}
  {
    hide Selects, Updates, Fails;
  }

  /** A recovery on its way: the rows it picked are changed and reported, but for the candidates. */
  ghost predicate Underway(action: Action, before: Rows, candidates: set<Id>, rows: Rows, writes: seq<LifecycleWrite>)
    requires action.IsRecovery()
  {
    var done := Selected(action, before) - candidates;
    && candidates <= Selected(action, before) <= before.Keys
    && rows == Updates(action, done, before)
    && WritesFor(action, writes, done, before)
  }

  lemma {:induction false} RecoveryStarts(action: Action, before: Rows)
    requires action.IsRecovery()
    ensures Underway(action, before, Selected(action, before), before, [])
  {
    hide Updates, WritesFor;
    assert Selected(action, before) - Selected(action, before) == {};
    UpdateNone(action, before);
    NoWrites(action, before);
  }

  lemma {:induction false} RecoveryProceeds(
      action: Action, before: Rows, candidates: set<Id>, rows: Rows, writes: seq<LifecycleWrite>, id: Id)
    requires action.IsRecovery() && Underway(action, before, candidates, rows, writes) && id in candidates
    ensures id in before && id in rows && rows[id] == before[id] && id in Selected(action, before)
    ensures Underway(action, before, candidates - {id}, rows[id := RecoveredRow(rows[id], action)],
                     writes + [RecoveryWrite(action, id, rows[id])])
  {
    hide Selected, Effect, RecoveredRow, RecoveryWrite, WritesFor;
    var done := Selected(action, before) - candidates;
    assert Selected(action, before) - (candidates - {id}) == done + {id};
    RecoveredIsEffect(action, before[id]);
    UpdateOneMore(action, done, id, before);
    WritesSnoc(action, writes, done, before, id);
  }

  lemma {:induction false} RecoveryEnds(action: Action, before: Rows, rows: Rows, writes: seq<LifecycleWrite>)
    requires action.IsRecovery() && RowsValid(before) && Underway(action, before, {}, rows, writes)
    requires Selected(action, before) == {} || !Refused(action)
    ensures rows == Alone(action, before) && RowsValid(rows)
    ensures Selected(action, before) <= before.Keys && WritesFor(action, writes, Selected(action, before), before)
  {
    hide Updates, RowsValid, Selected, Succeeds, WritesFor;
    assert Selected(action, before) - {} == Selected(action, before);
    SucceedsIff(action, before);
    RecoveryKeepsRows(action, before);
  }

  /** Success of a recovery, told from the objects of the OPEN rows and the texts. */
  lemma {:induction false} SucceedsByTexts(action: Action, rows: Rows)
    requires action.IsRecovery()
    ensures (Selected(action, rows) == {} || !Refused(action)) <==>
            (forall id, o :: id in rows && rows[id].status.Open? && o in rows[id].objects ==> !Named(action, o))
            || (Notable(action.host) && (action.ServiceRecovery? ==> Notable(action.service))
                && Notable(action.fingerprint) && |action.fingerprint| <= 256
                && Notable(action.source) && |action.source| <= 256)
    ensures Succeeds(action, rows) <==> Selected(action, rows) == {} || !Refused(action)
  {
    hide Notable, Fails;
    SucceedsIff(action, rows);
    assert forall o :: Named(action, o) <==> Covers(action, o);
    forall id, o | id in rows && rows[id].status.Open? && o in rows[id].objects && Named(action, o)
      ensures id in Selected(action, rows)
    {
      assert Covers(action, o);
    }
    if Selected(action, rows) != {} {
      var id :| id in Selected(action, rows);
      var o :| o in rows[id].objects && Covers(action, o);
      assert Named(action, o);
    }
  }

  lemma {:induction false} RecoveryTells(action: Action, rows: Rows, writes: seq<LifecycleWrite>)
    requires action.IsRecovery() && RowsValid(rows) && Succeeds(action, rows)
    requires Selected(action, rows) <= rows.Keys && WritesFor(action, writes, Selected(action, rows), rows)
    ensures TableRelieved(action, rows, Alone(action, rows))
    ensures forall w :: w in writes ==>
              w.id in rows && CountsBefore(w, w.id, rows[w.id]) && w.removed && w.id in Alone(action, rows)
              && w.effect == if Alone(action, rows)[w.id].status.Resolved? then ResolvedEffect else AffectedSetShrunk
  {
    hide Alone, RowsValid, RowValid, Succeeds, Selects, Named, CountsBefore, RecoveryWrite;
    RecoveryRelieves(action, rows);
    forall w | w in writes
      ensures w.id in rows && CountsBefore(w, w.id, rows[w.id]) && w.removed && w.id in Alone(action, rows)
      ensures w.effect == if Alone(action, rows)[w.id].status.Resolved? then ResolvedEffect else AffectedSetShrunk
    {
      WritesTell(action, w.id, rows[w.id], ResolvedEffect);
      assert Relieved(action, rows[w.id], Alone(action, rows)[w.id]);
      assert rows[w.id].status.Open? by { SelectedRecovery(action, w.id, rows); }
    }
  }

  lemma {:induction false} SelectedRecovery(action: Action, id: Id, rows: Rows)
    requires action.IsRecovery() && id in Selected(action, rows)
    ensures id in rows && rows[id].status.Open?
  {}

  class IncidentStore {
    var rows: Rows

    ghost predicate Valid()
      reads this
    {
      RowsValid(rows)
    }

    constructor ()
      ensures Valid() && rows == map[]
    {
      rows := map[];
    }

    /** Inserts unless an OPEN row with the key exists, and then updates that row. */
    method RecordProblem(input: Input, newId: Id) returns (w: ProblemWrite)
      requires Valid() && input.Valid() && newId !in rows
      modifies this
      ensures Valid()
      ensures var found := Selected(Problem(input), old(rows));
              if found == {} then
                && rows == old(rows)[newId := InsertedRow(input)]
                && w == ProblemWrite(newId, Inserted, StartOutcome(input.Occurrence()), 1)
              else
                && found == {w.id} && w.effect == Updated
                && rows == old(rows)[w.id := UpdatedRow(old(rows)[w.id], input)]
                && w.outcome == PushOutcome(old(rows)[w.id].agg, input.Occurrence())
                && w.count == rows[w.id].agg.window.counted
      ensures w.id in rows && w.count == rows[w.id].agg.window.counted
      ensures w.effect == Inserted <==> w.id !in old(rows)
      ensures Tells(w.outcome, if w.id in old(rows) then Some(old(rows)[w.id].agg) else None, rows[w.id].agg, input.Occurrence())
    {
      hide UpdatedRow, InsertedRow, Composed, RowValid, UniqueOpen, NextWindow, PushOutcome, StartOutcome;
      hide Inside, Replay, Tells, Push, Start;
      var found := set id | id in rows && rows[id].rule == input.rule && rows[id].group == input.group && rows[id].status.Open?;
      assert found == Selected(Problem(input), rows);
      var o := input.Occurrence();
      if found == {} {
        InsertKeepsRowsValid(input, newId, rows);
        WrittenTells(InsertedRow(input), input);
        rows := rows[newId := InsertedRow(input)];
        w := ProblemWrite(newId, Inserted, StartOutcome(o), 1);
      } else {
        var id :| id in found;
        var existing := rows[id];
        ProblemSelectsOne(input, id, rows);
        var state, replay, inside, counted := ComputeNextWindow(existing.agg.lastUpdate, existing.agg.window.stamps, o);
        var windowCrossed := state.counted >= state.threshold;
        var crossed := existing.agg.crossed || windowCrossed;
        ComposedIsUpdate(existing, input);
        WrittenTells(existing, input);
        UpdateKeepsRowsValid(rows, id, input);
        rows := rows[id := Composed(existing, input, state, counted, crossed)];
        w := ProblemWrite(id, Updated,
                          Outcome(replay, inside, counted, windowCrossed, crossed, !existing.agg.crossed && crossed),
                          state.counted);
      }
    }

    /** The ingress path: records the problem, decides on a dispatch and writes the final context. */
    method ApplyProblem(input: Input, newId: Id) returns (r: ProblemResult)
      requires Valid() && input.Valid() && newId !in rows
      modifies this
      ensures Valid()
      ensures rows == AfterProblem(input, newId, old(rows))
      ensures var found := Selected(Problem(input), old(rows));
              if found == {} then r.write.id == newId && r.reason == NoDispatch(StartOutcome(input.Occurrence()))
              else found == {r.write.id}
                   && r.reason == NoDispatch(PushOutcome(old(rows)[r.write.id].agg, input.Occurrence()))
      ensures var id, o := r.write.id, r.write.outcome;
              && id in rows && Tells(o, if id in old(rows) then Some(old(rows)[id].agg) else None, rows[id].agg, input.Occurrence())
              && (r.reason == Some(ReplayReason) <==> o.replay)
              && (r.reason == None <==> !o.replay && o.first)
              && (r.reason == Some(AlreadyNotified) <==> !o.replay && !o.first && o.crossed)
              && (r.reason == Some(BelowThreshold) <==> !o.replay && !o.crossed)
      ensures r.write.id !in old(rows) ==> r.reason == if input.threshold == 1 then None else Some(BelowThreshold)
    {
      hide UpdatedRow, InsertedRow, RowValid, UniqueOpen, PushOutcome, StartOutcome, Selects, Tells;
      ghost var before := rows;
      ghost var found := Selected(Problem(input), before);
      var w := RecordProblem(input, newId);
      var row := rows[w.id];
      var final := row.(context := ProblemContext(input, row.eventCount, row.context));
      if found == {} {
        InsertKeepsRowsValid(input, newId, before);
        ghost var inserted: Rows := before[newId := InsertedRow(input)];
        assert inserted[newId := final] == before[newId := final];
      } else {
        assert w.id in found;
        SelectedIsOpen(input, w.id, before);
        UpdateKeepsRowsValid(before, w.id, input);
        ghost var updated: Rows := before[w.id := row];
        assert final == Finished(row, input) && updated[w.id := final] == before[w.id := final];
        assert Updates(Problem(input), {w.id}, before) == before[w.id := final];
      }
      rows := rows[w.id := final];
      r := ProblemResult(w, NoDispatch(w.outcome));
      ReasonsTell(w.outcome, if w.id in before then Some(before[w.id].agg) else None, final.agg, input.Occurrence());
    }

    /** Both recovery operations: shrink or resolve every OPEN row that holds a covered object. The
        first row on which it raises undoes everything. */
    method ResolveRecovery(action: Action) returns (ok: bool, writes: seq<LifecycleWrite>)
      requires Valid() && action.IsRecovery()
      modifies this
      ensures Valid()
      ensures ok <==> (forall id, o :: id in old(rows) && old(rows)[id].status.Open? && o in old(rows)[id].objects
                                       ==> !Named(action, o))
                      || (Notable(action.host) && (action.ServiceRecovery? ==> Notable(action.service))
                          && Notable(action.fingerprint) && |action.fingerprint| <= 256
                          && Notable(action.source) && |action.source| <= 256)
      ensures rows == Alone(action, old(rows))
      ensures ok ==> TableRelieved(action, old(rows), rows)
      ensures forall w :: w in writes ==>
                w.id in old(rows) && CountsBefore(w, w.id, old(rows)[w.id]) && w.removed && w.id in rows
                && w.effect == if rows[w.id].status.Resolved? then ResolvedEffect else AffectedSetShrunk
      ensures ok ==> WritesFor(action, writes, Selected(action, old(rows)), old(rows))
      ensures !ok ==> rows == old(rows) && writes == []
    {
      hide RowsValid, Selected, Fails, Refused, Underway, RecoveredRow, RecoveryWrite, Alone, WritesFor;
      hide Named, TableRelieved, CountsBefore, Notable, Storable, Succeeds;
      var before := rows;
      SucceedsByTexts(action, before);
      ghost var all := Selected(action, before);
      var candidates := Selected(action, rows);
      writes := [];
      RecoveryStarts(action, before);
      while candidates != {}
        invariant Underway(action, before, candidates, rows, writes)
        invariant candidates <= all && (candidates != all ==> !Refused(action))
        decreases candidates
      {
        var id :| id in candidates;
        RecoveryProceeds(action, before, candidates, rows, writes, id);
        var row := rows[id];
        FailsIff(action, row);
        if Fails(action, row) {
          RefusedAlone(action, before, id);
          rows := before;
          return false, [];
        }
        candidates := candidates - {id};
        rows := rows[id := RecoveredRow(row, action)];
        writes := writes + [RecoveryWrite(action, id, row)];
      }
      RecoveryEnds(action, before, rows, writes);
      RecoveryTells(action, before, writes);
      ok := true;
    }

    /** Acknowledges an OPEN row; a row in another state is reported unchanged, a missing one not at all. */
    method AckOpenIncident(id: Id, operator: Text, now: int) returns (ok: bool, w: Option<LifecycleWrite>)
      requires Valid()
      modifies this
      ensures Valid()
      ensures ok <==> !(id in old(rows) && old(rows)[id].status.Open? && !Notable(operator))
      ensures rows == Alone(Acknowledge(id, operator, now), old(rows))
      ensures ok ==> (w.None? <==> id !in old(rows))
      ensures w.Some? ==> id in old(rows) && w.value == OperatorWrite(id, old(rows)[id], Acknowledged)
      ensures w.Some? ==> CountsBefore(w.value, id, old(rows)[id]) && !w.value.removed
                          && w.value.effect == if old(rows)[id].status.Open? then Acknowledged else Noop
      ensures !ok ==> rows == old(rows) && w == None
    {
      ok, w := ApplyToOne(Acknowledge(id, operator, now), id, Acknowledged);
    }

    method CloseOpenIncident(id: Id, operator: Text, reason: Text, now: int) returns (ok: bool, w: Option<LifecycleWrite>)
      requires Valid()
      modifies this
      ensures Valid()
      ensures ok <==> !(id in old(rows) && old(rows)[id].status.Open? && !(Notable(operator) && Notable(reason)))
      ensures rows == Alone(Close(id, operator, reason, now), old(rows))
      ensures ok ==> (w.None? <==> id !in old(rows))
      ensures w.Some? ==> id in old(rows) && w.value == OperatorWrite(id, old(rows)[id], ClosedEffect)
      ensures w.Some? ==> CountsBefore(w.value, id, old(rows)[id]) && !w.value.removed
                          && w.value.effect == if old(rows)[id].status.Open? then ClosedEffect else Noop
      ensures !ok ==> rows == old(rows) && w == None
    {
      ok, w := ApplyToOne(Close(id, operator, reason, now), id, ClosedEffect);
    }

    /** The steps the two operator actions share. */
    method ApplyToOne(action: Action, id: Id, effect: LifecycleEffect) returns (ok: bool, w: Option<LifecycleWrite>)
      requires Valid()
      requires (action.Acknowledge? || action.Close?) && action.id == id
      modifies this
      ensures Valid()
      ensures ok <==> !(id in old(rows) && old(rows)[id].status.Open? && Refused(action))
      ensures rows == Alone(action, old(rows))
      ensures ok ==> (w.None? <==> id !in old(rows))
      ensures w.Some? ==> id in old(rows) && w.value == OperatorWrite(id, old(rows)[id], effect)
      ensures w.Some? ==> CountsBefore(w.value, id, old(rows)[id]) && !w.value.removed
                          && w.value.effect == if old(rows)[id].status.Open? then effect else Noop
      ensures !ok ==> rows == old(rows) && w == None
    {
      hide RowValid, UniqueOpen, Effect, Fails, Refused, CountsBefore, OperatorWrite;
      ghost var before := rows;
      w := None;
      if id in rows {
        var row := rows[id];
        FailsIff(action, row);
        if row.status.Open? {
          if Fails(action, row) {
            RefusedAlone(action, before, id);
            return false, None;
          }
          rows := rows[id := Effect(action, row)];
          assert Selected(action, before) == {id};
        } else {
          assert Selected(action, before) == {};
        }
        WritesTell(action, id, row, effect);
        w := Some(OperatorWrite(id, row, effect));
      } else {
        assert Selected(action, before) == {};
      }
      ok := true;
      assert rows == Updates(action, Selected(action, before), before);
      UpdatesKeepValid(action, Selected(action, before), before);
    }

    /** Closes the stale OPEN rows with the lowest ids, at most `limit` of them; one whose rule name
        cannot be noted undoes the whole batch. */
    method ExpireStaleIncidents(limit: int, now: int) returns (ok: bool, expired: seq<Id>)
      requires Valid()
      modifies this
      ensures Valid()
      ensures Lowest(Selected(Expire(now), old(rows)), limit, expired)
      ensures Members(expired) <= old(rows).Keys
      ensures ok <==> forall id :: id in Members(expired) ==> Notable(old(rows)[id].rule)
      ensures rows == if ok then Updates(Expire(now), Members(expired), old(rows)) else old(rows)
    {
      hide RowsValid, Effect, Selects, Updates, Lowest, Members, Fails, Notable;
      var before := rows;
      expired := LowestIds(Selected(Expire(now), rows), limit);
      LowestMembers(Selected(Expire(now), rows), limit, expired);
      UpdateNone(Expire(now), before);
      for i := 0 to |expired|
        invariant rows.Keys == before.Keys && forall j :: i <= j < |expired| ==> rows[expired[j]] == before[expired[j]]
        invariant rows == Updates(Expire(now), Members(expired[..i]), before)
        invariant forall id :: id in Members(expired[..i]) ==> id in before && !Fails(Expire(now), before[id])
      {
        var id := expired[i];
        FailsIff(Expire(now), before[id]);
        InMembers(expired, i);
        if Fails(Expire(now), rows[id]) {
          rows := before;
          return false, expired;
        }
        UpdateOneMore(Expire(now), Members(expired[..i]), id, before);
        assert expired[..i + 1] == expired[..i] + [id];
        MembersSnoc(expired[..i], id);
        rows := rows[id := Effect(Expire(now), rows[id])];
      }
      assert expired[..|expired|] == expired;
      forall id | id in Members(expired) ensures Notable(before[id].rule) { FailsIff(Expire(now), before[id]); }
      UpdatesKeepValid(Expire(now), Members(expired), before);
      ok := true;
    }

    /** Stores the latest delivery result of one plugin; fails when the bound on records is exceeded. */
    method RecordNotificationResult(id: Id, plugin: Text, result: NotificationResult, now: int) returns (r: Option<bool>)
      requires Valid()
      modifies this
      ensures Valid()
      ensures var action := Notify(id, plugin, result, now);
              if id !in old(rows) then r == Some(false) && rows == old(rows)
              else if Fails(action, old(rows)[id]) then r == None && rows == old(rows)
              else r == Some(true) && rows == Updates(action, {id}, old(rows))
      ensures rows == Alone(Notify(id, plugin, result, now), old(rows))
      ensures r == Some(false) <==> id !in old(rows)
      ensures r == None <==> id in old(rows) && var stored := RecordsOf(old(rows)[id].context);
                             |stored| == 20 && forall x :: x in stored ==> x.plugin != plugin
      ensures r == Some(true) ==> id in rows && RecordStored(old(rows)[id], rows[id], plugin, result)
    {
      hide Alone, RowsValid, Fails, NotifiedRow, Updates, RecordStored;
      var action := Notify(id, plugin, result, now);
      NotifyAlone(rows, action);
      if id !in rows {
        return Some(false);
      }
      var row := rows[id];
      NotifyTells(row, action) by { RowOf(rows, id); }
      if Fails(action, row) {
        return None;
      }
      NotifyStores(rows, action);
      rows := rows[id := NotifiedRow(row, action)];
      return Some(true);
    }
  }

  /** The row holds the result as the record of this plugin, with a message of the closed set, and the
      records of all other plugins as before. */
  ghost predicate RecordStored(row: Row, after: Row, plugin: Text, result: NotificationResult) {
    var message := if result.message.OtherText? then ResultRedacted else result.message;
    forall x :: x in RecordsOf(after.context) <==>
      x == Record(plugin, NotificationResult(result.success, result.category, message))
      || (x in RecordsOf(row.context) && x.plugin != plugin)
  }

  lemma {:induction false} NotifyTells(row: Row, action: Action)
    requires action.Notify? && RowValid(row)
    ensures Fails(action, row) <==> var stored := RecordsOf(row.context);
                                    |stored| == 20 && forall x :: x in stored ==> x.plugin != action.plugin
    ensures RecordStored(row, NotifiedRow(row, action), action.plugin, action.result)
  {
    hide WindowValid, AffectedHosts, AffectedServices, PutRecord;
    PutRecordCount(RecordsOf(row.context), Record(action.plugin, SafeResult(action.result)));
    PutRecordPuts(RecordsOf(row.context), Record(action.plugin, SafeResult(action.result)));
  }

  lemma {:induction false} NotifyAlone(rows: Rows, action: Action)
    requires action.Notify?
    ensures action.id !in rows || Fails(action, rows[action.id]) ==> Alone(action, rows) == rows
    ensures action.id in rows && !Fails(action, rows[action.id]) ==> Alone(action, rows) == Updates(action, {action.id}, rows)
  {
    hide Updates, Fails;
    UpdateNone(action, rows);
    assert Selected(action, rows) == if action.id in rows then {action.id} else {};
  }

  lemma {:induction false} NotifyStores(rows: Rows, action: Action)
    requires RowsValid(rows) && action.Notify? && action.id in rows && !Fails(action, rows[action.id])
    ensures rows[action.id := NotifiedRow(rows[action.id], action)] == Updates(action, {action.id}, rows)
    ensures RowsValid(Updates(action, {action.id}, rows))
  {
    hide RowsValid, NotifiedRow, Updates, Fails;
    UpdateOneMore(action, {}, action.id, rows);
    UpdateNone(action, rows);
    assert {} + {action.id} == {action.id};
    UpdatesKeepValid(action, {action.id}, rows);
  }

  lemma {:induction false} ReplaceKeepsValid(rows: Rows, id: Id, row: Row)
    requires RowsValid(rows) && id in rows && RowValid(row)
    requires row.rule == rows[id].rule && row.group == rows[id].group && (row.status.Open? ==> rows[id].status.Open?)
    ensures RowsValid(rows[id := row])
  {
    hide RowValid;
  }

  lemma {:induction false} RowOf(rows: Rows, id: Id)
    requires RowsValid(rows) && id in rows
    ensures RowValid(rows[id])
  {}

  lemma {:induction false} LeastExists(ids: set<Id>)
    requires ids != {}
    ensures exists id :: Least(ids, id)
  {
    var x :| x in ids;
    var rest := ids - {x};
    if rest != {} {
      LeastExists(rest);
      var y :| Least(rest, y);
      LeastOfMore(ids, x, y);
    } else {
      assert Least(ids, x) by { OnlyMember(ids, x); }
    }
  }

  predicate Least(ids: set<Id>, id: Id) {
    id in ids && forall other :: other in ids ==> id <= other
  }

  lemma {:induction false} OnlyMember(ids: set<Id>, x: Id)
    requires x in ids && ids - {x} == {}
    ensures forall other :: other in ids ==> other == x
  {
    assert ids == (ids - {x}) + {x};
  }

  lemma {:induction false} LeastOfMore(ids: set<Id>, x: Id, y: Id)
    requires x in ids && Least(ids - {x}, y)
    ensures Least(ids, if x < y then x else y)
  {
    forall other | other in ids && other != x ensures y <= other {
      assert other in ids - {x};
    }
  }

  method LeastId(ids: set<Id>) returns (id: Id)
    requires ids != {}
    ensures Least(ids, id)
  {
    LeastExists(ids);
    id :| Least(ids, id);
  }

  function Members(s: seq<Id>): set<Id> {
    set id | id in s
  }

  lemma {:induction false} InMembers(s: seq<Id>, i: nat)
    requires i < |s|
    ensures s[i] in Members(s)
  {}

  lemma {:induction false} MembersSnoc(s: seq<Id>, id: Id)
    ensures Members(s + [id]) == Members(s) + {id} && Members([]) == {}
  {}

  /** `r` lists, in order, the lowest of `ids`, at most `limit` of them. */
  ghost predicate Lowest(ids: set<Id>, limit: int, r: seq<Id>) {
    && (forall i, j :: 0 <= i < j < |r| ==> r[i] < r[j])
    && Members(r) <= ids
    && |r| == (if limit < 1 then 0 else if |ids| < limit then |ids| else limit)
    && (forall a, b :: a in r && b in ids && b !in r ==> a < b)
  }

  /** The selection is determined: there is only one such list. */
  lemma {:induction false} LowestUnique(ids: set<Id>, limit: int, a: seq<Id>, b: seq<Id>)
    requires Lowest(ids, limit, a) && Lowest(ids, limit, b)
    ensures a == b
  {
    forall x | x in a ensures x in b { LowestWithin(ids, limit, a, b, x); }
    forall x | x in b ensures x in a { LowestWithin(ids, limit, b, a, x); }
    SortedUnique((x: Id, y: Id) => x < y, a, b);
  }

  lemma {:induction false} LowestWithin(ids: set<Id>, limit: int, a: seq<Id>, b: seq<Id>, x: Id)
    requires Lowest(ids, limit, a) && Lowest(ids, limit, b) && x in a
    ensures x in b
  {
    if x !in b {
      assert x in Members(a);
      forall y | y in b ensures y in a {
        assert y in Members(b) && y < x;
      }
      DistinctCount(a);
      DistinctCount(b);
      ProperSubsetSmaller(Members(b), Members(a), x);
    }
  }

  lemma {:induction false} ProperSubsetSmaller(a: set<Id>, b: set<Id>, x: Id)
    requires a <= b && x in b && x !in a
    ensures |a| < |b|
  {
    assert a <= b - {x};
    assert b - {x} == a + (b - {x} - a);
  }

  lemma {:induction false} LowestMembers(ids: set<Id>, limit: int, r: seq<Id>)
    requires Lowest(ids, limit, r)
    ensures forall i :: 0 <= i < |r| ==> r[i] in ids
    ensures forall i, j :: 0 <= i < j < |r| ==> r[i] != r[j]
    ensures Members(r) <= ids && Members(r[..0]) == {}
  {
    assert forall i :: 0 <= i < |r| ==> r[i] in Members(r);
  }

  method LowestIds(ids: set<Id>, limit: int) returns (r: seq<Id>)
    ensures Lowest(ids, limit, r)
  {
    r := [];
    var todo := ids;
    while todo != {} && |r| < limit
      invariant todo <= ids
      invariant forall id :: id in r <==> id in ids - todo
      invariant |r| + |todo| == |ids|
      invariant |r| <= if limit >= 1 then limit else 0
      invariant forall a, b :: a in r && b in todo ==> a < b
      invariant forall i, j :: 0 <= i < j < |r| ==> r[i] < r[j]
      decreases todo
    {
      var id := LeastId(todo);
      forall i | 0 <= i < |r| ensures r[i] < id { assert r[i] in r; }
      todo := todo - {id};
      r := r + [id];
    }
  }
}
