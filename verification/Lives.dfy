/** Whole lives of incidents: what a row holds after any sequence of operations, told from the
    sequence alone.
  */
module Lives {
  import opened Order
  import opened Windows
  import opened Crossings
  import opened Incidents
  import opened Store

  function Step(id: Id, row: Row, action: Action): Row {
    if Selects(action, id, row) && !Fails(action, row) then Effect(action, row) else row
  }

  /** The row inserted for `first`, after a sequence of operations of any kind and on any rows. */
  function Life(id: Id, first: Input, actions: seq<Action>): Row {
    if actions == [] then Finished(InsertedRow(first), first)
    else Step(id, Life(id, first, actions[..|actions| - 1]), actions[|actions| - 1])
  }

  ghost predicate AllValid(first: Input, actions: seq<Action>) {
    first.Valid() && forall a :: a in actions ==> ActionValid(a)
  }

  lemma {:induction false} LifeValid(id: Id, first: Input, actions: seq<Action>)
    requires AllValid(first, actions)
    ensures RowValid(Life(id, first, actions))
    ensures Life(id, first, actions).rule == first.rule && Life(id, first, actions).group == first.group
    ensures Life(id, first, actions).startTime == first.time
  {
    hide RowValid, Effect, Selects, Fails;
    if actions == [] {
      InsertKeepsValid(first);
    } else {
      var before, a := actions[..|actions| - 1], actions[|actions| - 1];
      assert forall x :: x in before ==> x in actions;
      LifeValid(id, first, before);
      var row := Life(id, first, before);
      if Selects(a, id, row) && !Fails(a, row) {
        EffectKeepsValid(a, id, row);
        EffectKeepsKey(a, row);
      }
    }
  }

  // ---------------------------------------------------------------------------------------
  // Membership
  // ---------------------------------------------------------------------------------------

  /** Does operation `i` report the object for this key? The insertion counts as operation -1. */
  ghost predicate ReportedAt(first: Input, actions: seq<Action>, i: int, o: Object)
    requires -1 <= i < |actions|
  {
    if i == -1 then Reports(first, o)
    else actions[i].Problem? && actions[i].input.rule == first.rule && actions[i].input.group == first.group
         && Reports(actions[i].input, o)
  }

  /** A recovery that is not refused takes the object away. */
  predicate Takes(a: Action, o: Object) {
    a.IsRecovery() && !Refused(a) && Covers(a, o)
  }

  ghost predicate RecoveredAfter(actions: seq<Action>, i: int, o: Object)
    requires -1 <= i < |actions|
  {
    exists j :: i < j < |actions| && Takes(actions[j], o)
  }

  /** The object was reported after the last recovery that covers it. */
  ghost predicate Live(first: Input, actions: seq<Action>, o: Object) {
    exists i :: -1 <= i < |actions| && ReportedAt(first, actions, i, o) && !RecoveredAfter(actions, i, o)
  }

  lemma {:induction false} LiveSnoc(first: Input, before: seq<Action>, a: Action, o: Object)
    ensures Live(first, before + [a], o) <==>
            || (a.Problem? && a.input.rule == first.rule && a.input.group == first.group && Reports(a.input, o))
            || (Live(first, before, o) && !Takes(a, o))
  {
    hide Reports, Takes;
    var all := before + [a];
    if Live(first, all, o) {
      var i :| -1 <= i < |all| && ReportedAt(first, all, i, o) && !RecoveredAfter(all, i, o);
      if i < |before| {
        assert ReportedAt(first, before, i, o);
        assert forall j :: 0 <= j < |before| ==> all[j] == before[j];
        assert !RecoveredAfter(before, i, o);
        assert all[|before|] == a;
      }
    }
    if a.Problem? && a.input.rule == first.rule && a.input.group == first.group && Reports(a.input, o) {
      assert ReportedAt(first, all, |before|, o) && !RecoveredAfter(all, |before|, o);
    }
    if Live(first, before, o) && !Takes(a, o) {
      var i :| -1 <= i < |before| && ReportedAt(first, before, i, o) && !RecoveredAfter(before, i, o);
      assert ReportedAt(first, all, i, o);
      forall j | i < j < |all| ensures !Takes(all[j], o) {
        assert j < |before| ==> all[j] == before[j];
      }
      assert !RecoveredAfter(all, i, o);
    }
  }

  /** What one operation does to the members of an OPEN row. */
  lemma {:induction false} StepMembers(id: Id, row: Row, a: Action, o: Object)
    requires RowValid(row) && ActionValid(a) && row.status.Open?
    ensures Step(id, row, a).status.Open? ==>
              (o in Step(id, row, a).objects <==>
                 || (a.Problem? && a.input.rule == row.rule && a.input.group == row.group && Reports(a.input, o))
                 || (o in row.objects && !Takes(a, o)))
    ensures Step(id, row, a).status.Resolved? <==>
              a.IsRecovery() && !Refused(a) && forall x :: x in row.objects ==> Covers(a, x)
  {
    hide Reports, Covers, RowValid, UpdatedRow, RecoveredRow, Refused, Fails;
    FailsIff(a, row);
    if a.Problem? {
      ProblemMembers(row, a.input);
    } else if a.IsRecovery() {
      RecoveryMembers(row, a);
    }
  }

  lemma {:induction false} ProblemMembers(row: Row, input: Input)
    requires RowValid(row) && input.Valid() && row.status.Open?
    ensures Finished(UpdatedRow(row, input), input).status.Open?
    ensures forall o :: o in Finished(UpdatedRow(row, input), input).objects <==> o in row.objects || Reports(input, o)
  {
    UpdateKeepsValid(row, input);
  }

  lemma {:induction false} RecoveryMembers(row: Row, a: Action)
    requires RowValid(row) && row.status.Open? && a.IsRecovery()
    ensures forall o :: o in RecoveredRow(row, a).objects <==> o in row.objects && !Covers(a, o)
    ensures RecoveredRow(row, a).status.Resolved? <==> forall x :: x in row.objects ==> Covers(a, x)
    ensures !RecoveredRow(row, a).status.Closed?
    ensures exists o :: o in row.objects
    ensures (forall o :: o in row.objects ==> !Covers(a, o)) ==> !RecoveredRow(row, a).status.Resolved?
  {
    RemainingMembers(row.objects, a);
    RecoveryKeepsValid(row, a);
    var left := Remaining(row.objects, a);
    assert row.objects[0] in row.objects;
    assert left != [] ==> left[0] in left;
  }

  /** Main theorem: while the incident is OPEN its members are exactly the objects reported
      after the last recovery covering them. */
  lemma {:induction false} Membership(id: Id, first: Input, actions: seq<Action>)
    requires AllValid(first, actions)
    ensures Life(id, first, actions).status.Open? ==>
              forall o :: o in Life(id, first, actions).objects <==> Live(first, actions, o)
  {
    if actions == [] {
      InputObjectsAreReported(first);
      forall o ensures Live(first, [], o) <==> Reports(first, o) {
        if Reports(first, o) { assert ReportedAt(first, [], -1, o) && !RecoveredAfter([], -1, o); }
      }
    } else {
      var before, a := actions[..|actions| - 1], actions[|actions| - 1];
      assert forall x :: x in before ==> x in actions;
      assert before + [a] == actions;
      Membership(id, first, before);
      LifeValid(id, first, before);
      if Life(id, first, actions).status.Open? {
        EffectKeepsKey(a, Life(id, first, before));
        forall o ensures o in Life(id, first, actions).objects <==> Live(first, actions, o) {
          StepMembers(id, Life(id, first, before), a, o);
          LiveSnoc(first, before, a, o);
        }
      }
    }
  }

  /** The incident becomes RESOLVED at exactly the recovery that leaves nothing reported. */
  lemma {:induction false} ResolvedWhenEmptied(id: Id, first: Input, before: seq<Action>, a: Action)
    requires AllValid(first, before) && ActionValid(a)
    requires Life(id, first, before).status.Open?
    ensures Life(id, first, before + [a]).status.Resolved? <==>
              a.IsRecovery() && forall o :: !Live(first, before + [a], o)
  {
    hide Reports, Covers, RowValid, Effect, Selects, Fails, Live;
    var row := Life(id, first, before);
    assert (before + [a])[..|before + [a]| - 1] == before;
    Membership(id, first, before);
    LifeValid(id, first, before);
    StepMembers(id, row, a, Object([], None));
    assert Life(id, first, before + [a]) == Step(id, row, a);
    forall o
      ensures a.IsRecovery() ==> (Live(first, before + [a], o) <==> o in row.objects && !Takes(a, o))
    {
      LiveSnoc(first, before, a, o);
    }
    OpenHasObject(row);
    if a.IsRecovery() && forall o :: !Live(first, before + [a], o) {
      forall x | x in row.objects ensures Takes(a, x) { assert !Live(first, before + [a], x); }
    }
  }

  lemma {:induction false} OpenHasObject(row: Row)
    requires RowValid(row) && row.status.Open?
    ensures exists o :: o in row.objects
  {
    assert row.objects[0] in row.objects;
  }

  /** An incident opened for an object whose host cannot be noted is never resolved. */
  lemma {:induction false} ForbiddenNeverResolves(id: Id, first: Input, actions: seq<Action>, o: Object)
    requires AllValid(first, actions) && Reports(first, o) && !Notable(o.host)
    ensures Live(first, actions, o) && !Life(id, first, actions).status.Resolved?
  {
    hide Reports, Notable, Effect, Selects, Fails, Covers, Refused;
    assert ReportedAt(first, actions, -1, o) && !RecoveredAfter(actions, -1, o) by {
      forall a: Action ensures !Takes(a, o) { ForbiddenNotTaken(a, o); }
    }
    if actions == [] {
      InsertedOpen(first);
    } else {
      var before, a := actions[..|actions| - 1], actions[|actions| - 1];
      assert before + [a] == actions && a in actions && forall x :: x in before ==> x in actions;
      ForbiddenNeverResolves(id, first, before, o);
      if Life(id, first, before).status.Open? {
        ResolvedWhenEmptied(id, first, before, a);
      } else {
        TerminalIsFinal(id, first, before, [a]);
      }
    }
  }

  lemma {:induction false} ForbiddenNotTaken(a: Action, o: Object)
    requires !Notable(o.host)
    ensures !Takes(a, o)
  {
    hide Notable, Storable;
  }

  lemma {:induction false} InsertedOpen(input: Input)
    ensures Finished(InsertedRow(input), input).status.Open?
  {}

  /** A row that has left OPEN keeps its members, its window and its status for good. */
  lemma {:induction false} TerminalIsFinal(id: Id, first: Input, before: seq<Action>, after: seq<Action>)
    requires !Life(id, first, before).status.Open?
    ensures var a, b := Life(id, first, before), Life(id, first, before + after);
            b.status == a.status && b.objects == a.objects && b.agg == a.agg && b.eventCount == a.eventCount
    decreases |after|
  {
    if after == [] {
      assert before + after == before;
    } else {
      var rest := after[..|after| - 1];
      TerminalIsFinal(id, first, before, rest);
      assert (before + after)[..|before + after| - 1] == before + rest;
    }
  }

  // ---------------------------------------------------------------------------------------
  // Window and dispatch
  // ---------------------------------------------------------------------------------------

  /** The occurrences that reached the row. */
  function Occurrences(id: Id, first: Input, actions: seq<Action>): seq<Occurrence> {
    if actions == [] then [first.Occurrence()]
    else
      var before, a := actions[..|actions| - 1], actions[|actions| - 1];
      Occurrences(id, first, before)
      + if a.Problem? && Selects(a, id, Life(id, first, before)) then [a.input.Occurrence()] else []
  }

  lemma {:induction false} InsertedAgg(input: Input)
    ensures Finished(InsertedRow(input), input).agg == Start(input.Occurrence())
  {}

  /** Only problems touch the aggregation columns. */
  lemma {:induction false} EffectAgg(row: Row, a: Action)
    ensures Effect(a, row).agg == if a.Problem? then Push(row.agg, a.input.Occurrence()) else row.agg
    ensures a.Problem? ==> Push(row.agg, a.input.Occurrence()).window.threshold == a.input.threshold && !Fails(a, row)
  {
    hide Retained;
  }

  /** The aggregation columns are those of the plain window run over the occurrences that
      reached the row, whatever else happened to it. */
  lemma {:induction false} WindowOfLife(id: Id, first: Input, actions: seq<Action>)
    ensures Occurrences(id, first, actions) != []
    ensures Life(id, first, actions).agg == Run(Occurrences(id, first, actions))
  {
    hide Push, Start, Effect, Selects, Fails, InsertedRow;
    if actions == [] {
      InsertedAgg(first);
    } else {
      var before, a := actions[..|actions| - 1], actions[|actions| - 1];
      WindowOfLife(id, first, before);
      EffectAgg(Life(id, first, before), a);
      var os := Occurrences(id, first, before);
      if a.Problem? && Selects(a, id, Life(id, first, before)) {
        var next := os + [a.input.Occurrence()];
        assert next[..|next| - 1] == os;
        assert Run(next) == Push(Run(os), a.input.Occurrence());
      } else {
        assert Occurrences(id, first, actions) == os;
      }
    }
  }

  /** The number of operations that planned a dispatch for this incident, the insertion included. */
  function PlannedDispatches(id: Id, first: Input, actions: seq<Action>): nat {
    if actions == [] then if StartOutcome(first.Occurrence()).Planned() then 1 else 0
    else
      var before, a := actions[..|actions| - 1], actions[|actions| - 1];
      var row := Life(id, first, before);
      PlannedDispatches(id, first, before)
      + if a.Problem? && Selects(a, id, row) && PushOutcome(row.agg, a.input.Occurrence()).Planned() then 1 else 0
  }

  /** Every problem of the key comes with the same threshold. */
  ghost predicate FixedThreshold(first: Input, actions: seq<Action>) {
    forall a :: a in actions && a.Problem? && a.input.rule == first.rule && a.input.group == first.group
      ==> a.input.threshold == first.threshold
  }

  lemma {:induction false} StartDispatch(first: Input)
    ensures StartOutcome(first.Occurrence()).Planned() == Start(first.Occurrence()).crossed
    ensures Start(first.Occurrence()).window.threshold == first.threshold
  {}

  lemma {:induction false} SelectedKey(id: Id, row: Row, a: Action)
    requires a.Problem? && Selects(a, id, row)
    ensures a.input.rule == row.rule && a.input.group == row.group && row.status.Open?
  {}

  lemma {:induction false} ProblemDispatch(id: Id, row: Row, a: Action)
    requires RowValid(row) && ActionValid(a) && a.Problem? && Selects(a, id, row)
    requires a.input.threshold >= row.agg.window.threshold
    ensures PushOutcome(row.agg, a.input.Occurrence()).Planned() <==>
              !row.agg.crossed && Push(row.agg, a.input.Occurrence()).crossed
    ensures row.agg.crossed ==> Push(row.agg, a.input.Occurrence()).crossed
  {
    ReplayNeverFirst(row.agg, a.input.Occurrence());
  }

  lemma {:induction false} OneDispatchPerLife(id: Id, first: Input, actions: seq<Action>)
    requires AllValid(first, actions) && FixedThreshold(first, actions)
    ensures PlannedDispatches(id, first, actions) == if Life(id, first, actions).agg.crossed then 1 else 0
    ensures Life(id, first, actions).agg.window.threshold == first.threshold
  {
    hide Push, PushOutcome, Effect, Selects, Fails, RowValid, InsertedRow;
    if actions == [] {
      InsertedAgg(first);
      StartDispatch(first);
    } else {
      var before, a := actions[..|actions| - 1], actions[|actions| - 1];
      assert forall x :: x in before ==> x in actions;
      assert a in actions;
      OneDispatchPerLife(id, first, before);
      LifeValid(id, first, before);
      var row := Life(id, first, before);
      EffectAgg(row, a);
      if a.Problem? && Selects(a, id, row) {
        SelectedKey(id, row, a);
        ProblemDispatch(id, row, a);
      }
    }
  }

  // ---------------------------------------------------------------------------------------
  // Delivery records
  // ---------------------------------------------------------------------------------------

  /** The last result recorded for a plugin of this incident. */
  function LastResult(id: Id, first: Input, actions: seq<Action>, plugin: Text): Option<NotificationResult> {
    if actions == [] then None
    else
      var before, a := actions[..|actions| - 1], actions[|actions| - 1];
      if a.Notify? && a.id == id && a.plugin == plugin && !Fails(a, Life(id, first, before))
      then Some(SafeResult(a.result))
      else LastResult(id, first, before, plugin)
  }

  lemma {:induction false} StepRecords(id: Id, row: Row, a: Action)
    requires RowValid(row) && ActionValid(a)
    ensures forall r :: r in RecordsOf(Step(id, row, a).context) <==>
              if a.Notify? && a.id == id && !Fails(a, row)
              then r == Record(a.plugin, SafeResult(a.result)) || (r in RecordsOf(row.context) && r.plugin != a.plugin)
              else r in RecordsOf(row.context)
  {
    hide Effect, RowValid, ActionValid, Fails;
    if a.Notify? {
      NotifyRecords(row, a);
    } else {
      OthersKeepRecords(a, row);
    }
  }

  lemma {:induction false} NotifyRecords(row: Row, a: Action)
    requires RowValid(row) && a.Notify?
    ensures forall r :: r in RecordsOf(Effect(a, row).context) <==>
              r == Record(a.plugin, SafeResult(a.result)) || (r in RecordsOf(row.context) && r.plugin != a.plugin)
    ensures forall id :: Selects(a, id, row) <==> a.id == id
  {
    hide PutRecord;
    PutRecordPuts(RecordsOf(row.context), Record(a.plugin, SafeResult(a.result)));
  }

  lemma {:induction false} OthersKeepRecords(a: Action, row: Row)
    requires !a.Notify?
    ensures RecordsOf(Effect(a, row).context) == RecordsOf(row.context)
  {
    hide SortObjects, InputObjects, Push, PushOutcome, AffectedHosts, AffectedServices, Remaining;
  }

  /** Main theorem: no problem update, recovery or operator action loses or changes a delivery
      record; each plugin has one record, the last that was stored for it. */
  lemma {:induction false} DeliveryRecordsSurvive(id: Id, first: Input, actions: seq<Action>)
    requires AllValid(first, actions)
    ensures RecordsValid(RecordsOf(Life(id, first, actions).context))
    ensures forall r :: r in RecordsOf(Life(id, first, actions).context) <==>
              LastResult(id, first, actions, r.plugin) == Some(r.result)
  {
    LifeValid(id, first, actions);
    if actions != [] {
      var before, a := actions[..|actions| - 1], actions[|actions| - 1];
      assert forall x :: x in before ==> x in actions;
      DeliveryRecordsSurvive(id, first, before);
      LifeValid(id, first, before);
      StepRecords(id, Life(id, first, before), a);
    }
  }
}
