/** The remaining columns of a row, told from the operations that reached it: counts, severity,
    summary, operator marks, time stamps and the bounded listings of hosts and services.
  */
module Columns {
  import opened Order
  import opened Windows
  import opened Incidents
  import opened Store
  import opened Lives

  function Before(actions: seq<Action>): seq<Action>
    requires actions != []
  {
    actions[..|actions| - 1]
  }

  /** Does the last operation of the sequence change the row? */
  predicate Applies(id: Id, first: Input, actions: seq<Action>)
    requires actions != []
  {
    var row := Life(id, first, Before(actions));
    Selects(actions[|actions| - 1], id, row) && !Fails(actions[|actions| - 1], row)
  }

  /** The operations that changed the row, oldest first. */
  function Applied(id: Id, first: Input, actions: seq<Action>): seq<Action> {
    if actions == [] then []
    else Applied(id, first, Before(actions)) + if Applies(id, first, actions) then [actions[|actions| - 1]] else []
  }

  /** The inputs the row counted: inside the window when they came and not there already. */
  function CountedInputs(id: Id, first: Input, actions: seq<Action>): (r: seq<Input>)
    ensures r != []
  {
    if actions == [] then [first]
    else
      var row, a := Life(id, first, Before(actions)), actions[|actions| - 1];
      CountedInputs(id, first, Before(actions))
      + if a.Problem? && Applies(id, first, actions)
           && Inside(row.agg.lastUpdate, a.input.Occurrence())
           && !Replay(row.agg.lastUpdate, row.agg.window.stamps, a.input.Occurrence())
        then [a.input] else []
  }

  ghost predicate HasSeverity(first: Input, applied: seq<Action>, s: Severity) {
    first.severity == s || exists a :: a in applied && a.Problem? && a.input.severity == s
  }

  /** How one operation changes these columns. */
  lemma {:induction false} EffectColumns(a: Action, row: Row)
    ensures !a.Problem? ==>
              Effect(a, row).eventCount == row.eventCount && Effect(a, row).summary == row.summary
              && Effect(a, row).severity == row.severity
    ensures a.Problem? ==>
              var counted := Inside(row.agg.lastUpdate, a.input.Occurrence())
                             && !Replay(row.agg.lastUpdate, row.agg.window.stamps, a.input.Occurrence());
              && Effect(a, row).eventCount == row.eventCount + (if counted then 1 else 0)
              && Effect(a, row).summary == (if counted then a.input.summary else row.summary)
              && Effect(a, row).severity == MaxSeverity(row.severity, a.input.severity)
  {
    hide SortObjects, InputObjects, AffectedHosts, AffectedServices, Remaining, Inside, Replay, Push;
  }

  /** The event count is the number of counted reports, and the summary that of the last of them. */
  lemma {:induction false} CountAndSummary(id: Id, first: Input, actions: seq<Action>)
    ensures var row, counted := Life(id, first, actions), CountedInputs(id, first, actions);
            row.eventCount == |counted| && row.summary == counted[|counted| - 1].summary
  {
    hide Effect, Selects, Fails, Inside, Replay;
    if actions == [] {
      assert Life(id, first, actions) == Finished(InsertedRow(first), first);
    } else {
      CountAndSummary(id, first, Before(actions));
      EffectColumns(actions[|actions| - 1], Life(id, first, Before(actions)));
    }
  }

  lemma {:induction false} SeverityIsGreatest(id: Id, first: Input, actions: seq<Action>)
    ensures var row, applied := Life(id, first, actions), Applied(id, first, actions);
            && HasSeverity(first, applied, row.severity)
            && forall s :: HasSeverity(first, applied, s) ==> s.Rank() <= row.severity.Rank()
  {
    hide Effect, Selects, Fails;
    if actions == [] {
      assert Life(id, first, actions) == Finished(InsertedRow(first), first);
    } else {
      var a := actions[|actions| - 1];
      SeverityIsGreatest(id, first, Before(actions));
      EffectColumns(a, Life(id, first, Before(actions)));
      var applied := Applied(id, first, Before(actions));
      if Applies(id, first, actions) {
        assert forall x :: x in applied + [a] <==> x in applied || x == a;
      }
    }
  }

  /** The severity is the highest ever reported to the row, and was reported: from OK over WARNING and
      UNKNOWN to CRITICAL. */
  lemma {:induction false} SeverityIsHighest(id: Id, first: Input, actions: seq<Action>)
    ensures var row, applied := Life(id, first, actions), Applied(id, first, actions);
            && HasSeverity(first, applied, row.severity)
            && (row.severity == CRITICAL <==> HasSeverity(first, applied, CRITICAL))
            && (row.severity == UNKNOWN ==> !HasSeverity(first, applied, CRITICAL))
            && (row.severity == WARNING ==> !HasSeverity(first, applied, CRITICAL) && !HasSeverity(first, applied, UNKNOWN))
            && (row.severity == OK ==> forall s :: HasSeverity(first, applied, s) ==> s == OK)
  {
    hide Life, Applied, HasSeverity;
    SeverityIsGreatest(id, first, actions);
  }

  // ---------------------------------------------------------------------------------------
  // Marks and time stamps
  // ---------------------------------------------------------------------------------------

  function Acknowledgements(applied: seq<Action>): (r: seq<Action>)
    ensures forall x :: x in r ==> x.Acknowledge?
  {
    if applied == [] then []
    else
      var a := applied[|applied| - 1];
      Acknowledgements(Before(applied)) + if a.Acknowledge? then [a] else []
  }

  function Deliveries(applied: seq<Action>): (r: seq<Action>)
    ensures forall x :: x in r ==> x.Notify? && x.result.success
  {
    if applied == [] then []
    else
      var a := applied[|applied| - 1];
      Deliveries(Before(applied)) + if a.Notify? && a.result.success then [a] else []
  }

  /** The marks a row bears, given the acknowledgements and the successful deliveries. */
  ghost predicate Marked(row: Row, acks: seq<Action>, sent: seq<Action>)
    requires (forall a :: a in acks ==> a.Acknowledge?) && forall a :: a in sent ==> a.Notify?
  {
    && row.acknowledgedAt == (if acks == [] then None else Some(acks[0].now))
    && row.acknowledgedBy == (if acks == [] then None else Some(acks[|acks| - 1].operator))
    && row.notifiedAt == (if sent == [] then None else Some(sent[|sent| - 1].now))
  }

  lemma {:induction false} EffectMarks(a: Action, row: Row, acks: seq<Action>, sent: seq<Action>)
    requires (forall a :: a in acks ==> a.Acknowledge?) && (forall a :: a in sent ==> a.Notify?) && Marked(row, acks, sent)
    ensures Marked(Effect(a, row), if a.Acknowledge? then acks + [a] else acks,
                   if a.Notify? && a.result.success then sent + [a] else sent)
  {
    hide SortObjects, InputObjects, AffectedHosts, AffectedServices, Remaining, Push, PushOutcome, PutRecord;
  }

  /** An acknowledgement time is that of the first acknowledgement, the operator that of the last;
      the notification time is that of the last successful delivery. */
  lemma {:induction false} MarksTellHistory(id: Id, first: Input, actions: seq<Action>)
    ensures var applied := Applied(id, first, actions);
            Marked(Life(id, first, actions), Acknowledgements(applied), Deliveries(applied))
  {
    hide Effect, Selects, Fails, Marked;
    if actions == [] {
      FreshMarks(first);
    } else {
      MarksTellHistory(id, first, Before(actions));
      if Applies(id, first, actions) {
        var applied, a := Applied(id, first, Before(actions)), actions[|actions| - 1];
        EffectMarks(a, Life(id, first, Before(actions)), Acknowledgements(applied), Deliveries(applied));
        assert Before(applied + [a]) == applied;
        assert Acknowledgements(applied) + [] == Acknowledgements(applied) && Deliveries(applied) + [] == Deliveries(applied);
      } else {
        assert Applied(id, first, actions) == Applied(id, first, Before(actions));
      }
    }
  }

  lemma {:induction false} FreshMarks(first: Input)
    ensures Marked(Finished(InsertedRow(first), first), [], [])
  {}

  /** The end of a row is dated, by the operation that ended it, and only the end. */
  ghost predicate Dated(row: Row, applied: seq<Action>) {
    && (row.status.Open? ==>
          row.resolvedAt == None && row.closedAt == None
          && forall a :: a in applied ==> !a.Close? && !a.Expire?)
    && (row.status.Resolved? ==>
          row.closedAt == None && exists a :: a in applied && a.IsRecovery() && row.resolvedAt == Some(a.now))
    && (row.status.Closed? ==>
          row.resolvedAt == None && exists a :: a in applied && (a.Close? || a.Expire?) && row.closedAt == Some(a.now))
  }

  lemma {:induction false} EffectDates(a: Action, id: Id, row: Row, applied: seq<Action>)
    requires Dated(row, applied) && Selects(a, id, row)
    ensures Dated(Effect(a, row), applied + [a])
  {
    hide SortObjects, InputObjects, AffectedHosts, AffectedServices, Remaining, Push, PushOutcome, PutRecord;
    assert forall x :: x in applied + [a] <==> x in applied || x == a;
  }

  lemma {:induction false} EndIsDated(id: Id, first: Input, actions: seq<Action>)
    ensures Dated(Life(id, first, actions), Applied(id, first, actions))
  {
    hide Effect, Selects, Fails;
    if actions == [] {
      assert Life(id, first, actions) == Finished(InsertedRow(first), first);
    } else {
      EndIsDated(id, first, Before(actions));
      if Applies(id, first, actions) {
        EffectDates(actions[|actions| - 1], id, Life(id, first, Before(actions)), Applied(id, first, Before(actions)));
      }
    }
  }

  // ---------------------------------------------------------------------------------------
  // Decision context
  // ---------------------------------------------------------------------------------------

  /** The fingerprint and source an operation leaves in the decision context, if it names any. */
  function Names(a: Action): Option<(Text, Text)> {
    match a
    case Problem(input) => Some((input.fingerprint, input.source))
    case HostRecovery(_, fingerprint, source, _) => Some((fingerprint, source))
    case ServiceRecovery(_, _, fingerprint, source, _) => Some((fingerprint, source))
    case _ => None
  }

  function LastNamed(first: Input, applied: seq<Action>): (Text, Text) {
    if applied == [] then (first.fingerprint, first.source)
    else if Names(applied[|applied| - 1]).Some? then Names(applied[|applied| - 1]).value
    else LastNamed(first, Before(applied))
  }

  ghost predicate Explains(row: Row, named: (Text, Text)) {
    && row.context.fingerprint == Some(named.0) && row.context.source == Some(named.1)
    && row.context.eventCount == Some(row.eventCount)
  }

  lemma {:induction false} EffectContext(a: Action, row: Row, named: (Text, Text))
    requires Explains(row, named) && !Fails(a, row)
    ensures Explains(Effect(a, row), if Names(a).Some? then Names(a).value else named)
  {
    hide Forbidden, SortObjects, InputObjects, AffectedHosts, AffectedServices, Remaining, Push, PushOutcome, PutRecord;
  }

  /** The decision context names the fingerprint and source of the last problem or recovery that
      changed the row, and the current event count. */
  lemma {:induction false} ContextTellsLast(id: Id, first: Input, actions: seq<Action>)
    ensures Explains(Life(id, first, actions), LastNamed(first, Applied(id, first, actions)))
  {
    hide Effect, Selects, Fails, Explains;
    if actions == [] {
      FreshContext(first);
    } else {
      ContextTellsLast(id, first, Before(actions));
      var applied, a := Applied(id, first, Before(actions)), actions[|actions| - 1];
      if Applies(id, first, actions) {
        EffectContext(a, Life(id, first, Before(actions)), LastNamed(first, applied));
        assert Before(applied + [a]) == applied;
      } else {
        assert Applied(id, first, actions) == applied;
      }
    }
  }

  lemma {:induction false} FreshContext(first: Input)
    ensures Explains(Finished(InsertedRow(first), first), (first.fingerprint, first.source))
  {}

  // ---------------------------------------------------------------------------------------
  // Staleness
  // ---------------------------------------------------------------------------------------

  lemma {:induction false} RunLatest(os: seq<Occurrence>)
    requires os != []
    ensures Run(os).lastUpdate == Latest(os)
    ensures Run(os).window.seconds == os[|os| - 1].seconds
  {
    if |os| > 1 { RunLatest(os[..|os| - 1]); }
  }

  /** A row is stale at a moment exactly when every report that ever reached it, counted or not and
      in whatever order, is further back than the window of the last one to arrive. */
  lemma {:induction false} StaleIffQuiet(id: Id, first: Input, actions: seq<Action>, now: int)
    ensures var os := Occurrences(id, first, actions);
            && os != []
            && (Stale(Life(id, first, actions), now) <==>
                  forall o :: o in os ==> o.time < now - os[|os| - 1].seconds * MICROS)
  {
    hide Run, Latest, Life, Occurrences;
    var os := Occurrences(id, first, actions);
    WindowOfLife(id, first, actions);
    RunLatest(os);
    LatestBounds(os);
    var i :| 0 <= i < |os| && os[i].time == Latest(os);
    assert os[i] in os;
  }

  // ---------------------------------------------------------------------------------------
  // Affected hosts and services
  // ---------------------------------------------------------------------------------------

  /** `listed` shows the smallest of `all`, as many as the bound allows, in order. */
  ghost predicate Smallest(listed: seq<Text>, all: iset<Text>, bound: nat) {
    && SortedBy(Less, listed)
    && (forall t :: t in listed ==> t in all)
    && |listed| <= bound
    && (|listed| < bound ==> forall t :: t in all ==> t in listed)
    && (forall t, u :: t in listed && u in all && u !in listed ==> Less(t, u))
  }

  lemma {:induction false} TakeIsSmallest(texts: seq<Text>, bound: nat)
    ensures Smallest(Take(SortUnique(Less, texts), bound), (iset t | t in texts), bound)
  {
    hide Less, SortUnique, Take, Smallest;
    LessIsStrictTotal();
    SortUniqueSorts(Less, texts);
    var sorted := SortUnique(Less, texts);
    PrefixIsSmallest(sorted, bound);
    assert (iset t | t in sorted) == iset t | t in texts;
  }

  lemma {:induction false} PrefixIsSmallest(sorted: seq<Text>, bound: nat)
    requires SortedBy(Less, sorted)
    ensures Smallest(Take(sorted, bound), (iset t | t in sorted), bound)
  {
    hide Less;
    var listed := Take(sorted, bound);
    forall t, u | t in listed && u in sorted && u !in listed ensures Less(t, u) {
      var j :| 0 <= j < |sorted| && sorted[j] == u;
      var i :| 0 <= i < |listed| && listed[i] == t;
      assert forall k :: 0 <= k < |listed| ==> sorted[k] == listed[k] && listed[k] in listed;
      assert i < |listed| <= j;
    }
    forall t | t in listed ensures t in sorted {
      var i :| 0 <= i < |listed| && listed[i] == t;
      assert sorted[i] in sorted;
    }
  }

  ghost predicate LiveHost(first: Input, actions: seq<Action>, t: Text) {
    exists o :: Live(first, actions, o) && o.host == t
  }

  ghost predicate LiveService(first: Input, actions: seq<Action>, t: Text) {
    exists o :: Live(first, actions, o) && o.service.Some? && o.service.value == t
  }

  /** While the incident is OPEN, its host and service columns show the smallest hosts and services
      reported after the last recovery covering them, at most a hundred of each. */
  lemma {:induction false} AffectedColumns(id: Id, first: Input, actions: seq<Action>)
    requires Lives.AllValid(first, actions) && Life(id, first, actions).status.Open?
    ensures Smallest(Life(id, first, actions).hosts, (iset t | LiveHost(first, actions, t)), 100)
    ensures Smallest(Life(id, first, actions).services, (iset t | LiveService(first, actions, t)), 100)
  {
    hide Live, Life, SortUnique, Take, Smallest, HostsIn, ServicesIn;
    var row := Life(id, first, actions);
    LifeValid(id, first, actions);
    Membership(id, first, actions);
    HostsInMembers(row.objects);
    ServicesInMembers(row.objects);
    TakeIsSmallest(HostsIn(row.objects), MAX_AFFECTED);
    TakeIsSmallest(ServicesIn(row.objects), MAX_AFFECTED);
    assert (iset t | LiveHost(first, actions, t)) == iset t | t in HostsIn(row.objects);
    assert (iset t | LiveService(first, actions, t)) == iset t | t in ServicesIn(row.objects);
  }
}
