/** Where the condition on concurrent operations fails, some interleaving has no explanation at all.

    Given any recovery and any problem that reports an object it covers, a table, a third operation
    and an interleaving are constructed: the recovery has chosen its candidate rows, the problem
    adds the object to a second incident, another recovery changes both incidents, and only then
    does the first recovery lock and change the row it had chosen.
  */
module Anomaly {
  import opened Order
  import opened Incidents
  import opened Store
  import Lives
  import opened Transactions
  import opened Histories
  import opened Serialisability

  /** Names for hosts: `x`, `xx`, and so on. */
  function Xs(n: nat): (t: Text)
    ensures |t| == n
  {
    seq(n, _ => 120)
  }

  /** The shortest such name, of at least this length, that is not taken. */
  function Unused(taken: set<Text>, n: nat): nat {
    if Xs(n) in taken then Unused(taken - {Xs(n)}, n + 1) else n
  }

  type Recovery = a: Action | a.IsRecovery() witness HostRecovery([], [], [], 0)

  /** A recovery, a problem, and an object the one covers and the other reports. */
  datatype Case = Case(recovery: Recovery, input: Input, object_: Object) {
    ghost predicate Valid() {
      input.Valid() && Reports(input, object_) && Covers(recovery, object_) && !Refused(recovery)
    }

    function Problem(): Action {
      Action.Problem(input)
    }

    function Taken(): set<Text> {
      (set h | h in input.hosts) + {object_.host}
    }

    /** A host that neither operation is about, and another one. */
    function Far(): Text {
      Xs(Unused(Taken(), 1))
    }

    function Farther(): Text {
      Xs(Unused(Taken(), |Far()| + 1))
    }

    /** A fingerprint that neither operation has. */
    function Mark(): Text {
      if recovery.fingerprint != [97] && input.fingerprint != [97] then [97]
      else if recovery.fingerprint != [98] && input.fingerprint != [98] then [98]
      else [99]
    }

    function Other(): Action {
      HostRecovery(Far(), Mark(), [109], 0)
    }

    function Mover(): Object {
      Object(Far(), object_.service)
    }

    function Keeper(): Object {
      Object(Farther(), object_.service)
    }

    function Services(): seq<NonEmpty> {
      if object_.service.None? then [] else [object_.service.value]
    }

    function First(group: Text, hosts: seq<Text>): Input {
      Input(input.rule, group, input.severity, 0, input.summary, hosts, Services(), [102], [109], 1, 1, 1)
    }

    function RowOf(group: Text, hosts: seq<Text>): Row {
      Finished(InsertedRow(First(group, hosts)), First(group, hosts))
    }

    /** The first incident holds the covered object, the second one is that of the problem. */
    function RowA(): Row {
      RowOf(input.group + [120], SortUnique(Less, [object_.host, Far(), Farther()]))
    }

    function RowB(): Row {
      RowOf(input.group, [Far(), Farther()])
    }

    function Table(): Rows {
      map[0 := RowA(), 1 := RowB()]
    }
  }

  // ---------------------------------------------------------------------------------------
  // The two incidents
  // ---------------------------------------------------------------------------------------

  lemma {:induction false} UnusedIsNew(taken: set<Text>, n: nat)
    ensures Unused(taken, n) >= n && Xs(Unused(taken, n)) !in taken
  {
    if Xs(n) in taken { UnusedIsNew(taken - {Xs(n)}, n + 1); }
  }

  /** Fragments that may not be noted are not made of `x`, and longer than two characters. */
  lemma {:induction false} FragmentsAre()
    ensures forall f :: f in FORBIDDEN ==> |f| > 2 && f[0] != 120
  {
    assert 'r' as CodePoint == 114 && 'p' as CodePoint == 112 && 'c' as CodePoint == 99;
    assert 't' as CodePoint == 116 && 's' as CodePoint == 115;
  }

  lemma {:induction false} LoweredXs(n: nat)
    ensures Lowered(Xs(n)) == Xs(n)
  {
    if n > 0 {
      LoweredXs(n - 1);
      assert Xs(n)[1..] == Xs(n - 1);
    }
  }

  lemma {:induction false} XsNotable(n: nat)
    requires n > 0
    ensures Notable(Xs(n))
  {
    hide FORBIDDEN, Lowered;
    var m := if n <= MAX_NOTE then n else MAX_NOTE;
    assert Take(Xs(n), MAX_NOTE) == Xs(m);
    LoweredXs(m);
    FragmentsAre();
    forall f | f in FORBIDDEN ensures !Contains(Xs(m), f) {
      forall i: nat | i <= m ensures !OccursAt(Xs(m), f, i) {
        if i + |f| <= m { assert Xs(m)[i..i + |f|][0] == 120; }
      }
    }
  }

  lemma {:induction false} ShortStorable(c: CodePoint)
    ensures Storable([c])
  {
    hide FORBIDDEN;
    FragmentsAre();
    assert [c][1..] == [] && Lowered([]) == [];
    assert Lowered([c]) == LowerChar(c);
  }

  lemma {:induction false} LessCons(x: Text, y: Text)
    requires x != [] && y != [] && x[0] == y[0] && Less(x[1..], y[1..])
    ensures Less(x, y)
  {}

  lemma {:induction false} PrefixLess(a: Text, z: Text)
    requires z != []
    ensures Less(a, a + z)
  {
    if a == [] {
      assert Less([], z);
    } else {
      PrefixLess(a[1..], z);
      hide Less;
      assert (a + z)[1..] == a[1..] + z;
      LessCons(a, a + z);
    }
  }

  lemma {:induction false} FarHosts(c: Case)
    requires c.Valid()
    ensures c.Far() !in c.input.hosts && c.recovery.host == c.object_.host
    ensures c.object_.host != c.Far() && c.Far() != c.Farther() && c.object_.host != c.Farther()
    ensures Less(c.Far(), c.Farther())
    ensures !Covers(c.recovery, c.Mover()) && !Covers(c.recovery, c.Keeper())
    ensures Covers(c.Other(), c.Mover()) && !Covers(c.Other(), c.Keeper())
    ensures c.Mark() != c.recovery.fingerprint && c.Mark() != c.input.fingerprint
    ensures !Refused(c.Other())
  {
    hide Storable, Notable, Unused, Refused;
    var k := Unused(c.Taken(), 1);
    var m := Unused(c.Taken(), k + 1);
    UnusedIsNew(c.Taken(), 1);
    UnusedIsNew(c.Taken(), k + 1);
    assert Xs(m) == Xs(k) + Xs(m - k);
    PrefixLess(Xs(k), Xs(m - k));
    OtherTaken(c);
  }

  lemma {:induction false} OtherTaken(c: Case)
    ensures !Refused(c.Other())
  {
    hide Storable, Notable, Unused;
    UnusedIsNew(c.Taken(), 1);
    XsNotable(Unused(c.Taken(), 1));
    ShortStorable(97);
    ShortStorable(98);
    ShortStorable(99);
    ShortStorable(109);
  }

  lemma {:induction false} HostsOfA(c: Case)
    ensures var hosts := SortUnique(Less, [c.object_.host, c.Far(), c.Farther()]);
            hosts != [] && SortedBy(Less, hosts) && forall h :: h in hosts <==> h in [c.object_.host, c.Far(), c.Farther()]
  {
    LessIsStrictTotal();
    SortUniqueSorts(Less, [c.object_.host, c.Far(), c.Farther()]);
    hide Less;
    assert c.object_.host in SortUnique(Less, [c.object_.host, c.Far(), c.Farther()]);
  }

  lemma {:induction false} FirstRow(c: Case, group: Text, hosts: seq<Text>)
    requires hosts != [] && SortedBy(Less, hosts)
    ensures var row := c.RowOf(group, hosts);
            && RowValid(row) && row.status.Open? && row.group == group && row.rule == c.input.rule
            && forall x :: x in row.objects <==> x.service == c.object_.service && x.host in hosts
  {
    var first := c.First(group, hosts);
    assert first.Valid();
    InsertKeepsValid(first);
    InputObjectsAreReported(first);
  }

  /** Both incidents are OPEN, under their keys, and the keeper keeps them so. */
  ghost predicate Base(c: Case, rows: Rows) {
    && rows.Keys == {0, 1}
    && (forall id :: id in rows ==> Kept(c, rows[id]))
    && rows[0].group == c.input.group + [120] && rows[1].group == c.input.group
  }

  ghost predicate Kept(c: Case, row: Row) {
    RowValid(row) && row.status.Open? && c.Keeper() in row.objects && row.rule == c.input.rule
  }

  lemma {:induction false} RowAIs(c: Case)
    requires c.Valid()
    ensures Kept(c, c.RowA()) && c.RowA().group == c.input.group + [120]
    ensures c.object_ in c.RowA().objects && c.Mover() in c.RowA().objects
  {
    hide RowValid, SortUnique, Case.RowOf, Case.Far, Case.Farther, Covers;
    HostsOfA(c);
    var hosts := [c.object_.host, c.Far(), c.Farther()];
    assert hosts[0] in hosts && hosts[1] in hosts && hosts[2] in hosts;
    FirstRow(c, c.input.group + [120], SortUnique(Less, hosts));
  }

  lemma {:induction false} RowBIs(c: Case)
    requires c.Valid()
    ensures Kept(c, c.RowB()) && c.RowB().group == c.input.group && c.Mover() in c.RowB().objects
    ensures forall x :: x in c.RowB().objects ==> !Covers(c.recovery, x)
  {
    hide RowValid, Case.RowOf, Case.Far, Case.Farther, Covers;
    FarHosts(c);
    FirstRow(c, c.input.group, [c.Far(), c.Farther()]);
    forall x | x in c.RowB().objects ensures !Covers(c.recovery, x) {
      assert x == c.Mover() || x == c.Keeper();
    }
  }

  lemma {:induction false} TableIsBase(c: Case)
    requires c.Valid()
    ensures Base(c, c.Table()) && RowsValid(c.Table())
    ensures c.object_ in c.RowA().objects && c.Mover() in c.RowA().objects && c.Mover() in c.RowB().objects
    ensures forall x :: x in c.RowB().objects ==> !Covers(c.recovery, x)
  {
    hide RowValid, Case.RowA, Case.RowB, Covers;
    RowAIs(c);
    RowBIs(c);
    assert |c.input.group + [120]| == |c.input.group| + 1;
  }

  // ---------------------------------------------------------------------------------------
  // What the operations do to such incidents
  // ---------------------------------------------------------------------------------------

  ghost predicate Touches(a: Action, row: Row)
    requires a.IsRecovery()
  {
    exists x :: x in row.objects && Covers(a, x)
  }

  lemma {:induction false} RecoveryOn(c: Case, a: Action, row: Row)
    requires c.Valid() && (a == c.recovery || a == c.Other()) && Kept(c, row)
    ensures forall id :: Selects(a, id, row) <==> Touches(a, row)
    ensures var r := Effect(a, row);
            && Kept(c, r) && r.group == row.group
            && (forall x :: x in r.objects <==> x in row.objects && !Covers(a, x))
            && r.context.fingerprint == Some(a.fingerprint)
    ensures !Fails(a, row)
  {
    hide RowValid, Covers, Refused, Fails, Remaining, RecoveredRow, Case.Far, Case.Farther, Case.Mark, Case.Valid;
    FarHosts(c);
    Lives.RecoveryMembers(row, a);
    RecoveryKeepsValid(row, a);
    assert c.Keeper() in RecoveredRow(row, a).objects;
    assert !Refused(a) by { if a == c.recovery { NotRefused(c); } else { OtherTaken(c); } }
    FailsIff(a, row);
    FingerprintOf(row, a);
  }

  lemma {:induction false} NotRefused(c: Case)
    requires c.Valid()
    ensures !Refused(c.recovery)
  {}

  lemma {:induction false} FingerprintOf(row: Row, a: Action)
    requires a.IsRecovery() && !Refused(a)
    ensures RecoveredRow(row, a).context.fingerprint == Some(a.fingerprint)
    ensures RecoveredRow(row, a).rule == row.rule && RecoveredRow(row, a).group == row.group
  {
    hide Remaining, SortObjects, AffectedHosts, AffectedServices, Forbidden;
  }

  lemma {:induction false} ProblemOn(c: Case, row: Row)
    requires c.Valid() && Kept(c, row)
    ensures forall id :: Selects(c.Problem(), id, row) <==> row.group == c.input.group
    ensures var r := Effect(c.Problem(), row);
            && Kept(c, r) && r.group == row.group
            && (forall x :: x in r.objects <==> x in row.objects || Reports(c.input, x))
            && r.context.fingerprint == Some(c.input.fingerprint)
  {
    hide RowValid, Reports, UpdatedRow;
    UpdateKeepsValid(row, c.input);
    EffectKeepsKey(c.Problem(), row);
    UpdatedOpen(row, c.input);
  }

  lemma {:induction false} UpdatedOpen(row: Row, input: Input)
    ensures UpdatedRow(row, input).status == row.status
  {}

  predicate OneOf(c: Case, a: Action) {
    a == c.recovery || a == c.Problem() || a == c.Other()
  }

  /** One of the recoveries, run whole. */
  lemma {:induction false} RecoveryStep(c: Case, rows: Rows, e: Entry)
    requires c.Valid() && Base(c, rows) && Whole(rows, e) && (e.action == c.recovery || e.action == c.Other())
    ensures var after := Atomic(rows, e);
            && Base(c, after)
            && forall id :: id in rows ==>
                 && (forall x :: x in after[id].objects <==> x in rows[id].objects && !Covers(e.action, x))
                 && (Touches(e.action, rows[id]) ==> after[id].context.fingerprint == Some(e.action.fingerprint))
  {
    hide Selects, Effect, Kept, Covers, Atomic, Fails;
    var a := e.action;
    assert !a.Problem? && !a.Expire?;
    forall id | id in rows ensures !Fails(a, rows[id]) { RecoveryOn(c, a, rows[id]); }
    var after := Updates(a, Selected(a, rows), rows);
    forall id | id in rows
      ensures Kept(c, after[id]) && after[id].group == rows[id].group
      ensures forall x :: x in after[id].objects <==> x in rows[id].objects && !Covers(a, x)
      ensures Touches(a, rows[id]) ==> after[id].context.fingerprint == Some(a.fingerprint)
    {
      RecoveryOn(c, a, rows[id]);
      assert Selects(a, id, rows[id]) <==> Touches(a, rows[id]);
    }
  }

  /** The problem, run whole: it changes the second incident only. */
  lemma {:induction false} ProblemStep(c: Case, rows: Rows, e: Entry)
    requires c.Valid() && Base(c, rows) && Whole(rows, e) && e.action == c.Problem()
    ensures var after := Atomic(rows, e);
            && Base(c, after) && after[0] == rows[0] && after[1].context.fingerprint == Some(c.input.fingerprint)
  {
    hide Selects, Effect, Kept, Atomic;
    var a := e.action;
    ProblemOn(c, rows[0]);
    ProblemOn(c, rows[1]);
    assert |c.input.group + [120]| == |c.input.group| + 1;
    assert !Selects(a, 0, rows[0]) && Selects(a, 1, rows[1]);
    assert Selected(a, rows) == {1};
  }

  // ---------------------------------------------------------------------------------------
  // No serial order
  // ---------------------------------------------------------------------------------------

  /** What the interleaving leaves. */
  ghost predicate Anomalous(c: Case, rows: Rows) {
    && rows.Keys == {0, 1}
    && rows[0].context.fingerprint == Some(c.recovery.fingerprint)
    && rows[1].context.fingerprint == Some(c.Mark())
    && c.object_ in rows[1].objects
  }

  /** None of the three operations, run whole as the last one, leaves that. */
  lemma {:induction false} LastStep(c: Case, rows: Rows, e: Entry)
    requires c.Valid() && Base(c, rows) && Whole(rows, e) && OneOf(c, e.action)
    requires e.action == c.Other() ==> c.Mover() in rows[0].objects
    ensures !Anomalous(c, Atomic(rows, e))
  {
    hide Whole, Atomic, Kept, Covers, Case.Far, Case.Mark;
    FarHosts(c);
    if e.action == c.Problem() {
      ProblemStep(c, rows, e);
    } else {
      RecoveryStep(c, rows, e);
      assert e.action == c.Other() ==> Touches(e.action, rows[0]);
    }
  }

  /** Operations other than the second recovery leave its object in the first incident. */
  lemma {:induction false} EarlierStep(c: Case, rows: Rows, e: Entry)
    requires c.Valid() && Base(c, rows) && Whole(rows, e) && OneOf(c, e.action)
    ensures Base(c, Atomic(rows, e))
    ensures e.action != c.Other() && c.Mover() in rows[0].objects ==> c.Mover() in Atomic(rows, e)[0].objects
  {
    hide Whole, Atomic, Kept, Covers, Case.Far, Case.Mark;
    FarHosts(c);
    if e.action == c.Problem() {
      ProblemStep(c, rows, e);
    } else {
      RecoveryStep(c, rows, e);
    }
  }

  /** Three entries in some order of the three operations. */
  lemma {:induction false} ThreeInOrder(c: Case, es: seq<Entry>)
    requires c.Valid() && multiset(Acts(es)) == multiset{c.recovery, c.Problem(), c.Other()}
    ensures |es| == 3 && forall i :: 0 <= i < 3 ==> OneOf(c, es[i].action)
    ensures es[2].action == c.Other() ==> es[0].action != c.Other() && es[1].action != c.Other()
  {
    hide *;
    OtherDiffers(c);
    var acts := Acts(es);
    Permutation(acts, c.recovery, c.Problem(), c.Other());
    ActsAt(es);
    forall i | 0 <= i < 3 ensures OneOf(c, es[i].action) {
      IsOneOf(c, acts[i]);
    }
  }

  lemma {:induction false} OtherDiffers(c: Case)
    requires c.Valid()
    ensures c.Other() != c.recovery && c.Other() != c.Problem()
  {
    hide Case.Far, Case.Farther, Case.Mark, Covers, Case.Valid;
    FarHosts(c);
  }

  lemma {:induction false} ActsAt(es: seq<Entry>)
    ensures |Acts(es)| == |es| && forall i :: 0 <= i < |es| ==> Acts(es)[i] == es[i].action
  {}

  lemma {:induction false} IsOneOf(c: Case, a: Action)
    requires a == c.recovery || a == c.Problem() || a == c.Other()
    ensures OneOf(c, a)
  {}

  lemma {:induction false} Permutation(s: seq<Action>, x: Action, y: Action, z: Action)
    requires multiset(s) == multiset{x, y, z} && z != x && z != y
    ensures |s| == 3 && forall i :: 0 <= i < 3 ==> s[i] == x || s[i] == y || s[i] == z
    ensures s[2] == z ==> s[0] != z && s[1] != z
  {
    assert |multiset(s)| == |s| && |multiset{x, y, z}| == 3;
    assert s == [s[0], s[1], s[2]];
    assert multiset(s) == multiset{s[0], s[1], s[2]};
    forall i | 0 <= i < 3 ensures s[i] == x || s[i] == y || s[i] == z {
      assert s[i] in multiset(s);
    }
    assert multiset{x, y, z}[z] == 1;
  }

  /** No order of the three operations leaves the anomaly. */
  lemma {:induction false} NoOrderExplains(c: Case, es: seq<Entry>)
    requires c.Valid() && multiset(Acts(es)) == multiset{c.recovery, c.Problem(), c.Other()}
    requires WholeLog(c.Table(), es)
    ensures !Anomalous(c, SerialRun(c.Table(), es))
  {
    hide Whole, Atomic, Base, OneOf, Anomalous, Acts, Case.Valid, Case.Table, Case.Mover, RowsValid;
    ThreeInOrder(c, es);
    TableIsBase(c);
    TableRows(c);
    Unfold(c.Table(), es);
    var one := Atomic(c.Table(), es[0]);
    var two := Atomic(one, es[1]);
    EarlierStep(c, c.Table(), es[0]);
    EarlierStep(c, one, es[1]);
    LastStep(c, two, es[2]);
  }

  lemma {:induction false} TableRows(c: Case)
    ensures c.Table().Keys == {0, 1} && c.Table()[0] == c.RowA() && c.Table()[1] == c.RowB()
  {}

  lemma {:induction false} Unfold(rows: Rows, es: seq<Entry>)
    requires |es| == 3 && WholeLog(rows, es)
    ensures var one := Atomic(rows, es[0]);
            var two := Atomic(one, es[1]);
            && Whole(rows, es[0]) && Whole(one, es[1]) && Whole(two, es[2])
            && SerialRun(rows, es) == Atomic(two, es[2])
  {
    hide Whole, Atomic;
    assert es[..0] == [];
    assert es[..1][..0] == [] && es[..1][0] == es[0];
    assert es[..2][..1] == es[..1] && es[..2][1] == es[1];
    assert SerialRun(rows, es[..1]) == Atomic(rows, es[0]);
    assert SerialRun(rows, es[..2]) == Atomic(SerialRun(rows, es[..1]), es[1]);
  }

  // ---------------------------------------------------------------------------------------
  // The interleaving
  // ---------------------------------------------------------------------------------------

  function Three(r: Action, input: Input, other: Action): Actions {
    map[0 := r, 1 := Problem(input), 2 := other]
  }

  function Begun(c: Case): World {
    Start(c.Table(), Three(c.recovery, c.input, c.Other()))
  }

  // The rows on the way.
  function B1(c: Case): Row { Effect(c.Problem(), c.RowB()) }
  function A2(c: Case): Row { Effect(c.Other(), c.RowA()) }
  function B2(c: Case): Row { Effect(c.Other(), B1(c)) }
  function A3(c: Case): Row { Effect(c.recovery, A2(c)) }

  /** The rows the selections pick as the interleaving goes on, and the outcome. */
  lemma {:induction false} RowFacts(c: Case)
    requires c.Valid()
    ensures Selected(c.recovery, c.Table()) == {0} && Selected(c.Problem(), c.Table()) == {1}
    ensures Selected(c.Other(), map[0 := c.RowA(), 1 := B1(c)]) == {0, 1}
    ensures Selects(c.Problem(), 1, c.RowB()) && Selects(c.Other(), 0, c.RowA()) && Selects(c.Other(), 1, B1(c))
    ensures Selects(c.recovery, 0, A2(c))
    ensures Anomalous(c, map[0 := A3(c), 1 := B2(c)])
  {
    hide RowValid, Effect, RowsValid, Selects, Kept, Case.RowOf, Case.Far, Case.Farther, Case.Mark, Covers, Reports;
    FarHosts(c);
    TableIsBase(c);
    TableRows(c);
    assert Kept(c, c.Table()[0]) && Kept(c, c.Table()[1]);
    assert Touches(c.recovery, c.RowA()) && !Touches(c.recovery, c.RowB()) && Touches(c.Other(), c.RowA());
    RecoveryOn(c, c.recovery, c.RowA());
    RecoveryOn(c, c.recovery, c.RowB());
    RecoveryOn(c, c.Other(), c.RowA());
    ProblemOn(c, c.RowA());
    ProblemOn(c, c.RowB());
    assert |c.input.group + [120]| == |c.input.group| + 1;
    assert c.Mover() in B1(c).objects && c.object_ in B1(c).objects;
    RecoveryOn(c, c.Other(), B1(c));
    assert !Covers(c.Other(), c.object_) by { OtherHost(c); }
    assert c.object_ in A2(c).objects;
    RecoveryOn(c, c.recovery, A2(c));
  }

  lemma {:induction false} OtherHost(c: Case)
    requires c.object_.host != c.Far()
    ensures !Covers(c.Other(), c.object_)
  {}

  ghost predicate Is(w: World, t: TxId, action: Action, phase: Phase, seen: Rows, written: Rows) {
    t in w.txs && w.txs[t].action == action && w.txs[t].phase == phase && w.txs[t].seen == seen && w.txs[t].written == written
  }

  lemma {:induction false} NoFailure(c: Case)
    requires c.Valid()
    ensures forall row :: !Fails(c.Problem(), row) && !Fails(c.recovery, row) && !Fails(c.Other(), row)
  {
    hide Fails, Refused, Case.Far, Case.Mark;
    OtherTaken(c);
    NotRefused(c);
    forall row ensures !Fails(c.Problem(), row) && !Fails(c.recovery, row) && !Fails(c.Other(), row) {
      FailsIff(c.Problem(), row);
      FailsIff(c.recovery, row);
      FailsIff(c.Other(), row);
    }
  }

  /** The first recovery has chosen; the problem has committed. */
  ghost predicate AfterOne(c: Case, w: World) {
    && w.rows == map[0 := c.RowA(), 1 := B1(c)] && Acts(w.log) == [c.Problem()] && w.txs.Keys == {0, 1, 2}
    && Is(w, 0, c.recovery, Picking({0}), map[], map[]) && Is(w, 1, c.Problem(), Ended, map[], map[])
    && Is(w, 2, c.Other(), Ready, map[], map[])
  }

  /** The second recovery has committed as well. */
  ghost predicate AfterTwo(c: Case, w: World) {
    && w.rows == map[0 := A2(c), 1 := B2(c)] && Acts(w.log) == [c.Problem(), c.Other()] && w.txs.Keys == {0, 1, 2}
    && Is(w, 0, c.recovery, Picking({0}), map[], map[]) && Is(w, 1, c.Problem(), Ended, map[], map[])
    && Is(w, 2, c.Other(), Ended, map[], map[])
  }

  lemma {:induction false} ActsSnoc(log: seq<Entry>, e: Entry)
    ensures Acts(log + [e]) == Acts(log) + [e.action]
  {}

  /** The problem holds the second incident under lock. */
  ghost predicate Midway(c: Case, w: World) {
    && w.rows == c.Table() && w.log == [] && w.txs.Keys == {0, 1, 2}
    && Is(w, 0, c.recovery, Picking({0}), map[], map[])
    && Is(w, 1, c.Problem(), Picking({}), map[1 := c.RowB()], map[])
    && Is(w, 2, c.Other(), Ready, map[], map[])
  }

  /** The problem has met its key. */
  ghost predicate Early(c: Case, w: World) {
    && w.rows == c.Table() && w.log == [] && w.txs.Keys == {0, 1, 2}
    && Is(w, 0, c.recovery, Picking({0}), map[], map[]) && Is(w, 1, c.Problem(), Conflicted, map[], map[])
    && Is(w, 2, c.Other(), Ready, map[], map[])
  }

  lemma {:induction false} BegunIs(c: Case)
    ensures var w := Begun(c);
            && w.rows == c.Table() && w.log == [] && w.txs.Keys == {0, 1, 2}
            && w.txs[0] == Begin(c.recovery) && w.txs[1] == Begin(c.Problem()) && w.txs[2] == Begin(c.Other())
  {
    hide Case.Table, Case.Other;
  }

  /** A selection that is not a problem's starts from an untouched transaction. */
  lemma {:induction false} Chooses(w: World, t: TxId, a: Action, chosen: set<Id>)
    requires t in w.txs && w.txs[t] == Begin(a) && !a.Problem? && !a.Expire? && chosen == Selected(a, w.rows)
    ensures Enabled(w, Snapshot(t, chosen))
    ensures Apply(w, Snapshot(t, chosen)) == w.(txs := w.txs[t := Begin(a).(phase := Picking(chosen))])
  {
    hide Selected;
  }

  lemma {:induction false} Conflicts(w: World, t: TxId, a: Action)
    requires t in w.txs && w.txs[t] == Begin(a) && a.Problem? && Selected(a, w.rows) != {}
    ensures Enabled(w, Conflict(t))
    ensures Apply(w, Conflict(t)) == w.(txs := w.txs[t := Begin(a).(phase := Conflicted)])
  {
    hide Selected;
  }

  lemma {:induction false} IsEarly(c: Case, v: World, w: World)
    requires v.rows == c.Table() && v.log == [] && v.txs.Keys == {0, 1, 2}
    requires v.txs[0] == Begin(c.recovery) && v.txs[1] == Begin(c.Problem()) && v.txs[2] == Begin(c.Other())
    requires var u := v.(txs := v.txs[0 := Begin(c.recovery).(phase := Picking({0}))]);
             w == u.(txs := u.txs[1 := Begin(c.Problem()).(phase := Conflicted)])
    ensures Early(c, w)
  {
    hide Case.Table, Case.Other;
  }

  lemma {:induction false} KindsOf(c: Case)
    ensures c.Problem().Problem? && !c.recovery.Problem? && !c.recovery.Expire?
  {}

  lemma {:induction false} Meets(c: Case) returns (steps: seq<Step>)
    requires c.Valid()
    ensures Runs(Begun(c), steps) && Early(c, Reach(Begun(c), steps))
  {
    hide *;
    NoSteps(Begun(c));
    BegunIs(c);
    RowFacts(c);
    KindsOf(c);
    Chooses(Begun(c), 0, c.recovery, {0});
    steps := Proceed(Begun(c), [], Snapshot(0, {0}));
    Conflicts(Reach(Begun(c), steps), 1, c.Problem());
    steps := Proceed(Begun(c), steps, Conflict(1));
    IsEarly(c, Begun(c), Reach(Begun(c), steps));
  }

  lemma {:induction false} PartOne(c: Case) returns (steps: seq<Step>)
    requires c.Valid()
    ensures Runs(Begun(c), steps) && Midway(c, Reach(Begun(c), steps))
  {
    hide Effect, RowsValid, Selects, Selected, Fails, Anomalous, Runs, Reach, Begun, Case.RowA, Case.RowB, Case.Valid, Case.Other;
    RowFacts(c);
    steps := Meets(c);
    steps := Proceed(Begun(c), steps, Snapshot(1, {1}));
    steps := Proceed(Begun(c), steps, LockRow(1, 1));
  }

  lemma {:induction false} PartTwo(c: Case, before: seq<Step>) returns (steps: seq<Step>)
    requires c.Valid() && Runs(Begun(c), before) && Midway(c, Reach(Begun(c), before))
    ensures Runs(Begun(c), steps) && AfterOne(c, Reach(Begun(c), steps))
  {
    hide Effect, RowsValid, Selects, Selected, Fails, PlansDispatch, Anomalous, Runs, Reach, Begun;
    hide Case.RowA, Case.RowB, Case.Valid;
    NoFailure(c);
    steps := Proceed(Begun(c), before, Write(1, 1));
    var w := Reach(Begun(c), steps);
    assert w.rows + w.txs[1].written == map[0 := c.RowA(), 1 := B1(c)];
    ActsSnoc(w.log, EntryOf(w.txs[1]));
    steps := Proceed(Begun(c), steps, Commit(1));
  }

  /** The second recovery holds both incidents under lock. */
  ghost predicate Later(c: Case, w: World) {
    && w.rows == map[0 := c.RowA(), 1 := B1(c)] && Acts(w.log) == [c.Problem()] && w.txs.Keys == {0, 1, 2}
    && Is(w, 0, c.recovery, Picking({0}), map[], map[]) && Is(w, 1, c.Problem(), Ended, map[], map[])
    && Is(w, 2, c.Other(), Picking({}), map[0 := c.RowA(), 1 := B1(c)], map[])
  }

  /** The second recovery has chosen both. */
  ghost predicate Chosen(c: Case, w: World) {
    && w.rows == map[0 := c.RowA(), 1 := B1(c)] && Acts(w.log) == [c.Problem()] && w.txs.Keys == {0, 1, 2}
    && Is(w, 0, c.recovery, Picking({0}), map[], map[]) && Is(w, 1, c.Problem(), Ended, map[], map[])
    && Is(w, 2, c.Other(), Picking({0, 1}), map[], map[])
  }

  lemma {:induction false} ChoosesBoth(c: Case, before: seq<Step>) returns (steps: seq<Step>)
    requires c.Valid() && Runs(Begun(c), before) && AfterOne(c, Reach(Begun(c), before))
    ensures Runs(Begun(c), steps) && Chosen(c, Reach(Begun(c), steps))
  {
    hide Effect, RowsValid, Selects, Selected, Fails, PlansDispatch, Anomalous, Runs, Reach, Begun;
    hide Case.RowA, Case.RowB, Case.Valid, B1, Acts;
    RowFacts(c);
    steps := Proceed(Begun(c), before, Snapshot(2, {0, 1}));
  }

  /** A row that nobody holds is locked. */
  lemma {:induction false} Locks(w: World, t: TxId, id: Id)
    requires t in w.txs && w.txs[t].phase.Picking? && id in w.txs[t].phase.left && id in w.rows
    requires Selects(w.txs[t].action, id, w.rows[id]) && forall u :: u in w.txs ==> id !in w.txs[u].seen
    ensures Enabled(w, LockRow(t, id))
    ensures var tx := w.txs[t];
            Apply(w, LockRow(t, id)) ==
              w.(txs := w.txs[t := tx.(phase := Picking(tx.phase.left - {id}), seen := tx.seen[id := w.rows[id]])])
  {
    hide Selects, Effect, Fails;
  }

  lemma {:induction false} PartThree(c: Case, before: seq<Step>) returns (steps: seq<Step>)
    requires c.Valid() && Runs(Begun(c), before) && AfterOne(c, Reach(Begun(c), before))
    ensures Runs(Begun(c), steps) && Later(c, Reach(Begun(c), steps))
  {
    hide Apply, Enabled, Runs, Reach, Begun, Selects, Selected, Anomalous, Effect;
    hide Case.RowA, Case.RowB, Case.Valid, Case.Other, B1, Acts;
    RowFacts(c);
    steps := ChoosesBoth(c, before);
    Locks(Reach(Begun(c), steps), 2, 0);
    steps := Proceed(Begun(c), steps, LockRow(2, 0));
    Locks(Reach(Begun(c), steps), 2, 1);
    steps := Proceed(Begun(c), steps, LockRow(2, 1));
  }

  lemma {:induction false} PartFour(c: Case, before: seq<Step>) returns (steps: seq<Step>)
    requires c.Valid() && Runs(Begun(c), before) && Later(c, Reach(Begun(c), before))
    ensures Runs(Begun(c), steps) && AfterTwo(c, Reach(Begun(c), steps))
  {
    hide Effect, RowsValid, Selects, Selected, Fails, PlansDispatch, Anomalous, Runs, Reach, Begun;
    hide Case.RowA, Case.RowB, Case.Valid, B1;
    NoFailure(c);
    steps := Proceed(Begun(c), before, Write(2, 0));
    steps := Proceed(Begun(c), steps, Write(2, 1));
    var w := Reach(Begun(c), steps);
    assert w.rows + w.txs[2].written == map[0 := A2(c), 1 := B2(c)];
    ActsSnoc(w.log, EntryOf(w.txs[2]));
    steps := Proceed(Begun(c), steps, Commit(2));
  }

  lemma {:induction false} PartFive(c: Case, before: seq<Step>) returns (steps: seq<Step>)
    requires c.Valid() && Runs(Begun(c), before) && AfterTwo(c, Reach(Begun(c), before))
    ensures Runs(Begun(c), steps)
    ensures var w := Reach(Begun(c), steps);
            w.rows == map[0 := A3(c), 1 := B2(c)] && Acts(w.log) == [c.Problem(), c.Other(), c.recovery]
  {
    hide Effect, RowsValid, Selects, Selected, Fails, PlansDispatch, Anomalous, Runs, Reach, Begun;
    hide Case.RowA, Case.RowB, Case.Valid, A2, B2;
    RowFacts(c);
    NoFailure(c);
    steps := Proceed(Begun(c), before, LockRow(0, 0));
    steps := Proceed(Begun(c), steps, Write(0, 0));
    var w := Reach(Begun(c), steps);
    assert w.rows + w.txs[0].written == map[0 := A3(c), 1 := B2(c)];
    ActsSnoc(w.log, EntryOf(w.txs[0]));
    steps := Proceed(Begun(c), steps, Commit(0));
  }

  // ---------------------------------------------------------------------------------------
  // The exact condition
  // ---------------------------------------------------------------------------------------

  /** The three operations all commit and no order of them explains the table, though the problem
      is no danger to the third operation, a recovery. */
  ghost predicate Unexplained(r: Action, input: Input, other: Action, rows: Rows, steps: seq<Step>) {
    var w := Start(rows, Three(r, input, other));
    && other.IsRecovery() && !Endangers(Problem(input), other)
    && Initial(w) && Runs(w, steps) && |Reach(w, steps).log| == 3
    && !Explained(rows, Reach(w, steps).log, Reach(w, steps).rows)
  }

  lemma {:induction false} OtherIsSafe(c: Case)
    requires c.Valid()
    ensures !Endangers(c.Problem(), c.Other())
  {
    FarHosts(c);
  }

  lemma {:induction false} BegunIsInitial(c: Case)
    requires c.Valid()
    ensures Initial(Begun(c))
  {
    hide RowsValid, Initial, Case.RowA, Case.RowB, Base;
    TableIsBase(c);
    StartIsInitial(c.Table(), Three(c.recovery, c.input, c.Other()));
  }

  lemma {:induction false} SameActs(c: Case, log: seq<Entry>)
    requires Acts(log) == [c.Problem(), c.Other(), c.recovery]
    ensures multiset(Acts(log)) == multiset{c.recovery, c.Problem(), c.Other()} && |log| == 3
  {}

  lemma {:induction false} GoesWrong(c: Case) returns (steps: seq<Step>)
    requires c.Valid()
    ensures Unexplained(c.recovery, c.input, c.Other(), c.Table(), steps)
  {
    hide *;
    steps := PartOne(c);
    steps := PartTwo(c, steps);
    steps := PartThree(c, steps);
    steps := PartFour(c, steps);
    steps := PartFive(c, steps);
    RowFacts(c);
    BegunIsInitial(c);
    OtherIsSafe(c);
    WrongOutcome(c, steps);
  }

  lemma {:induction false} WrongOutcome(c: Case, steps: seq<Step>)
    requires c.Valid() && Initial(Begun(c)) && Runs(Begun(c), steps) && !Endangers(c.Problem(), c.Other())
    requires Acts(Reach(Begun(c), steps).log) == [c.Problem(), c.Other(), c.recovery]
    requires Anomalous(c, Reach(Begun(c), steps).rows)
    ensures Unexplained(c.recovery, c.input, c.Other(), c.Table(), steps)
  {
    hide Initial, Runs, Reach, Anomalous, Acts, Endangers, Case.Valid, WholeLog, SerialRun, Start, Case.Table, Three;
    var w := Reach(Begun(c), steps);
    SameActs(c, w.log);
    forall es: seq<Entry> | multiset(Acts(es)) == multiset(Acts(w.log)) && WholeLog(c.Table(), es)
      ensures SerialRun(c.Table(), es) != w.rows
    {
      NoOrderExplains(c, es);
    }
  }

  lemma {:induction false} ThreeCompatible(r: Action, input: Input, other: Action)
    requires r.IsRecovery() && other.IsRecovery() && !Endangers(Problem(input), r) && !Endangers(Problem(input), other)
    ensures Compatible(Three(r, input, other)) && Untargeted(Three(r, input, other))
  {
    hide Reports, Covers;
  }

  /** Main theorem: a recovery and a problem can be part of an interleaving, with one more recovery
      that the problem does not disturb, which no order of the three operations explains, exactly
      when the problem reports an object that the recovery covers and the recovery is not refused. */
  lemma {:induction false} UnexplainedIffEndangered(r: Action, input: Input)
    requires r.IsRecovery() && input.Valid()
    ensures Endangers(Problem(input), r) <==> exists other, rows, steps :: Unexplained(r, input, other, rows, steps)
  {
    hide Unexplained;
    if Endangers(Problem(input), r) {
      var o :| Reports(input, o) && Covers(r, o);
      var c := Case(r, input, o);
      var steps := GoesWrong(c);
      assert Unexplained(r, input, c.Other(), c.Table(), steps);
    }
    forall other, rows, steps | Unexplained(r, input, other, rows, steps) ensures Endangers(Problem(input), r) {
      if !Endangers(Problem(input), r) { SafeIsExplained(r, input, other, rows, steps); }
    }
  }

  lemma {:induction false} SafeIsExplained(r: Action, input: Input, other: Action, rows: Rows, steps: seq<Step>)
    requires r.IsRecovery() && !Endangers(Problem(input), r)
    ensures !Unexplained(r, input, other, rows, steps)
  {
    hide Initial, Runs, Reach, Explained, Endangers, WholeRun, Three;
    if Unexplained(r, input, other, rows, steps) {
      ThreeCompatible(r, input, other);
      CompatibleIsWhole(rows, Three(r, input, other), steps);
      WholeRunIsExplained(Start(rows, Three(r, input, other)), steps);
    }
  }
}
