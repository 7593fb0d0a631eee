/** Concurrent transactions over the incident table.

    One transaction runs one repository operation and then commits or aborts. The steps are those
    of a READ COMMITTED database: an insert is refused by a committed OPEN row of the same key and
    waits for an uncommitted one; a selection fixes its candidate rows when it starts, locks them
    one at a time and checks the WHERE clause again on the version it locked; updates are computed
    from the versions read under lock and stay invisible until the commit. A transaction may abort
    at any moment (a deadlock, a lost connection, a refused note, or a selection that finds no row).
  */
module Transactions {
  import opened Order
  import opened Windows
  import opened Incidents
  import opened Store

  type TxId = nat

  datatype Phase =
    | Ready
    | HoldsInsert(id: Id)
    | Conflicted
    | Picking(left: set<Id>)
    | Ended

  /** `seen` holds the rows read under lock, `written` the pending updates. `missed` records the
      rows that came to satisfy the WHERE clause, by commits of others, after the selection started. */
  datatype Tx = Tx(action: Action, phase: Phase, seen: Rows, written: Rows, missed: set<Id>)

  /** One committed transaction: the rows it updated, or the row it inserted, and whether a
      notification dispatch was planned. */
  datatype Entry = Entry(action: Action, touched: set<Id>, inserted: Option<Id>, planned: bool)

  datatype World = World(rows: Rows, txs: map<TxId, Tx>, log: seq<Entry>)

  datatype Step =
    | Insert(tx: TxId, id: Id)
    | Conflict(tx: TxId)
    | Snapshot(tx: TxId, chosen: set<Id>)
    | LockRow(tx: TxId, id: Id)
    | DropRow(tx: TxId, id: Id)
    | Write(tx: TxId, id: Id)
    | Commit(tx: TxId)
    | Abort(tx: TxId)

  function Begin(action: Action): Tx {
    Tx(action, Ready, map[], map[], {})
  }

  // ---------------------------------------------------------------------------------------
  // Steps
  // ---------------------------------------------------------------------------------------

  predicate Locked(w: World, id: Id) {
    exists t :: t in w.txs && id in w.txs[t].seen
  }

  /** Some transaction holds an uncommitted insert with this key. */
  predicate PendingKey(w: World, input: Input) {
    exists t :: t in w.txs && w.txs[t].phase.HoldsInsert? && w.txs[t].action.Problem?
                && w.txs[t].action.input.rule == input.rule && w.txs[t].action.input.group == input.group
  }

  predicate FreshId(w: World, id: Id) {
    id !in w.rows && forall t :: t in w.txs && w.txs[t].phase.HoldsInsert? ==> w.txs[t].phase.id != id
  }

  predicate Committable(tx: Tx) {
    || tx.phase.HoldsInsert?
    || (tx.phase.Picking? && tx.phase.left == {} && tx.written.Keys == tx.seen.Keys
        && (tx.action.Problem? ==> tx.seen != map[]))
  }

  /** What the acting transaction and the committed rows must look like for a step. */
  predicate Permits(rows: Rows, tx: Tx, s: Step) {
    match s
    case Insert(_, id) => tx.action.Problem? && tx.phase.Ready? && Selected(tx.action, rows) == {} && id !in rows
    case Conflict(_) => tx.action.Problem? && tx.phase.Ready? && Selected(tx.action, rows) != {}
    case Snapshot(_, chosen) =>
      (if tx.action.Problem? then tx.phase.Conflicted? else tx.phase.Ready?)
      && (if tx.action.Expire? then chosen <= Selected(tx.action, rows) else chosen == Selected(tx.action, rows))
    case LockRow(_, id) => tx.phase.Picking? && id in tx.phase.left && id in rows && Selects(tx.action, id, rows[id])
    case DropRow(_, id) =>
      tx.phase.Picking? && id in tx.phase.left && (tx.action.Expire? || id !in Selected(tx.action, rows))
    case Write(_, id) =>
      tx.phase.Picking? && tx.phase.left == {} && id in tx.seen && id !in tx.written && !Fails(tx.action, tx.seen[id])
    case Commit(_) => Committable(tx)
    case Abort(_) => !tx.phase.Ended?
  }

  /** An insert waits for an uncommitted one of its key; a row lock waits for the lock of another.
      Only an expiry skips a locked row; other selections wait before they look again. */
  predicate Enabled(w: World, s: Step) {
    && s.tx in w.txs
    && Permits(w.rows, w.txs[s.tx], s)
    && (s.Insert? ==> !PendingKey(w, w.txs[s.tx].action.input) && FreshId(w, s.id))
    && (s.LockRow? ==> !Locked(w, s.id))
    && (s.DropRow? && !w.txs[s.tx].action.Expire? ==> !Locked(w, s.id))
  }

  function After(rows: Rows, tx: Tx): Rows
    requires Committable(tx)
  {
    if tx.phase.HoldsInsert? && tx.action.Problem? then
      rows[tx.phase.id := Finished(InsertedRow(tx.action.input), tx.action.input)]
    else rows + tx.written
  }

  /** The dispatch decision of a committing problem transaction. */
  predicate PlansDispatch(tx: Tx) {
    tx.action.Problem? &&
    if tx.phase.HoldsInsert? then StartOutcome(tx.action.input.Occurrence()).Planned()
    else exists id :: id in tx.seen && PushOutcome(tx.seen[id].agg, tx.action.input.Occurrence()).Planned()
  }

  function EntryOf(tx: Tx): Entry {
    Entry(tx.action, tx.written.Keys, if tx.phase.HoldsInsert? then Some(tx.phase.id) else None, PlansDispatch(tx))
  }

  function Retire(tx: Tx): Tx {
    Tx(tx.action, Ended, map[], map[], {})
  }

  /** Others notice which rows a commit has newly brought under their WHERE clause. */
  function Notice(tx: Tx, before: Rows, after: Rows): Tx {
    if tx.phase.Picking? then
      tx.(missed := tx.missed + (Selected(tx.action, after) - Selected(tx.action, before)))
    else tx
  }

  /** The acting transaction after a step that is not a commit. */
  function Local(rows: Rows, tx: Tx, s: Step): Tx
    requires Permits(rows, tx, s) && !s.Commit?
  {
    match s
    case Insert(_, id) => tx.(phase := HoldsInsert(id))
    case Conflict(_) => tx.(phase := Conflicted)
    case Snapshot(_, chosen) => tx.(phase := Picking(chosen))
    case LockRow(_, id) => tx.(phase := Picking(tx.phase.left - {id}), seen := tx.seen[id := rows[id]])
    case DropRow(_, id) => tx.(phase := Picking(tx.phase.left - {id}))
    case Write(_, id) => tx.(written := tx.written[id := Effect(tx.action, tx.seen[id])])
    case Abort(_) => Retire(tx)
  }

  function Apply(w: World, s: Step): World
    requires Enabled(w, s)
  {
    var tx := w.txs[s.tx];
    if s.Commit? then
      var rows := After(w.rows, tx);
      World(rows, map u | u in w.txs :: if u == s.tx then Retire(tx) else Notice(w.txs[u], w.rows, rows),
            w.log + [EntryOf(tx)])
    else w.(txs := w.txs[s.tx := Local(w.rows, tx, s)])
  }

  /** A table and transactions that have not started. */
  ghost predicate Initial(w: World) {
    RowsValid(w.rows) && w.log == []
    && forall t :: t in w.txs ==> w.txs[t] == Begin(w.txs[t].action) && ActionValid(w.txs[t].action)
  }

  ghost predicate Runs(w: World, steps: seq<Step>)
    decreases |steps|, 0
  {
    steps != [] ==> Runs(w, steps[..|steps| - 1]) && Enabled(Reach(w, steps[..|steps| - 1]), steps[|steps| - 1])
  }

  /** The world after an interleaving. */
  ghost function Reach(w: World, steps: seq<Step>): World
    requires Runs(w, steps)
    decreases |steps|, 1
  {
    if steps == [] then w else Apply(Reach(w, steps[..|steps| - 1]), steps[|steps| - 1])
  }

  // ---------------------------------------------------------------------------------------
  // Serial execution
  // ---------------------------------------------------------------------------------------

  /** What one committed transaction does when it runs alone. */
  function Atomic(rows: Rows, e: Entry): Rows {
    if e.inserted.Some? && e.action.Problem? then
      rows[e.inserted.value := Finished(InsertedRow(e.action.input), e.action.input)]
    else Updates(e.action, e.touched, rows)
  }

  function SerialRun(rows: Rows, log: seq<Entry>): Rows {
    if log == [] then rows else Atomic(SerialRun(rows, log[..|log| - 1]), log[|log| - 1])
  }

  /** The entry is what the operation itself would do to this table: a problem inserts or updates
      the row of its key, and no other operation touches a row that its WHERE clause does not pick. */
  ghost predicate Legitimate(rows: Rows, e: Entry) {
    && ActionValid(e.action)
    && e.touched <= Selected(e.action, rows)
    && (forall id :: id in e.touched ==> !Fails(e.action, rows[id]))
    && (e.inserted.Some? ==> e.action.Problem? && e.inserted.value !in rows && e.touched == {} && Selected(e.action, rows) == {})
    && (e.action.Problem? && e.inserted.None? ==> e.touched == Selected(e.action, rows) && exists id :: e.touched == {id})
  }

  ghost predicate LegitimateLog(rows: Rows, log: seq<Entry>) {
    forall i :: 0 <= i < |log| ==> Legitimate(SerialRun(rows, log[..i]), log[i])
  }

  // ---------------------------------------------------------------------------------------
  // The invariant
  // ---------------------------------------------------------------------------------------

  /** What a transaction has read under lock is still what is stored, and its updates come from that. */
  ghost predicate ReadsCurrent(rows: Rows, tx: Tx) {
    && (forall id :: id in tx.seen ==> id in rows && tx.seen[id] == rows[id] && Selects(tx.action, id, rows[id]))
    && (forall id :: id in tx.written ==>
          id in tx.seen && tx.written[id] == Effect(tx.action, tx.seen[id]) && !Fails(tx.action, tx.seen[id]))
    && (tx.phase.Picking? || tx.seen == map[])
  }

  /** A pending insert still has no OPEN row against it. */
  ghost predicate ClaimsFree(rows: Rows, tx: Tx) {
    tx.phase.HoldsInsert? ==> tx.action.Problem? && tx.phase.id !in rows && Selected(tx.action, rows) == {}
  }

  /** No row that satisfies the WHERE clause has been lost sight of. */
  ghost predicate Tracked(rows: Rows, tx: Tx) {
    tx.phase.Picking? && !tx.action.Expire? ==>
      Selected(tx.action, rows) <= tx.phase.left + tx.seen.Keys + tx.missed
  }

  ghost predicate TxValid(rows: Rows, tx: Tx) {
    ActionValid(tx.action) && ReadsCurrent(rows, tx) && ClaimsFree(rows, tx) && Tracked(rows, tx)
  }

  /** Row locks and pending inserts exclude one another. */
  ghost predicate Exclusive(w: World) {
    && (forall t, u :: t in w.txs && u in w.txs && t != u ==> w.txs[t].seen.Keys !! w.txs[u].seen.Keys)
    && (forall t, u :: t in w.txs && u in w.txs && t != u && w.txs[t].phase.HoldsInsert? && w.txs[u].phase.HoldsInsert?
          ==> w.txs[t].phase.id != w.txs[u].phase.id && !SameKey(w.txs[t].action, w.txs[u].action))
  }

  predicate SameKey(a: Action, b: Action) {
    a.Problem? && b.Problem? && a.input.rule == b.input.rule && a.input.group == b.input.group
  }

  ghost predicate Inv(w: World) {
    && RowsValid(w.rows)
    && (forall t :: t in w.txs ==> TxValid(w.rows, w.txs[t]))
    && Exclusive(w)
  }

  lemma {:induction false} InitialInv(w: World)
    requires Initial(w)
    ensures Inv(w)
  {
    hide RowsValid, ActionValid, Selected, Effect, Selects, Fails;
    assert forall t :: t in w.txs ==> w.txs[t].phase == Ready && w.txs[t].seen == map[] && w.txs[t].written == map[];
  }

  /** Steps that change only the acting transaction. */
  lemma {:induction false} LocalStep(w: World, s: Step)
    requires Inv(w) && Enabled(w, s) && !s.Commit?
    ensures Inv(Apply(w, s)) && Apply(w, s).rows == w.rows && Apply(w, s).log == w.log
  {
    hide RowsValid, TxValid, Local, Exclusive, Permits, Locked, PendingKey, FreshId;
    assert TxValid(w.rows, w.txs[s.tx]);
    LocalTx(w.rows, w.txs[s.tx], s);
    LocalExclusive(w, s);
  }

  lemma {:induction false} LocalTx(rows: Rows, tx: Tx, s: Step)
    requires TxValid(rows, tx) && Permits(rows, tx, s) && !s.Commit?
    ensures TxValid(rows, Local(rows, tx, s))
  {
    hide TxValid, Permits, Local;
    if s.LockRow? || s.DropRow? || s.Write? { LocalRow(rows, tx, s); } else { LocalPhase(rows, tx, s); }
  }

  lemma {:induction false} LocalPhase(rows: Rows, tx: Tx, s: Step)
    requires TxValid(rows, tx) && Permits(rows, tx, s) && !s.Commit? && !s.LockRow? && !s.DropRow? && !s.Write?
    ensures TxValid(rows, Local(rows, tx, s))
  {
    hide Effect, Fails, ActionValid, Selects;
  }

  lemma {:induction false} LocalRow(rows: Rows, tx: Tx, s: Step)
    requires TxValid(rows, tx) && Permits(rows, tx, s) && (s.LockRow? || s.DropRow? || s.Write?)
    ensures TxValid(rows, Local(rows, tx, s))
  {
    hide Effect, Fails, ActionValid, Selects;
    if s.LockRow? { LockKeepsTracked(rows, tx, s); }
  }

  lemma {:induction false} LockKeepsTracked(rows: Rows, tx: Tx, s: Step)
    requires Tracked(rows, tx) && s.LockRow? && Permits(rows, tx, s)
    ensures Tracked(rows, Local(rows, tx, s))
  {
    hide Selects;
  }

  lemma {:induction false} LocalExclusive(w: World, s: Step)
    requires Exclusive(w) && (forall t :: t in w.txs ==> TxValid(w.rows, w.txs[t])) && Enabled(w, s) && !s.Commit?
    ensures Exclusive(Apply(w, s))
  {
    hide TxValid, Local, Selected, Permits, Locked, PendingKey, FreshId, Exclusive;
    var w' := Apply(w, s);
    forall t | t in w.txs && t != s.tx ensures w'.txs[t] == w.txs[t] && Separate(w'.txs[s.tx], w.txs[t]) {
      LocalApart(w, s, t);
    }
    OneChanged(w, w', s.tx);
  }

  /** Two transactions hold no row and no key in common. */
  ghost predicate Separate(a: Tx, b: Tx) {
    && a.seen.Keys !! b.seen.Keys
    && (a.phase.HoldsInsert? && b.phase.HoldsInsert? ==> a.phase.id != b.phase.id && !SameKey(a.action, b.action))
  }

  lemma {:induction false} OneChanged(w: World, w': World, t0: TxId)
    requires Exclusive(w) && w'.txs.Keys == w.txs.Keys && t0 in w.txs
    requires forall t :: t in w.txs && t != t0 ==> w'.txs[t] == w.txs[t] && Separate(w'.txs[t0], w.txs[t])
    ensures Exclusive(w')
  {
    forall t, u | t in w'.txs && u in w'.txs && t != u ensures Separate(w'.txs[t], w'.txs[u]) {}
  }

  /** A step takes no row and no key that another transaction holds. */
  lemma {:induction false} LocalApart(w: World, s: Step, t: TxId)
    requires Exclusive(w) && Enabled(w, s) && !s.Commit? && t in w.txs && t != s.tx
    ensures Separate(Local(w.rows, w.txs[s.tx], s), w.txs[t])
  {
    hide Selected, Effect, Fails, Selects;
    assert s.LockRow? ==> s.id !in w.txs[t].seen;
  }

  /** A commit writes rows that only the committing transaction had locked. */
  lemma {:induction false} CommitRows(w: World, t: TxId)
    requires Inv(w) && t in w.txs && Committable(w.txs[t])
    ensures var e, rows := EntryOf(w.txs[t]), After(w.rows, w.txs[t]);
            && rows == Atomic(w.rows, e)
            && Legitimate(w.rows, e)
            && RowsValid(rows)
  {
    hide RowsValid, Exclusive, TxValid, Committable;
    var tx := w.txs[t];
    assert TxValid(w.rows, tx);
    if tx.phase.HoldsInsert? {
      CommitInsert(w.rows, tx);
    } else {
      CommitUpdates(w.rows, tx);
    }
  }

  lemma {:induction false} CommitInsert(rows: Rows, tx: Tx)
    requires RowsValid(rows) && TxValid(rows, tx) && tx.phase.HoldsInsert?
    ensures var e := EntryOf(tx);
            After(rows, tx) == Atomic(rows, e) && Legitimate(rows, e) && RowsValid(After(rows, tx))
  {
    hide RowsValid, Effect, Selects, Fails, InsertedRow, Finished;
    InsertKeepsRowsValid(tx.action.input, tx.phase.id, rows);
    assert tx.written.Keys == {};
  }

  /** What a transaction wrote is its operation's effect on the stored rows. */
  lemma {:induction false} WrittenIsUpdate(rows: Rows, tx: Tx)
    requires ReadsCurrent(rows, tx)
    ensures rows + tx.written == Updates(tx.action, tx.written.Keys, rows)
    ensures forall id :: id in tx.written ==> id in rows && Selects(tx.action, id, rows[id]) && !Fails(tx.action, rows[id])
  {
    hide Effect, Selects, Fails;
  }

  lemma {:induction false} CommitUpdates(rows: Rows, tx: Tx)
    requires RowsValid(rows) && TxValid(rows, tx) && !tx.phase.HoldsInsert? && Committable(tx)
    ensures var e := EntryOf(tx);
            After(rows, tx) == Atomic(rows, e) && Legitimate(rows, e) && RowsValid(After(rows, tx))
  {
    hide RowsValid, Updates, Selects, Fails, ActionValid, InsertedRow, Finished, PlansDispatch, Tracked, ClaimsFree;
    WrittenIsUpdate(rows, tx);
    UpdatesKeepValid(tx.action, tx.written.Keys, rows);
    if tx.action.Problem? {
      var id :| id in tx.seen;
      assert id in Selected(tx.action, rows);
      UniqueIndex(rows);
      ProblemSelectsOne(tx.action.input, id, rows);
      assert tx.seen.Keys == {id};
    }
  }

  lemma {:induction false} UniqueIndex(rows: Rows)
    requires RowsValid(rows)
    ensures UniqueOpen(rows)
  {}

  /** A commit leaves the view of every other transaction valid. */
  lemma {:induction false} CommitOthers(w: World, t: TxId, u: TxId)
    requires Inv(w) && t in w.txs && u in w.txs && t != u && Committable(w.txs[t])
    ensures var rows := After(w.rows, w.txs[t]);
            TxValid(rows, Notice(w.txs[u], w.rows, rows))
  {
    hide RowsValid, Effect, Fails, Selects, Exclusive, After, ReadsCurrent;
    var rows := After(w.rows, w.txs[t]);
    var other := w.txs[u];
    assert TxValid(w.rows, other);
    CommitKeepsReads(w, t, u);
    NoticeReads(other, w.rows, rows);
    if other.phase.HoldsInsert? { KeyStaysFree(w, t, u); }
  }

  lemma {:induction false} CommitKeepsReads(w: World, t: TxId, u: TxId)
    requires Inv(w) && t in w.txs && u in w.txs && t != u && Committable(w.txs[t])
    ensures ReadsCurrent(After(w.rows, w.txs[t]), w.txs[u])
  {
    hide RowsValid, Effect, Fails, Selects, ClaimsFree, Tracked;
    var tx, other := w.txs[t], w.txs[u];
    var rows := After(w.rows, tx);
    assert TxValid(w.rows, tx) && TxValid(w.rows, other);
    assert ClaimsFree(w.rows, tx);
    assert tx.seen.Keys !! other.seen.Keys;
    forall id | id in other.seen ensures id in rows && rows[id] == w.rows[id] {
      CommitKeepsUnwritten(w.rows, tx, id);
    }
  }

  lemma {:induction false} CommitKeepsUnwritten(rows: Rows, tx: Tx, id: Id)
    requires Committable(tx) && ClaimsFree(rows, tx) && ReadsCurrent(rows, tx) && id in rows && id !in tx.seen
    ensures id in After(rows, tx) && After(rows, tx)[id] == rows[id]
  {
    hide Effect, Fails, Selects;
    assert id !in tx.written;
  }

  lemma {:induction false} NoticeReads(tx: Tx, before: Rows, after: Rows)
    requires ReadsCurrent(after, tx)
    ensures ReadsCurrent(after, Notice(tx, before, after))
  {
    hide Effect, Fails, Selects;
  }

  /** The key of a pending insert stays free of OPEN rows until that insert commits. */
  lemma {:induction false} KeyStaysFree(w: World, t: TxId, u: TxId)
    requires Inv(w) && t in w.txs && u in w.txs && t != u && Committable(w.txs[t]) && w.txs[u].phase.HoldsInsert?
    ensures var rows := After(w.rows, w.txs[t]);
            w.txs[u].phase.id !in rows && Selected(w.txs[u].action, rows) == {}
  {
    hide RowValid, Effect, Fails;
    var tx, other := w.txs[t], w.txs[u];
    var rows := After(w.rows, tx);
    assert TxValid(w.rows, tx) && TxValid(w.rows, other);
    forall id | id in rows ensures !Selects(other.action, id, rows[id]) {
      assert id in w.rows ==> id !in Selected(other.action, w.rows);
      if tx.phase.HoldsInsert? {
        assert !SameKey(tx.action, other.action);
      } else if id in tx.written {
        EffectKeepsKey(tx.action, tx.seen[id]);
      }
    }
  }

  lemma {:induction false} CommitStep(w: World, t: TxId)
    requires Inv(w) && Enabled(w, Commit(t))
    ensures Inv(Apply(w, Commit(t)))
  {
    hide TxValid, After, RowsValid, Exclusive, EntryOf, Notice, Retire;
    var w' := Apply(w, Commit(t));
    CommitRows(w, t);
    forall u | u in w'.txs ensures TxValid(w'.rows, w'.txs[u]) {
      if u == t { RetiredValid(w.rows, w'.rows, w.txs[t]); } else { CommitOthers(w, t, u); }
    }
    CommitExclusive(w, t);
  }

  lemma {:induction false} CommitExclusive(w: World, t: TxId)
    requires Exclusive(w) && Enabled(w, Commit(t))
    ensures Exclusive(Apply(w, Commit(t)))
  {
    hide Exclusive;
    CommitShrinks(w, t);
    FewerHeld(w, Apply(w, Commit(t)));
  }

  /** After a commit no transaction holds more than before. */
  ghost predicate HoldsNoMore(a: Tx, b: Tx) {
    a.action == b.action && b.seen.Keys <= a.seen.Keys && (b.phase.HoldsInsert? ==> b.phase == a.phase)
  }

  lemma {:induction false} CommitShrinks(w: World, t: TxId)
    requires Enabled(w, Commit(t))
    ensures Apply(w, Commit(t)).txs.Keys == w.txs.Keys
    ensures forall u :: u in w.txs ==> HoldsNoMore(w.txs[u], Apply(w, Commit(t)).txs[u])
  {
    hide After, EntryOf, Selected, Permits;
  }

  lemma {:induction false} FewerHeld(w: World, w': World)
    requires Exclusive(w) && w'.txs.Keys == w.txs.Keys
    requires forall u :: u in w.txs ==> HoldsNoMore(w.txs[u], w'.txs[u])
    ensures Exclusive(w')
  {
    hide SameKey;
    forall t, u | t in w'.txs && u in w'.txs && t != u ensures Separate(w'.txs[t], w'.txs[u]) {
      assert HoldsNoMore(w.txs[t], w'.txs[t]) && HoldsNoMore(w.txs[u], w'.txs[u]);
      assert Separate(w.txs[t], w.txs[u]);
    }
  }

  lemma {:induction false} RetiredValid(before: Rows, rows: Rows, tx: Tx)
    requires TxValid(before, tx)
    ensures TxValid(rows, Retire(tx))
  {}

  lemma {:induction false} StepInv(w: World, s: Step)
    requires Inv(w) && Enabled(w, s)
    ensures Inv(Apply(w, s))
  {
    hide Inv, Apply;
    if s.Commit? { CommitStep(w, s.tx); } else { LocalStep(w, s); }
  }

  /** Main theorem, safety: in every interleaving there is at most one OPEN row per rule and
      group, every row is consistent, no two transactions hold the same row, and whatever a
      transaction has read under lock is still what is stored, so no update is computed from a
      stale row. */
  lemma {:induction false} AlwaysSafe(w: World, steps: seq<Step>)
    requires Initial(w) && Runs(w, steps)
    ensures Inv(Reach(w, steps))
  {
    hide Inv, Apply, Enabled;
    if steps == [] {
      InitialInv(w);
    } else {
      AlwaysSafe(w, steps[..|steps| - 1]);
      StepInv(Reach(w, steps[..|steps| - 1]), steps[|steps| - 1]);
    }
  }

  /** Main theorem, serialisation: the table after any interleaving is the one obtained by running
      the committed transactions one after another in commit order, and each of them does there
      what its operation does alone to the rows it touched. */
  lemma {:induction false} SerialisedInCommitOrder(w: World, steps: seq<Step>)
    requires Initial(w) && Runs(w, steps)
    ensures Reach(w, steps).rows == SerialRun(w.rows, Reach(w, steps).log)
    ensures LegitimateLog(w.rows, Reach(w, steps).log)
  {
    hide Inv, Enabled, Legitimate, Atomic;
    if steps != [] {
      var before, s := steps[..|steps| - 1], steps[|steps| - 1];
      var u := Reach(w, before);
      SerialisedInCommitOrder(w, before);
      AlwaysSafe(w, before);
      SerialStep(w.rows, u, s);
    }
  }

  lemma {:induction false} SerialStep(rows0: Rows, w: World, s: Step)
    requires Inv(w) && Enabled(w, s)
    requires w.rows == SerialRun(rows0, w.log) && LegitimateLog(rows0, w.log)
    ensures var w' := Apply(w, s); w'.rows == SerialRun(rows0, w'.log) && LegitimateLog(rows0, w'.log)
  {
    hide Inv, Legitimate, Atomic, Apply, Local, Permits;
    if s.Commit? {
      var e := EntryOf(w.txs[s.tx]);
      CommitLog(w, s.tx);
      CommitRows(w, s.tx);
      LogSnoc(rows0, w.log, e);
    } else {
      LocalStep(w, s);
    }
  }

  lemma {:induction false} CommitLog(w: World, t: TxId)
    requires Enabled(w, Commit(t))
    ensures Committable(w.txs[t])
    ensures Apply(w, Commit(t)).rows == After(w.rows, w.txs[t])
    ensures Apply(w, Commit(t)).log == w.log + [EntryOf(w.txs[t])]
  {}

  lemma {:induction false} LogSnoc(rows0: Rows, log: seq<Entry>, e: Entry)
    requires LegitimateLog(rows0, log) && Legitimate(SerialRun(rows0, log), e)
    ensures SerialRun(rows0, log + [e]) == Atomic(SerialRun(rows0, log), e)
    ensures LegitimateLog(rows0, log + [e])
  {
    hide Legitimate, Atomic;
    var all := log + [e];
    assert all[..|log|] == log;
    forall i | 0 <= i < |all| ensures Legitimate(SerialRun(rows0, all[..i]), all[i]) {
      if i < |log| { assert all[..i] == log[..i]; }
    }
  }
}
