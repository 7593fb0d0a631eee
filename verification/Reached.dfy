/** Rows reached by concurrent transactions are lives: whatever is proved about one row under a
    sequence of operations holds of every row of every interleaving.
  */
module Reached {
  import opened Order
  import opened Incidents
  import opened Store
  import opened Lives
  import opened Transactions

  /** The input whose transaction inserted the row. */
  function InsertedBy(log: seq<Entry>, id: Id): Option<Input> {
    if log == [] then None
    else
      var e := log[|log| - 1];
      if e.inserted == Some(id) && e.action.Problem? then Some(e.action.input) else InsertedBy(log[..|log| - 1], id)
  }

  /** The committed operations that updated the row, in commit order. */
  function Touching(log: seq<Entry>, id: Id): seq<Action> {
    if log == [] then []
    else
      var e := log[|log| - 1];
      Touching(log[..|log| - 1], id) + if id in e.touched then [e.action] else []
  }

  /** The row is the life of its insertion and the operations that updated it. */
  ghost predicate IsLife(rows: Rows, log: seq<Entry>, id: Id) {
    if id in rows then
      var first := InsertedBy(log, id);
      first.Some? && Lives.AllValid(first.value, Touching(log, id)) && rows[id] == Life(id, first.value, Touching(log, id))
    else Touching(log, id) == []
  }

  lemma {:induction false} LifeSnoc(id: Id, first: Input, before: seq<Action>, a: Action)
    ensures Life(id, first, before + [a]) == Lives.Step(id, Life(id, first, before), a)
    ensures Lives.AllValid(first, before) && ActionValid(a) ==> Lives.AllValid(first, before + [a])
  {
    assert (before + [a])[..|before + [a]| - 1] == before;
  }

  /** What one legitimate entry does to one row. */
  lemma {:induction false} EntryOnRow(rows: Rows, e: Entry, id: Id)
    requires Legitimate(rows, e)
    ensures id in e.touched ==>
              && id in rows && ActionValid(e.action) && e.inserted != Some(id)
              && id in Atomic(rows, e) && Atomic(rows, e)[id] == Lives.Step(id, rows[id], e.action)
    ensures e.inserted == Some(id) ==>
              && id !in rows && e.action.Problem? && e.action.input.Valid() && id in Atomic(rows, e)
              && Atomic(rows, e)[id] == Finished(InsertedRow(e.action.input), e.action.input)
    ensures id !in e.touched && e.inserted != Some(id) ==>
              (id in Atomic(rows, e) <==> id in rows) && (id in rows ==> Atomic(rows, e)[id] == rows[id])
  {
    hide Effect, Selects, Fails, InsertedRow, Finished, Input.Valid;
    if id in e.touched { assert id in Selected(e.action, rows); }
  }

  lemma {:induction false} EntryKeepsLife(rows: Rows, log: seq<Entry>, e: Entry, id: Id)
    requires IsLife(rows, log, id) && Legitimate(rows, e)
    ensures IsLife(Atomic(rows, e), log + [e], id)
  {
    hide Legitimate, Atomic, Life, Lives.Step, InsertedRow, Finished, Lives.AllValid;
    var all := log + [e];
    assert all[..|all| - 1] == log && all[|all| - 1] == e;
    EntryOnRow(rows, e, id);
    if id in e.touched {
      LifeSnoc(id, InsertedBy(log, id).value, Touching(log, id), e.action);
    } else if e.inserted == Some(id) {
      assert Touching(all, id) == [];
      NoActions(id, e.action.input);
    } else {
      assert Touching(all, id) == Touching(log, id);
    }
  }

  lemma {:induction false} NoActions(id: Id, first: Input)
    requires first.Valid()
    ensures Life(id, first, []) == Finished(InsertedRow(first), first) && Lives.AllValid(first, [])
  {}

  lemma {:induction false} LogIsLives(log: seq<Entry>, id: Id)
    requires LegitimateLog(map[], log)
    ensures IsLife(SerialRun(map[], log), log, id)
  {
    hide Legitimate, Atomic, IsLife;
    if log == [] {
      NothingYet(id);
    } else {
      var before, e := log[..|log| - 1], log[|log| - 1];
      forall i | 0 <= i < |before| ensures Legitimate(SerialRun(map[], before[..i]), before[i]) {
        assert log[..i] == before[..i] && log[i] == before[i];
      }
      LogIsLives(before, id);
      EntryKeepsLife(SerialRun(map[], before), before, e, id);
      assert before + [e] == log;
    }
  }

  lemma {:induction false} NothingYet(id: Id)
    ensures IsLife(map[], [], id)
  {}

  /** Main theorem: after any interleaving from the empty table, every row is the life of the input
      that inserted it and of the committed operations that updated it. */
  lemma {:induction false} RowsAreLives(w: World, steps: seq<Transactions.Step>, id: Id)
    requires Initial(w) && w.rows == map[] && Runs(w, steps)
    ensures IsLife(Reach(w, steps).rows, Reach(w, steps).log, id)
  {
    SerialisedInCommitOrder(w, steps);
    LogIsLives(Reach(w, steps).log, id);
  }

  /** So membership and delivery records are as told by the committed operations, in every interleaving. */
  lemma {:induction false} RowsTellHistory(w: World, steps: seq<Transactions.Step>, id: Id)
    requires Initial(w) && w.rows == map[] && Runs(w, steps) && id in Reach(w, steps).rows
    ensures var row, log := Reach(w, steps).rows[id], Reach(w, steps).log;
            var first, actions := InsertedBy(log, id), Touching(log, id);
            && first.Some?
            && (row.status.Open? ==> forall o :: o in row.objects <==> Live(first.value, actions, o))
            && (forall r :: r in RecordsOf(row.context) <==> LastResult(id, first.value, actions, r.plugin) == Some(r.result))
  {
    hide Live, Life, Initial, Runs, Reach, Lives.AllValid, LastResult;
    RowsAreLives(w, steps, id);
    var log := Reach(w, steps).log;
    Membership(id, InsertedBy(log, id).value, Touching(log, id));
    DeliveryRecordsSurvive(id, InsertedBy(log, id).value, Touching(log, id));
  }
}
