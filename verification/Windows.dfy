/** The sliding threshold window of one incident: which fingerprints it counts and when its
    sticky crossing marker is set. Times are integer microseconds.
  */
module Windows {
  import opened Order
  import opened Ranks

  const MAX_WINDOW_FINGERPRINTS := 100
  const MICROS := 1_000_000

  /** The window-related part of one problem report. */
  datatype Occurrence = Occurrence(fingerprint: Text, time: int, seconds: int, threshold: int, cap: int) {
    /** What construction of the upsert input enforces. */
    predicate Valid() {
      seconds >= 1 && 1 <= threshold <= cap <= MAX_WINDOW_FINGERPRINTS
    }
  }

  datatype WindowState = WindowState(
    startedAt: int, endedAt: int, seconds: int, threshold: int, stamps: Stamps, counted: nat, maxSize: int)

  /** The aggregation columns of an incident row. */
  datatype Aggregate = Aggregate(lastUpdate: int, window: WindowState, crossed: bool)

  datatype Outcome = Outcome(
    replay: bool, inside: bool, counted: bool, windowCrossed: bool, crossed: bool, first: bool)
  {
    /** No reason against a dispatch remains; the replay reason is looked at first. */
    predicate Planned() {
      !replay && first
    }
  }

  function Max(a: int, b: int): int {
    if a < b then b else a
  }

  // ---------------------------------------------------------------------------------------
  // One step
  // ---------------------------------------------------------------------------------------

  function InitialWindow(o: Occurrence): WindowState {
    WindowState(o.time - o.seconds * MICROS, o.time, o.seconds, o.threshold, map[o.fingerprint := o.time], 1, o.cap)
  }

  function WindowEnd(lastUpdate: int, o: Occurrence): int {
    Max(lastUpdate, o.time)
  }

  function WindowStart(lastUpdate: int, o: Occurrence): int {
    WindowEnd(lastUpdate, o) - o.seconds * MICROS
  }

  function Pruned(lastUpdate: int, stamps: Stamps, o: Occurrence): Stamps {
    map f | f in stamps && WindowStart(lastUpdate, o) <= stamps[f] <= WindowEnd(lastUpdate, o) :: stamps[f]
  }

  predicate Replay(lastUpdate: int, stamps: Stamps, o: Occurrence) {
    o.fingerprint in Pruned(lastUpdate, stamps, o)
  }

  predicate Inside(lastUpdate: int, o: Occurrence) {
    WindowStart(lastUpdate, o) <= o.time <= WindowEnd(lastUpdate, o)
  }

  /** The map before the cap is applied. */
  function Counted(lastUpdate: int, stamps: Stamps, o: Occurrence): Stamps {
    var pruned := Pruned(lastUpdate, stamps, o);
    if Inside(lastUpdate, o) && !Replay(lastUpdate, stamps, o) then pruned[o.fingerprint := o.time] else pruned
  }

  function Retained(lastUpdate: int, stamps: Stamps, o: Occurrence, capped: bool): Stamps {
    var all := Counted(lastUpdate, stamps, o);
    if capped then Newest(all, o.cap) else all
  }

  /** The next window state; `capped` false gives the window the code would keep without its size bound. */
  function NextWindow(lastUpdate: int, stamps: Stamps, o: Occurrence, capped: bool := true): WindowState {
    var retained := Retained(lastUpdate, stamps, o, capped);
    WindowState(WindowStart(lastUpdate, o), WindowEnd(lastUpdate, o), o.seconds, o.threshold,
                retained, |retained|, o.cap)
  }

  function Start(o: Occurrence): Aggregate {
    Aggregate(o.time, InitialWindow(o), 1 >= o.threshold)
  }

  function StartOutcome(o: Occurrence): Outcome {
    Outcome(false, true, true, 1 >= o.threshold, 1 >= o.threshold, 1 >= o.threshold)
  }

  function Push(a: Aggregate, o: Occurrence, capped: bool := true): Aggregate {
    var w := NextWindow(a.lastUpdate, a.window.stamps, o, capped);
    Aggregate(WindowEnd(a.lastUpdate, o), w, a.crossed || w.counted >= w.threshold)
  }

  function PushOutcome(a: Aggregate, o: Occurrence, capped: bool := true): Outcome {
    var next := Push(a, o, capped);
    var replay := Replay(a.lastUpdate, a.window.stamps, o);
    Outcome(replay, Inside(a.lastUpdate, o), Inside(a.lastUpdate, o) && !replay,
            next.window.counted >= next.window.threshold, next.crossed, !a.crossed && next.crossed)
  }

  /** What the window keeps, for any stream: nothing older than one window length before the latest
      event, each fingerprint with the time it was first counted at, and of those the newest `cap`. */
  lemma {:induction false} WindowKeeps(a: Aggregate, o: Occurrence)
    ensures var end := if a.lastUpdate < o.time then o.time else a.lastUpdate;
            var start := end - o.seconds * 1_000_000;
            var all := Counted(a.lastUpdate, a.window.stamps, o);
            && Push(a, o).lastUpdate == end
            && (forall f :: f in all <==>
                  (f in a.window.stamps && start <= a.window.stamps[f] <= end) || (f == o.fingerprint && start <= o.time))
            && (forall f :: f in all ==>
                  all[f] == if f in a.window.stamps && start <= a.window.stamps[f] <= end then a.window.stamps[f] else o.time)
            && Push(a, o).window == WindowState(start, end, o.seconds, o.threshold, Newest(all, o.cap), |Newest(all, o.cap)|, o.cap)
            && Push(a, o, false).window == WindowState(start, end, o.seconds, o.threshold, all, |all|, o.cap)
            && (Push(a, o).crossed <==> a.crossed || |Newest(all, o.cap)| >= o.threshold)
  {
    hide Newest;
  }

  // ---------------------------------------------------------------------------------------
  // The algorithm: prune in a loop, add, sort descending, cut
  // ---------------------------------------------------------------------------------------

  /** The fingerprints of `m`, newest first. */
  ghost predicate NewestFirst(m: Stamps, s: seq<Text>) {
    && (forall f :: f in s <==> f in m)
    && (forall i, j :: 0 <= i < j < |s| ==> s[i] in m && s[j] in m && s[i] != s[j] && Newer(m, s[i], s[j]))
  }

  /** In a newest-first listing the position of an entry is its rank. */
  lemma {:induction false} RankIsPosition(m: Stamps, s: seq<Text>, i: nat)
    requires NewestFirst(m, s) && i < |s|
    ensures s[i] in m && |NewerThan(m, s[i])| == i
  {
    var above := set f | f in s[..i];
    forall f ensures f in above <==> f in NewerThan(m, s[i]) {
      if f in s[..i] {
        var j :| 0 <= j < i && s[j] == f;
      }
      if f in NewerThan(m, s[i]) {
        var j :| 0 <= j < |s| && s[j] == f;
        NewerOrder(m, f, s[i], f);
        NewerOrder(m, f, f, f);
        assert j < i;
      }
    }
    assert above == NewerThan(m, s[i]);
    DistinctCount(s[..i]);
  }

  /** Cutting a newest-first listing after `k` entries leaves the newest `k`. */
  lemma {:induction false} CutIsNewest(m: Stamps, s: seq<Text>, k: nat, kept: Stamps)
    requires NewestFirst(m, s) && k <= |s|
    requires kept == map f | f in s[..k] :: m[f]
    ensures kept == Newest(m, k)
  {
    forall f | f in m ensures f in s[..k] <==> |NewerThan(m, f)| < k {
      var i :| 0 <= i < |s| && s[i] == f;
      RankIsPosition(m, s, i);
      if f in s[..k] {
        var j :| 0 <= j < k && s[j] == f;
        RankIsPosition(m, s, j);
      } else {
        assert forall j :: 0 <= j < k ==> s[j] in s[..k];
      }
    }
  }

  /** `sorted(items, key=(timestamp, fingerprint), reverse=True)`, as an insertion into a sorted list. */
  method SortNewestFirst(m: Stamps) returns (s: seq<Text>)
    ensures NewestFirst(m, s) && |s| == |m|
  {
    s := [];
    var todo := m.Keys;
    while todo != {}
      invariant todo <= m.Keys
      invariant |s| + |todo| == |m|
      invariant forall f :: f in s <==> f in m && f !in todo
      invariant forall i, j :: 0 <= i < j < |s| ==> s[i] != s[j] && Newer(m, s[i], s[j])
      decreases todo
    {
      var f :| f in todo;
      todo := todo - {f};
      var i := 0;
      while i < |s| && Newer(m, s[i], f)
        invariant 0 <= i <= |s|
        invariant forall j :: 0 <= j < i ==> Newer(m, s[j], f)
      {
        i := i + 1;
      }
      forall j | i <= j < |s| ensures Newer(m, f, s[j]) {
        NewerOrder(m, f, s[i], s[j]);
      }
      s := s[..i] + [f] + s[i..];
    }
  }

  lemma {:induction false} NewestFirstMembers(m: Stamps, s: seq<Text>)
    requires NewestFirst(m, s)
    ensures forall f :: f in s ==> f in m
  {}

  /** Pruning and adding give the map before the cap. */
  lemma {:induction false} CountedFrom(lastUpdate: int, stamps: Stamps, o: Occurrence, start: int, end: int, all: Stamps)
    requires end == Max(lastUpdate, o.time) && start == end - o.seconds * MICROS
    requires var pruned := map f | f in stamps && start <= stamps[f] <= end :: stamps[f];
             all == if start <= o.time <= end && o.fingerprint !in pruned then pruned[o.fingerprint := o.time] else pruned
    ensures all == Counted(lastUpdate, stamps, o)
    ensures Replay(lastUpdate, stamps, o) <==> o.fingerprint in stamps && start <= stamps[o.fingerprint] <= end
  {
    assert Pruned(lastUpdate, stamps, o) == map f | f in stamps && start <= stamps[f] <= end :: stamps[f];
  }

  method ComputeNextWindow(lastUpdate: int, stamps: Stamps, o: Occurrence)
    returns (state: WindowState, replay: bool, inside: bool, counted: bool)
    requires o.Valid()
    ensures state == NextWindow(lastUpdate, stamps, o)
    ensures replay == Replay(lastUpdate, stamps, o)
    ensures inside == Inside(lastUpdate, o)
    ensures counted == (inside && !replay)
  {
    hide Newest, NewerThan, Newer, NewestFirst, Counted, Pruned;
    var windowEnd := if lastUpdate < o.time then o.time else lastUpdate;
    var windowStart := windowEnd - o.seconds * MICROS;
    var retained: Stamps := map[];
    var todo := stamps.Keys;
    while todo != {}
      invariant todo <= stamps.Keys
      invariant retained == map f | f in stamps && f !in todo && windowStart <= stamps[f] <= windowEnd :: stamps[f]
      decreases todo
    {
      var f :| f in todo;
      todo := todo - {f};
      if windowStart <= stamps[f] <= windowEnd {
        retained := retained[f := stamps[f]];
      }
    }
    inside := windowStart <= o.time <= windowEnd;
    replay := o.fingerprint in retained;
    counted := inside && !replay;
    if counted {
      retained := retained[o.fingerprint := o.time];
    }
    ghost var all := retained;
    CountedFrom(lastUpdate, stamps, o, windowStart, windowEnd, all);
    if |retained| > o.cap {
      var order := SortNewestFirst(retained);
      var newest := order[..o.cap];
      NewestFirstMembers(retained, order);
      retained := map f | f in newest :: retained[f];
      CutIsNewest(all, order, o.cap, retained);
    } else {
      NewestCount(all, o.cap);
    }
    state := WindowState(windowStart, windowEnd, o.seconds, o.threshold, retained, |retained|, o.cap);
  }

  // ---------------------------------------------------------------------------------------
  // Runs
  // ---------------------------------------------------------------------------------------

  /** The aggregate after a stream of problems that all belong to one incident. */
  function Run(os: seq<Occurrence>, capped: bool := true): Aggregate
    requires os != []
  {
    if |os| == 1 then Start(os[0]) else Push(Run(os[..|os| - 1], capped), os[|os| - 1], capped)
  }

  /** What processing the last problem of the stream reported. */
  function LastOutcome(os: seq<Occurrence>, capped: bool := true): Outcome
    requires os != []
  {
    if |os| == 1 then StartOutcome(os[0]) else PushOutcome(Run(os[..|os| - 1], capped), os[|os| - 1], capped)
  }

  function Latest(os: seq<Occurrence>): int
    requires os != []
  {
    if |os| == 1 then os[0].time else Max(Latest(os[..|os| - 1]), os[|os| - 1].time)
  }

  /** Redeliveries repeat the timestamp of the first delivery. */
  ghost predicate Consistent(os: seq<Occurrence>) {
    forall i, j :: 0 <= i < |os| && 0 <= j < |os| && os[i].fingerprint == os[j].fingerprint ==> os[i].time == os[j].time
  }

  ghost predicate SameRule(os: seq<Occurrence>, seconds: int, threshold: int, cap: int) {
    forall o :: o in os ==> o.seconds == seconds && o.threshold == threshold && o.cap == cap
  }

  ghost predicate AllValid(os: seq<Occurrence>) {
    forall o :: o in os ==> o.Valid()
  }

  /** Everything ever delivered. */
  function History(os: seq<Occurrence>): Stamps {
    if os == [] then map[]
    else History(os[..|os| - 1])[os[|os| - 1].fingerprint := os[|os| - 1].time]
  }

  lemma {:induction false} HistoryMembers(os: seq<Occurrence>)
    requires Consistent(os)
    ensures forall f :: f in History(os) <==> exists i :: 0 <= i < |os| && os[i].fingerprint == f
    ensures forall i :: 0 <= i < |os| ==> os[i].fingerprint in History(os) && History(os)[os[i].fingerprint] == os[i].time
  {
    if os != [] {
      var before := os[..|os| - 1];
      HistoryMembers(before);
      forall f | f in History(os) ensures exists i :: 0 <= i < |os| && os[i].fingerprint == f {
        if f in History(before) {
          var i :| 0 <= i < |before| && before[i].fingerprint == f;
          assert os[i].fingerprint == f;
        } else {
          assert os[|os| - 1].fingerprint == f;
        }
      }
      forall i | 0 <= i < |os|
        ensures os[i].fingerprint in History(os) && History(os)[os[i].fingerprint] == os[i].time
      {
        if i < |os| - 1 { assert before[i] == os[i]; }
      }
    }
  }

  lemma {:induction false} LatestBounds(os: seq<Occurrence>)
    requires os != []
    ensures forall i :: 0 <= i < |os| ==> os[i].time <= Latest(os)
    ensures exists i :: 0 <= i < |os| && os[i].time == Latest(os)
  {
    assert os[|os| - 1].time <= Latest(os);
    if |os| > 1 {
      var before := os[..|os| - 1];
      LatestBounds(before);
      var i :| 0 <= i < |before| && before[i].time == Latest(before);
      assert os[i].time == Latest(before) && Latest(os) == Max(Latest(before), os[|os| - 1].time);
      forall j | 0 <= j < |os| ensures os[j].time <= Latest(os) {
        if j < |os| - 1 { assert before[j] == os[j]; }
      }
    }
  }

  /** What `os` leaves when the window is computed from the whole history at once. */
  function Batch(os: seq<Occurrence>, seconds: int, cap: int): Stamps
    requires os != []
  {
    Newest(Since(History(os), Latest(os) - seconds * MICROS), cap)
  }

  /** Main theorem: stepwise pruning and eviction, in any order of arrival and with any
      redeliveries, keep exactly the newest entries of the whole history that lie within one
      window length of the latest event time. */
  lemma {:induction false} WindowRefinement(os: seq<Occurrence>, seconds: int, threshold: int, cap: int)
    requires os != [] && Consistent(os) && SameRule(os, seconds, threshold, cap)
    requires seconds >= 1 && cap >= 1
    ensures Run(os).lastUpdate == Latest(os)
    ensures Run(os).window.stamps == Batch(os, seconds, cap)
  {
    var o := os[|os| - 1];
    assert o in os;
    if |os| == 1 {
      BatchOfOne(os, cap);
    } else {
      var before := os[..|os| - 1];
      assert forall x :: x in before ==> x in os;
      WindowRefinement(before, seconds, threshold, cap);
      assert forall i :: 0 <= i < |before| ==> before[i] == os[i];
      BatchPush(os, cap);
      assert Run(os) == Push(Run(before), o);
    }
  }

  lemma {:induction false} HistoryOfOne(os: seq<Occurrence>)
    requires |os| == 1
    ensures History(os) == map[os[0].fingerprint := os[0].time] && Latest(os) == os[0].time
  {
    assert History(os[..0]) == map[];
  }

  lemma {:induction false} SinceOfOne(f: Text, t: int, start: int)
    requires start <= t
    ensures Since(map[f := t], start) == map[f := t]
  {}

  lemma {:induction false} BatchOfOne(os: seq<Occurrence>, cap: int)
    requires |os| == 1 && os[0].seconds >= 1 && cap >= 1
    ensures Batch(os, os[0].seconds, cap) == map[os[0].fingerprint := os[0].time]
  {
    hide Newest, Since, History, Latest;
    HistoryOfOne(os);
    SinceOfOne(os[0].fingerprint, os[0].time, os[0].time - os[0].seconds * MICROS);
    NewestCount(map[os[0].fingerprint := os[0].time], cap);
  }

  /** Retaining on top of one batch result gives the next batch result. */
  lemma {:induction false} BatchPush(os: seq<Occurrence>, cap: int)
    requires |os| > 1 && Consistent(os) && os[|os| - 1].seconds >= 1 && os[|os| - 1].cap == cap >= 1
    ensures var o, before := os[|os| - 1], os[..|os| - 1];
            && Latest(os) == WindowEnd(Latest(before), o)
            && Batch(os, o.seconds, cap) == Retained(Latest(before), Batch(before, o.seconds, cap), o, true)
  {
    hide Newest, Since, Retained;
    var o, before := os[|os| - 1], os[..|os| - 1];
    assert forall i :: 0 <= i < |before| ==> before[i] == os[i];
    HistoryBound(before, o);
    assert History(os) == History(before)[o.fingerprint := o.time];
    assert Latest(os) == WindowEnd(Latest(before), o);
    RefinementStep(History(before), Latest(before), o, cap, History(os));
  }

  lemma {:induction false} HistoryBound(before: seq<Occurrence>, o: Occurrence)
    requires before != [] && Consistent(before)
    requires forall i :: 0 <= i < |before| && before[i].fingerprint == o.fingerprint ==> before[i].time == o.time
    ensures forall f :: f in History(before) ==> History(before)[f] <= Latest(before)
    ensures o.fingerprint in History(before) ==> History(before)[o.fingerprint] == o.time
  {
    HistoryMembers(before);
    LatestBounds(before);
  }

  /** The induction step: `h` is the history so far, `last` its latest event time. */
  lemma {:induction false} RefinementStep(h: Stamps, last: int, o: Occurrence, cap: nat, h': Stamps)
    requires forall f :: f in h ==> h[f] <= last
    requires o.fingerprint in h ==> h[o.fingerprint] == o.time
    requires h' == h[o.fingerprint := o.time]
    requires o.seconds >= 1 && o.cap == cap >= 1
    ensures Newest(Since(h', WindowStart(last, o)), cap)
         == Retained(last, Newest(Since(h, last - o.seconds * MICROS), cap), o, true)
  {
    hide Newest, Counted, Inside, Replay, Pruned;
    var stamps := Newest(Since(h, last - o.seconds * MICROS), cap);
    var recent := Since(h, WindowStart(last, o));
    PrunedIsNewest(h, last, o, cap);
    if Inside(last, o) {
      CountInside(h, last, o, stamps, recent, cap, h');
    } else {
      CountOutside(h, last, o, stamps, recent, h');
      NewestIdempotent(recent, cap);
    }
  }

  lemma {:induction false} CountOutside(h: Stamps, last: int, o: Occurrence, stamps: Stamps, recent: Stamps, h': Stamps)
    requires !Inside(last, o) && recent == Since(h, WindowStart(last, o)) && h' == h[o.fingerprint := o.time]
    requires o.fingerprint in h ==> h[o.fingerprint] == o.time
    ensures Since(h', WindowStart(last, o)) == recent && Counted(last, stamps, o) == Pruned(last, stamps, o)
  {
    assert o.time < WindowStart(last, o);
  }

  /** Pruning what was kept is keeping the newest of what is recent now. */
  lemma {:induction false} PrunedIsNewest(h: Stamps, last: int, o: Occurrence, cap: nat)
    requires forall f :: f in h ==> h[f] <= last
    requires o.seconds >= 1
    ensures Pruned(last, Newest(Since(h, last - o.seconds * MICROS), cap), o) == Newest(Since(h, WindowStart(last, o)), cap)
    ensures Since(h, WindowStart(last, o)) == Since(Since(h, last - o.seconds * MICROS), WindowStart(last, o))
  {
    hide Newest;
    var before := Since(h, last - o.seconds * MICROS);
    var start := WindowStart(last, o);
    assert Since(h, start) == Since(before, start);
    SinceNewest(before, cap, start);
    NewestSubmap(before, cap);
    assert Pruned(last, Newest(before, cap), o) == Since(Newest(before, cap), start);
  }

  lemma {:induction false} CountInside(h: Stamps, last: int, o: Occurrence, stamps: Stamps, recent: Stamps, cap: nat, h': Stamps)
    requires Inside(last, o) && recent == Since(h, WindowStart(last, o)) && h' == h[o.fingerprint := o.time]
    requires o.fingerprint in h ==> h[o.fingerprint] == o.time
    requires Pruned(last, stamps, o) == Newest(recent, cap)
    ensures Newest(Since(h', WindowStart(last, o)), cap) == Newest(Counted(last, stamps, o), cap)
  {
    hide Newest, Pruned;
    NewestSubmap(recent, cap);
    assert Since(h', WindowStart(last, o)) == recent[o.fingerprint := o.time];
    if Replay(last, stamps, o) {
      assert recent[o.fingerprint := o.time] == recent;
      NewestIdempotent(recent, cap);
    } else {
      NewestInsert(recent, cap, o.fingerprint, o.time);
    }
  }

  /** The reported count is the number of distinct recent fingerprints, cut at the cap, so with a
      threshold within the cap the window crosses exactly when enough of them are recent. */
  lemma {:induction false} CountIsRecentHistory(os: seq<Occurrence>, seconds: int, threshold: int, cap: int)
    requires os != [] && Consistent(os) && SameRule(os, seconds, threshold, cap) && AllValid(os)
    ensures var recent := Since(History(os), Latest(os) - seconds * MICROS);
            && Run(os).window.counted == (if |recent| <= cap then |recent| else cap)
            && (Run(os).window.counted >= threshold <==> |recent| >= threshold)
  {
    hide Newest, Since, Run, History, Latest;
    assert os[0] in os;
    LastWindow(os, seconds, threshold, cap);
    NewestCount(Since(History(os), Latest(os) - seconds * MICROS), cap);
  }

  /** Two streams over the same events leave the same window, whatever their orders and repetitions. */
  lemma {:induction false} ArrivalOrderIrrelevant(a: seq<Occurrence>, b: seq<Occurrence>, seconds: int, threshold: int, cap: int)
    requires a != [] && Consistent(a) && SameRule(a, seconds, threshold, cap)
    requires seconds >= 1 && cap >= 1
    requires forall o :: o in a <==> o in b
    ensures b != [] && Run(a).window == Run(b).window && Run(a).lastUpdate == Run(b).lastUpdate
  {
    assert a[0] in b;
    forall i, j | 0 <= i < |b| && 0 <= j < |b| && b[i].fingerprint == b[j].fingerprint ensures b[i].time == b[j].time {
      assert b[i] in a && b[j] in a;
    }
    SameBatch(a, b, seconds, cap);
    LastWindow(a, seconds, threshold, cap);
    LastWindow(b, seconds, threshold, cap);
  }

  lemma {:induction false} SameBatch(a: seq<Occurrence>, b: seq<Occurrence>, seconds: int, cap: int)
    requires a != [] && b != [] && Consistent(a) && Consistent(b) && forall o :: o in a <==> o in b
    ensures Latest(a) == Latest(b) && Batch(a, seconds, cap) == Batch(b, seconds, cap)
  {
    SameLatest(a, b);
    SameHistory(a, b);
  }

  lemma {:induction false} LastWindow(os: seq<Occurrence>, seconds: int, threshold: int, cap: int)
    requires os != [] && Consistent(os) && SameRule(os, seconds, threshold, cap)
    requires seconds >= 1 && cap >= 1
    ensures Run(os).lastUpdate == Latest(os)
    ensures Run(os).window == WindowState(Latest(os) - seconds * MICROS, Latest(os), seconds, threshold,
                                          Batch(os, seconds, cap), |Batch(os, seconds, cap)|, cap)
  {
    assert os[|os| - 1] in os;
    WindowFromStamps(os);
    WindowRefinement(os, seconds, threshold, cap);
  }

  lemma {:induction false} WindowFromStamps(os: seq<Occurrence>)
    requires os != []
    ensures var a, o := Run(os), os[|os| - 1];
            a.window == WindowState(a.lastUpdate - o.seconds * MICROS, a.lastUpdate, o.seconds, o.threshold,
                                    a.window.stamps, |a.window.stamps|, o.cap)
  {}

  lemma {:induction false} SameLatest(a: seq<Occurrence>, b: seq<Occurrence>)
    requires a != [] && b != [] && forall o :: o in a <==> o in b
    ensures Latest(a) == Latest(b)
  {
    LatestBounds(a);
    LatestBounds(b);
    var i :| 0 <= i < |a| && a[i].time == Latest(a);
    var j :| 0 <= j < |b| && b[j].time == Latest(b);
    assert a[i] in b && b[j] in a;
  }

  lemma {:induction false} SameHistory(a: seq<Occurrence>, b: seq<Occurrence>)
    requires Consistent(a) && Consistent(b) && forall o :: o in a <==> o in b
    ensures History(a) == History(b)
  {
    HistoryMembers(a);
    HistoryMembers(b);
    forall f | f in History(a) ensures f in History(b) && History(b)[f] == History(a)[f] {
      var i :| 0 <= i < |a| && a[i].fingerprint == f;
      assert a[i] in b;
    }
    forall f | f in History(b) ensures f in History(a) {
      var i :| 0 <= i < |b| && b[i].fingerprint == f;
      assert b[i] in a;
    }
  }
}
