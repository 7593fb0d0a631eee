/** The in-process fixed-window rate limiter and its background sweep. Times are seconds. */
module RateLimit {

  type Key = string

  datatype Counter = Counter(count: int, start: real, window: int)

  type Counters = map<Key, Counter>

  datatype Verdict = Allowed | Denied(retryAfter: int)

  function Ceil(x: real): int {
    -((-x).Floor)
  }

  predicate Expired(c: Counter, now: real, window: int) {
    now - c.start >= window as real
  }

  /** The counter that a check at `now` works on. */
  function Current(cs: Counters, key: Key, window: int, now: real): Counter {
    var c := if key in cs then cs[key] else Counter(0, now, window);
    if Expired(c, now, window) then Counter(0, now, window) else Counter(c.count, c.start, window)
  }

  function Answer(cs: Counters, key: Key, limit: int, window: int, now: real): Verdict {
    var c := Current(cs, key, window, now);
    if c.count >= limit then
      var wait := Ceil(c.start + window as real - now);
      Denied(if wait < 1 then 1 else wait)
    else Allowed
  }

  function Checked(cs: Counters, key: Key, limit: int, window: int, now: real): Counters {
    var c := Current(cs, key, window, now);
    cs[key := if c.count >= limit then c else c.(count := c.count + 1)]
  }

  function ExpiredKeys(cs: Counters, now: real): set<Key> {
    set k | k in cs && Expired(cs[k], now, cs[k].window)
  }

  function Swept(cs: Counters, now: real): Counters {
    cs - ExpiredKeys(cs, now)
  }

  datatype Option<+T> = None | Some(value: T)

  /** What one check does, told from the stored counter before and after: a window that has not
      elapsed goes on, otherwise one starts now; a grant is counted, and a denial names the seconds
      to the end of the window, rounded up and at least one. */
  ghost predicate Counts(before: Option<Counter>, limit: int, window: int, now: real, v: Verdict, after: Counter) {
    var running := before.Some? && now < before.value.start + window as real;
    var count, start := if running then before.value.count else 0, if running then before.value.start else now;
    && after.start == start && after.window == window
    && (v.Allowed? <==> count < limit)
    && after.count == (if v.Allowed? then count + 1 else count)
    && (v.Denied? ==>
          var left := start + window as real - now;
          v.retryAfter >= 1 && left <= v.retryAfter as real && (v.retryAfter > 1 ==> (v.retryAfter - 1) as real < left))
  }

  class Limiter {
    var counters: Counters

    constructor ()
      ensures counters == map[]
    {
      counters := map[];
    }

    method Check(key: Key, limit: int, window: int, now: real) returns (v: Verdict)
      modifies this
      ensures v == Answer(old(counters), key, limit, window, now)
      ensures counters == Checked(old(counters), key, limit, window, now)
      ensures key in counters && counters == old(counters)[key := counters[key]]
      ensures Counts(if key in old(counters) then Some(old(counters)[key]) else None, limit, window, now, v, counters[key])
    {
      var count, start := 0, now;
      if key in counters {
        count, start := counters[key].count, counters[key].start;
      }
      if now - start >= window as real {
        count := 0;
        start := now;
      }
      if count >= limit {
        counters := counters[key := Counter(count, start, window)];
        var retryAfter := Ceil(start + window as real - now);
        return Denied(if retryAfter < 1 then 1 else retryAfter);
      }
      counters := counters[key := Counter(count + 1, start, window)];
      return Allowed;
    }

    method SweepExpired(now: real) returns (removed: nat)
      modifies this
      ensures counters == Swept(old(counters), now)
      ensures removed == |ExpiredKeys(old(counters), now)| == |old(counters)| - |counters|
      ensures forall k :: k in counters <==>
                k in old(counters) && now < old(counters)[k].start + old(counters)[k].window as real
      ensures forall k :: k in counters ==> counters[k] == old(counters)[k]
    {
      ghost var before := counters;
      var todo := set k | k in counters && now - counters[k].start >= counters[k].window as real;
      ghost var expired := todo;
      assert expired == ExpiredKeys(before, now);
      removed := |todo|;
      while todo != {}
        invariant todo <= expired
        invariant counters == before - (expired - todo)
        decreases todo
      {
        var k :| k in todo;
        counters := counters - {k};
        todo := todo - {k};
      }
      assert expired - todo == expired;
      assert before.Keys == counters.Keys + expired;
    }

    method Clear()
      modifies this
      ensures counters == map[]
    {
      counters := map[];
    }
  }

  // ---------------------------------------------------------------------------------------
  // Runs
  // ---------------------------------------------------------------------------------------

  datatype Op = Check(key: Key, at: real) | Sweep(at: real)

  /** Each key has its own limit and window, fixed by its route class. */
  datatype Limits = Limits(limit: map<Key, int>, window: map<Key, int>) {
    predicate Valid() {
      limit.Keys == window.Keys && forall k :: k in limit ==> limit[k] >= 1 && window[k] >= 1
    }
  }

  predicate Known(l: Limits, ops: seq<Op>) {
    l.Valid() && forall op :: op in ops && op.Check? ==> op.key in l.limit
  }

  predicate Monotone(ops: seq<Op>) {
    forall i, j :: 0 <= i < j < |ops| ==> ops[i].at <= ops[j].at
  }

  function Apply(l: Limits, cs: Counters, op: Op): Counters
    requires op.Check? ==> l.Valid() && op.key in l.limit
  {
    match op
    case Check(k, t) => Checked(cs, k, l.limit[k], l.window[k], t)
    case Sweep(t) => Swept(cs, t)
  }

  function Run(l: Limits, ops: seq<Op>): Counters
    requires Known(l, ops)
  {
    if ops == [] then map[] else Apply(l, Run(l, ops[..|ops| - 1]), ops[|ops| - 1])
  }

  /** What operation `i` of a run answered. */
  function AnswerAt(l: Limits, ops: seq<Op>, i: nat): Verdict
    requires Known(l, ops) && i < |ops| && ops[i].Check?
  {
    Answer(Run(l, ops[..i]), ops[i].key, l.limit[ops[i].key], l.window[ops[i].key], ops[i].at)
  }

  /** Every stored counter started no later than the last operation and stays within the limit. */
  ghost predicate Sound(l: Limits, cs: Counters, now: real) {
    l.Valid() && forall k :: k in cs ==>
      k in l.limit && cs[k].window == l.window[k] && 1 <= cs[k].count <= l.limit[k] && cs[k].start <= now
  }

  lemma {:induction false} SoundStep(l: Limits, cs: Counters, op: Op, before: real)
    requires Sound(l, cs, before) && before <= op.at && (op.Check? ==> op.key in l.limit)
    ensures Sound(l, Apply(l, cs, op), op.at)
  {}

  lemma {:induction false} RunSound(l: Limits, ops: seq<Op>, now: real)
    requires Known(l, ops) && Monotone(ops) && (ops == [] || ops[|ops| - 1].at <= now)
    ensures Sound(l, Run(l, ops), now)
  {
    if ops != [] {
      var before, op := ops[..|ops| - 1], ops[|ops| - 1];
      assert op in ops && forall x :: x in before ==> x in ops;
      RunSound(l, before, op.at);
      SoundStep(l, Run(l, before), op, op.at);
    }
  }

  // ---------------------------------------------------------------------------------------
  // Retry-After
  // ---------------------------------------------------------------------------------------

  lemma {:induction false} CeilBounds(x: real)
    ensures Ceil(x) as real >= x && (Ceil(x) - 1) as real < x
  {}

  predicate Denies(l: Limits, ops: seq<Op>, i: nat, k: Key)
    requires Known(l, ops) && i < |ops|
  {
    ops[i].Check? && ops[i].key == k && AnswerAt(l, ops, i).Denied?
  }

  /** Main theorem: in every run a denial names a wait of at least one second and at most one window,
      and a check of the key after that wait, with no grant to the key in between, is allowed. */
  lemma {:induction false} RetryAfterIsEnough(l: Limits, ops: seq<Op>, i: nat, j: nat, k: Key)
    requires Known(l, ops) && Monotone(ops) && i < j < |ops|
    requires Denies(l, ops, i, k) && ops[j].Check? && ops[j].key == k
    requires forall m :: i < m < j && ops[m].Check? && ops[m].key == k ==> Denies(l, ops, m, k)
    requires ops[j].at >= ops[i].at + AnswerAt(l, ops, i).retryAfter as real
    ensures 1 <= AnswerAt(l, ops, i).retryAfter <= l.window[k]
    ensures AnswerAt(l, ops, j).Allowed?
  {
    hide Run;
    var now, before := ops[i].at, Run(l, ops[..i]);
    assert Known(l, ops[..i]) && Monotone(ops[..i]);
    RunSound(l, ops[..i], now);
    var c := Current(before, k, l.window[k], now);
    CeilBounds(c.start + l.window[k] as real - now);
    DenialStart(l, ops, i, k);
    DeniedKeepsStart(l, ops, i, j, k, c.start);
  }

  /** The wait is the least: a check of the key that comes a second or more before its end is denied,
      whatever happens in between. */
  lemma {:induction false} RetryAfterIsLeast(l: Limits, ops: seq<Op>, i: nat, j: nat, k: Key)
    requires Known(l, ops) && Monotone(ops) && i < j < |ops|
    requires Denies(l, ops, i, k) && ops[j].Check? && ops[j].key == k
    requires ops[j].at <= ops[i].at + (AnswerAt(l, ops, i).retryAfter - 1) as real
    requires AnswerAt(l, ops, i).retryAfter > 1
    ensures Denies(l, ops, j, k)
  {
    hide Run;
    var c := Current(Run(l, ops[..i]), k, l.window[k], ops[i].at);
    CeilBounds(c.start + l.window[k] as real - ops[i].at);
    DenialFills(l, ops, i, k);
    FullStays(l, ops, i, j, k, c.start);
    RunNext(l, ops, j);
  }

  /** A denial leaves the counter at its limit. */
  lemma {:induction false} DenialFills(l: Limits, ops: seq<Op>, i: nat, k: Key)
    requires Known(l, ops) && i < |ops| && Denies(l, ops, i, k)
    ensures Known(l, ops[..i]) && Known(l, ops[..i + 1])
    ensures var c := Current(Run(l, ops[..i]), k, l.window[k], ops[i].at);
            Full(l, Run(l, ops[..i + 1]), k, c.start)
  {
    hide Run;
    RunNext(l, ops, i);
  }

  ghost predicate Full(l: Limits, cs: Counters, k: Key, start: real)
    requires l.Valid() && k in l.limit
  {
    k in cs && cs[k].start == start && cs[k].window == l.window[k] && cs[k].count >= l.limit[k]
  }

  /** A counter at its limit stays as it is to the end of its window. */
  lemma {:induction false} FullStays(l: Limits, ops: seq<Op>, i: nat, j: nat, k: Key, start: real)
    requires Known(l, ops) && Monotone(ops) && i < j < |ops| && k in l.limit
    requires Known(l, ops[..i + 1]) && Known(l, ops[..j])
    requires Full(l, Run(l, ops[..i + 1]), k, start)
    requires ops[j].at < start + l.window[k] as real
    ensures Full(l, Run(l, ops[..j]), k, start)
  {
    hide Run;
    if j > i + 1 {
      RunNext(l, ops, j - 1);
      assert ops[j - 1].at <= ops[j].at;
      FullStays(l, ops, i, j - 1, k, start);
    }
  }

  lemma {:induction false} RunNext(l: Limits, ops: seq<Op>, i: nat)
    requires Known(l, ops) && i < |ops|
    ensures Known(l, ops[..i]) && Known(l, ops[..i + 1]) && ops[i] in ops
    ensures Run(l, ops[..i + 1]) == Apply(l, Run(l, ops[..i]), ops[i])
  {
    hide Apply;
    var more := ops[..i + 1];
    assert more[..|more| - 1] == ops[..i] && more[|more| - 1] == ops[i];
  }

  /** A denial stores the window it was counted in. */
  lemma {:induction false} DenialStart(l: Limits, ops: seq<Op>, i: nat, k: Key)
    requires Known(l, ops) && i < |ops| && Denies(l, ops, i, k)
    ensures Known(l, ops[..i]) && Known(l, ops[..i + 1])
    ensures var c, stored := Current(Run(l, ops[..i]), k, l.window[k], ops[i].at), Run(l, ops[..i + 1]);
            k in stored && stored[k].start == c.start && stored[k].window == l.window[k]
  {
    hide Run;
    RunNext(l, ops, i);
  }

  /** Without a grant to the key its window does not move. */
  lemma {:induction false} DeniedKeepsStart(l: Limits, ops: seq<Op>, i: nat, j: nat, k: Key, start: real)
    requires Known(l, ops) && i < j <= |ops| && k in l.limit
    requires Known(l, ops[..i + 1]) && Known(l, ops[..j])
    requires var stored := Run(l, ops[..i + 1]); k in stored && stored[k].start == start && stored[k].window == l.window[k]
    requires forall m :: i < m < j && ops[m].Check? && ops[m].key == k ==> Denies(l, ops, m, k)
    ensures var stored := Run(l, ops[..j]);
            k in stored ==> stored[k].start == start && stored[k].window == l.window[k]
  {
    hide Run;
    if j > i + 1 {
      RunNext(l, ops, j - 1);
      DeniedKeepsStart(l, ops, i, j - 1, k, start);
    }
  }

  // ---------------------------------------------------------------------------------------
  // Sweeps are invisible
  // ---------------------------------------------------------------------------------------

  function Checks(ops: seq<Op>): seq<Op> {
    if ops == [] then []
    else Checks(ops[..|ops| - 1]) + if ops[|ops| - 1].Check? then [ops[|ops| - 1]] else []
  }

  /** The answers of the checks of a run, in order. */
  function Answers(l: Limits, ops: seq<Op>): seq<Verdict>
    requires Known(l, ops)
  {
    if ops == [] then []
    else Answers(l, ops[..|ops| - 1]) + if ops[|ops| - 1].Check? then [AnswerAt(l, ops, |ops| - 1)] else []
  }

  /** Swept and unswept counters agree up to entries that the next check would reset anyway. */
  ghost predicate Similar(l: Limits, swept: Counters, all: Counters, now: real) {
    l.Valid() && swept.Keys <= all.Keys <= l.limit.Keys
    && (forall k :: k in swept ==> swept[k] == all[k])
    && (forall k :: k in all ==> all[k].window == l.window[k])
    && (forall k :: k in all && k !in swept ==> Expired(all[k], now, l.window[k]))
  }

  lemma {:induction false} SimilarStep(l: Limits, swept: Counters, all: Counters, op: Op, before: real)
    requires Similar(l, swept, all, before) && before <= op.at && (op.Check? ==> op.key in l.limit)
    ensures Similar(l, Apply(l, swept, op), if op.Check? then Apply(l, all, op) else all, op.at)
    ensures op.Check? ==>
      Answer(swept, op.key, l.limit[op.key], l.window[op.key], op.at) == Answer(all, op.key, l.limit[op.key], l.window[op.key], op.at)
  {
    if op.Check? {
      assert Current(swept, op.key, l.window[op.key], op.at) == Current(all, op.key, l.window[op.key], op.at);
      hide Current, Ceil;
      CurrentWindow(all, op.key, l.window[op.key], op.at);
    }
  }

  lemma {:induction false} CurrentWindow(cs: Counters, k: Key, window: int, now: real)
    ensures Current(cs, k, window, now).window == window
  {}

  lemma {:induction false} ChecksSubrun(l: Limits, ops: seq<Op>)
    requires Known(l, ops)
    ensures Known(l, Checks(ops)) && forall op :: op in Checks(ops) ==> op in ops && op.Check?
  {
    if ops != [] {
      assert forall x :: x in ops[..|ops| - 1] ==> x in ops;
      ChecksSubrun(l, ops[..|ops| - 1]);
    }
  }

  lemma {:induction false} RunOfNone(l: Limits)
    requires l.Valid()
    ensures Run(l, []) == map[]
  {}

  lemma {:induction false} RunSnoc(l: Limits, ops: seq<Op>)
    requires Known(l, ops) && ops != []
    ensures Known(l, ops[..|ops| - 1]) && ops[|ops| - 1] in ops
    ensures Run(l, ops) == Apply(l, Run(l, ops[..|ops| - 1]), ops[|ops| - 1])
  {
    hide Apply;
    assert ops[|ops| - 1] in ops && forall x :: x in ops[..|ops| - 1] ==> x in ops;
  }

  lemma {:induction false} SweepsInvisible(l: Limits, ops: seq<Op>, now: real)
    requires Known(l, ops) && Known(l, Checks(ops)) && Monotone(ops) && (ops == [] || ops[|ops| - 1].at <= now)
    ensures Similar(l, Run(l, ops), Run(l, Checks(ops)), now)
    ensures ops != [] && ops[|ops| - 1].Check? ==>
              AnswerAt(l, ops, |ops| - 1) == AnswerAt(l, Checks(ops), |Checks(ops)| - 1)
  {
    hide Apply, Answer, Similar, AnswerAt, Run;
    if ops == [] {
      RunOfNone(l);
      NothingDiffers(l, now);
    } else {
      var before, op := ops[..|ops| - 1], ops[|ops| - 1];
      assert op in ops && forall x :: x in before ==> x in ops;
      ChecksSubrun(l, before);
      SweepsInvisible(l, before, op.at);
      RunSnoc(l, ops);
      SimilarStep(l, Run(l, before), Run(l, Checks(before)), op, op.at);
      ChecksSnoc(l, before, op, ops);
      LastAnswer(l, ops);
      LastAnswer(l, Checks(ops));
      SimilarLater(l, Run(l, ops), Run(l, Checks(ops)), op.at, now);
    }
  }

  /** The last answer comes from the counters before it. */
  lemma {:induction false} LastAnswer(l: Limits, ops: seq<Op>)
    requires Known(l, ops)
    ensures ops != [] && ops[|ops| - 1].Check? && Known(l, ops[..|ops| - 1]) ==>
              var op := ops[|ops| - 1];
              op in ops && AnswerAt(l, ops, |ops| - 1) ==
                Answer(Run(l, ops[..|ops| - 1]), op.key, l.limit[op.key], l.window[op.key], op.at)
  {
    hide Answer, Run;
  }

  lemma {:induction false} NothingDiffers(l: Limits, now: real)
    requires l.Valid()
    ensures Similar(l, map[], map[], now)
  {}

  lemma {:induction false} SimilarLater(l: Limits, swept: Counters, all: Counters, before: real, now: real)
    requires Similar(l, swept, all, before) && before <= now
    ensures Similar(l, swept, all, now)
  {}

  lemma {:induction false} ChecksSnoc(l: Limits, before: seq<Op>, op: Op, ops: seq<Op>)
    requires Known(l, ops) && Known(l, Checks(before)) && ops != [] && before == ops[..|ops| - 1] && op == ops[|ops| - 1]
    ensures op in ops
    ensures Known(l, Checks(ops))
    ensures op.Check? ==> Checks(ops) == Checks(before) + [op] && Checks(ops)[..|Checks(ops)| - 1] == Checks(before)
    ensures !op.Check? ==> Checks(ops) == Checks(before)
    ensures Run(l, Checks(ops)) == if op.Check? then Apply(l, Run(l, Checks(before)), op) else Run(l, Checks(before))
  {
    hide Apply;
  }

  lemma {:induction false} SameAnswers(l: Limits, ops: seq<Op>, k: Key)
    requires Known(l, ops) && Known(l, Checks(ops)) && Monotone(ops)
    ensures Answers(l, ops) == Answers(l, Checks(ops))
    ensures Grants(l, ops, k) == Grants(l, Checks(ops), k)
  {
    hide Apply, Answer, AnswerAt, Similar, Run;
    if ops != [] {
      var before, op := ops[..|ops| - 1], ops[|ops| - 1];
      assert forall x :: x in before ==> x in ops;
      assert Monotone(before);
      hide Monotone;
      ChecksSubrun(l, before);
      SameAnswers(l, before, k);
      SweepsInvisible(l, ops, op.at) by { assert ops[|ops| - 1].at <= op.at; }
      ChecksSnoc(l, before, op, ops);
    }
  }

  /** Main theorem: two runs with the same checks answer them alike, wherever sweeps happen. */
  lemma {:induction false} SweepTransparency(l: Limits, a: seq<Op>, b: seq<Op>)
    requires Known(l, a) && Known(l, b) && Monotone(a) && Monotone(b) && Checks(a) == Checks(b)
    ensures Answers(l, a) == Answers(l, b)
  {
    ChecksSubrun(l, a);
    SameAnswers(l, a, "");
    SameAnswers(l, b, "");
  }

  /** A sweep changes no answer to a later check of a key exactly when the checks use a window no
      longer than the stored one. */
  lemma {:induction false} SweepNeedsStoredWindow(k: Key, c: Counter, window: int)
    requires c.count >= 1 && c.window >= 1 && window >= 1
    ensures window <= c.window <==>
            forall limit, swept, now :: limit >= 1 && Expired(c, swept, c.window) && swept <= now ==>
              Answer(map[k := c], k, limit, window, now) == Answer(map[], k, limit, window, now)
  {
    var t := c.start + c.window as real;
    assert Expired(c, t, c.window);
    assert Answer(map[], k, c.count, window, t).Allowed?;
    if window > c.window {
      assert !Expired(c, t, window);
      assert Answer(map[k := c], k, c.count, window, t).Denied?;
    }
  }

  // ---------------------------------------------------------------------------------------
  // The rate bound
  // ---------------------------------------------------------------------------------------

  /** The times of the grants to `k`, in order. */
  function Grants(l: Limits, ops: seq<Op>, k: Key): seq<real>
    requires Known(l, ops)
  {
    if ops == [] then []
    else
      var op := ops[|ops| - 1];
      Grants(l, ops[..|ops| - 1], k)
      + if op.Check? && op.key == k && AnswerAt(l, ops, |ops| - 1).Allowed? then [op.at] else []
  }

  /** How the grants so far lie around the current window of their key. */
  ghost predicate Placed(g: seq<real>, c: Counter, limit: int) {
    && 1 <= c.count <= limit && c.count <= |g|
    && (forall i :: |g| - c.count <= i < |g| ==> c.start <= g[i])
    && (forall i :: 0 <= i < |g| - c.count ==> g[i] < c.start)
    && (forall i :: 0 <= i < |g| ==> g[i] < c.start + c.window as real)
    && g[|g| - c.count] == c.start
    && (forall i :: 0 <= i < |g| - c.count - limit ==> g[i] + c.window as real < c.start)
    && (forall i :: 0 <= i <= |g| - c.count - limit ==> g[i] + c.window as real <= c.start)
  }

  /** Any `2 * limit` grants in a row span a window, and one more spans more than that. */
  ghost predicate Spread(g: seq<real>, limit: int, window: int) {
    && (forall i, j :: 0 <= i <= j < |g| ==> g[i] <= g[j])
    && (forall i, j :: 0 <= i && i + 2 * limit <= j < |g| && limit >= 1 ==> g[i] + window as real < g[j])
    && (forall i, j :: 0 <= i && i + 2 * limit - 1 <= j < |g| && limit >= 1 ==> g[i] + window as real <= g[j])
  }

  lemma {:induction false} GrantInWindow(g: seq<real>, c: Counter, limit: int, now: real)
    requires Spread(g, limit, c.window) && Placed(g, c, limit) && c.count < limit
    requires forall i :: 0 <= i < |g| ==> g[i] <= now
    requires c.start <= now < c.start + c.window as real
    ensures Spread(g + [now], limit, c.window) && Placed(g + [now], c.(count := c.count + 1), limit)
  {
    hide Spread, Placed;
    SpreadInWindow(g, c, limit, now);
    PlacedInWindow(g, c, limit, now);
  }

  lemma {:induction false} SpreadInWindow(g: seq<real>, c: Counter, limit: int, now: real)
    requires Spread(g, limit, c.window) && Placed(g, c, limit) && c.count < limit
    requires forall i :: 0 <= i < |g| ==> g[i] <= now
    requires c.start <= now
    ensures Spread(g + [now], limit, c.window)
  {}

  lemma {:induction false} PlacedInWindow(g: seq<real>, c: Counter, limit: int, now: real)
    requires Placed(g, c, limit) && c.count < limit
    requires c.start <= now < c.start + c.window as real
    ensures Placed(g + [now], c.(count := c.count + 1), limit)
  {}

  lemma {:induction false} GrantOpensWindow(g: seq<real>, c: Counter, limit: int, now: real)
    requires Spread(g, limit, c.window) && Placed(g, c, limit) && limit >= 1 && c.window >= 1
    requires c.start + c.window as real <= now
    ensures Spread(g + [now], limit, c.window) && Placed(g + [now], Counter(1, now, c.window), limit)
  {
    hide Spread, Placed;
    PastGrants(g, c, limit, now);
    SpreadInNew(g, c.window, limit, now);
    PlacedInNew(g, c.window, limit, now);
  }

  /** How the grants so far lie before a new window. */
  lemma {:induction false} PastGrants(g: seq<real>, c: Counter, limit: int, now: real)
    requires Spread(g, limit, c.window) && Placed(g, c, limit) && c.start + c.window as real <= now
    ensures forall i :: 0 <= i < |g| ==> g[i] < now
    ensures forall i :: 0 <= i < |g| - limit ==> g[i] + c.window as real < now
    ensures forall i :: 0 <= i <= |g| - limit && i < |g| ==> g[i] + c.window as real <= now
  {
    forall i | 0 <= i < |g| - limit ensures g[i] + c.window as real < now {
      assert g[i] < c.start;
    }
    forall i | 0 <= i <= |g| - limit && i < |g| ensures g[i] + c.window as real <= now {
      assert i <= |g| - c.count;
    }
  }

  lemma {:induction false} SpreadInNew(g: seq<real>, window: int, limit: int, now: real)
    requires Spread(g, limit, window) && limit >= 1
    requires forall i :: 0 <= i < |g| ==> g[i] < now
    requires forall i :: 0 <= i < |g| - limit ==> g[i] + window as real < now
    requires forall i :: 0 <= i <= |g| - limit && i < |g| ==> g[i] + window as real <= now
    requires window >= 1
    ensures Spread(g + [now], limit, window)
  {}

  lemma {:induction false} PlacedInNew(g: seq<real>, window: int, limit: int, now: real)
    requires limit >= 1 && window >= 1
    requires forall i :: 0 <= i < |g| ==> g[i] < now
    requires forall i :: 0 <= i < |g| - limit ==> g[i] + window as real < now
    requires forall i :: 0 <= i <= |g| - limit && i < |g| ==> g[i] + window as real <= now
    ensures Placed(g + [now], Counter(1, now, window), limit)
  {}

  ghost predicate Tracked(g: seq<real>, cs: Counters, k: Key, limit: int, window: int, now: real) {
    && Spread(g, limit, window)
    && (forall i :: 0 <= i < |g| ==> g[i] <= now)
    && if k in cs then Placed(g, cs[k], limit) && cs[k].window == window && cs[k].start <= now else g == []
  }

  /** What a check does to the counter of its key. */
  lemma {:induction false} CheckOf(cs: Counters, k: Key, limit: int, window: int, now: real)
    ensures var c := Current(cs, k, window, now);
            && (Answer(cs, k, limit, window, now).Allowed? <==> c.count < limit)
            && k in Checked(cs, k, limit, window, now)
            && Checked(cs, k, limit, window, now)[k] == if c.count < limit then c.(count := c.count + 1) else c
  {
    hide Ceil;
  }

  lemma {:induction false} GrantStep(g: seq<real>, cs: Counters, k: Key, limit: int, window: int, now: real)
    requires limit >= 1 && window >= 1 && Tracked(g, cs, k, limit, window, now)
    ensures Tracked(if Answer(cs, k, limit, window, now).Allowed? then g + [now] else g,
                    Checked(cs, k, limit, window, now), k, limit, window, now)
  {
    hide Spread, Placed, Answer, Checked;
    CheckOf(cs, k, limit, window, now);
    if k in cs {
      if Expired(cs[k], now, window) {
        GrantOpensWindow(g, cs[k], limit, now);
      } else if cs[k].count < limit {
        GrantInWindow(g, cs[k], limit, now);
      }
    } else {
      FirstGrant(limit, window, now);
      assert g + [now] == [now];
    }
  }

  lemma {:induction false} FirstGrant(limit: int, window: int, now: real)
    requires limit >= 1 && window >= 1
    ensures Spread([now], limit, window) && Placed([now], Counter(1, now, window), limit)
  {}

  lemma {:induction false} TrackedLater(g: seq<real>, cs: Counters, k: Key, limit: int, window: int, before: real, now: real)
    requires Tracked(g, cs, k, limit, window, before) && before <= now
    ensures Tracked(g, cs, k, limit, window, now)
  {
    hide Spread, Placed;
  }

  lemma {:induction false} GrantsTracked(l: Limits, ops: seq<Op>, k: Key, now: real)
    requires Known(l, ops) && Monotone(ops) && k in l.limit && (ops == [] || ops[|ops| - 1].at <= now)
    requires forall op :: op in ops ==> op.Check?
    ensures Tracked(Grants(l, ops, k), Run(l, ops), k, l.limit[k], l.window[k], now)
  {
    hide Checked, Answer, Tracked;
    if ops == [] {
      NothingTracked(k, l.limit[k], l.window[k], now);
    } else {
      var before, op := ops[..|ops| - 1], ops[|ops| - 1];
      assert op in ops && forall x :: x in before ==> x in ops;
      GrantsTracked(l, before, k, op.at);
      if op.key == k {
        GrantStep(Grants(l, before, k), Run(l, before), k, l.limit[k], l.window[k], op.at);
        assert Grants(l, before, k) + [] == Grants(l, before, k);
      } else {
        OtherKey(Grants(l, before, k), Run(l, before), k, op.key, l.limit[k], l.window[k], l.limit[op.key], l.window[op.key], op.at);
        assert Grants(l, before, k) + [] == Grants(l, before, k);
      }
      TrackedLater(Grants(l, ops, k), Run(l, ops), k, l.limit[k], l.window[k], op.at, now);
    }
  }

  lemma {:induction false} NothingTracked(k: Key, limit: int, window: int, now: real)
    ensures Tracked([], map[], k, limit, window, now)
  {}

  lemma {:induction false} OtherKey(g: seq<real>, cs: Counters, k: Key, other: Key, limit: int, window: int,
                                    otherLimit: int, otherWindow: int, now: real)
    requires Tracked(g, cs, k, limit, window, now) && k != other
    ensures Tracked(g, Checked(cs, other, otherLimit, otherWindow, now), k, limit, window, now)
  {
    hide Spread, Placed;
  }

  function Between(g: seq<real>, from: real, to: real): set<int> {
    set i | 0 <= i < |g| && from <= g[i] <= to
  }

  /** The same without the grants at the very end of the interval. */
  function Within(g: seq<real>, from: real, to: real): set<int> {
    set i | 0 <= i < |g| && from <= g[i] < to
  }

  lemma {:induction false} RangeCard(lo: int, hi: int, s: set<int>)
    requires forall i :: i in s ==> lo <= i < hi
    ensures |s| <= if lo <= hi then hi - lo else 0
    decreases hi - lo
  {
    if lo < hi {
      RangeCard(lo + 1, hi, s - {lo});
      assert lo in s ==> s == (s - {lo}) + {lo};
      assert lo !in s ==> s == s - {lo};
    } else {
      assert s == {};
    }
  }

  function FirstFrom(g: seq<real>, from: real): nat {
    if g == [] || g[0] >= from then 0 else 1 + FirstFrom(g[1..], from)
  }

  lemma {:induction false} FirstFromIsFirst(g: seq<real>, from: real)
    ensures FirstFrom(g, from) <= |g|
    ensures forall i :: 0 <= i < FirstFrom(g, from) ==> g[i] < from
    ensures FirstFrom(g, from) < |g| ==> g[FirstFrom(g, from)] >= from
  {
    if g != [] && g[0] < from { FirstFromIsFirst(g[1..], from); }
  }

  lemma {:induction false} SpreadBound(g: seq<real>, limit: int, window: int, from: real)
    requires limit >= 1 && Spread(g, limit, window)
    ensures |Between(g, from, from + window as real)| <= 2 * limit
    ensures |Within(g, from, from + window as real)| <= 2 * limit - 1
  {
    var closed, halfOpen := Between(g, from, from + window as real), Within(g, from, from + window as real);
    var lo := FirstFrom(g, from);
    FirstFromIsFirst(g, from);
    forall i | i in closed ensures lo <= i < lo + 2 * limit {
      assert lo < |g| && from <= g[lo];
    }
    forall i | i in halfOpen ensures lo <= i < lo + 2 * limit - 1 {
      assert lo < |g| && from <= g[lo];
    }
    RangeCard(lo, lo + 2 * limit, closed);
    RangeCard(lo, lo + 2 * limit - 1, halfOpen);
  }

  /** Main theorem: under monotone time, with sweeps at any moments, no interval as long as a
      key's window holds more than twice the limit of grants to that key; without one of its
      ends, it holds at least one less. */
  lemma {:induction false} RateBound(l: Limits, ops: seq<Op>, k: Key, from: real)
    requires Known(l, ops) && Monotone(ops) && k in l.limit
    ensures |Between(Grants(l, ops, k), from, from + l.window[k] as real)| <= 2 * l.limit[k]
    ensures |Within(Grants(l, ops, k), from, from + l.window[k] as real)| <= 2 * l.limit[k] - 1
  {
    hide Spread, Placed, Between, Within, Run, Grants, Answers, Checks, Monotone;
    var now := if ops == [] then 0.0 else ops[|ops| - 1].at;
    ChecksSubrun(l, ops);
    ChecksMonotone(ops);
    SameAnswers(l, ops, k);
    GrantsTracked(l, Checks(ops), k, now);
    SpreadBound(Grants(l, Checks(ops), k), l.limit[k], l.window[k], from);
  }

  // ---------------------------------------------------------------------------------------
  // Both bounds are attained
  // ---------------------------------------------------------------------------------------

  function Repeat<T>(x: T, n: nat): (r: seq<T>)
    ensures |r| == n && forall i :: 0 <= i < n ==> r[i] == x
  {
    if n == 0 then [] else Repeat(x, n - 1) + [x]
  }

  lemma {:induction false} OneMoreIsGranted(l: Limits, ops: seq<Op>, k: Key, t: real)
    requires Known(l, ops) && k in l.limit && k in Run(l, ops)
    requires var c := Run(l, ops)[k];
             c.window == l.window[k] && c.start <= t < c.start + c.window as real && 0 <= c.count < l.limit[k]
    ensures var all, c := ops + [Check(k, t)], Run(l, ops)[k];
            && Known(l, all) && k in Run(l, all) && Run(l, all)[k] == Counter(c.count + 1, c.start, c.window)
            && Grants(l, all, k) == Grants(l, ops, k) + [t]
  {
    var all := ops + [Check(k, t)];
    assert all[..|all| - 1] == ops;
  }

  /** Checks within an open window with room for them are all granted. */
  lemma {:induction false} RoomIsGranted(l: Limits, ops: seq<Op>, k: Key, t: real, n: nat)
    requires Known(l, ops) && k in l.limit && k in Run(l, ops)
    requires var c := Run(l, ops)[k];
             c.window == l.window[k] && c.start <= t < c.start + c.window as real && 0 <= c.count <= l.limit[k] - n
    ensures var all, c := ops + Repeat(Check(k, t), n), Run(l, ops)[k];
            && Known(l, all) && k in Run(l, all)
            && Run(l, all)[k] == Counter(c.count + n, c.start, c.window)
            && Grants(l, all, k) == Grants(l, ops, k) + Repeat(t, n)
  {
    hide Run, Grants, Known;
    if n == 0 {
      assert ops + Repeat(Check(k, t), n) == ops;
      assert Grants(l, ops, k) + [] == Grants(l, ops, k);
    } else {
      RoomIsGranted(l, ops, k, t, n - 1);
      var before := ops + Repeat(Check(k, t), n - 1);
      OneMoreIsGranted(l, before, k, t);
      assert before + [Check(k, t)] == ops + Repeat(Check(k, t), n);
    }
  }

  /** One check of a key that has no current window is granted and opens one. */
  lemma {:induction false} OpeningIsGranted(l: Limits, ops: seq<Op>, k: Key, t: real)
    requires Known(l, ops) && k in l.limit
    requires k in Run(l, ops) ==> Expired(Run(l, ops)[k], t, l.window[k])
    ensures var all := ops + [Check(k, t)];
            && Known(l, all) && k in Run(l, all) && Run(l, all)[k] == Counter(1, t, l.window[k])
            && Grants(l, all, k) == Grants(l, ops, k) + [t]
  {
    var all := ops + [Check(k, t)];
    assert all[..|all| - 1] == ops;
  }

  function Range(n: nat): (r: set<int>)
    ensures |r| == n && forall i :: i in r <==> 0 <= i < n
  {
    if n == 0 then {} else Range(n - 1) + {n - 1}
  }

  /** One check, the rest of the limit half a window later, and the whole limit when the window ends. */
  function Burst(k: Key, limit: int, window: int): seq<Op>
    requires limit >= 1
  {
    var half, end := window as real / 2.0, window as real;
    [Check(k, 0.0)] + Repeat(Check(k, half), limit - 1) + [Check(k, end)] + Repeat(Check(k, end), limit - 1)
  }

  /** For every limit and window both bounds of the theorem above are reached. */
  lemma {:induction false} RateBoundIsTight(l: Limits, k: Key)
    requires l.Valid() && k in l.limit
    ensures var ops, half := Burst(k, l.limit[k], l.window[k]), l.window[k] as real / 2.0;
            && Known(l, ops) && Monotone(ops)
            && |Between(Grants(l, ops, k), 0.0, l.window[k] as real)| == 2 * l.limit[k]
            && |Within(Grants(l, ops, k), half, half + l.window[k] as real)| == 2 * l.limit[k] - 1
  {
    hide Grants, Run, Known, Monotone, Between, Within;
    var limit, half, end := l.limit[k], l.window[k] as real / 2.0, l.window[k] as real;
    EmptyRun(l, k);
    var a := [] + [Check(k, 0.0)];
    OpeningIsGranted(l, [], k, 0.0);
    var b := a + Repeat(Check(k, half), limit - 1);
    RoomIsGranted(l, a, k, half, limit - 1);
    var c := b + [Check(k, end)];
    OpeningIsGranted(l, b, k, end);
    RoomIsGranted(l, c, k, end, limit - 1);
    var ops := c + Repeat(Check(k, end), limit - 1);
    assert ops == Burst(k, limit, l.window[k]);
    BurstTimes(k, limit, l.window[k]);
    BurstCounts(Grants(l, ops, k), limit, l.window[k]);
  }

  lemma {:induction false} BurstTimes(k: Key, limit: int, window: int)
    requires limit >= 1 && window >= 1
    ensures Monotone(Burst(k, limit, window))
  {
    var half, end := window as real / 2.0, window as real;
    var ops := Burst(k, limit, window);
    forall i | 0 <= i < |ops| ensures ops[i].at == if i == 0 then 0.0 else if i < limit then half else end {}
  }

  ghost predicate BurstShape(g: seq<real>, limit: int, half: real) {
    |g| == 2 * limit && forall i :: 0 <= i < |g| ==> g[i] == if i == 0 then 0.0 else if i < limit then half else 2.0 * half
  }

  lemma {:induction false} BurstCounts(g: seq<real>, limit: int, window: int)
    requires limit >= 1 && window >= 1
    requires var half, end := window as real / 2.0, window as real;
             g == [0.0] + Repeat(half, limit - 1) + [end] + Repeat(end, limit - 1)
    ensures var half, end := window as real / 2.0, window as real;
            |Between(g, 0.0, end)| == 2 * limit && |Within(g, half, half + end)| == 2 * limit - 1
  {
    var half, end := window as real / 2.0, window as real;
    assert BurstShape(g, limit, half);
    hide BurstShape, Between, Within;
    BurstClosed(g, limit, half);
    BurstHalfOpen(g, limit, half);
  }

  lemma {:induction false} BurstClosed(g: seq<real>, limit: int, half: real)
    requires limit >= 1 && half > 0.0 && BurstShape(g, limit, half)
    ensures |Between(g, 0.0, 2.0 * half)| == 2 * limit
  {
    assert Between(g, 0.0, 2.0 * half) == Range(2 * limit);
  }

  lemma {:induction false} BurstHalfOpen(g: seq<real>, limit: int, half: real)
    requires limit >= 1 && half > 0.0 && BurstShape(g, limit, half)
    ensures |Within(g, half, half + 2.0 * half)| == 2 * limit - 1
  {
    assert Within(g, half, half + 2.0 * half) == Range(2 * limit) - {0};
  }

  lemma {:induction false} EmptyRun(l: Limits, k: Key)
    requires l.Valid()
    ensures Known(l, []) && Run(l, []) == map[] && Grants(l, [], k) == []
  {}

  /** At any moment the grants since the current window of a key opened are those it counts. */
  lemma {:induction false} WindowBound(l: Limits, ops: seq<Op>, k: Key)
    requires Known(l, ops) && Monotone(ops) && k in Run(l, ops)
    ensures k in l.limit
    ensures var g, c := Grants(l, ops, k), Run(l, ops)[k];
            1 <= c.count <= l.limit[k] && c.count <= |g|
            && forall i :: 0 <= i < |g| ==> (g[i] >= c.start <==> i >= |g| - c.count)
  {
    hide Spread, Answer, Checked, Apply;
    var now := if ops == [] then 0.0 else ops[|ops| - 1].at;
    ChecksSubrun(l, ops);
    ChecksMonotone(ops);
    SweepsInvisible(l, ops, now);
    SameAnswers(l, ops, k);
    GrantsTracked(l, Checks(ops), k, now);
  }

  lemma {:induction false} ChecksMonotone(ops: seq<Op>)
    requires Monotone(ops)
    ensures Monotone(Checks(ops))
    ensures forall op :: op in Checks(ops) ==> op in ops
    ensures Checks(ops) != [] ==> ops != [] && Checks(ops)[|Checks(ops)| - 1].at <= ops[|ops| - 1].at
  {
    if ops != [] {
      var before := ops[..|ops| - 1];
      ChecksMonotone(before);
      forall i | 0 <= i < |Checks(before)| ensures Checks(before)[i].at <= ops[|ops| - 1].at {
        assert Checks(before)[i] in before;
      }
    }
  }
}
