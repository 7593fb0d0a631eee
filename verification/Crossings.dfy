/** The sticky crossing marker over whole streams: the size bound never shows in it, and a
    notification dispatch is planned once per crossing.
  */
module Crossings {
  import opened Order
  import opened Ranks
  import opened Windows

  // ---------------------------------------------------------------------------------------
  // The fingerprint cap
  // ---------------------------------------------------------------------------------------

  /** Main theorem: for any stream of valid inputs, with replays, late events, and window,
      threshold and cap changing from one event to the next, the run with the fingerprint cap
      and the run without it set the marker and raise the first transition at the same step. */
  lemma {:induction false} CapTransparency(os: seq<Occurrence>)
    requires os != [] && AllValid(os)
    ensures Run(os, true).crossed == Run(os, false).crossed
    ensures LastOutcome(os, true).first == LastOutcome(os, false).first
    ensures LastOutcome(os, true).Planned() == LastOutcome(os, false).Planned()
    ensures Run(os, true).lastUpdate == Run(os, false).lastUpdate
    ensures !Run(os, true).crossed ==> Run(os, true) == Run(os, false)
  {
    var o := os[|os| - 1];
    assert o in os;
    if |os| > 1 {
      var before := os[..|os| - 1];
      assert forall x :: x in before ==> x in os;
      CapTransparency(before);
      if !Run(before).crossed {
        CapStep(Run(before), o);
      }
    }
  }

  /** A step that evicts leaves the window full, and a full window has crossed. */
  lemma {:induction false} CapStep(a: Aggregate, o: Occurrence)
    requires o.Valid() && !a.crossed
    ensures Push(a, o, true).crossed == Push(a, o, false).crossed
    ensures !Push(a, o, true).crossed ==> Push(a, o, true) == Push(a, o, false)
  {
    NewestCount(Counted(a.lastUpdate, a.window.stamps, o), o.cap);
  }

  /** The bound on the threshold is needed: with a threshold above the cap, distinct events that
      cross the threshold without the cap never cross it with the cap. */
  lemma {:induction false} ThresholdAboveCapNeverCrosses(a: Aggregate, o: Occurrence)
    requires 0 <= o.cap < o.threshold && !a.crossed
    ensures !Push(a, o, true).crossed
    ensures Push(a, o, false).crossed <==> |Counted(a.lastUpdate, a.window.stamps, o)| >= o.threshold
  {
    NewestCount(Counted(a.lastUpdate, a.window.stamps, o), o.cap);
  }

  // ---------------------------------------------------------------------------------------
  // Exactly one dispatch
  // ---------------------------------------------------------------------------------------

  /** What every row satisfies: the count is the map's size, and a window at its threshold has set the marker. */
  ghost predicate Sound(a: Aggregate) {
    && a.window.counted == |a.window.stamps|
    && (a.window.counted >= a.window.threshold ==> a.crossed)
  }

  lemma {:induction false} SoundStep(a: Aggregate, o: Occurrence)
    requires Sound(a) && o.Valid()
    ensures Sound(Push(a, o))
    ensures Sound(Start(o))
  {}

  /** A replay adds nothing, so under an unlowered threshold it is never the first transition. */
  lemma {:induction false} ReplayNeverFirst(a: Aggregate, o: Occurrence)
    requires Sound(a) && o.Valid() && o.threshold >= a.window.threshold
    ensures PushOutcome(a, o).replay ==> !PushOutcome(a, o).first
    ensures PushOutcome(a, o).first ==> PushOutcome(a, o).counted
    ensures PushOutcome(a, o).Planned() <==> !a.crossed && Push(a, o).crossed
  {
    var stamps := a.window.stamps;
    var pruned := Pruned(a.lastUpdate, stamps, o);
    SubsetCard(pruned.Keys, stamps.Keys);
    assert |pruned| == |pruned.Keys| && |stamps| == |stamps.Keys|;
    NewestCount(Counted(a.lastUpdate, stamps, o), o.cap);
  }

  /** The rule of an incident never lowers its threshold along the stream. */
  ghost predicate Unlowered(os: seq<Occurrence>) {
    forall i, j :: 0 <= i < j < |os| ==> os[i].threshold <= os[j].threshold
  }

  function Dispatches(os: seq<Occurrence>): nat {
    if os == [] then 0
    else Dispatches(os[..|os| - 1]) + if LastOutcome(os).Planned() then 1 else 0
  }

  /** Main theorem: over the life of an incident the planned dispatches number one once the
      marker is set and none before. */
  lemma {:induction false} ExactlyOneDispatch(os: seq<Occurrence>)
    requires os != [] && AllValid(os) && Unlowered(os)
    ensures Dispatches(os) == if Run(os).crossed then 1 else 0
    ensures Sound(Run(os)) && Run(os).window.threshold == os[|os| - 1].threshold
  {
    var before, o := os[..|os| - 1], os[|os| - 1];
    assert o in os;
    if |os| == 1 {
      assert before == [] && Dispatches(before) == 0;
    } else {
      assert forall x :: x in before ==> x in os;
      assert forall i :: 0 <= i < |before| ==> before[i] == os[i];
      ExactlyOneDispatch(before);
      ReplayNeverFirst(Run(before), o);
      SoundStep(Run(before), o);
    }
  }

  /** A fingerprint of one letter (of Latin Extended-A), different for every number. */
  function Mark(i: nat): Text
    requires i < MAX_WINDOW_FINGERPRINTS
  {
    [0x100 + i]
  }

  /** `n` events with different fingerprints at one moment. */
  function Burst(n: nat, threshold: int): seq<Occurrence>
    requires n <= MAX_WINDOW_FINGERPRINTS
  {
    seq(n, i requires 0 <= i < n => Occurrence(Mark(i), 0, 1, threshold, MAX_WINDOW_FINGERPRINTS))
  }

  function BurstStamps(n: nat): Stamps
    requires n <= MAX_WINDOW_FINGERPRINTS
  {
    if n == 0 then map[] else BurstStamps(n - 1)[Mark(n - 1) := 0]
  }

  lemma {:induction false} BurstStampsShape(n: nat)
    requires n <= MAX_WINDOW_FINGERPRINTS
    ensures |BurstStamps(n)| == n
    ensures forall f :: f in BurstStamps(n) ==> BurstStamps(n)[f] == 0 && |f| == 1 && f[0] < 0x100 + n
    ensures n > 0 ==> Mark(0) in BurstStamps(n)
  {
    if n > 0 { BurstStampsShape(n - 1); }
  }

  lemma {:induction false} BurstRun(n: nat, threshold: int)
    requires 1 <= n < threshold <= MAX_WINDOW_FINGERPRINTS
    ensures var a := Run(Burst(n, threshold));
            a.lastUpdate == 0 && a.window.stamps == BurstStamps(n) && a.window.threshold == threshold && !a.crossed
  {
    hide Push, Start, BurstStamps;
    var os := Burst(n, threshold);
    if n == 1 {
      BurstStart(threshold);
    } else {
      assert os[..n - 1] == Burst(n - 1, threshold);
      BurstRun(n - 1, threshold);
      BurstPush(n, threshold, Run(os[..n - 1]), os[n - 1]);
    }
  }

  lemma {:induction false} BurstStart(threshold: int)
    requires threshold > 1
    ensures var a := Start(Occurrence(Mark(0), 0, 1, threshold, MAX_WINDOW_FINGERPRINTS));
            a.lastUpdate == 0 && a.window.stamps == BurstStamps(1) && a.window.threshold == threshold && !a.crossed
  {
    assert BurstStamps(0) == map[];
  }

  lemma {:induction false} BurstPush(n: nat, threshold: int, a: Aggregate, o: Occurrence)
    requires 2 <= n < threshold <= MAX_WINDOW_FINGERPRINTS
    requires a.lastUpdate == 0 && a.window.stamps == BurstStamps(n - 1) && !a.crossed
    requires o == Occurrence(Mark(n - 1), 0, 1, threshold, MAX_WINDOW_FINGERPRINTS)
    ensures var b := Push(a, o);
            b.lastUpdate == 0 && b.window.stamps == BurstStamps(n) && b.window.threshold == threshold && !b.crossed
  {
    BurstStampsShape(n - 1);
    BurstStampsShape(n);
    assert Pruned(0, a.window.stamps, o) == BurstStamps(n - 1);
    assert Counted(0, a.window.stamps, o) == BurstStamps(n);
    NewestCount(BurstStamps(n), MAX_WINDOW_FINGERPRINTS);
  }

  /** An incident whose first transition the replay check swallows. */
  ghost predicate Swallowed(os: seq<Occurrence>, o: Occurrence, before: int, after: int) {
    && os != [] && AllValid(os) && o.Valid()
    && (forall x :: x in os ==> x.threshold == before) && o.threshold == after
    && LastOutcome(os + [o]).first && !LastOutcome(os + [o]).Planned()
  }

  lemma {:induction false} LoweredSwallows(before: int, after: int)
    requires 1 <= after < before <= MAX_WINDOW_FINGERPRINTS
    ensures Swallowed(Burst(after, before), Occurrence(Mark(0), 0, 1, after, MAX_WINDOW_FINGERPRINTS), before, after)
  {
    var os := Burst(after, before);
    var o := Occurrence(Mark(0), 0, 1, after, MAX_WINDOW_FINGERPRINTS);
    BurstRun(after, before);
    assert (os + [o])[..|os + [o]| - 1] == os;
    LoweredReplay(Run(os), o);
  }

  lemma {:induction false} LoweredReplay(a: Aggregate, o: Occurrence)
    requires o.Valid() && o == Occurrence(Mark(0), 0, 1, o.threshold, MAX_WINDOW_FINGERPRINTS)
    requires a.lastUpdate == 0 && a.window.stamps == BurstStamps(o.threshold) && !a.crossed
    ensures PushOutcome(a, o).replay && PushOutcome(a, o).first
  {
    BurstStampsShape(o.threshold);
    assert Pruned(0, a.window.stamps, o) == BurstStamps(o.threshold);
    NewestCount(BurstStamps(o.threshold), MAX_WINDOW_FINGERPRINTS);
  }

  lemma {:induction false} SwallowedNeedsLowering(os: seq<Occurrence>, o: Occurrence, before: int, after: int)
    requires Swallowed(os, o, before, after)
    ensures after < before
  {
    assert forall i :: 0 <= i < |os| ==> os[i] in os;
    ExactlyOneDispatch(os);
    assert (os + [o])[..|os + [o]| - 1] == os;
    if after >= before { ReplayNeverFirst(Run(os), o); }
  }

  /** The replay check placed first swallows the only dispatch of some incident exactly when a
      rule's threshold may be lowered while the incident is open. */
  lemma {:induction false} SwallowedIffLowered(before: int, after: int)
    requires 1 <= before <= MAX_WINDOW_FINGERPRINTS && 1 <= after <= MAX_WINDOW_FINGERPRINTS
    ensures after < before <==> exists os, o :: Swallowed(os, o, before, after)
  {
    hide Swallowed;
    if after < before { LoweredSwallows(before, after); }
    forall os, o | Swallowed(os, o, before, after) ensures after < before {
      SwallowedNeedsLowering(os, o, before, after);
    }
  }
}
