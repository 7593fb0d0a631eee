/** The ownership of one verification project on a Docker daemon: a claim container, visible to all,
    and a receipt file of each invocation.

    Every step is one Docker command or one file access of one invocation; any command may fail,
    and a failing creation, removal or
    release may have taken effect unseen. Container identifiers are
    never used twice. An owned cleanup needs receipt and claim; a deliberate one needs neither.
    Resources of the project are made by invocations that hold its receipt.
  */
module Ownership {

  type Invocation = nat

  datatype Option<+T> = None | Some(value: T)

  datatype Claim = Claim(id: nat, invocation: Invocation)

  datatype Kind = Container | Volume | Network

  const KINDS: seq<Kind> := [Container, Volume, Network]

  datatype Resource = Resource(id: nat, kind: Kind, maker: Invocation)

  /** Where an invocation stands: acquiring, or cleaning up. `next` counts the kinds dealt with. */
  datatype Stage =
    | Inspecting(next: nat)
    | Identifying
    | Recording
    | Rejecting
    | Listing(next: nat, failed: bool)
    | Removing(next: nat, left: set<Resource>, failed: bool)
    | Verifying(next: nat, failed: bool)
    | Confirming
    | Releasing
    | Unlinking

  /** `Owning` is the time after a successful acquisition in which the project is used. */
  datatype Phase = Idle | Owning | Busy(owned: bool, claim: Option<nat>, stage: Stage)

  datatype World = World(
    claim: Option<Claim>, receipts: map<Invocation, nat>, resources: set<Resource>, nextId: nat,
    phases: map<Invocation, Phase>)

  datatype Step =
    | Create(i: Invocation, lost: bool)
    | Pass(i: Invocation)
    | Reject(i: Invocation)
    | Use(i: Invocation, kind: Kind)
    | Begin(i: Invocation)
    | BeginDeliberate(i: Invocation)
    | List(i: Invocation, fails: bool)
    | Remove(i: Invocation, r: Resource, gone: bool, fails: bool)
    | Next(i: Invocation)
    | Verify(i: Invocation, fails: bool)
    | Confirm(i: Invocation, release: bool)
    | GiveUp(i: Invocation, lost: bool)
    | Release(i: Invocation)
    | Unlink(i: Invocation)

  function Of(resources: set<Resource>, kind: Kind): set<Resource> {
    set r | r in resources && r.kind == kind
  }

  function PhaseOf(w: World, i: Invocation): Phase {
    if i in w.phases then w.phases[i] else Idle
  }

  predicate HasClaim(w: World, i: Invocation, id: Option<nat>) {
    id.Some? && w.claim == Some(Claim(id.value, i))
  }

  predicate Enabled(w: World, s: Step) {
    var p := PhaseOf(w, s.i);
    match s
    case Create(i, _) => p.Idle? && i !in w.receipts && w.claim.None?
    case Pass(i) =>
      p.Busy? && (match p.stage
                  case Inspecting(n) => n < 3 ==> Of(w.resources, KINDS[n]) == {}
                  case Identifying => HasClaim(w, i, p.claim)
                  case Recording => i !in w.receipts && p.claim.Some?
                  case _ => false)
    case Reject(_) => p.Busy? && (p.stage.Inspecting? || p.stage.Identifying? || p.stage.Recording?)
    case Use(_, _) => p.Owning?
    case Begin(i) => !p.Busy? && i in w.receipts && HasClaim(w, i, Some(w.receipts[i]))
    case BeginDeliberate(_) => p.Idle?
    case List(_, _) => p.Busy? && p.stage.Listing?
    case Remove(_, r, gone, fails) =>
      p.Busy? && p.stage.Removing? && r in p.stage.left && (gone || fails) && (r !in w.resources ==> fails)
    case Next(_) => p.Busy? && p.stage.Removing? && p.stage.left == {}
    case Verify(_, _) => p.Busy? && p.stage.Verifying?
    case Confirm(i, _) => p.Busy? && p.stage.Confirming? && HasClaim(w, i, p.claim)
    case GiveUp(_, _) => p.Busy? && (p.stage.Rejecting? || p.stage.Confirming? || p.stage.Releasing? || p.stage.Unlinking?)
    case Release(_) => p.Busy? && (p.stage.Rejecting? || p.stage.Releasing?)
    case Unlink(_) => p.Busy? && p.stage.Unlinking?
  }

  /** Removes the claim by identifier, never by name. */
  function Without(claim: Option<Claim>, id: Option<nat>): Option<Claim> {
    if claim.Some? && id == Some(claim.value.id) then None else claim
  }

  function Moved(w: World, i: Invocation, p: Phase): World {
    w.(phases := w.phases[i := p])
  }

  /** What follows the checks of a cleanup that found nothing left and no failure. */
  function AfterVerified(p: Phase): Phase
    requires p.Busy?
  {
    if p.owned then p.(stage := Confirming)
    else if p.claim.Some? then p.(stage := Releasing)
    else Idle
  }

  /** A failed cleanup keeps claim and receipt. */
  function Failed(p: Phase): Phase
    requires p.Busy?
  {
    if p.owned then Owning else Idle
  }

  function Apply(w: World, s: Step): World
    requires Enabled(w, s)
  {
    var p := PhaseOf(w, s.i);
    match s
    case Create(i, lost) =>
      w.(claim := Some(Claim(w.nextId, i)), nextId := w.nextId + 1,
         phases := w.phases[i := if lost then Idle else Busy(true, Some(w.nextId), Inspecting(0))])
    case Pass(i) =>
      (match p.stage
       case Inspecting(n) => Moved(w, i, p.(stage := if n < 3 then Inspecting(n + 1) else Identifying))
       case Identifying => Moved(w, i, p.(stage := Recording))
       case _ => Moved(w.(receipts := w.receipts[i := p.claim.value]), i, Owning))
    case Reject(i) => Moved(w, i, p.(stage := Rejecting))
    case Use(i, kind) => w.(resources := w.resources + {Resource(w.nextId, kind, i)}, nextId := w.nextId + 1)
    case Begin(i) => Moved(w, i, Busy(true, Some(w.receipts[i]), Listing(0, false)))
    case BeginDeliberate(i) =>
      Moved(w, i, Busy(false, if w.claim.Some? then Some(w.claim.value.id) else None, Listing(0, false)))
    case List(i, fails) =>
      var n := p.stage.next;
      Moved(w, i, p.(stage := if n >= 3 then Verifying(0, p.stage.failed)
                              else if fails then Listing(n + 1, true)
                              else Removing(n + 1, Of(w.resources, KINDS[n]), p.stage.failed)))
    case Remove(i, r, gone, fails) =>
      Moved(w.(resources := if gone then w.resources - {r} else w.resources), i,
            p.(stage := Removing(p.stage.next, p.stage.left - {r}, p.stage.failed || fails)))
    case Next(i) => Moved(w, i, p.(stage := Listing(p.stage.next, p.stage.failed)))
    case Verify(i, fails) =>
      if p.stage.next < 3 then
        Moved(w, i, p.(stage := Verifying(p.stage.next + 1,
                                          p.stage.failed || fails || Of(w.resources, KINDS[p.stage.next]) != {})))
      else Moved(w, i, if p.stage.failed then Failed(p) else AfterVerified(p))
    case Confirm(i, release) => Moved(w, i, if release then p.(stage := Releasing) else Owning)
    case GiveUp(i, lost) =>
      Moved(w.(claim := if lost && (p.stage.Rejecting? || p.stage.Releasing?) then Without(w.claim, p.claim) else w.claim),
            i, if p.stage.Confirming? then Owning else Idle)
    case Release(i) =>
      Moved(w.(claim := Without(w.claim, p.claim)), i,
            if p.stage.Releasing? && p.owned then p.(stage := Unlinking) else Idle)
    case Unlink(i) => Moved(w.(receipts := w.receipts - {i}), i, Idle)
  }

  /** No invocation has started; resources of earlier times may be around, and perhaps a claim. */
  predicate Initial(w: World) {
    w.receipts == map[] && w.phases == map[] && (w.claim.Some? ==> w.claim.value.id < w.nextId)
  }

  ghost predicate Runs(w: World, steps: seq<Step>)
    decreases |steps|, 0
  {
    steps != [] ==> Runs(w, steps[..|steps| - 1]) && Enabled(Reach(w, steps[..|steps| - 1]), steps[|steps| - 1])
  }

  ghost function Reach(w: World, steps: seq<Step>): World
    requires Runs(w, steps)
    decreases |steps|, 1
  {
    if steps == [] then w else Apply(Reach(w, steps[..|steps| - 1]), steps[|steps| - 1])
  }

  // ---------------------------------------------------------------------------------------
  // The step that takes the protection away
  // ---------------------------------------------------------------------------------------

  /** An invocation that goes on relying on its claim: it uses the project, is about to, or cleans up. */
  predicate Relies(p: Phase) {
    || p.Owning?
    || (p.Busy? && p.owned
        && (p.stage.Recording? || p.stage.Listing? || p.stage.Removing? || p.stage.Verifying? || p.stage.Confirming?))
  }

  /** A deliberate cleanup gives back the claim that is there. */
  predicate Frees(w: World, s: Step) {
    && (s.Release? || (s.GiveUp? && s.lost))
    && var p := PhaseOf(w, s.i);
       p.Busy? && !p.owned && p.stage.Releasing? && w.claim.Some? && p.claim == Some(w.claim.value.id)
  }

  /** It frees the claim of an invocation that still relies on it. */
  predicate Breaking(w: World, s: Step) {
    Frees(w, s) && Relies(PhaseOf(w, w.claim.value.invocation))
  }

  ghost predicate Unbroken(w: World, steps: seq<Step>)
    requires Runs(w, steps)
  {
    steps != [] ==>
      Unbroken(w, steps[..|steps| - 1]) && !Breaking(Reach(w, steps[..|steps| - 1]), steps[|steps| - 1])
  }

  // ---------------------------------------------------------------------------------------
  // Protection without such a step
  // ---------------------------------------------------------------------------------------

  /** No resource of the first `n` kinds. */
  ghost predicate EmptyUpTo(resources: set<Resource>, n: nat) {
    forall r :: r in resources ==> exists k :: n <= k < 3 && KINDS[k] == r.kind
  }

  predicate Acquiring(s: Stage) {
    s.Inspecting? || s.Identifying? || s.Recording? || s.Rejecting?
  }

  ghost predicate MadeBy(resources: set<Resource>, i: Invocation) {
    forall r :: r in resources ==> r.maker == i
  }

  predicate Owns(w: World, i: Invocation) {
    i in w.receipts && HasClaim(w, i, Some(w.receipts[i]))
  }

  /** No claim but the invocation's own can carry this identifier. */
  predicate OwnId(w: World, i: Invocation, id: Option<nat>) {
    id.Some? && id.value < w.nextId && (w.claim.Some? && w.claim.value.id == id.value ==> w.claim.value.invocation == i)
  }

  /** Where an invocation stands agrees with the claim, the receipt and the resources. */
  ghost predicate Consistent(w: World, i: Invocation) {
    var p := PhaseOf(w, i);
    && (Owns(w, i) ==> MadeBy(w.resources, i))
    && (p.Owning? ==> Owns(w, i))
    && (p.Busy? && p.owned ==> OwnId(w, i, p.claim))
    && (p.Busy? && !p.owned ==>
          !Acquiring(p.stage) && !p.stage.Confirming? && !p.stage.Unlinking? && (p.claim.Some? ==> p.claim.value < w.nextId))
    && (p.Busy? && p.owned && Acquiring(p.stage) ==> i !in w.receipts)
    && (p.Busy? && p.owned && Relies(p) ==> HasClaim(w, i, p.claim))
    && (p.Busy? && p.owned && Relies(p) && !p.stage.Recording? ==> Owns(w, i))
    && (p.Busy? && p.owned && HasClaim(w, i, p.claim) ==> StageHolds(w.resources, i, p.stage))
  }

  ghost predicate StageHolds(resources: set<Resource>, i: Invocation, s: Stage) {
    match s
    case Inspecting(n) => EmptyUpTo(resources, n)
    case Identifying => resources == {}
    case Recording => resources == {}
    case Removing(_, left, _) => MadeBy(left, i)
    case Verifying(n, failed) => failed || EmptyUpTo(resources, n)
    case Confirming => resources == {}
    case Releasing => resources == {}
    case _ => true
  }

  ghost predicate Inv(w: World) {
    (w.claim.Some? ==> w.claim.value.id < w.nextId) && forall i :: Consistent(w, i)
  }

  lemma {:induction false} NextKind(resources: set<Resource>, n: nat)
    requires EmptyUpTo(resources, n)
    ensures n < 3 && Of(resources, KINDS[n]) == {} ==> EmptyUpTo(resources, n + 1)
    ensures n >= 3 ==> resources == {}
  {
    if n < 3 && Of(resources, KINDS[n]) == {} {
      forall r | r in resources ensures exists k :: n + 1 <= k < 3 && KINDS[k] == r.kind {
        var k :| n <= k < 3 && KINDS[k] == r.kind;
        assert r !in Of(resources, KINDS[n]);
      }
    }
  }

  predicate Acquires(s: Step) {
    s.Create? || s.Pass? || s.Reject? || s.Use?
  }

  predicate Cleans(s: Step) {
    s.Begin? || s.BeginDeliberate? || s.List? || s.Remove? || s.Next? || s.Verify?
  }

  /** The acting invocation stays consistent. */
  lemma {:induction false} ActorStep(w: World, s: Step)
    requires Consistent(w, s.i) && Enabled(w, s) && !Breaking(w, s)
    requires EmptyUpTo(w.resources, 0) && (w.claim.Some? ==> w.claim.value.id < w.nextId)
    ensures Consistent(Apply(w, s), s.i)
  {
    hide Consistent, Enabled, Apply, EmptyUpTo, Breaking;
    if Acquires(s) { ActorAcquires(w, s); } else if Cleans(s) { ActorCleans(w, s); } else { ActorEnds(w, s); }
  }

  lemma {:induction false} ActorAcquires(w: World, s: Step)
    requires Consistent(w, s.i) && Enabled(w, s) && Acquires(s)
    requires EmptyUpTo(w.resources, 0) && (w.claim.Some? ==> w.claim.value.id < w.nextId)
    ensures Consistent(Apply(w, s), s.i)
  {
    var p := PhaseOf(w, s.i);
    if s.Pass? && p.stage.Inspecting? && EmptyUpTo(w.resources, p.stage.next) { NextKind(w.resources, p.stage.next); }
  }

  lemma {:induction false} ActorCleans(w: World, s: Step)
    requires Consistent(w, s.i) && Enabled(w, s) && Cleans(s)
    requires EmptyUpTo(w.resources, 0) && (w.claim.Some? ==> w.claim.value.id < w.nextId)
    ensures Consistent(Apply(w, s), s.i)
  {
    var p := PhaseOf(w, s.i);
    if s.Verify? && EmptyUpTo(w.resources, p.stage.next) { NextKind(w.resources, p.stage.next); }
  }

  lemma {:induction false} ActorEnds(w: World, s: Step)
    requires Consistent(w, s.i) && Enabled(w, s) && !Breaking(w, s) && !Acquires(s) && !Cleans(s)
    ensures Consistent(Apply(w, s), s.i)
  {
    hide EmptyUpTo, Of;
  }

  lemma {:induction false} EveryKind(r: Resource)
    ensures exists k :: 0 <= k < 3 && KINDS[k] == r.kind
  {
    assert KINDS[0] == Container && KINDS[1] == Volume && KINDS[2] == Network;
  }

  /** No step of one invocation disturbs another. */
  lemma {:induction false} OtherStep(w: World, s: Step, j: Invocation)
    requires Consistent(w, s.i) && Consistent(w, j) && j != s.i && Enabled(w, s) && !Breaking(w, s)
    requires w.claim.Some? ==> w.claim.value.id < w.nextId
    ensures Consistent(Apply(w, s), j)
  {}

  lemma {:induction false} StepInv(w: World, s: Step)
    requires Inv(w) && Enabled(w, s) && !Breaking(w, s)
    ensures Inv(Apply(w, s))
  {
    hide Consistent, Apply, Enabled, Breaking;
    forall r | r in w.resources { EveryKind(r); }
    forall j ensures Consistent(Apply(w, s), j) {
      assert Consistent(w, s.i) && Consistent(w, j);
      if j == s.i { ActorStep(w, s); } else { OtherStep(w, s, j); }
    }
    ClaimIdStep(w, s);
  }

  lemma {:induction false} ClaimIdStep(w: World, s: Step)
    requires Enabled(w, s) && (w.claim.Some? ==> w.claim.value.id < w.nextId)
    ensures Apply(w, s).claim.Some? ==> Apply(w, s).claim.value.id < Apply(w, s).nextId
  {}

  lemma {:induction false} InitialInv(w: World)
    requires Initial(w)
    ensures Inv(w)
  {}

  lemma {:induction false} RunInv(w: World, steps: seq<Step>)
    requires Inv(w) && Runs(w, steps) && Unbroken(w, steps)
    ensures Inv(Reach(w, steps))
  {
    hide Inv, Apply, Enabled, Breaking;
    if steps != [] {
      RunInv(w, steps[..|steps| - 1]);
      StepInv(Reach(w, steps[..|steps| - 1]), steps[|steps| - 1]);
    }
  }

  /** An owned cleanup is about to remove what another invocation made. */
  ghost predicate Trespass(w: World) {
    exists s: Step :: s.Remove? && Enabled(w, s) && PhaseOf(w, s.i).owned && s.r.maker != s.i
  }

  /** One invocation at most owns the project, no owned cleanup removes what another invocation made,
      and an invocation gives its claim back only when nothing of the project is left. */
  ghost predicate Protected(w: World) {
    && (forall i, j :: PhaseOf(w, i).Owning? && PhaseOf(w, j).Owning? ==> i == j)
    && !Trespass(w)
    && (forall i | PhaseOf(w, i).Busy? && PhaseOf(w, i).owned && PhaseOf(w, i).stage.Releasing?
                   && HasClaim(w, i, PhaseOf(w, i).claim)
          :: w.resources == {})
    && (forall i :: PhaseOf(w, i).Owning? ==> Owns(w, i) && MadeBy(w.resources, i))
  }

  lemma {:induction false} InvProtects(w: World)
    requires Inv(w)
    ensures Protected(w)
  {
    forall i, j | PhaseOf(w, i).Owning? && PhaseOf(w, j).Owning? ensures i == j {
      assert Consistent(w, i) && Consistent(w, j);
    }
    forall s: Step | s.Remove? && Enabled(w, s) && PhaseOf(w, s.i).owned ensures s.r.maker == s.i {
      assert Consistent(w, s.i);
    }
    forall i | PhaseOf(w, i).Busy? && PhaseOf(w, i).owned && PhaseOf(w, i).stage.Releasing?
               && HasClaim(w, i, PhaseOf(w, i).claim)
      ensures w.resources == {}
    {
      assert Consistent(w, i);
    }
    forall i | PhaseOf(w, i).Owning? ensures Owns(w, i) && MadeBy(w.resources, i) {
      assert Consistent(w, i);
    }
  }

  /** Main theorem: with any command failing at any moment, and deliberate cleanups included, every
      interleaving is protected in which no deliberate cleanup frees a claim still relied on. */
  lemma {:induction false} OwnershipProtects(w: World, steps: seq<Step>)
    requires Initial(w) && Runs(w, steps) && Unbroken(w, steps)
    ensures Protected(Reach(w, steps)) && Inv(Reach(w, steps))
  {
    InitialInv(w);
    RunInv(w, steps);
    InvProtects(Reach(w, steps));
  }

  // ---------------------------------------------------------------------------------------
  // Claims nobody knows of
  // ---------------------------------------------------------------------------------------

  /** The claim belongs to an invocation that neither holds a receipt for it nor is at work with it. */
  ghost predicate Orphaned(w: World) {
    w.claim.Some? && !Owns(w, w.claim.value.invocation)
    && var p := PhaseOf(w, w.claim.value.invocation); p.Idle? || (p.Busy? && !p.owned)
  }

  lemma {:induction false} OrphanStays(w: World, s: Step)
    requires Inv(w) && Orphaned(w) && Enabled(w, s) && !Frees(w, s)
    ensures Orphaned(Apply(w, s)) && Apply(w, s).claim == w.claim
    ensures forall i :: !PhaseOf(Apply(w, s), i).Owning?
  {
    assert Consistent(w, s.i) && Consistent(w, w.claim.value.invocation);
    StepInv(w, s);
    var v := Apply(w, s);
    forall i ensures !PhaseOf(v, i).Owning? { assert Consistent(v, i); }
  }

  ghost predicate Unfreed(w: World, steps: seq<Step>)
    requires Runs(w, steps)
  {
    steps != [] ==> Unfreed(w, steps[..|steps| - 1]) && !Frees(Reach(w, steps[..|steps| - 1]), steps[|steps| - 1])
  }

  /** A claim whose creation or release went wrong unseen is never taken away by an invocation: none
      acquires the project until a deliberate cleanup frees it. */
  lemma {:induction false} OrphanBlocks(w: World, steps: seq<Step>)
    requires Inv(w) && Orphaned(w) && Runs(w, steps) && Unfreed(w, steps)
    ensures Inv(Reach(w, steps)) && Orphaned(Reach(w, steps)) && Reach(w, steps).claim == w.claim
    ensures steps != [] ==> forall i :: !PhaseOf(Reach(w, steps), i).Owning?
  {
    hide Inv, Apply, Enabled, Orphaned, Frees;
    if steps != [] {
      var before, s := steps[..|steps| - 1], steps[|steps| - 1];
      OrphanBlocks(w, before);
      OrphanStays(Reach(w, before), s);
      NotFreesNotBreaks(Reach(w, before), s);
      StepInv(Reach(w, before), s);
    }
  }

  lemma {:induction false} NotFreesNotBreaks(w: World, s: Step)
    requires !Frees(w, s)
    ensures !Breaking(w, s)
  {}

  // ---------------------------------------------------------------------------------------
  // Each such step costs the protection
  // ---------------------------------------------------------------------------------------

  lemma {:induction false} Proceed(w: World, steps: seq<Step>, s: Step) returns (more: seq<Step>)
    requires Runs(w, steps) && Enabled(Reach(w, steps), s)
    requires Unbroken(w, steps) && !Breaking(Reach(w, steps), s)
    ensures Runs(w, more) && Unbroken(w, more) && Reach(w, more) == Apply(Reach(w, steps), s)
  {
    hide Enabled, Apply, Breaking;
    more := steps + [s];
    assert more[..|more| - 1] == steps;
  }

  lemma {:induction false} NoSteps(w: World)
    ensures Runs(w, []) && Unbroken(w, []) && Reach(w, []) == w
  {}

  /** Only the phase and the receipt of one invocation differ. */
  ghost predicate SameBut(v: World, w: World, i: Invocation) {
    && w.resources == v.resources && w.claim == v.claim
    && forall j :: j != i ==> PhaseOf(w, j) == PhaseOf(v, j) && (j in w.receipts <==> j in v.receipts)
  }

  lemma {:induction false} SameButTwice(u: World, v: World, w: World, i: Invocation)
    requires SameBut(u, v, i) && SameBut(v, w, i)
    ensures SameBut(u, w, i)
  {}

  /** A cleanup that is checking ends, by a failure at the latest, with the project still in use. */
  lemma {:induction false} ChecksEnd(w: World, steps: seq<Step>, j: Invocation) returns (more: seq<Step>)
    requires Runs(w, steps) && Unbroken(w, steps)
    requires var p := PhaseOf(Reach(w, steps), j); p.Busy? && p.owned && (p.stage.Confirming? || p.stage.Verifying?)
    ensures Runs(w, more) && Unbroken(w, more)
    ensures SameBut(Reach(w, steps), Reach(w, more), j) && PhaseOf(Reach(w, more), j).Owning?
    decreases var p := PhaseOf(Reach(w, steps), j).stage; if p.Verifying? then if p.next < 3 then 4 - p.next else 1 else 0
  {
    hide Runs, Reach, Unbroken, Of;
    var v := Reach(w, steps);
    if PhaseOf(v, j).stage.Confirming? {
      more := Proceed(w, steps, GiveUp(j, false));
    } else {
      more := Proceed(w, steps, Verify(j, true));
      var u := Reach(w, more);
      assert SameBut(v, u, j);
      if !PhaseOf(u, j).Owning? {
        more := ChecksEnd(w, more, j);
        SameButTwice(v, u, Reach(w, more), j);
      }
    }
  }

  /** So does one that is listing, and one that is removing. */
  lemma {:induction false} ListingEnds(w: World, steps: seq<Step>, j: Invocation) returns (more: seq<Step>)
    requires Runs(w, steps) && Unbroken(w, steps)
    requires var p := PhaseOf(Reach(w, steps), j); p.Busy? && p.owned && p.stage.Listing?
    ensures Runs(w, more) && Unbroken(w, more)
    ensures SameBut(Reach(w, steps), Reach(w, more), j) && PhaseOf(Reach(w, more), j).Owning?
    decreases var n := PhaseOf(Reach(w, steps), j).stage.next; if n < 3 then 3 - n else 0
  {
    hide Runs, Reach, Unbroken, Of;
    var v := Reach(w, steps);
    more := Proceed(w, steps, List(j, true));
    var u := Reach(w, more);
    assert SameBut(v, u, j);
    if PhaseOf(v, j).stage.next < 3 {
      more := ListingEnds(w, more, j);
    } else {
      more := ChecksEnd(w, more, j);
    }
    SameButTwice(v, u, Reach(w, more), j);
  }

  lemma {:induction false} RemovingEnds(w: World, steps: seq<Step>, j: Invocation) returns (more: seq<Step>)
    requires Runs(w, steps) && Unbroken(w, steps)
    requires var p := PhaseOf(Reach(w, steps), j); p.Busy? && p.owned && p.stage.Removing?
    ensures Runs(w, more) && Unbroken(w, more)
    ensures SameBut(Reach(w, steps), Reach(w, more), j) && PhaseOf(Reach(w, more), j).Owning?
    decreases PhaseOf(Reach(w, steps), j).stage.left
  {
    hide Runs, Reach, Unbroken, Of;
    var v := Reach(w, steps);
    var left := PhaseOf(v, j).stage.left;
    if left == {} {
      more := Proceed(w, steps, Next(j));
      var u := Reach(w, more);
      more := ListingEnds(w, more, j);
      SameButTwice(v, u, Reach(w, more), j);
    } else {
      var r :| r in left;
      more := Proceed(w, steps, Remove(j, r, false, true));
      var u := Reach(w, more);
      more := RemovingEnds(w, more, j);
      SameButTwice(v, u, Reach(w, more), j);
    }
  }

  /** An invocation that relies on a claim can come to use the project, with or without the claim. */
  lemma {:induction false} ComesToUse(w: World, j: Invocation) returns (steps: seq<Step>)
    requires Relies(PhaseOf(w, j))
    requires PhaseOf(w, j).Busy? && PhaseOf(w, j).stage.Recording? ==> j !in w.receipts && PhaseOf(w, j).claim.Some?
    ensures Runs(w, steps) && Unbroken(w, steps)
    ensures SameBut(w, Reach(w, steps), j) && PhaseOf(Reach(w, steps), j).Owning?
  {
    hide Runs, Reach, Unbroken;
    NoSteps(w);
    steps := [];
    if PhaseOf(w, j).Busy? {
      match PhaseOf(w, j).stage
      case Recording => steps := Proceed(w, [], Pass(j));
      case Listing(_, _) => steps := ListingEnds(w, [], j);
      case Removing(_, _, _) => steps := RemovingEnds(w, [], j);
      case Verifying(_, _) => steps := ChecksEnd(w, [], j);
      case Confirming => steps := ChecksEnd(w, [], j);
    }
  }

  /** The claim and all other invocations are as they were. */
  ghost predicate OthersSame(v: World, w: World, i: Invocation) {
    w.claim == v.claim && forall j :: j != i ==> PhaseOf(w, j) == PhaseOf(v, j) && (j in w.receipts <==> j in v.receipts)
  }

  /** A cleanup at a stage; `owned` and `claim` tell which one it is. */
  predicate Clearing(w: World, m: Invocation, owned: bool, claim: Option<nat>, stage: Stage) {
    PhaseOf(w, m) == Busy(owned, claim, stage)
  }

  lemma {:induction false} RemovesAll(w: World, steps: seq<Step>, m: Invocation, owned: bool, claim: Option<nat>, n: nat,
                                      left: set<Resource>) returns (more: seq<Step>)
    requires Runs(w, steps) && Unbroken(w, steps)
    requires Clearing(Reach(w, steps), m, owned, claim, Removing(n, left, false)) && left <= Reach(w, steps).resources
    ensures Runs(w, more) && Unbroken(w, more)
    ensures var v, u := Reach(w, steps), Reach(w, more);
            && OthersSame(v, u, m) && u.resources == v.resources - left && u.receipts == v.receipts
            && Clearing(u, m, owned, claim, Removing(n, {}, false))
    decreases left
  {
    hide Runs, Reach, Unbroken, Of;
    var v := Reach(w, steps);
    if left == {} {
      more := steps;
    } else {
      var r :| r in left;
      more := Proceed(w, steps, Remove(m, r, true, false));
      var u := Reach(w, more);
      assert OthersSame(v, u, m) && u.resources == v.resources - {r};
      more := RemovesAll(w, more, m, owned, claim, n, left - {r});
      assert v.resources - {r} - (left - {r}) == v.resources - left;
    }
  }

  /** One kind after the other. */
  lemma {:induction false} ClearsKind(w: World, steps: seq<Step>, m: Invocation, owned: bool, claim: Option<nat>, n: nat)
    returns (more: seq<Step>)
    requires Runs(w, steps) && Unbroken(w, steps) && n < 3
    requires Clearing(Reach(w, steps), m, owned, claim, Listing(n, false)) && EmptyUpTo(Reach(w, steps).resources, n)
    ensures Runs(w, more) && Unbroken(w, more)
    ensures OthersSame(Reach(w, steps), Reach(w, more), m) && Reach(w, more).receipts == Reach(w, steps).receipts
    ensures Clearing(Reach(w, more), m, owned, claim, Listing(n + 1, false)) && EmptyUpTo(Reach(w, more).resources, n + 1)
  {
    hide Runs, Reach, Unbroken, EmptyUpTo;
    var v := Reach(w, steps);
    more := Proceed(w, steps, List(m, false));
    assert OthersSame(v, Reach(w, more), m);
    more := RemovesAll(w, more, m, owned, claim, n + 1, Of(v.resources, KINDS[n]));
    assert OthersSame(v, Reach(w, more), m);
    more := Proceed(w, more, Next(m));
    OneKindLess(v.resources, n);
  }

  lemma {:induction false} OneKindLess(resources: set<Resource>, n: nat)
    requires n < 3 && EmptyUpTo(resources, n)
    ensures EmptyUpTo(resources - Of(resources, KINDS[n]), n + 1)
  {
    var rest := resources - Of(resources, KINDS[n]);
    assert Of(rest, KINDS[n]) == {};
    NextKind(rest, n);
  }

  /** A cleanup that no command fails removes everything. */
  lemma {:induction false} ClearsKinds(w: World, steps: seq<Step>, m: Invocation, owned: bool, claim: Option<nat>)
    returns (more: seq<Step>)
    requires Runs(w, steps) && Unbroken(w, steps) && Clearing(Reach(w, steps), m, owned, claim, Listing(0, false))
    ensures Runs(w, more) && Unbroken(w, more)
    ensures OthersSame(Reach(w, steps), Reach(w, more), m) && Reach(w, more).receipts == Reach(w, steps).receipts
    ensures Reach(w, more).resources == {} && Clearing(Reach(w, more), m, owned, claim, Listing(3, false))
  {
    hide Runs, Reach, Unbroken, EmptyUpTo, Of;
    AllKinds(Reach(w, steps).resources);
    more := ClearsKind(w, steps, m, owned, claim, 0);
    more := ClearsKind(w, more, m, owned, claim, 1);
    more := ClearsKind(w, more, m, owned, claim, 2);
    NextKind(Reach(w, more).resources, 3);
  }

  /** A deliberate cleanup while there is no claim removes everything. */
  lemma {:induction false} Clears(w: World, steps: seq<Step>, m: Invocation) returns (more: seq<Step>)
    requires Runs(w, steps) && Unbroken(w, steps)
    requires var v := Reach(w, steps); v.claim.None? && PhaseOf(v, m).Idle?
    ensures Runs(w, more) && Unbroken(w, more)
    ensures OthersSame(Reach(w, steps), Reach(w, more), m) && Reach(w, more).resources == {}
  {
    hide Runs, Reach, Unbroken;
    more := Proceed(w, steps, BeginDeliberate(m));
    more := ClearsKinds(w, more, m, false, None);
  }

  lemma {:induction false} AllKinds(resources: set<Resource>)
    ensures EmptyUpTo(resources, 0)
  {
    forall r | r in resources ensures exists k :: 0 <= k < 3 && KINDS[k] == r.kind { EveryKind(r); }
  }

  /** An acquisition that meets no obstacle ends with the project owned. */
  lemma {:induction false} AcquisitionCompletes(w: World, steps: seq<Step>, k: Invocation) returns (more: seq<Step>)
    requires Runs(w, steps) && Unbroken(w, steps)
    requires var v := Reach(w, steps); v.claim.None? && v.resources == {} && PhaseOf(v, k).Idle? && k !in v.receipts
    ensures Runs(w, more) && Unbroken(w, more)
    ensures var v, u := Reach(w, steps), Reach(w, more);
            && u.resources == {} && PhaseOf(u, k).Owning? && Owns(u, k)
            && forall j :: j != k ==> PhaseOf(u, j) == PhaseOf(v, j)
  {
    hide Runs, Reach, Unbroken, Breaking;
    more := Passes(w, steps, Create(k, false));
    more := Passes(w, more, Pass(k));
    more := Passes(w, more, Pass(k));
    more := Passes(w, more, Pass(k));
    more := Passes(w, more, Pass(k));
    more := Passes(w, more, Pass(k));
    more := Passes(w, more, Pass(k));
  }

  lemma {:induction false} Passes(w: World, steps: seq<Step>, s: Step) returns (more: seq<Step>)
    requires Runs(w, steps) && Enabled(Reach(w, steps), s) && Unbroken(w, steps) && (s.Create? || s.Pass?)
    ensures Runs(w, more) && Unbroken(w, more) && Reach(w, more) == Apply(Reach(w, steps), s)
  {
    hide Runs, Reach, Unbroken, Enabled, Apply;
    more := Proceed(w, steps, s);
  }

  /** A resource of one invocation comes under the removal of another that owns the claim. */
  lemma {:induction false} Collides(w: World, steps: seq<Step>, j: Invocation, k: Invocation) returns (more: seq<Step>)
    requires Runs(w, steps) && Unbroken(w, steps) && j != k
    requires var v := Reach(w, steps); PhaseOf(v, j).Owning? && PhaseOf(v, k).Owning? && Owns(v, k)
    ensures Runs(w, more) && Unbroken(w, more) && Trespass(Reach(w, more))
  {
    hide Runs, Reach, Unbroken;
    ghost var r := Resource(Reach(w, steps).nextId, Container, j);
    more := Proceed(w, steps, Use(j, Container));
    more := Proceed(w, more, Begin(k));
    more := Proceed(w, more, List(k, false));
    assert Enabled(Reach(w, more), Remove(k, r, true, false));
  }

  lemma {:induction false} FreshInvocation(taken: set<Invocation>) returns (i: Invocation)
    ensures i !in taken
  {
    i := Above(taken);
  }

  ghost function Above(taken: set<Invocation>): (i: Invocation)
    ensures forall t :: t in taken ==> t < i
    decreases |taken|
  {
    if taken == {} then 0
    else
      var t :| t in taken;
      var rest := Above(taken - {t});
      assert taken == (taken - {t}) + {t};
      if t < rest then rest else t + 1
  }

  /** After a deliberate cleanup has freed a claim still relied on, a trespass is possible. */
  lemma {:induction false} BreakingLeadsOn(w: World, j: Invocation) returns (steps: seq<Step>)
    requires w.claim.None? && Relies(PhaseOf(w, j))
    requires PhaseOf(w, j).Busy? && PhaseOf(w, j).stage.Recording? ==> j !in w.receipts && PhaseOf(w, j).claim.Some?
    ensures Runs(w, steps) && Unbroken(w, steps) && Trespass(Reach(w, steps))
  {
    hide Runs, Reach, Unbroken, Trespass, Relies;
    var k := FreshInvocation(w.phases.Keys + w.receipts.Keys + {j});
    var m := FreshInvocation(w.phases.Keys + {j, k});
    assert PhaseOf(w, k).Idle? && PhaseOf(w, m).Idle? && k !in w.receipts;
    steps := ComesToUse(w, j);
    var v := Reach(w, steps);
    assert PhaseOf(v, k).Idle? && PhaseOf(v, m).Idle? && k !in v.receipts;
    steps := Clears(w, steps, m);
    var u := Reach(w, steps);
    assert PhaseOf(u, k).Idle? && PhaseOf(u, j).Owning? && k !in u.receipts;
    steps := AcquisitionCompletes(w, steps, k);
    steps := Collides(w, steps, j, k);
  }

  /** The claim is gone and the invocation still relies on it. */
  lemma {:induction false} BreakingFrees(w: World, s: Step) returns (j: Invocation)
    requires Inv(w) && Enabled(w, s) && Breaking(w, s)
    ensures var v := Apply(w, s);
            && v.claim.None? && Relies(PhaseOf(v, j))
            && (PhaseOf(v, j).Busy? && PhaseOf(v, j).stage.Recording? ==> j !in v.receipts && PhaseOf(v, j).claim.Some?)
  {
    j := w.claim.value.invocation;
    assert Consistent(w, j);
  }

  /** Main theorem: from any state of a protected run, a step makes a trespass possible without a
      further such step exactly when a deliberate cleanup frees by it a claim still relied on. */
  lemma {:induction false} BreakingIffTrespass(w: World, s: Step)
    requires Inv(w) && Enabled(w, s)
    ensures Breaking(w, s) <==>
            exists steps :: Runs(Apply(w, s), steps) && Unbroken(Apply(w, s), steps) && Trespass(Reach(Apply(w, s), steps))
  {
    hide *;
    if Breaking(w, s) {
      var j := BreakingFrees(w, s);
      var steps := BreakingLeadsOn(Apply(w, s), j);
    } else {
      StepInv(w, s);
      forall steps | Runs(Apply(w, s), steps) && Unbroken(Apply(w, s), steps) ensures !Trespass(Reach(Apply(w, s), steps)) {
        RunInv(Apply(w, s), steps);
        InvProtects(Reach(Apply(w, s), steps));
        NoTrespass(Reach(Apply(w, s), steps));
      }
    }
  }

  lemma {:induction false} NoTrespass(w: World)
    requires Protected(w)
    ensures !Trespass(w)
  {}

  // ---------------------------------------------------------------------------------------
  // What completes
  // ---------------------------------------------------------------------------------------

  /** Checks that find nothing. */
  lemma {:induction false} ChecksPass(w: World, steps: seq<Step>, m: Invocation, owned: bool, claim: Option<nat>)
    returns (more: seq<Step>)
    requires Runs(w, steps) && Unbroken(w, steps) && Clearing(Reach(w, steps), m, owned, claim, Listing(3, false))
    requires Reach(w, steps).resources == {}
    ensures Runs(w, more) && Unbroken(w, more)
    ensures OthersSame(Reach(w, steps), Reach(w, more), m) && Reach(w, more).receipts == Reach(w, steps).receipts
    ensures Reach(w, more).resources == {} && Clearing(Reach(w, more), m, owned, claim, Verifying(3, false))
  {
    hide Runs, Reach, Unbroken;
    more := Proceed(w, steps, List(m, false));
    more := Proceed(w, more, Verify(m, false));
    more := Proceed(w, more, Verify(m, false));
    more := Proceed(w, more, Verify(m, false));
  }

  /** The end of an owned cleanup that found nothing left. */
  lemma {:induction false} OwnedCleanupEnds(w: World, steps: seq<Step>, i: Invocation, claim: Option<nat>) returns (more: seq<Step>)
    requires Runs(w, steps) && Unbroken(w, steps) && Clearing(Reach(w, steps), i, true, claim, Verifying(3, false))
    requires HasClaim(Reach(w, steps), i, claim) && Reach(w, steps).resources == {}
    ensures Runs(w, more) && Unbroken(w, more)
    ensures var v, u := Reach(w, steps), Reach(w, more);
            && u.resources == {} && u.claim.None? && u.receipts == v.receipts - {i} && PhaseOf(u, i).Idle?
            && forall j :: j != i ==> PhaseOf(u, j) == PhaseOf(v, j)
  {
    hide Runs, Reach, Unbroken;
    more := Proceed(w, steps, Verify(i, false));
    more := Proceed(w, more, Confirm(i, true));
    more := Proceed(w, more, Release(i));
    more := Proceed(w, more, Unlink(i));
  }

  /** An owned cleanup that no command fails ends with nothing left: no resource, no claim, no receipt. */
  lemma {:induction false} OwnedCleanupCompletes(w: World, i: Invocation) returns (steps: seq<Step>)
    requires Inv(w) && PhaseOf(w, i).Owning?
    ensures Runs(w, steps) && Unbroken(w, steps)
    ensures var v := Reach(w, steps);
            && v.resources == {} && v.claim.None? && v.receipts == w.receipts - {i} && PhaseOf(v, i).Idle?
            && forall j :: j != i ==> PhaseOf(v, j) == PhaseOf(w, j)
  {
    hide Runs, Reach, Unbroken;
    assert Consistent(w, i);
    var claim := Some(w.receipts[i]);
    NoSteps(w);
    steps := Proceed(w, [], Begin(i));
    var u := Reach(w, steps);
    assert u.receipts == w.receipts && OthersSame(w, u, i) && Clearing(u, i, true, claim, Listing(0, false));
    hide Enabled, Apply, Inv, Consistent, Breaking;
    steps := ClearsKinds(w, steps, i, true, claim);
    steps := ChecksPass(w, steps, i, true, claim);
    assert OthersSame(w, Reach(w, steps), i);
    steps := OwnedCleanupEnds(w, steps, i, claim);
  }

  /** A deliberate cleanup that no command fails and that meets a claim removes everything and frees it. */
  lemma {:induction false} DeliberateCleanupCompletes(w: World, m: Invocation) returns (steps: seq<Step>)
    requires PhaseOf(w, m).Idle? && w.claim.Some?
    ensures Runs(w, steps) && Unbroken(w, steps) && Enabled(Reach(w, steps), Release(m))
    ensures var v := Apply(Reach(w, steps), Release(m));
            v.resources == {} && v.claim.None? && v.receipts == w.receipts && PhaseOf(v, m).Idle?
  {
    hide Runs, Reach, Unbroken;
    var claim := Some(w.claim.value.id);
    NoSteps(w);
    steps := Proceed(w, [], BeginDeliberate(m));
    steps := ClearsKinds(w, steps, m, false, claim);
    steps := ChecksPass(w, steps, m, false, claim);
    steps := Proceed(w, steps, Verify(m, false));
  }

  /** An acquisition that is turned down gives its own claim back and leaves everything else. */
  lemma {:induction false} RejectionCompletes(w: World, i: Invocation) returns (steps: seq<Step>)
    requires PhaseOf(w, i).Busy? && PhaseOf(w, i).owned && HasClaim(w, i, PhaseOf(w, i).claim)
    requires var s := PhaseOf(w, i).stage; s.Inspecting? || s.Identifying? || s.Recording?
    ensures Runs(w, steps) && Unbroken(w, steps)
    ensures var v := Reach(w, steps);
            && v.claim.None? && v.receipts == w.receipts && v.resources == w.resources && PhaseOf(v, i).Idle?
            && forall j :: j != i ==> PhaseOf(v, j) == PhaseOf(w, j)
  {
    hide Runs, Reach, Unbroken;
    NoSteps(w);
    steps := Proceed(w, [], Reject(i));
    steps := Proceed(w, steps, Release(i));
  }

  // ---------------------------------------------------------------------------------------
  // It happens
  // ---------------------------------------------------------------------------------------

  const START := World(None, map[], {}, 0, map[])

  /** From nothing, one acquisition and one deliberate cleanup lead to such a step. */
  lemma {:induction false} BreakingIsReachable() returns (steps: seq<Step>)
    ensures Runs(START, steps) && Unbroken(START, steps) && Breaking(Reach(START, steps), Release(1))
    ensures Enabled(Reach(START, steps), Release(1))
  {
    hide Runs, Reach, Unbroken;
    NoSteps(START);
    steps := AcquisitionCompletes(START, [], 0);
    steps := Proceed(START, steps, BeginDeliberate(1));
    var v := Reach(START, steps);
    hide Apply, Enabled;
    steps := FindsAll(START, steps, 1);
    assert PhaseOf(Reach(START, steps), 0) == PhaseOf(v, 0);
    steps := ChecksNothing(START, steps, 1);
    assert Breaking(Reach(START, steps), Release(1));
    ReleaseEnabled(Reach(START, steps), 1);
  }

  lemma {:induction false} ReleaseEnabled(w: World, i: Invocation)
    requires PhaseOf(w, i).Busy? && PhaseOf(w, i).stage.Releasing?
    ensures Enabled(w, Release(i))
  {}

  lemma {:induction false} FindsAll(w: World, steps: seq<Step>, m: Invocation) returns (more: seq<Step>)
    requires Runs(w, steps) && Unbroken(w, steps)
    requires var v := Reach(w, steps); v.resources == {} && PhaseOf(v, m).Busy? && PhaseOf(v, m).stage == Listing(0, false)
    ensures Runs(w, more) && Unbroken(w, more)
    ensures SameBut(Reach(w, steps), Reach(w, more), m)
    ensures PhaseOf(Reach(w, more), m) == PhaseOf(Reach(w, steps), m).(stage := Verifying(0, false))
  {
    hide Runs, Reach, Unbroken;
    more := FindsNothing(w, steps, m, 0);
    more := FindsNothing(w, more, m, 1);
    more := FindsNothing(w, more, m, 2);
    more := Proceed(w, more, List(m, false));
  }

  lemma {:induction false} FindsNothing(w: World, steps: seq<Step>, m: Invocation, n: nat) returns (more: seq<Step>)
    requires Runs(w, steps) && Unbroken(w, steps) && n < 3
    requires var v := Reach(w, steps); v.resources == {} && PhaseOf(v, m).Busy? && PhaseOf(v, m).stage == Listing(n, false)
    ensures Runs(w, more) && Unbroken(w, more)
    ensures SameBut(Reach(w, steps), Reach(w, more), m)
    ensures PhaseOf(Reach(w, more), m) == PhaseOf(Reach(w, steps), m).(stage := Listing(n + 1, false))
  {
    hide Runs, Reach, Unbroken;
    more := Proceed(w, steps, List(m, false));
    more := Proceed(w, more, Next(m));
  }

  lemma {:induction false} ChecksNothing(w: World, steps: seq<Step>, m: Invocation) returns (more: seq<Step>)
    requires Runs(w, steps) && Unbroken(w, steps)
    requires var v := Reach(w, steps);
             v.resources == {} && PhaseOf(v, m).Busy? && !PhaseOf(v, m).owned && PhaseOf(v, m).claim.Some?
             && PhaseOf(v, m).stage == Verifying(0, false)
    ensures Runs(w, more) && Unbroken(w, more)
    ensures SameBut(Reach(w, steps), Reach(w, more), m)
    ensures PhaseOf(Reach(w, more), m) == PhaseOf(Reach(w, steps), m).(stage := Releasing)
  {
    hide Runs, Reach, Unbroken;
    more := Proceed(w, steps, Verify(m, false));
    more := Proceed(w, more, Verify(m, false));
    more := Proceed(w, more, Verify(m, false));
    more := Proceed(w, more, Verify(m, false));
  }
}
