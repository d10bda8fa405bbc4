/**
 The world loop between two avionics releases: each segment ends at the next
 release, the current physical deadline or the next valve edge, whichever is
 first, and is integrated by the RCS. This is where the event clock, the valve
 machine and the propellant bookkeeping meet.
 */
module RcsWorld {
  import opened Arithmetic
  import opened Numeric
  import opened Faultless
  import opened Effectors
  import opened RcsValves
  import opened Wrappers
  import opened Rcs
  import opened RcsFlow
  import EventClock

  /** What the rest of the world supplies: at each instant the physical
      deadline and the centre of gravity, the faults of the interval, and
      whether the flight goes on after a rigid-body step of given start and
      length. */
  datatype RawWorld = RawWorld(deadline: i32 -> i32, cg: i32 -> i32, faults: seq<JetFault>,
                               continues: (i32, int) -> bool)

  type World = w: RawWorld | |w.faults| == MAX_RCS_JETS
    witness RawWorld(_ => 0, _ => 0, seq(MAX_RCS_JETS, _ => Healthy), (_, _) => true)

  /** Why the flight stops: an error of the clock or of the jets, an epoch that
      does not fit 16 bits, a step of no duration, which the rigid body refuses,
      or an end decided outside this model. */
  datatype Stop =
    | Clock(clockError: EventClock.ExactClockError)
    | Jets(rcsError: RcsError)
    | EpochTooLarge
    | ZeroStep
    | Ended

  /** Where a segment from `now` must stop: at the release, the deadline or a
      valve edge, with none of them strictly inside. */
  ghost predicate StopsAt(w: World, v: Valves, now: i32, release: i32, end: i32) {
    && EdgeFree(v, now, end) && end <= w.deadline(now) && end <= release
    && (end == w.deadline(now) || end == release || IsEdge(v, end, now, end))
  }

  /** A leg cut for this world. */
  ghost predicate CutFor(leg: Leg, w: World, v: Valves, release: i32) {
    var start := leg.scene.start;
    && leg.scene.v == v && leg.scene.faults == w.faults && leg.scene.cg == w.cg(start)
    && StopsAt(w, v, start, release, leg.end)
  }

  /** No quantity of the leg left its type. */
  ghost predicate LegFits(leg: Leg) {
    ShapedScene(leg.scene) && leg.scene.start < leg.end && SegmentFits(leg.scene, leg.end)
  }

  /** ... of any leg. */
  ghost predicate LegsFit(legs: seq<Leg>) {
    forall k :: 0 <= k < |legs| ==> LegFits(legs[k])
  }

  ghost predicate LegsCut(legs: seq<Leg>, w: World, v: Valves, release: i32) {
    forall k :: 0 <= k < |legs| ==> CutFor(legs[k], w, v, release)
  }

  /** The legs run end to end from `start` to `now`. */
  ghost predicate EndToEnd(legs: seq<Leg>, start: i32, now: i32) {
    && (legs == [] ==> now == start)
    && (legs != [] ==> legs[0].scene.start == start && legs[|legs| - 1].result.integratedEnd == now)
    && forall k :: 0 <= k < |legs| - 1 ==> legs[k].result.integratedEnd == legs[k + 1].scene.start
  }

  lemma {:induction false} ExtendLegs(legs: seq<Leg>, start: i32, now: i32, leg: Leg)
    requires EndToEnd(legs, start, now) && leg.scene.start == now
    ensures EndToEnd(legs + [leg], start, leg.result.integratedEnd)
    ensures LegsFit(legs) && LegFits(leg) ==> LegsFit(legs + [leg])
  {
    hide LegFits;
  }

  lemma {:induction false} NothingFlown(pack: Pack, initial: int, start: i32)
    ensures Chain([], pack, initial) && EndToEnd([], start, start) && LegsFit([])
    ensures forall w :: StopsInTime([], w, None)
  {}

  /** What the rigid-body step after a leg does to the loop. */
  ghost function LegStop(w: World, leg: Leg): Option<Stop> {
    if Stalls(leg.scene) then Some(ZeroStep)
    else if !w.continues(leg.scene.start, leg.result.integratedEnd - leg.scene.start) then Some(Ended)
    else None
  }

  /** The loop goes on after every leg but the last, and stops for the step
      after the last one exactly when that step stops it. */
  ghost predicate StopsInTime(legs: seq<Leg>, w: World, stop: Option<Stop>) {
    && (forall k :: 0 <= k < |legs| - 1 ==> LegStop(w, legs[k]) == None)
    && (if stop == Some(ZeroStep) || stop == Some(Ended) then legs != [] && LegStop(w, legs[|legs| - 1]) == stop
        else legs == [] || LegStop(w, legs[|legs| - 1]) == None)
  }

  lemma {:induction false} StepAfterLeg(legs: seq<Leg>, w: World, leg: Leg, duration: int)
    requires StopsInTime(legs, w, None)
    requires duration == leg.result.integratedEnd - leg.scene.start && (duration <= 0 <==> Stalls(leg.scene))
    ensures StopsInTime(legs + [leg], w, if duration <= 0 then Some(ZeroStep)
                                         else if w.continues(leg.scene.start, duration) then None else Some(Ended))
  {
    hide Stalls;
  }

  lemma {:induction false} StopBeforeLeg(legs: seq<Leg>, w: World, stop: Stop)
    requires StopsInTime(legs, w, None) && (stop.Clock? || stop.Jets?)
    ensures StopsInTime(legs, w, Some(stop))
  {
    hide Stalls;
  }

  /** A leg cut for the world stays free of edges when it ends early. */
  lemma {:induction false} LegIsEdgeFree(leg: Leg, w: World, v: Valves, release: i32)
    requires CutFor(leg, w, v, release) && leg.scene.start < leg.result.integratedEnd <= leg.end
    ensures EdgeFree(v, leg.scene.start, leg.result.integratedEnd) && leg.end <= release
  {
    var start, sooner := leg.scene.start, leg.result.integratedEnd;
    forall e | IsEdge(v, e, start, sooner)
      ensures e >= sooner
    {
      assert IsEdge(v, e, start, leg.end);
    }
  }

  /** The open time of every jet up to `now` is its pulse clipped to there. */
  ghost predicate OpenTimesMatch(v: Valves, cuts: seq<i32>, start: i32) {
    && cuts != [] && cuts[0] == start
    && (forall k :: 0 <= k < |cuts| - 1 ==> EdgeFree(v, cuts[k], cuts[k + 1]))
    && (forall i :: 0 <= i < MAX_RCS_JETS ==>
          ScheduledTime(v.slots[i], cuts) == ClippedOpenTime(v.slots[i], start, cuts[|cuts| - 1]))
  }

  lemma {:induction false} FirstCut(v: Valves, start: i32)
    ensures OpenTimesMatch(v, [start], start)
  {
    forall i | 0 <= i < MAX_RCS_JETS
      ensures ClippedOpenTime(v.slots[i], start, start) == 0
    {
      ClippedEmpty(v.slots[i], start);
    }
  }

  lemma {:induction false} NextCut(v: Valves, cuts: seq<i32>, start: i32, next: i32)
    requires OpenTimesMatch(v, cuts, start) && start <= cuts[|cuts| - 1] && EdgeFree(v, cuts[|cuts| - 1], next)
    ensures OpenTimesMatch(v, cuts + [next], start)
  {
    hide EdgeFree, ClippedOpenTime, ScheduledTime;
    var now := cuts[|cuts| - 1];
    assert now < next by {
      EdgeFreeIsProper(v, now, next);
    }
    forall i | 0 <= i < MAX_RCS_JETS
      ensures ScheduledTime(v.slots[i], cuts + [next]) == ClippedOpenTime(v.slots[i], start, next)
    {
      ExtendCuts(v, i, cuts, next);
      ClippedAdds(v.slots[i], start, now, next);
    }
  }

  lemma {:induction false} EdgeFreeIsProper(v: Valves, start: int, end: int)
    requires EdgeFree(v, start, end)
    ensures start < end
  {}

  /** What the segment due at `now` starts from. */
  function SceneAt(pack: Pack, w: World, v: Valves, load: i32, now: i32): Scene
    requires pack.supplyCount <= MAX_SUPPLY_KNOTS
  {
    Scene(v, pack.jets, load, now, w.faults, SupplyAt(pack.supplyKnots[..pack.supplyCount], load), w.cg(now))
  }

  /** Some quantity of the segment due at `now` leaves its type. */
  ghost predicate Overflows(pack: Pack, w: World, v: Valves, load: int, now: i32, release: i32) {
    && Fits(load) && pack.supplyCount <= MAX_SUPPLY_KNOTS
    && exists end: i32 :: StopsAt(w, v, now, release, end) && !SegmentFits(SceneAt(pack, w, v, load, now), end)
  }

  /** One segment of the loop: cut, then integrated. */
  method NextLeg(clock: EventClock.ExactEventClock, state: RcsState, pack: Pack, now: i32, w: World)
    returns (r: Wrappers.Result<SegmentResult, Stop>, ghost leg: Option<Leg>)
    requires state.Valid() && ValidPack(pack) && pack.effectors.HasRcs() && 0 <= state.remaining <= pack.wetMass
    requires 0 <= now < clock.nextReleaseRaw
    modifies state`remaining
    ensures state.Valid() && state.Valves() == old(state.Valves())
    ensures r.Err? ==>
              || (r.error == Clock(EventClock.NonIncreasingDeadline) && w.deadline(now) <= now
                  && state.remaining == old(state.remaining))
              || (r.error == Jets(Numeric)
                  && Overflows(pack, w, state.Valves(), old(state.remaining), now, clock.nextReleaseRaw))
    ensures r.Ok? ==>
              && leg.Some? && leg.value.result == r.value && state.remaining == r.value.remaining
              && SegmentOk(r.value, leg.value.scene, pack, leg.value.end)
              && leg.value.scene.start == now && leg.value.scene.remaining == old(state.remaining)
              && CutFor(leg.value, w, state.Valves(), clock.nextReleaseRaw) && LegFits(leg.value)
  {
    hide SegmentOk, EdgeFree, ValidPack, SegmentFits, GoodSample, SupplyAt, StopsAt;
    leg := None;
    var base := clock.NextSegment(now, w.deadline(now));
    if base.Err? {
      return Err(Clock(base.error)), None;
    }
    var end := base.value.end;
    var edge := state.NextValveEdgeAfter(now, end);
    CutAt(w, state.Valves(), now, clock.nextReleaseRaw, end, edge);
    if edge.Some? && edge.value < end {
      end := edge.value;
    }
    StopIsAhead(w, state.Valves(), now, clock.nextReleaseRaw, end);
    var seg, after;
    ghost var s;
    seg, after, s := IntegrateRcsSegment(state, pack, now, end, w.cg(now), w.faults, CLEAR);
    if seg.Err? {
      assert s == SceneAt(pack, w, state.Valves(), s.remaining, now);
      return Err(Jets(seg.error)), None;
    }
    leg := Some(Leg(seg.value, s, end));
    r := Ok(seg.value);
  }

  lemma {:induction false} StopIsAhead(w: World, v: Valves, now: i32, release: i32, end: i32)
    requires StopsAt(w, v, now, release, end)
    ensures now < end && EdgeFree(v, now, end)
  {}

  /** From anywhere at or before the next release, the loop reaches exactly
      that release unless a deadline does not lie ahead, a quantity of the next
      segment leaves its type, as none of a leg before it did, a depletion leaves
      a step of no duration, or the flight ends. It never asks for a split and
      never meets an invalid pack. The legs run end to end, each is cut where the
      world requires and no later, propellant carries from one to the next, and
      every jet is open for exactly its pulse clipped to the interval. A step has
      no duration exactly when the tank holds less than half a tick of the flow,
      which a pack of modest flow excludes. */
  method AdvanceToRelease(clock: EventClock.ExactEventClock, state: RcsState, pack: Pack, start: i32, w: World)
    returns (cuts: seq<i32>, ghost legs: seq<Leg>, results: seq<SegmentResult>, stop: Option<Stop>)
    requires state.Valid() && ValidPack(pack) && pack.effectors.HasRcs() && 0 <= state.remaining <= pack.wetMass
    requires 0 <= start <= clock.nextReleaseRaw
    modifies state`remaining
    ensures state.Valid() && state.Valves() == old(state.Valves())
    ensures stop in {None, Some(Clock(EventClock.NonIncreasingDeadline)), Some(Jets(Numeric)),
                     Some(ZeroStep), Some(Ended)}
    ensures |legs| == |results| && forall k :: 0 <= k < |legs| ==> legs[k].result == results[k]
    ensures Chain(legs, pack, old(state.remaining))
    ensures LegsCut(legs, w, state.Valves(), clock.nextReleaseRaw) && LegsFit(legs)
    ensures cuts != [] && OpenTimesMatch(state.Valves(), cuts, start) && EndToEnd(legs, start, cuts[|cuts| - 1])
    ensures start <= cuts[|cuts| - 1] <= clock.nextReleaseRaw
    ensures stop == None ==> cuts[|cuts| - 1] == clock.nextReleaseRaw
    ensures stop.Some? && stop.value.Clock? ==> w.deadline(cuts[|cuts| - 1]) <= cuts[|cuts| - 1]
    ensures stop == Some(Jets(Numeric)) ==>
              Overflows(pack, w, state.Valves(), Left(legs, old(state.remaining)), cuts[|cuts| - 1],
                        clock.nextReleaseRaw)
    ensures StopsInTime(legs, w, stop)
    ensures FullFlow(pack) <= 0x400_0000 ==> stop != Some(ZeroStep)
    ensures stop != Some(Jets(Numeric)) ==> state.remaining == Left(legs, old(state.remaining))
  {
    hide SegmentOk, EdgeFree, CutFor, OpenTimesMatch, ValidPack, ClippedOpenTime, ScheduledTime, Stalls, FullFlow,
         StopsInTime, EndToEnd, Chain, Overflows, LegFits, LegsFit;
    ghost var v, release := state.Valves(), clock.nextReleaseRaw;
    cuts, legs, results, stop := [start], [], [], None;
    var now := start;
    FirstCut(v, start);
    NothingFlown(pack, state.remaining, start);
    while !clock.ReleaseDue(now)
      invariant state.Valid() && state.Valves() == v && clock.nextReleaseRaw == release
      invariant cuts != [] && start <= now == cuts[|cuts| - 1] <= release && stop == None
      invariant |legs| == |results| && forall k :: 0 <= k < |legs| ==> legs[k].result == results[k]
      invariant Chain(legs, pack, old(state.remaining)) && state.remaining == Left(legs, old(state.remaining))
      invariant 0 <= state.remaining <= old(state.remaining)
      invariant LegsCut(legs, w, v, release) && LegsFit(legs)
      invariant OpenTimesMatch(v, cuts, start) && EndToEnd(legs, start, now) && StopsInTime(legs, w, None)
      decreases release - now
    {
      var r;
      ghost var more;
      r, more := NextLeg(clock, state, pack, now, w);
      if r.Err? {
        stop := Some(r.error);
        StopBeforeLeg(legs, w, r.error);
        return;
      }
      ghost var leg := more.value;
      ZeroTicksExactly(r.value, leg.scene, pack, leg.end);
      ExtendChain(legs, pack, old(state.remaining), leg);
      ExtendLegs(legs, start, now, leg);
      var duration := r.value.integratedEnd - now;
      StepAfterLeg(legs, w, leg, duration);
      legs, results := legs + [leg], results + [r.value];
      if duration <= 0 {
        stop := Some(ZeroStep);
        ModestFlowGoesOn(leg, pack);
        return;
      }
      LegIsEdgeFree(leg, w, v, release);
      NextCut(v, cuts, start, r.value.integratedEnd);
      cuts := cuts + [r.value.integratedEnd];
      if !w.continues(now, duration) {
        stop := Some(Ended);
        return;
      }
      now := r.value.integratedEnd;
    }
  }

  /** Cutting at the clock's segment and then at the earliest edge stops where
      the world requires. */
  lemma {:induction false} CutAt(w: World, v: Valves, now: i32, release: i32, end: i32, edge: Option<i32>)
    requires now < end && end <= w.deadline(now) && end <= release
    requires end == w.deadline(now) || end == release
    requires EarliestEdge(v, now, end, edge)
    ensures StopsAt(w, v, now, release, if edge.Some? && edge.value < end then edge.value else end)
  {
    CutIsEdgeFree(v, now, end, edge);
  }

  // ----- packs that cannot stall

  /** The largest flow scale among the first `n` knots. */
  function TopScale(knots: seq<SupplyKnot>): int {
    if knots == [] then 0 else Max(TopScale(knots[..|knots| - 1]), knots[|knots| - 1].flowScale)
  }

  /** The flow of the jets together, all open at the given scale. */
  function JointFlow(jets: seq<Jet>, scale: int): int {
    if jets == [] then 0
    else JointFlow(jets[..|jets| - 1], scale) + Scaled(BaseFlow(jets[|jets| - 1]), scale, 30)
  }

  /** The most a pack can ever let out, with every valve open. */
  function FullFlow(pack: Pack): int
    requires pack.supplyCount <= MAX_SUPPLY_KNOTS
  {
    JointFlow(pack.jets, TopScale(pack.supplyKnots[..pack.supplyCount]))
  }

  lemma {:induction false} TopScaleIsTop(knots: seq<SupplyKnot>, i: nat)
    requires i < |knots|
    ensures knots[i].flowScale <= TopScale(knots)
  {
    if i < |knots| - 1 {
      TopScaleIsTop(knots[..|knots| - 1], i);
    }
  }

  lemma {:induction false} BaseFlowNonNegative(jet: Jet)
    requires jet.IsValid()
    ensures 0 <= BaseFlow(jet)
  {
    hide Scaled, RoundHalfAway;
    var exhaust := Scaled(jet.specificImpulse, G0_Q16, 16);
    if exhaust > 0 {
      MulMonotone(0, jet.nominalThrust, Pow2(21));
      RoundNonNegative(jet.nominalThrust * Pow2(21), exhaust);
    }
  }

  /** Scaling is monotone in the scale, and by at most one it does not grow. */
  lemma {:induction false} ScaledMonotone(x: nat, scale: nat, top: int)
    requires scale <= top
    ensures 0 <= Scaled(x, scale, 30) <= Scaled(x, top, 30)
    ensures top == ONE_Q30 ==> Scaled(x, top, 30) == x
  {
    Pow2OfScales();
    MulMonotone(0, scale, x);
    MulMonotone(scale, top, x);
    RoundNonNegative(x * scale, Pow2(30));
    RoundMonotone(x * scale, x * top, Pow2(30));
    RoundExact(x, Pow2(30));
  }

  lemma {:induction false} JetFlowBounded(jet: Jet, scale: nat, top: int, failure: nat)
    requires jet.IsValid() && scale <= top && failure <= ONE_Q30
    ensures 0 <= JetFlow(jet, scale, failure) <= Scaled(BaseFlow(jet), top, 30)
  {
    hide Scaled, BaseFlow;
    BaseFlowNonNegative(jet);
    ScaledMonotone(BaseFlow(jet), scale, top);
    ScaledMonotone(Scaled(BaseFlow(jet), scale, 30), failure, ONE_Q30);
  }

  lemma {:induction false} EffectBounded(s: Scene, i: nat, top: int)
    requires ShapedScene(s) && i < MAX_RCS_JETS && s.jets[i].IsValid() && 0 <= s.supply.flowScale <= top
    ensures EffectOf(s, i).flow <= Scaled(BaseFlow(s.jets[i]), top, 30)
  {
    hide Scaled, BaseFlow, JetFlow, JetThrust, JetForce, JetTorque;
    FaultScaleNonNegative(s.faults[i], ScheduledOpen(s.v.slots[i], s.start));
    JetFlowBounded(s.jets[i], s.supply.flowScale, top, Failure(s, i));
  }

  lemma {:induction false} FlowBounded(s: Scene, n: nat, top: int)
    requires ShapedScene(s) && n <= MAX_RCS_JETS && 0 <= s.supply.flowScale <= top
    requires forall i :: 0 <= i < MAX_RCS_JETS ==> s.jets[i].IsValid()
    ensures TotalEffect(s, n).flow <= JointFlow(s.jets[..n], top)
  {
    hide Scaled, BaseFlow, EffectOf;
    if n > 0 {
      FlowBounded(s, n - 1, top);
      EffectBounded(s, n - 1, top);
      assert s.jets[..n][..n - 1] == s.jets[..n - 1];
    }
  }

  /** If all valves together let out at most a quarter of a kilogram per second
      (2^26 in Q28), no leg stalls: the least load lasts half a tick. */
  lemma {:induction false} ModestFlowGoesOn(leg: Leg, pack: Pack)
    requires SegmentOk(leg.result, leg.scene, pack, leg.end) && ValidPack(pack) && pack.effectors.HasRcs()
    ensures FullFlow(pack) <= 0x400_0000 ==> !Stalls(leg.scene)
  {
    hide Scaled, BaseFlow, TotalEffect, ExactSegment, EdgeFree;
    var s, knots := leg.scene, pack.supplyKnots[..pack.supplyCount];
    if s.remaining == 0 {
      EmptyTankNoEffect(s, MAX_RCS_JETS);
    } else {
      var j :| 0 <= j < |FlowScales(knots)| && s.supply.flowScale <= FlowScales(knots)[j];
      TopScaleIsTop(knots, j);
      FlowBounded(s, MAX_RCS_JETS, TopScale(knots));
      assert s.jets[..MAX_RCS_JETS] == s.jets;
    }
  }

  // ----- whole flights

  /** What the avionics asks of the jets at one release: a pulse command, to be
      safe, or nothing at all when its sensors dropped out. */
  datatype Request = Fire(quanta: seq<u8>) | GoSafe | Silent

  /** The request at one release, whether everything outside this model lets the
      release pass, and the world until the next. */
  datatype RawOrder = RawOrder(request: Request, passes: bool, world: World)

  type Order = o: RawOrder | o.request.Fire? ==> |o.request.quanta| == MAX_RCS_JETS
    witness RawOrder(Silent, true, RawWorld(_ => 0, _ => 0, seq(MAX_RCS_JETS, _ => Healthy), (_, _) => true))

  /** The command of a pulse request. */
  function CommandOf(o: Order, now: i32): Command
    requires o.request.Fire?
  {
    Command(now, o.request.quanta, o.world.faults)
  }

  function RequestRefusal(v: Valves, o: Order, now: i32): Option<RcsError> {
    if o.request.Fire? then Refusal(v, CommandOf(o, now)) else None
  }

  /** A silent release leaves the old pulses in place. */
  function ValvesAfterRequest(v: Valves, o: Order, now: i32, jets: seq<Jet>): Valves
    requires |jets| == MAX_RCS_JETS
  {
    match o.request
    case Fire(_) => Schedule(v, CommandOf(o, now), jets)
    case GoSafe => Safed(v)
    case Silent => v
  }

  /** Silence is never refused and changes nothing; safing is never refused and
      leaves every jet without quanta and without edges; a command is a release
      of the valves at that instant. */
  lemma {:induction false} RequestMeans(v: Valves, o: Order, now: i32, jets: seq<Jet>)
    requires |jets| == MAX_RCS_JETS
    ensures o.request == Silent ==> RequestRefusal(v, o, now) == None && ValvesAfterRequest(v, o, now, jets) == v
    ensures o.request == GoSafe ==>
              && RequestRefusal(v, o, now) == None && ValvesAfterRequest(v, o, now, jets).lastEpoch == v.lastEpoch
              && forall i :: 0 <= i < MAX_RCS_JETS ==>
                   ValvesAfterRequest(v, o, now, jets).slots[i] == Slot(0, MAX_I32, MAX_I32)
    ensures o.request.Fire? ==>
              var c := Command(now, o.request.quanta, o.world.faults);
              RequestRefusal(v, o, now) == Refusal(v, c) && ValvesAfterRequest(v, o, now, jets) == Schedule(v, c, jets)
  {}

  ghost predicate NonePending(v: Valves, epoch: i32) {
    forall i :: 0 <= i < MAX_RCS_JETS ==> !v.slots[i].PendingAfter(epoch)
  }

  /** A release on the clock's own grid, later than the last accepted one, is
      accepted exactly when every jet is willing, and can only be refused for
      its quanta or for a pulse still to come. */
  lemma {:induction false} TimelyRefusal(v: Valves, c: Command)
    requires WellShaped(c) && 0 <= c.epoch && c.epoch % INTERVAL == 0 && v.lastEpoch < c.epoch
    ensures Refusal(v, c) == None <==> forall j :: 0 <= j < MAX_RCS_JETS ==> JetWilling(v, c, j)
    ensures Refusal(v, c) in {None, Some(InvalidCommand), Some(PendingPulse)}
    ensures Refusal(v, c) == Some(PendingPulse) ==> !NonePending(v, c.epoch)
    ensures forall jets :: |jets| == MAX_RCS_JETS ==>
              Schedule(v, c, jets).lastEpoch == if Refusal(v, c) == None then c.epoch else v.lastEpoch
  {
    hide JetRefusal;
    JetRefusalExactly(v, c, 0);
  }

  /** Jets whose longest pulse, late by a faulty valve, ends by the next release. */
  ghost predicate Prompt(pack: Pack) {
    forall i :: 0 <= i < MAX_RCS_JETS ==> pack.jets[i].valveDelay + 1 + pack.jets[i].maxPulse <= 8
  }

  /** With prompt jets no pulse outlives its interval, whatever is asked. */
  lemma {:induction false} PromptJetsSettle(v: Valves, o: Order, now: i32, pack: Pack)
    requires ValidPack(pack) && pack.effectors.HasRcs() && Prompt(pack) && NonePending(v, now)
    requires 0 <= now && now % INTERVAL == 0 && v.lastEpoch < now && now + 2 * INTERVAL <= MAX_I32
    ensures RequestRefusal(v, o, now) != Some(PendingPulse)
    ensures RequestRefusal(v, o, now) == None ==>
              NonePending(ValvesAfterRequest(v, o, now, pack.jets), now + INTERVAL)
  {
    hide Refusal, Rescheduled, ValidCanardPart, ValidSupply;
    if o.request.Fire? {
      TimelyRefusal(v, CommandOf(o, now));
      if Refusal(v, CommandOf(o, now)) == None {
        forall i | 0 <= i < MAX_RCS_JETS
          ensures !Rescheduled(v.slots[i], pack.jets[i], o.request.quanta[i], o.world.faults[i], now)
                   .PendingAfter(now + INTERVAL)
        {
          PromptPulseEnds(v.slots[i], pack.jets[i], o.request.quanta[i], o.world.faults[i], now);
        }
      }
    }
  }

  lemma {:induction false} PromptPulseEnds(slot: Slot, jet: Jet, requested: u8, fault: JetFault, now: i32)
    requires jet.IsValid() && jet.valveDelay + 1 + jet.maxPulse <= 8
    requires 0 <= now && now % INTERVAL == 0 && now + 2 * INTERVAL <= MAX_I32
    ensures !Rescheduled(slot, jet, requested, fault, now).PendingAfter(now + INTERVAL)
  {
    hide Rescheduled, Pulses;
    PendingAtNextRelease(slot, jet, requested, fault, now);
  }

  lemma {:induction false} JoinChains(first: seq<Leg>, second: seq<Leg>, pack: Pack, initial: int)
    requires Chain(first, pack, initial) && Chain(second, pack, Left(first, initial))
    ensures Chain(first + second, pack, initial)
    ensures Left(first + second, initial) == Left(second, Left(first, initial))
  {
    hide SegmentOk;
    var all, n := first + second, |first|;
    forall k | 0 <= k < |all|
      ensures SegmentOk(all[k].result, all[k].scene, pack, all[k].end)
      ensures all[k].scene.remaining == Left(all[..k], initial)
    {
      if k < n {
        assert all[k] == first[k] && all[..k] == first[..k];
      } else {
        assert all[k] == second[k - n] && all[..k] == first + second[..k - n];
      }
    }
  }

  lemma {:induction false} JoinLegs(first: seq<Leg>, second: seq<Leg>, start: i32, middle: i32, now: i32)
    requires EndToEnd(first, start, middle) && EndToEnd(second, middle, now)
    ensures EndToEnd(first + second, start, now)
    ensures LegsFit(first) && LegsFit(second) ==> LegsFit(first + second)
  {
    hide LegFits;
  }

  /** Stops that may come at a release, before the interval begins. */
  predicate AtRelease(stop: Option<Stop>) {
    stop in {None, Some(EpochTooLarge), Some(Jets(InvalidCommand)), Some(Jets(PendingPulse))}
  }

  /** The refusal of a request that a stop reports. */
  function RefusedStop(stop: Option<Stop>): Option<RcsError> {
    match stop
    case Some(Jets(e)) => if e == Numeric then None else Some(e)
    case _ => None
  }

  /** Hands the request of one release to the jets. */
  method Obey(state: RcsState, pack: Pack, now: i32, order: Order) returns (refused: Option<RcsError>)
    requires state.Valid() && ValidPack(pack) && pack.effectors.HasRcs()
    requires 0 <= now && now % INTERVAL == 0 && state.lastEpoch < now
    modifies state
    ensures state.Valid() && state.remaining == old(state.remaining) && state.lastEpoch <= now
    ensures refused == RequestRefusal(old(state.Valves()), order, now)
    ensures refused in {None, Some(InvalidCommand), Some(PendingPulse)}
    ensures state.Valves() == ValvesAfterRequest(old(state.Valves()), order, now, pack.jets)
  {
    hide ValidPack, Schedule, Refusal;
    refused := None;
    match order.request
    case Silent =>
    case GoSafe => state.MakeSafe();
    case Fire(_) =>
      var command := CommandOf(order, now);
      TimelyRefusal(state.Valves(), command);
      var accepted := state.ScheduleSuccessor(command, pack);
      if accepted.Err? {
        refused := Some(accepted.error);
      }
  }

  /** One release and the flight to the next. Up to the epoch that no longer fits
      16 bits the clock cannot overflow, and the supply reading taken at the
      release cannot fail. */
  method FlyInterval(clock: EventClock.ExactEventClock, state: RcsState, pack: Pack, now: i32, order: Order)
    returns (ghost legs: seq<Leg>, next: i32, stop: Option<Stop>)
    requires state.Valid() && ValidPack(pack) && pack.effectors.HasRcs() && 0 <= state.remaining <= pack.wetMass
    requires clock.InStep() && clock.epoch <= 0x1_0000 && now == clock.nextReleaseRaw && state.lastEpoch < now
    modifies clock, state
    ensures state.Valid() && StopKind(stop)
    ensures stop == Some(EpochTooLarge) <==> old(clock.epoch) == 0x1_0000
    ensures Chain(legs, pack, old(state.remaining)) && EndToEnd(legs, now, next)
    ensures LegsCut(legs, order.world, state.Valves(), clock.nextReleaseRaw) && LegsFit(legs)
    ensures now <= next <= now + EventClock.PERIOD && (stop.Some? && AtRelease(stop) ==> next == now)
    ensures clock.InStep() && clock.epoch == old(clock.epoch) + 1
    ensures stop == None ==> next == clock.nextReleaseRaw && state.lastEpoch < next
    ensures old(clock.epoch) <= 0xffff && !order.passes ==> stop == Some(Ended)
    ensures old(clock.epoch) <= 0xffff && order.passes ==>
              && state.Valves() == ValvesAfterRequest(old(state.Valves()), order, now, pack.jets)
              && RefusedStop(stop) == RequestRefusal(old(state.Valves()), order, now)
              && StopsInTime(legs, order.world, stop)
    ensures stop.Some? && stop.value.Clock? ==> order.world.deadline(next) <= next
    ensures Prompt(pack) && NonePending(old(state.Valves()), now) ==>
              stop != Some(Jets(PendingPulse)) && (stop == None ==> NonePending(state.Valves(), next))
    ensures stop == Some(Jets(Numeric)) ==>
              Overflows(pack, order.world, state.Valves(), Left(legs, old(state.remaining)), next,
                        clock.nextReleaseRaw)
    ensures stop != Some(Jets(Numeric)) ==> state.remaining == Left(legs, old(state.remaining))
    ensures stop == Some(ZeroStep) ==> state.remaining == 0 && legs != [] && Stalls(legs[|legs| - 1].scene)
    ensures FullFlow(pack) <= 0x400_0000 ==> stop != Some(ZeroStep)
  {
    hide Chain, EndToEnd, ValidPack, RequestRefusal, ValvesAfterRequest, CutFor, OpenTimesMatch, FullFlow, Stalls,
         StopsInTime, Overflows, LegsFit, Prompt, NonePending, GoodSample, SupplyAt;
    legs, next := [], now;
    NothingFlown(pack, state.remaining, now);
    var released := clock.ConsumeRelease(now);
    assert released.Ok?;
    if released.value > 0xffff {
      return legs, now, Some(EpochTooLarge);
    }
    if !order.passes {
      return legs, now, Some(Ended);
    }
    var supply, status := SampleSupply(pack, state.remaining, CLEAR);
    assert supply.Ok?;
    ghost var v := state.Valves();
    if Prompt(pack) && NonePending(v, now) {
      PromptJetsSettle(v, order, now, pack);
    }
    var refused := Obey(state, pack, now, order);
    if refused.Some? {
      StopBeforeLeg(legs, order.world, Jets(refused.value));
      return legs, now, Some(Jets(refused.value));
    }
    var cuts, results;
    ghost var loaded := state.remaining;
    cuts, legs, results, stop := AdvanceToRelease(clock, state, pack, now, order.world);
    StalledIsEmpty(legs, pack, loaded, order.world, stop);
    next := cuts[|cuts| - 1];
  }

  /** Why a flight can stop. The clock's own overflow is out of reach. */
  predicate StopKind(stop: Option<Stop>) {
    stop == None || stop.value in {EpochTooLarge, Clock(EventClock.NonIncreasingDeadline),
                                   Jets(InvalidCommand), Jets(PendingPulse), Jets(Numeric), ZeroStep, Ended}
  }

  /** Some valve state makes the segment due at `now` overflow. */
  ghost predicate CanOverflow(pack: Pack, w: World, load: int, now: i32, release: i32) {
    exists v: Valves :: Overflows(pack, w, v, load, now, release)
  }

  /** Flies release after release from a full tank. The flight stops at the
      epoch that no longer fits 16 bits, and before it only on a deadline that
      does not lie ahead, refused quanta, a pulse still pending, a numeric fault,
      a step of no duration or an end decided outside this model. Up to then the
      legs run end to end from time 0 and every gram of the wet mass is either
      consumed by them or still in the tank. A step of no duration finds the tank
      emptied, and never happens with a pack of modest flow; a pulse is never
      pending with prompt jets. */
  method Fly(pack: Pack, orders: seq<Order>)
    returns (ghost legs: seq<Leg>, completed: nat, now: i32, remaining: i32, stop: Option<Stop>)
    requires ValidPack(pack) && pack.effectors.HasRcs()
    ensures completed <= |orders| && (stop == None <==> completed == |orders|)
    ensures completed <= 0x1_0000 && (stop == Some(EpochTooLarge) <==> completed == 0x1_0000 < |orders|)
    ensures StopKind(stop)
    ensures Chain(legs, pack, pack.wetMass) && EndToEnd(legs, 0, now)
    ensures LegsFit(legs)
    ensures completed * EventClock.PERIOD <= now <= (completed + 1) * EventClock.PERIOD
    ensures AtRelease(stop) ==> now == completed * EventClock.PERIOD
    ensures stop == Some(Jets(Numeric)) ==>
              CanOverflow(pack, orders[completed].world, Left(legs, pack.wetMass), now,
                          (completed + 1) * EventClock.PERIOD)
    ensures stop != Some(Jets(Numeric)) ==> Consumed(legs) + remaining == pack.wetMass && 0 <= remaining <= pack.wetMass
    ensures stop == Some(ZeroStep) ==> remaining == 0 && legs != [] && Stalls(legs[|legs| - 1].scene)
    ensures FullFlow(pack) <= 0x400_0000 ==> stop != Some(ZeroStep)
    ensures Prompt(pack) ==> stop != Some(Jets(PendingPulse))
  {
    hide Chain, EndToEnd, ValidPack, FullFlow, Stalls, Initial, Overflows, LegsFit, LegsCut, Prompt, NonePending,
         RequestRefusal, ValvesAfterRequest, RefusedStop, StopsInTime;
    var clock := new EventClock.ExactEventClock();
    var created := RcsState.Create(pack);
    var state := created.value;
    legs, completed, now, stop := [], 0, 0, None;
    NothingFlown(pack, pack.wetMass, 0);
    WetMass(pack);
    NotYetCommanded();
    while completed < |orders|
      invariant completed <= |orders| && completed <= 0x1_0000 && stop == None
      invariant fresh(clock) && fresh(state) && state.Valid()
      invariant clock.InStep() && clock.epoch == completed && now == clock.nextReleaseRaw
      invariant state.lastEpoch < now
      invariant 0 <= state.remaining <= pack.wetMass && state.remaining == Left(legs, pack.wetMass)
      invariant Chain(legs, pack, pack.wetMass) && EndToEnd(legs, 0, now)
      invariant LegsFit(legs)
      invariant Prompt(pack) ==> NonePending(state.Valves(), now)
    {
      var next;
      ghost var more;
      more, next, stop := FlyInterval(clock, state, pack, now, orders[completed]);
      JoinChains(legs, more, pack, pack.wetMass);
      JoinLegs(legs, more, 0, now, next);
      LeftInRange(more, pack, Left(legs, pack.wetMass));
      legs, now := legs + more, next;
      if stop.Some? {
        break;
      }
      completed := completed + 1;
    }
    remaining := state.remaining;
    RunConservesPropellant(legs, pack, pack.wetMass);
  }

  lemma {:induction false} NotYetCommanded()
    ensures Initial().lastEpoch < 0 && NonePending(Initial(), 0)
  {}

  /** A last leg that stalls has emptied the tank. */
  lemma {:induction false} StalledIsEmpty(legs: seq<Leg>, pack: Pack, initial: int, w: World, stop: Option<Stop>)
    requires Chain(legs, pack, initial) && StopsInTime(legs, w, stop)
    ensures stop == Some(ZeroStep) ==>
              legs != [] && Stalls(legs[|legs| - 1].scene) && Left(legs, initial) == 0
  {
    hide SegmentOk, Stalls;
    if legs != [] {
      var last := legs[|legs| - 1];
      ZeroTicksExactly(last.result, last.scene, pack, last.end);
    }
  }

  lemma {:induction false} LeftInRange(legs: seq<Leg>, pack: Pack, initial: nat)
    requires Chain(legs, pack, initial)
    ensures 0 <= Left(legs, initial) <= initial
  {
    RunConservesPropellant(legs, pack, initial);
  }

  lemma {:induction false} WetMass(pack: Pack)
    requires ValidPack(pack) && pack.effectors.HasRcs()
    ensures 0 < pack.wetMass && pack.supplyCount <= MAX_SUPPLY_KNOTS
  {}
}
