/**
 Accepted packs at the edge of what the RCS promises: accumulators that overfill,
 a valve that opens at the end of time, a pulse that outlasts its interval, a tank
 that is empty before its first tick is over, and a flight too long for its epochs.
 */
module RcsExample {
  import opened Arithmetic
  import opened Wrappers
  import opened Numeric
  import opened Faultless
  import opened Effectors
  import opened RcsValves
  import opened Rcs
  import opened RcsFlow
  import opened RcsWorld

  /** One newton at one second of specific impulse. */
  function Thruster(maxPulse: u8): Jet {
    Jet(ZERO3, Vec3(1, 0, 0), 0x80_0000, 0x1_0000, 0, maxPulse, 0, 1, 1)
  }

  function Thrusters(maxPulse: u8): seq<Jet> {
    seq(MAX_RCS_JETS, _ => Thruster(maxPulse))
  }

  /** Full scale at every load; wet mass of one unit. */
  function SmallTank(maxPulse: u8): Pack {
    var canard := Canard(0, 0, 0, 0, 0, ZERO3, 0, 0, 0, 0, ZERO3, ZERO3);
    RawPack(1, RcsOnly, Regulated, 1, 1, 1, 1, 1, 1, 0, seq(MAX_CANARDS, _ => 0), 0, 12, 0, 2,
            seq(MAX_CANARDS, _ => canard), seq(MAX_COEFFICIENT_KNOTS, _ => CoefficientKnot(0, 0, 0, 0)),
            Thrusters(maxPulse),
            seq(MAX_SUPPLY_KNOTS, i => SupplyKnot(if i == 0 then 0 else 1, 1, ONE_Q30, ONE_Q30)))
  }

  lemma {:induction false} SmallTankIsValid(maxPulse: u8)
    requires maxPulse <= 8
    ensures ValidPack(SmallTank(maxPulse)) && SmallTank(maxPulse).effectors.HasRcs()
  {}

  // ----- an accumulator that overfills

  /** The largest request for every jet, at each of the first `n` releases. */
  function Flood(n: nat): seq<Op>
    requires n <= 32
  {
    seq(n, k requires 0 <= k < n => Release(FullCommand(k)))
  }

  function FullCommand(k: nat): Command
    requires k < EventClock.EPOCH_LIMIT
  {
    Command(k * INTERVAL, seq(MAX_RCS_JETS, _ => 8), seq(MAX_RCS_JETS, _ => Healthy))
  }

  /** The valves after `n` full requests. */
  ghost predicate Flooded(v: Valves, n: nat)
    requires n <= 32
  {
    && v.lastEpoch == (n - 1) * INTERVAL
    && forall i :: 0 <= i < MAX_RCS_JETS ==>
         v.slots[i].accumulated == Min(8 * n, 255) && !v.slots[i].PendingAfter(n * INTERVAL)
  }

  lemma {:induction false} FloodSlot(slot: Slot, k: nat)
    requires k < 32 && slot.accumulated == Min(8 * k, 255)
    ensures Emitted(slot.accumulated, 8, Thruster(0)) == 0
    ensures var next := Rescheduled(slot, Thruster(0), 8, Healthy, k * INTERVAL);
            next.accumulated == Min(8 * (k + 1), 255) && !next.PendingAfter((k + 1) * INTERVAL)
  {}

  lemma {:induction false} FloodStep(v: Valves, k: nat)
    requires k < 32 && Flooded(v, k)
    ensures Refusal(v, FullCommand(k)) == None && Flooded(Schedule(v, FullCommand(k), Thrusters(0)), k + 1)
  {
    hide JetRefusal, Rescheduled, Emitted;
    JetRefusalExactly(v, FullCommand(k), 0);
    forall i | 0 <= i < MAX_RCS_JETS
      ensures var next := Rescheduled(v.slots[i], Thruster(0), 8, Healthy, k * INTERVAL);
              next.accumulated == Min(8 * (k + 1), 255) && !next.PendingAfter((k + 1) * INTERVAL)
    {
      FloodSlot(v.slots[i], k);
    }
  }

  lemma {:induction false} FloodRelease(run: JetRun, k: nat, j: nat)
    requires k < 32 && j < MAX_RCS_JETS && Flooded(run.valves, k)
    ensures var next := Step(run, Release(FullCommand(k)), Thrusters(0), j);
            && next.requested == run.requested + 8 && next.emitted == run.emitted && next.discarded == run.discarded
            && Flooded(next.valves, k + 1)
  {
    hide Refusal, Schedule, Completed, Emitted;
    FloodSlot(run.valves.slots[j], k);
    FloodStep(run.valves, k);
  }

  lemma {:induction false} NoFlood()
    ensures Flooded(Initial(), 0)
  {}

  /** Jets that admit no pulse emit nothing: their quanta pile up to 255 and no
      further. */
  lemma {:induction false} FloodFills(n: nat, j: nat)
    requires n <= 32 && j < MAX_RCS_JETS
    ensures var run := RunJet(Flood(n), Thrusters(0), j);
            run.requested == 8 * n && run.emitted == 0 && run.discarded == 0 && Flooded(run.valves, n)
  {
    hide Step, Flooded;
    if n == 0 {
      NoFlood();
    } else {
      FloodFills(n - 1, j);
      assert Flood(n)[..n - 1] == Flood(n - 1);
      FloodRelease(RunJet(Flood(n - 1), Thrusters(0), j), n - 1, j);
    }
  }

  /** Thirty-two full requests to a valid pack whose jets admit no pulse lose a
      quantum of every jet. */
  lemma {:induction false} FloodLosesQuanta(j: nat)
    requires j < MAX_RCS_JETS
    ensures ValidPack(SmallTank(0)) && SmallTank(0).jets == Thrusters(0)
    ensures AllShaped(Flood(32)) && !Balanced(RunJet(Flood(32), Thrusters(0), j), j)
  {
    hide ValidPack;
    SmallTankIsValid(0);
    FloodFills(32, j);
  }

  // ----- a valve that nothing will close

  /** Jets of the longest pulse and the longest valve delay. */
  function SlowThrusters(): seq<Jet> {
    seq(MAX_RCS_JETS, _ => Thruster(8).(valveDelay := 8))
  }

  /** The full request at the last release the clock can make. */
  function LastRelease(): Op {
    Release(FullCommand(EventClock.EPOCH_LIMIT - 2))
  }

  lemma {:induction false} SlowTankIsValid()
    ensures ValidPack(SmallTank(8).(jets := SlowThrusters()))
  {}

  /** On a valid pack the clock's last release is accepted, opens its valves and
      leaves them without a closing edge; the open time no longer adds up. */
  lemma {:induction false} LastReleaseNeverCloses(j: nat)
    requires j < MAX_RCS_JETS
    ensures ValidPack(SmallTank(8).(jets := SlowThrusters())) && AllShaped([LastRelease()])
    ensures LosesClose(RunJet([], SlowThrusters(), j), LastRelease(), SlowThrusters(), j)
    ensures !OpenTimeAccounted(RunJet([LastRelease()], SlowThrusters(), j), j)
  {
    hide ValidPack, JetRefusal, OpenTimeAccounted;
    SlowTankIsValid();
    JetRefusalExactly(Initial(), FullCommand(EventClock.EPOCH_LIMIT - 2), 0);
    var ops := [LastRelease()];
    assert ops[..0] == [];
    RunAccountsForOpenTime(ops, SlowThrusters(), j);
    assert Shortens(ops, SlowThrusters(), j, 0);
  }

  /** The same pulse at the first release is still pending at the second, so a
      command there is refused. */
  lemma {:induction false} SlowPulseBlocks()
    ensures ValidPack(SmallTank(8).(jets := SlowThrusters()))
    ensures Refusal(Initial(), FullCommand(0)) == None
    ensures Refusal(Schedule(Initial(), FullCommand(0), SlowThrusters()), FullCommand(1)) == Some(PendingPulse)
  {
    hide ValidPack;
    SlowTankIsValid();
    JetRefusalExactly(Initial(), FullCommand(0), 0);
    hide JetRefusal, Rescheduled;
    var v := Schedule(Initial(), FullCommand(0), SlowThrusters());
    PendingAtNextRelease(Initial().slots[0], SlowThrusters()[0], 8, Healthy, 0);
    JetRefusalExactly(v, FullCommand(1), 0);
    assert !JetWilling(v, FullCommand(1), 0);
  }

  // ----- a tank that is empty before the first tick is over

  function AllStuckOpen(): seq<JetFault> {
    seq(MAX_RCS_JETS, _ => StuckOpen)
  }

  /** All valves stuck open, no deadline in sight, nothing that ends the flight. */
  function Venting(): World {
    RawWorld(_ => MAX_I32, _ => 0, AllStuckOpen(), (_, _) => true)
  }

  lemma {:induction false} ScaledByZero(a: int, shift: nat)
    ensures Scaled(a, 0, shift) == 0 && Scaled(0, a, shift) == 0
  {
    RoundExact(0, Pow2(shift));
  }

  /** A thruster's mass flow, just above a tenth of a kilogram per second. */
  lemma {:induction false} ThrusterFlow(maxPulse: u8)
    ensures Scaled(0x1_0000, G0_Q16, 16) == G0_Q16
    ensures 27_000_000 <= BaseFlow(Thruster(maxPulse)) <= 28_000_000
  {
    Pow2Of32();
    Pow2OfScales();
    RoundExact(G0_Q16, 0x1_0000);
    RoundBetween(27_000_000, 0x80_0000 * 0x20_0000, 28_000_000, G0_Q16);
  }

  lemma {:induction false} FullScale(x: int)
    ensures Scaled(x, ONE_Q30, 30) == x
  {
    Pow2OfScales();
    RoundExact(x, ONE_Q30);
  }

  const FULL_SUPPLY := SupplySample(1, ONE_Q30, ONE_Q30)

  /** A thruster along a direction of almost no length gives thrust and flow but
      no force, and none of its arithmetic overflows. */
  lemma {:induction false} ThrusterEffect(maxPulse: u8)
    ensures var jet := Thruster(maxPulse);
            && JetEffect(jet, FULL_SUPPLY, ONE_Q30, 0)
               == Effect(0x80_0000, IntVec(0, 0, 0), IntVec(0, 0, 0), BaseFlow(jet))
            && JetFits(jet, FULL_SUPPLY, ONE_Q30, 0)
  {
    hide Scaled, BaseFlow, Cross, CrossFits, FlowFits;
    var jet := Thruster(maxPulse);
    FullScale(0x80_0000);
    FullScale(BaseFlow(jet));
    ThrusterFlow(maxPulse);
    TinyDirection();
    ScaledByZero(0x80_0000, 30);
    NoTorque(Arm(jet, 0));
    FlowFitsAtFullScale(maxPulse);
  }

  lemma {:induction false} FlowFitsAtFullScale(maxPulse: u8)
    ensures FlowFits(Thruster(maxPulse), ONE_Q30, ONE_Q30)
  {
    hide Scaled, BaseFlow;
    ThrusterFlow(maxPulse);
    FullScale(BaseFlow(Thruster(maxPulse)));
  }

  lemma {:induction false} NoTorque(arm: IntVec)
    ensures Cross(arm, IntVec(0, 0, 0), 29) == IntVec(0, 0, 0) && CrossFits(arm, IntVec(0, 0, 0), 29)
  {
    hide Scaled;
    ScaledByZero(arm.x, 29);
    ScaledByZero(arm.y, 29);
    ScaledByZero(arm.z, 29);
  }

  lemma {:induction false} TinyDirection()
    ensures Scaled(0x80_0000, 1, 30) == 0
  {
    Pow2OfScales();
    RoundsToZero(0x80_0000, 0x4000_0000);
  }

  /** Any moment at which all thrusters vent. */
  predicate Vents(s: Scene) {
    && s.jets == Thrusters(8) && s.faults == AllStuckOpen() && s.remaining == 1
    && s.supply == FULL_SUPPLY && s.cg == 0
  }

  /** The effect of `n` thrusters: flow, and neither force nor torque. */
  predicate IsPlume(e: Effect, n: nat) {
    && e.force == IntVec(0, 0, 0) && e.torque == IntVec(0, 0, 0)
    && 27_000_000 * n <= e.flow <= 28_000_000 * n
  }

  lemma {:induction false} PlumeGrows(e: Effect, n: nat, jet: Effect)
    requires n < MAX_RCS_JETS && IsPlume(e, n) && IsPlume(jet, 1)
    ensures IsPlume(Join(e, jet), n + 1) && TotalFits(Join(e, jet))
  {}

  lemma {:induction false} VentingScene(s: Scene, i: nat)
    requires Vents(s) && i < MAX_RCS_JETS
    ensures ShapedScene(s) && s.jets[i] == Thruster(8) && Failure(s, i) == ONE_Q30
    ensures s.remaining == 1 && s.supply == FULL_SUPPLY && s.cg == 0
  {
    hide ScheduledOpen, Thruster;
  }

  lemma {:induction false} VentingJet(s: Scene, i: nat)
    requires Vents(s) && i < MAX_RCS_JETS
    ensures IsPlume(EffectOf(s, i), 1) && JetFits(s.jets[i], s.supply, Failure(s, i), s.cg)
  {
    hide JetEffect, JetFits, BaseFlow, Vents, ScheduledOpen, FaultScale;
    VentingScene(s, i);
    ThrusterFlow(8);
    ThrusterEffect(8);
  }

  lemma {:induction false} VentingSums(s: Scene, n: nat)
    requires Vents(s) && n <= MAX_RCS_JETS
    ensures IsPlume(TotalEffect(s, n), n) && FiresCleanly(s, n)
  {
    hide JetFits, EffectOf, Failure, Join, TotalFits;
    if n > 0 {
      VentingSums(s, n - 1);
      VentingJet(s, n - 1);
      PlumeGrows(TotalEffect(s, n - 1), n - 1, EffectOf(s, n - 1));
    }
  }

  /** Parts that each round to nothing add up to nothing. */
  lemma {:induction false} NoImpulse(thrusts: seq<int>, ticks: int)
    requires forall k :: 0 <= k < |thrusts| ==> Scaled(thrusts[k], ticks, 15) == 0
    ensures ImpulseSum(thrusts, ticks) == 0 && ImpulseFits(thrusts, ticks)
  {
    hide Scaled;
    if thrusts != [] {
      var n := |thrusts| - 1;
      NoImpulse(thrusts[..n], ticks);
      forall k | 0 <= k < |thrusts|
        ensures PartFits(thrusts, ticks, k)
      {
        if k < n {
          assert PartFits(thrusts[..n], ticks, k) && thrusts[..n][..k + 1] == thrusts[..k + 1];
        } else {
          assert thrusts[..k + 1] == thrusts;
        }
      }
    }
  }

  /** The first segment overflows nowhere, and is over before its first tick. */
  lemma {:induction false} VentingSegment(s: Scene, end: int)
    requires Vents(s) && s.start < end <= s.start + INTERVAL
    ensures SegmentFits(s, end) && Stalls(s)
  {
    hide EffectOf, BaseFlow, ImpulseFits, FiresCleanly, TotalEffect, BurnFits, BurnTicks, Scaled;
    VentingSums(s, MAX_RCS_JETS);
    VentingBurn(TotalEffect(s, MAX_RCS_JETS).flow, end - s.start);
    forall k | 0 <= k < MAX_RCS_JETS
      ensures Scaled(Thrusts(s)[k], 0, 15) == 0
    {
      ScaledByZero(Thrusts(s)[k], 15);
    }
    NoImpulse(Thrusts(s), 0);
  }

  lemma {:induction false} VentingBurn(flow: nat, dt: nat)
    requires 0x400_0000 < flow <= 0x4000_0000 && 0 < dt <= INTERVAL
    ensures BurnFits(1, flow, dt) && BurnTicks(1, flow, dt) == 0
  {
    hide RoundHalfAway;
    Pow2OfScales();
    MulMonotone(1, dt, flow);
    MulMonotone(dt, INTERVAL, flow);
    RoundBetween(1, flow * dt, MAX_I32, 0x200_0000);
    RoundsToZero(0x200_0000, flow);
  }

  /** The world loop, started on a valid pack whose valves are stuck open, stops
      at once for a step of no duration. */
  method VentingStops() returns (stop: Option<Stop>)
    ensures stop == Some(ZeroStep)
  {
    hide ValidPack, SegmentOk, SuppliedBy, OpenTimesMatch, Stalls, SegmentFits;
    SmallTankIsValid(8);
    var pack, w := SmallTank(8), Venting();
    var clock := new EventClock.ExactEventClock();
    var released := clock.ConsumeRelease(0);
    var created := RcsState.Create(pack);
    var state := created.value;
    var cuts, results;
    ghost var legs;
    cuts, legs, results, stop := AdvanceToRelease(clock, state, pack, 0, w);
    if legs == [] {
      FirstLegFits(state.Valves());
    } else {
      FirstLegStalls(legs[0], pack);
    }
  }

  lemma {:induction false} FirstLegFits(v: Valves)
    ensures !Overflows(SmallTank(8), Venting(), v, 1, 0, INTERVAL)
  {
    hide SegmentFits, SupplyAt;
    var s := SceneAt(SmallTank(8), Venting(), v, 1, 0);
    SupplyIsFlat(1);
    forall end: i32 | StopsAt(Venting(), v, 0, INTERVAL, end)
      ensures SegmentFits(s, end)
    {
      VentingSegment(s, end);
    }
  }

  /** The supply curve is flat, so any load is supplied in full. */
  lemma {:induction false} SupplyIsFlat(load: i32)
    ensures SupplyAt(SmallTank(8).supplyKnots[..2], load) == FULL_SUPPLY
  {
    hide Interpolation.Interpolate;
    var knots := SmallTank(8).supplyKnots[..2];
    ColumnInEnvelope(load, knots, Pressures(knots), CLEAR);
    ColumnInEnvelope(load, knots, ThrustScales(knots), CLEAR);
    ColumnInEnvelope(load, knots, FlowScales(knots), CLEAR);
  }

  lemma {:induction false} FirstLegStalls(leg: Leg, pack: Pack)
    requires pack == SmallTank(8) && SegmentOk(leg.result, leg.scene, pack, leg.end)
    requires leg.scene.faults == AllStuckOpen() && leg.scene.remaining == 1 && leg.scene.cg == 0
    requires leg.end <= leg.scene.start + INTERVAL
    ensures Stalls(leg.scene)
  {
    hide Stalls, SupplyAt, ExactSegment, GoodSample;
    SupplyIsFlat(1);
    VentingSegment(leg.scene, leg.end);
  }

  // ----- a flight too long for its epochs

  function AllHealthy(): seq<JetFault> {
    seq(MAX_RCS_JETS, _ => Healthy)
  }

  /** Nothing asked of healthy jets, and nothing that would end the flight. */
  function Coasting(): Order {
    RawOrder(Silent, true, RawWorld(_ => MAX_I32, _ => 0, AllHealthy(), (_, _) => true))
  }

  /** Healthy jets with no pulse scheduled. */
  predicate Idles(s: Scene) {
    ShapedScene(s) && s.v == Initial() && s.faults == AllHealthy() && s.start < MAX_I32
  }

  lemma {:induction false} IdleSums(s: Scene, n: nat)
    requires Idles(s) && ShapedScene(s) && n <= MAX_RCS_JETS
    ensures TotalEffect(s, n) == NO_EFFECT && FiresCleanly(s, n)
    ensures forall i :: 0 <= i < n ==> EffectOf(s, i) == NO_EFFECT
  {
    hide JetFits, EffectOf, Failure, Join, TotalFits, Idles;
    if n > 0 {
      IdleSums(s, n - 1);
      IdleJet(s, n - 1);
      JoinNothing(NO_EFFECT);
      NothingFits();
    }
  }

  lemma {:induction false} IdleJet(s: Scene, i: nat)
    requires Idles(s) && i < MAX_RCS_JETS
    ensures Failure(s, i) == 0 && EffectOf(s, i) == NO_EFFECT
  {
    hide JetEffect;
  }

  lemma {:induction false} NothingFits()
    ensures TotalFits(NO_EFFECT)
  {}

  /** An idle segment neither overflows nor stalls. */
  lemma {:induction false} IdleSegment(s: Scene, end: int)
    requires Idles(s) && s.start < end && 0 <= s.remaining
    ensures SegmentFits(s, end) && !Stalls(s)
  {
    hide EffectOf, TotalEffect, FiresCleanly, ImpulseFits, Scaled;
    IdleSums(s, MAX_RCS_JETS);
    ScaledByZero(end - s.start, 25);
    var ticks := BurnTicks(s.remaining, 0, end - s.start);
    ScaledByZero(ticks, 15);
    NoImpulse(Thrusts(s), ticks);
  }

  /** Wherever an idle flight is, its next segment does not overflow. */
  lemma {:induction false} IdleNeverOverflows(load: int, now: i32, release: i32)
    requires 0 <= load <= MAX_I32
    ensures !Overflows(SmallTank(8), Coasting().world, Initial(), load, now, release)
  {
    hide SegmentFits, SupplyAt;
    var w := Coasting().world;
    forall end: i32 | StopsAt(w, Initial(), now, release, end)
      ensures SegmentFits(SceneAt(SmallTank(8), w, Initial(), load, now), end)
    {
      IdleSegment(SceneAt(SmallTank(8), w, Initial(), load, now), end);
    }
  }

  /** The last step of an idle flight does not stop it. */
  lemma {:induction false} IdleGoesOn(legs: seq<Leg>, release: i32, stop: Option<Stop>)
    requires LegsCut(legs, Coasting().world, Initial(), release) && LegsFit(legs)
    requires StopsInTime(legs, Coasting().world, stop)
    requires forall k :: 0 <= k < |legs| ==> 0 <= legs[k].scene.remaining
    ensures stop != Some(ZeroStep) && stop != Some(Ended)
  {
    hide SegmentFits, Stalls, StopsAt;
    if legs != [] {
      var last := legs[|legs| - 1];
      assert CutFor(last, Coasting().world, Initial(), release) && LegFits(last);
      IdleSegment(last.scene, last.end);
    }
  }

  /** A valid pack that asks nothing of its jets is stopped by its 65537th
      release, whose epoch no longer fits, and by nothing before it. */
  method LongFlightStops() returns (completed: nat, stop: Option<Stop>)
    ensures completed == 0x1_0000 && stop == Some(EpochTooLarge)
  {
    hide ValidPack, SegmentOk, Stalls, Overflows, LegsCut, LegsFit, StopsInTime, Initial, EndToEnd, Prompt,
         FullFlow, NonePending;
    SmallTankIsValid(8);
    NotYetCommanded();
    var pack := SmallTank(8);
    var clock := new EventClock.ExactEventClock();
    var created := RcsState.Create(pack);
    var state := created.value;
    var now: i32 := 0;
    completed, stop := 0, None;
    while stop == None
      invariant fresh(clock) && fresh(state) && state.Valid() && completed <= 0x1_0000
      invariant stop == None || (stop == Some(EpochTooLarge) && completed == 0x1_0000)
      invariant stop == None ==> clock.InStep() && clock.epoch == completed && now == clock.nextReleaseRaw
      invariant stop == None ==> state.Valves() == Initial() && state.lastEpoch < now
      invariant stop == None ==> 0 <= state.remaining <= pack.wetMass
      decreases 0x1_0000 - completed, stop == None
    {
      ghost var load := state.remaining;
      var next;
      ghost var legs;
      legs, next, stop := FlyInterval(clock, state, pack, now, Coasting());
      LeftInRange(legs, pack, load);
      if clock.epoch <= 0x1_0000 {
        IdleNeverOverflows(Left(legs, load), next, clock.nextReleaseRaw);
        LoadsInRange(legs, pack, load);
        IdleGoesOn(legs, clock.nextReleaseRaw, stop);
        completed, now := completed + 1, next;
      }
    }
  }

  lemma {:induction false} LoadsInRange(legs: seq<Leg>, pack: Pack, initial: int)
    requires Chain(legs, pack, initial)
    ensures forall k :: 0 <= k < |legs| ==> 0 <= legs[k].scene.remaining
  {
    forall k | 0 <= k < |legs|
      ensures 0 <= legs[k].scene.remaining
    {
      assert SegmentOk(legs[k].result, legs[k].scene, pack, legs[k].end);
    }
  }
}
