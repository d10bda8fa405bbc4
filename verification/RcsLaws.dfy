/**
 What a successful RCS segment means in the quantities of the pack, the supply
 and the schedule alone: each jet's thrust, force, torque and flow, their sums,
 the propellant consumed and the impulse, every one within its rounding of the
 exact ratio or product.
 */
module RcsLaws {
  import opened Arithmetic
  import opened Faultless
  import opened Effectors
  import opened RcsValves
  import opened Rcs
  import opened RcsFlow

  // ----- one jet

  /** The part of a quantity that a valve lets through: all of it, half, a
      sixteenth or nothing, to the nearest unit. */
  ghost predicate LetThrough(part: int, whole: int, open: bool, fault: JetFault) {
    match fault
    case StuckClosed => part == 0
    case StuckOpen => part == whole
    case Leak => if open then part == whole else Abs(16 * part - whole) <= 8
    case DegradedThrustHalf => if open then Abs(2 * part - whole) <= 1 else part == 0
    case Healthy => part == if open then whole else 0
    case DelayedValveOneQuantum => part == if open then whole else 0
  }

  /** Intermediate quantities of a jet at full opening. */
  datatype Working = Working(thrust: int, exhaust: int, baseFlow: int, flow: int)

  ghost predicate ThrustLaw(jet: Jet, scale: int, w: Working, thrust: int, open: bool, fault: JetFault) {
    && IsNearestAwayFromZero(w.thrust, jet.nominalThrust * scale, 0x4000_0000)
    && LetThrough(thrust, w.thrust, open, fault)
  }

  ghost predicate ForceLaw(jet: Jet, thrust: int, force: IntVec) {
    && IsNearestAwayFromZero(force.x, thrust * jet.direction.x, 0x4000_0000)
    && IsNearestAwayFromZero(force.y, thrust * jet.direction.y, 0x4000_0000)
    && IsNearestAwayFromZero(force.z, thrust * jet.direction.z, 0x4000_0000)
  }

  /** One component `a * g - b * f` of arm times force, in units of 2^-39, up to
      the rounding of two products and the truncation of two forces. */
  ghost predicate MomentLaw(moment: int, a: int, g: int, b: int, f: int) {
    Abs(0x80_0000_0000 * moment - (a * g - b * f)) <= 0x80_0000_0000 + 1023 * (Abs(a) + Abs(b))
  }

  ghost predicate TorqueLaw(jet: Jet, cg: int, force: IntVec, torque: IntVec) {
    var x, y, z := jet.position.x - cg, jet.position.y, jet.position.z;
    && MomentLaw(torque.x, y, force.z, z, force.y)
    && MomentLaw(torque.y, z, force.x, x, force.z)
    && MomentLaw(torque.z, x, force.y, y, force.x)
  }

  /** Thrust over specific impulse times standard gravity, scaled by supply. */
  ghost predicate FlowLaw(jet: Jet, scale: int, w: Working, flow: int, open: bool, fault: JetFault) {
    && IsNearestAwayFromZero(w.exhaust, jet.specificImpulse * 642_689, 0x1_0000)
    && (flow != 0 ==> w.exhaust > 0)
    && (w.exhaust > 0 ==> IsNearestAwayFromZero(w.baseFlow, jet.nominalThrust * 0x20_0000, w.exhaust))
    && IsNearestAwayFromZero(w.flow, w.baseFlow * scale, 0x4000_0000)
    && LetThrough(flow, w.flow, open, fault)
  }

  /** All of it for jet `i`; an empty tank feeds nothing. */
  ghost predicate JetLaw(s: Scene, i: nat, w: Working, e: Effect)
    requires ShapedScene(s) && i < MAX_RCS_JETS
  {
    var jet, fault := s.jets[i], s.faults[i];
    var open := s.v.slots[i].open <= s.start < s.v.slots[i].close;
    if s.remaining == 0 then e == Effect(0, IntVec(0, 0, 0), IntVec(0, 0, 0), 0)
    else
      && ThrustLaw(jet, s.supply.thrustScale, w, e.thrust, open, fault)
      && ForceLaw(jet, e.thrust, e.force) && TorqueLaw(jet, s.cg, e.force, e.torque)
      && FlowLaw(jet, s.supply.flowScale, w, e.flow, open, fault)
  }

  lemma {:induction false} ScaledIsNearest(a: int, b: int)
    ensures IsNearestAwayFromZero(Scaled(a, b, 30), a * b, 0x4000_0000)
  {
    Pow2OfScales();
    RoundHalfAwayIsNearest(a * b, Pow2(30));
  }

  /** The fault scale lets through what the fault says. */
  lemma {:induction false} ScaledLetsThrough(whole: int, open: bool, fault: JetFault)
    ensures LetThrough(Scaled(whole, FaultScale(fault, open), 30), whole, open, fault)
    ensures FaultScale(fault, open) == 0 ==> LetThrough(0, whole, open, fault)
  {
    hide Scaled;
    Pow2OfScales();
    RoundExact(0, Pow2(30));
    RoundExact(whole, Pow2(30));
    ScaledIsNearest(whole, FaultScale(fault, open));
    ScaledEnds(whole);
  }

  lemma {:induction false} ScaledEnds(whole: int)
    ensures Scaled(whole, 0, 30) == 0 && Scaled(whole, ONE_Q30, 30) == whole
  {
    Pow2OfScales();
    RoundExact(0, Pow2(30));
    RoundExact(whole, Pow2(30));
  }

  function WorkingOf(jet: Jet, supply: SupplySample): Working {
    Working(Scaled(jet.nominalThrust, supply.thrustScale, 30), Scaled(jet.specificImpulse, 642_689, 16),
            BaseFlow(jet), Scaled(BaseFlow(jet), supply.flowScale, 30))
  }

  lemma {:induction false} ForceObeys(jet: Jet, thrust: int)
    ensures ForceLaw(jet, thrust, JetForce(jet, thrust))
  {
    hide Scaled;
    ScaledIsNearest(thrust, jet.direction.x);
    ScaledIsNearest(thrust, jet.direction.y);
    ScaledIsNearest(thrust, jet.direction.z);
  }

  lemma {:induction false} TruncationLoses(v: int)
    ensures Abs(1024 * TruncKilo(v) - v) <= 1023
  {}

  /** A rounded product of an arm and a truncated force, against the product of
      the arm and the force. */
  lemma {:induction false} ProductError(a: int, g: int)
    ensures Abs(0x80_0000_0000 * Scaled(a, TruncKilo(g), 29) - a * g) <= 0x40_0000_0000 + 1023 * Abs(a)
  {
    hide TruncKilo;
    var k := TruncKilo(g);
    Pow2At29();
    RoundHalfAwayIsNearest(a * k, Pow2(29));
    var q := Scaled(a, k, 29);
    TruncationLoses(g);
    var loss := 1024 * k - g;
    assert 1024 * (a * k) - a * g == a * loss;
    ProductSize(loss, a, 1023);
  }

  lemma {:induction false} Pow2At29()
    ensures Pow2(29) == 0x2000_0000
  {
    Pow2OfScales();
  }

  lemma {:induction false} MomentObeys(a: int, g: int, b: int, f: int)
    ensures MomentLaw(Scaled(a, TruncKilo(g), 29) - Scaled(b, TruncKilo(f), 29), a, g, b, f)
  {
    hide Scaled, TruncKilo;
    ProductError(a, g);
    ProductError(b, f);
  }

  lemma {:induction false} TorqueObeys(jet: Jet, force: IntVec, cg: int)
    ensures TorqueLaw(jet, cg, force, JetTorque(jet, force, cg))
  {
    hide Scaled, TruncKilo, MomentLaw;
    var x, y, z := jet.position.x - cg, jet.position.y, jet.position.z;
    MomentObeys(y, force.z, z, force.y);
    MomentObeys(z, force.x, x, force.z);
    MomentObeys(x, force.y, y, force.x);
  }

  lemma {:induction false} FlowObeys(jet: Jet, supply: SupplySample, open: bool, fault: JetFault)
    requires FaultScale(fault, open) != 0 ==> FlowFits(jet, supply.flowScale, FaultScale(fault, open))
    ensures var scale := FaultScale(fault, open);
            var flow := if scale == 0 then 0 else JetFlow(jet, supply.flowScale, scale);
            FlowLaw(jet, supply.flowScale, WorkingOf(jet, supply), flow, open, fault)
  {
    hide Scaled, RoundHalfAway, LetThrough, FaultScale;
    var w := WorkingOf(jet, supply);
    ExhaustIsNearest(jet);
    BaseFlowIsNearest(jet);
    ScaledIsNearest(w.baseFlow, supply.flowScale);
    ScaledLetsThrough(w.flow, open, fault);
  }

  lemma {:induction false} ExhaustIsNearest(jet: Jet)
    ensures IsNearestAwayFromZero(Scaled(jet.specificImpulse, 642_689, 16), jet.specificImpulse * 642_689, 0x1_0000)
  {
    Pow2Of32();
    RoundHalfAwayIsNearest(jet.specificImpulse * 642_689, Pow2(16));
  }

  lemma {:induction false} BaseFlowIsNearest(jet: Jet)
    ensures var exhaust := Scaled(jet.specificImpulse, 642_689, 16);
            exhaust > 0 ==> IsNearestAwayFromZero(BaseFlow(jet), jet.nominalThrust * 0x20_0000, exhaust)
  {
    hide Scaled;
    var exhaust := Scaled(jet.specificImpulse, 642_689, 16);
    Pow2OfScales();
    if exhaust > 0 {
      RoundHalfAwayIsNearest(jet.nominalThrust * Pow2(21), exhaust);
    }
  }

  lemma {:induction false} ThrustObeys(jet: Jet, supply: SupplySample, open: bool, fault: JetFault)
    ensures var thrust := if FaultScale(fault, open) == 0 then 0
                          else JetThrust(jet, supply.thrustScale, FaultScale(fault, open));
            ThrustLaw(jet, supply.thrustScale, WorkingOf(jet, supply), thrust, open, fault)
  {
    hide Scaled, LetThrough, FaultScale;
    ScaledIsNearest(jet.nominalThrust, supply.thrustScale);
    ScaledLetsThrough(WorkingOf(jet, supply).thrust, open, fault);
  }

  lemma {:induction false} NothingObeys(jet: Jet, cg: int)
    ensures ForceLaw(jet, 0, IntVec(0, 0, 0)) && TorqueLaw(jet, cg, IntVec(0, 0, 0), IntVec(0, 0, 0))
  {}

  lemma {:induction false} JetObeys(s: Scene, i: nat)
    requires ShapedScene(s) && i < MAX_RCS_JETS && StepFits(s, i)
    ensures JetLaw(s, i, WorkingOf(s.jets[i], s.supply), EffectOf(s, i))
  {
    hide Scaled, ThrustLaw, ForceLaw, TorqueLaw, FlowLaw, JetForce, JetTorque, FaultScale, WorkingOf, CrossFits,
         JetThrust, JetFlow, FlowFits, TotalFits, TotalEffect;
    var jet, open := s.jets[i], ScheduledOpen(s.v.slots[i], s.start);
    ThrustObeys(jet, s.supply, open, s.faults[i]);
    if s.remaining != 0 {
      FlowObeys(jet, s.supply, open, s.faults[i]);
    }
    NothingObeys(jet, s.cg);
    var thrust := JetThrust(jet, s.supply.thrustScale, Failure(s, i));
    ForceObeys(jet, thrust);
    TorqueObeys(jet, JetForce(jet, thrust), s.cg);
  }

  // ----- sums

  datatype Quantity = Thrust | ForceX | ForceY | ForceZ | TorqueX | TorqueY | TorqueZ | Flow

  function Part(e: Effect, q: Quantity): int {
    match q
    case Thrust => e.thrust
    case ForceX => e.force.x
    case ForceY => e.force.y
    case ForceZ => e.force.z
    case TorqueX => e.torque.x
    case TorqueY => e.torque.y
    case TorqueZ => e.torque.z
    case Flow => e.flow
  }

  function Sum(es: seq<Effect>, q: Quantity): int {
    if es == [] then 0 else Sum(es[..|es| - 1], q) + Part(es[|es| - 1], q)
  }

  function Effects(s: Scene, n: nat): seq<Effect>
    requires ShapedScene(s) && n <= MAX_RCS_JETS
  {
    seq(n, i requires 0 <= i < n => EffectOf(s, i))
  }

  lemma {:induction false} TotalIsSum(s: Scene, n: nat, q: Quantity)
    requires ShapedScene(s) && n <= MAX_RCS_JETS
    ensures Part(TotalEffect(s, n), q) == Sum(Effects(s, n), q)
  {
    hide EffectOf;
    if n > 0 {
      TotalIsSum(s, n - 1, q);
      assert Effects(s, n)[..n - 1] == Effects(s, n - 1);
      JoinAdds(TotalEffect(s, n - 1), EffectOf(s, n - 1), q);
    }
  }

  lemma {:induction false} JoinAdds(a: Effect, b: Effect, q: Quantity)
    ensures Part(Join(a, b), q) == Part(a, q) + Part(b, q)
  {}

  /** What every jet of a successful segment does, and what they do together. */
  lemma {:induction false} FiringMeans(r: SegmentResult, s: Scene, pack: Pack, end: i32)
    returns (ws: seq<Working>, es: seq<Effect>)
    requires SegmentOk(r, s, pack, end) && SegmentFits(s, end)
    ensures |ws| == |es| == |r.firing.forces| == |r.firing.thrusts| == MAX_RCS_JETS
    ensures s.jets == pack.jets && forall i :: 0 <= i < MAX_RCS_JETS ==> JetLaw(s, i, ws[i], es[i])
    ensures forall i :: 0 <= i < MAX_RCS_JETS ==>
              r.firing.thrusts[i] == es[i].thrust && Exact(r.firing.forces[i]) == es[i].force
    ensures Exact(r.firing.force) == IntVec(Sum(es, ForceX), Sum(es, ForceY), Sum(es, ForceZ))
    ensures Exact(r.firing.torque) == IntVec(Sum(es, TorqueX), Sum(es, TorqueY), Sum(es, TorqueZ))
    ensures r.firing.flow == Sum(es, Flow)
  {
    hide JetLaw, EffectOf, TotalEffect, Sum, ExactBurn, BurnFits, ImpulseFits, ImpulseSum, StepFits, EdgeFree,
         SuppliedBy, Effects;
    es := SceneEffects(s);
    ws := seq(MAX_RCS_JETS, i requires 0 <= i < MAX_RCS_JETS && ShapedScene(s) => WorkingOf(s.jets[i], s.supply));
    forall i | 0 <= i < MAX_RCS_JETS
      ensures JetLaw(s, i, ws[i], es[i])
    {
      assert StepFits(s, i);
      JetObeys(s, i);
    }
    TotalsAreSums(s, es);
  }

  lemma {:induction false} SceneEffects(s: Scene) returns (es: seq<Effect>)
    requires ShapedScene(s)
    ensures |es| == MAX_RCS_JETS && es == Effects(s, MAX_RCS_JETS)
    ensures forall i :: 0 <= i < MAX_RCS_JETS ==> es[i] == EffectOf(s, i)
  {
    hide EffectOf;
    es := Effects(s, MAX_RCS_JETS);
  }

  lemma {:induction false} TotalsAreSums(s: Scene, es: seq<Effect>)
    requires ShapedScene(s) && es == Effects(s, MAX_RCS_JETS)
    ensures var total := TotalEffect(s, MAX_RCS_JETS);
            && total.force == IntVec(Sum(es, ForceX), Sum(es, ForceY), Sum(es, ForceZ))
            && total.torque == IntVec(Sum(es, TorqueX), Sum(es, TorqueY), Sum(es, TorqueZ))
            && total.flow == Sum(es, Flow)
  {
    hide Sum, Effects, TotalEffect;
    forall q: Quantity
      ensures Part(TotalEffect(s, MAX_RCS_JETS), q) == Sum(es, q)
    {
      TotalIsSum(s, MAX_RCS_JETS, q);
    }
    assert Part(TotalEffect(s, MAX_RCS_JETS), ForceX) == Sum(es, ForceX);
    assert Part(TotalEffect(s, MAX_RCS_JETS), ForceY) == Sum(es, ForceY);
    assert Part(TotalEffect(s, MAX_RCS_JETS), ForceZ) == Sum(es, ForceZ);
    assert Part(TotalEffect(s, MAX_RCS_JETS), TorqueX) == Sum(es, TorqueX);
    assert Part(TotalEffect(s, MAX_RCS_JETS), TorqueY) == Sum(es, TorqueY);
    assert Part(TotalEffect(s, MAX_RCS_JETS), TorqueZ) == Sum(es, TorqueZ);
    assert Part(TotalEffect(s, MAX_RCS_JETS), Flow) == Sum(es, Flow);
  }

  // ----- propellant and impulse

  /** The tank empties exactly when the demand of the whole interval rounds to
      at least its load; then the time is the nearest to load over flow that
      fits the interval. Otherwise the demand is consumed. */
  lemma {:induction false} BurnMeans(r: SegmentResult, s: Scene, pack: Pack, end: i32)
    requires SegmentOk(r, s, pack, end)
    ensures var flow, dt, ticks := r.firing.flow, Gap(s.start, end), Gap(s.start, r.integratedEnd);
            && (r.depleted <==> flow > 0 && flow * dt + 0x100_0000 >= s.remaining * 0x200_0000)
            && (!r.depleted ==> ticks == dt && IsNearestAwayFromZero(r.consumed, flow * dt, 0x200_0000))
            && (r.depleted ==> r.consumed == s.remaining && ticks <= dt)
            && (r.depleted && ticks < dt ==> IsNearestAwayFromZero(ticks, s.remaining * 0x200_0000, flow))
            && (r.depleted && ticks == dt ==> 2 * (s.remaining * 0x200_0000) + flow >= 2 * (dt * flow))
  {
    hide ExactFiring, ImpulseSum, EdgeFree, SuppliedBy, ActiveMask;
    ExactBurnMeans(Burn(Gap(s.start, r.integratedEnd), r.consumed, r.depleted), s.remaining, r.firing.flow,
                   end - s.start);
  }

  lemma {:induction false} ExactBurnMeans(b: Burn, remaining: nat, flow: nat, dt: nat)
    requires 0 < dt && ExactBurn(b, remaining, flow, dt)
    ensures b.depleted <==> flow > 0 && flow * dt + 0x100_0000 >= remaining * 0x200_0000
    ensures !b.depleted ==> b.ticks == dt && IsNearestAwayFromZero(b.consumed, flow * dt, 0x200_0000)
    ensures b.depleted ==> b.consumed == remaining && b.ticks <= dt
    ensures b.depleted && b.ticks < dt ==> IsNearestAwayFromZero(b.ticks, remaining * 0x200_0000, flow)
    ensures b.depleted && b.ticks == dt ==> 2 * (remaining * 0x200_0000) + flow >= 2 * (dt * flow)
  {
    hide RoundHalfAway;
    Pow2OfScales();
    MulMonotone(0, flow, dt);
    RoundHalfAwayIsNearest(flow * dt, Pow2(25));
    if b.depleted {
      var t := DepletionTicks(remaining, flow);
      DepletionWithinHalfTick(remaining, flow);
      RoundHalfAwayIsNearest(remaining * Pow2(25), flow);
      MulMonotone(dt, Max(t, dt), flow);
    }
  }

  /** The impulse is the sum of thrust times duration, each jet rounded. */
  lemma {:induction false} ImpulseMeans(r: SegmentResult, s: Scene, pack: Pack, end: i32)
    requires SegmentOk(r, s, pack, end)
    ensures Abs(0x8000 * r.totalImpulse - Gap(s.start, r.integratedEnd) * Total(r.firing.thrusts)) <= 12 * 0x4000
  {
    hide ExactBurn, TotalEffect, EffectOf, EdgeFree, SuppliedBy, ActiveMask, ImpulseSum, Total;
    ImpulseIsProduct(r.firing.thrusts, Gap(s.start, r.integratedEnd));
  }

  function Total(vs: seq<int>): int {
    if vs == [] then 0 else Total(vs[..|vs| - 1]) + vs[|vs| - 1]
  }

  lemma {:induction false} ImpulseIsProduct(thrusts: seq<int>, ticks: int)
    ensures Abs(0x8000 * ImpulseSum(thrusts, ticks) - ticks * Total(thrusts)) <= |thrusts| * 0x4000
  {
    hide RoundHalfAway;
    if thrusts != [] {
      var front, last := thrusts[..|thrusts| - 1], thrusts[|thrusts| - 1];
      ImpulseIsProduct(front, ticks);
      Pow2OfScales();
      RoundHalfAwayIsNearest(last * ticks, Pow2(15));
      assert ticks * (Total(front) + last) == ticks * Total(front) + last * ticks;
    }
  }
}
