/**
 Integration of one edge-free RCS segment: forces and flow of the open jets,
 propellant bookkeeping, depletion, and what runs of successful segments keep.
 A result is `Ok` exactly when every quantity on the way fits its type, and its
 contents are then the exact rounded quantities.
 */
module RcsFlow {
  import opened Arithmetic
  import opened Numeric
  import opened Faultless
  import opened Effectors
  import opened RcsValves
  import opened Wrappers
  import opened Rcs

  datatype IntVec = IntVec(x: int, y: int, z: int) {
    function Plus(other: IntVec): IntVec {
      IntVec(x + other.x, y + other.y, z + other.z)
    }

    predicate FitsEach() {
      Fits(x) && Fits(y) && Fits(z)
    }
  }

  function Exact(v: Vec3): IntVec {
    IntVec(v.x, v.y, v.z)
  }

  method PlusVec(a: Vec3, b: Vec3, status: NumericStatus) returns (r: Vec3, after: NumericStatus)
    ensures after.IsClear() <==> status.IsClear() && Exact(a).Plus(Exact(b)).FitsEach()
    ensures after.IsClear() ==> Exact(r) == Exact(a).Plus(Exact(b))
  {
    var x, y, z;
    x, after := Plus(a.x, b.x, status);
    y, after := Plus(a.y, b.y, after);
    z, after := Plus(a.z, b.z, after);
    r := Vec3(x, y, z);
  }

  // ----- one jet

  /** Truncating division by 1024. */
  function TruncKilo(v: int): int {
    if v >= 0 then v / 1024 else 0 - (-v) / 1024
  }

  function Cross(l: IntVec, r: IntVec, shift: nat): IntVec {
    IntVec(Scaled(l.y, r.z, shift) - Scaled(l.z, r.y, shift),
           Scaled(l.z, r.x, shift) - Scaled(l.x, r.z, shift),
           Scaled(l.x, r.y, shift) - Scaled(l.y, r.x, shift))
  }

  /** No product and no difference of the cross product leaves its type. */
  predicate CrossFits(l: IntVec, r: IntVec, shift: nat) {
    && Fits(Scaled(l.y, r.z, shift)) && Fits(Scaled(l.z, r.y, shift))
    && Fits(Scaled(l.z, r.x, shift)) && Fits(Scaled(l.x, r.z, shift))
    && Fits(Scaled(l.x, r.y, shift)) && Fits(Scaled(l.y, r.x, shift))
    && Cross(l, r, shift).FitsEach()
  }

  method CrossMixed(l: Vec3, r: Vec3, shift: u8, status: NumericStatus) returns (c: Vec3, after: NumericStatus)
    requires shift <= 31
    ensures after.IsClear() <==> status.IsClear() && CrossFits(Exact(l), Exact(r), shift)
    ensures after.IsClear() ==> Exact(c) == Cross(Exact(l), Exact(r), shift)
  {
    hide Scaled;
    var a, b, x, y, z;
    a, after := Times(l.y, r.z, shift, status);
    b, after := Times(l.z, r.y, shift, after);
    x, after := Minus(a, b, after);
    a, after := Times(l.z, r.x, shift, after);
    b, after := Times(l.x, r.z, shift, after);
    y, after := Minus(a, b, after);
    a, after := Times(l.x, r.y, shift, after);
    b, after := Times(l.y, r.x, shift, after);
    z, after := Minus(a, b, after);
    c := Vec3(x, y, z);
  }

  /** What one open jet contributes, with no saturation anywhere. */
  datatype Effect = Effect(thrust: int, force: IntVec, torque: IntVec, flow: int)

  const NO_EFFECT := Effect(0, IntVec(0, 0, 0), IntVec(0, 0, 0), 0)

  function JetThrust(jet: Jet, thrustScale: int, failure: int): int {
    Scaled(Scaled(jet.nominalThrust, thrustScale, 30), failure, 30)
  }

  function JetForce(jet: Jet, thrust: int): IntVec {
    IntVec(Scaled(thrust, jet.direction.x, 30), Scaled(thrust, jet.direction.y, 30),
           Scaled(thrust, jet.direction.z, 30))
  }

  /** The lever arm of a jet about the centre of gravity. */
  function Arm(jet: Jet, cg: int): IntVec {
    IntVec(jet.position.x - cg, jet.position.y, jet.position.z)
  }

  function Kilo(force: IntVec): IntVec {
    IntVec(TruncKilo(force.x), TruncKilo(force.y), TruncKilo(force.z))
  }

  function JetTorque(jet: Jet, force: IntVec, cg: int): IntVec {
    Cross(Arm(jet, cg), Kilo(force), 29)
  }

  /** Thrust over exhaust speed; nothing when the exhaust speed rounds to 0. */
  function BaseFlow(jet: Jet): int {
    var exhaust := Scaled(jet.specificImpulse, G0_Q16, 16);
    if exhaust <= 0 then 0 else RoundHalfAway(jet.nominalThrust * Pow2(21), exhaust)
  }

  /** The base flow scaled by supply and fault. */
  function JetFlow(jet: Jet, flowScale: int, failure: int): int {
    Scaled(Scaled(BaseFlow(jet), flowScale, 30), failure, 30)
  }

  function JetEffect(jet: Jet, supply: SupplySample, failure: int, cg: int): Effect {
    var thrust := JetThrust(jet, supply.thrustScale, failure);
    var force := JetForce(jet, thrust);
    Effect(thrust, force, JetTorque(jet, force, cg), JetFlow(jet, supply.flowScale, failure))
  }

  /** Nothing on the way to the jet's effect leaves its type. */
  predicate JetFits(jet: Jet, supply: SupplySample, failure: int, cg: int) {
    var thrust := JetThrust(jet, supply.thrustScale, failure);
    var force := JetForce(jet, thrust);
    && Fits(Scaled(jet.nominalThrust, supply.thrustScale, 30)) && Fits(thrust) && force.FitsEach()
    && Arm(jet, cg).FitsEach() && CrossFits(Arm(jet, cg), Kilo(force), 29)
    && FlowFits(jet, supply.flowScale, failure)
  }

  predicate FlowFits(jet: Jet, flowScale: int, failure: int) {
    && 0 < Scaled(jet.specificImpulse, G0_Q16, 16) <= MAX_I32 && Fits(BaseFlow(jet))
    && Fits(Scaled(BaseFlow(jet), flowScale, 30)) && Fits(JetFlow(jet, flowScale, failure))
  }

  method FlowOfJet(jet: Jet, flowScale: i32, failure: i32, status: NumericStatus)
    returns (flow: i32, after: NumericStatus)
    requires jet.IsValid() && 0 < flowScale && 0 <= failure
    ensures 0 <= flow
    ensures after.IsClear() <==> status.IsClear() && FlowFits(jet, flowScale, failure)
    ensures after.IsClear() ==> flow == JetFlow(jet, flowScale, failure)
  {
    hide Scaled, RoundHalfAway;
    var exhaust, base, scaledFlow;
    exhaust, after := Times(jet.specificImpulse, G0_Q16, 16, status);
    base, after := Over(jet.nominalThrust, exhaust, 21, after);
    scaledFlow, after := Times(base, flowScale, 30, after);
    flow, after := Times(scaledFlow, failure, 30, after);
  }

  method FireJet(jet: Jet, supply: SupplySample, failure: i32, cg: i32, status: NumericStatus)
    returns (thrust: i32, force: Vec3, torque: Vec3, flow: i32, after: NumericStatus)
    requires jet.IsValid() && 0 < supply.flowScale && 0 <= failure
    ensures 0 <= flow
    ensures after.IsClear() <==> status.IsClear() && JetFits(jet, supply, failure, cg)
    ensures after.IsClear() ==>
              Effect(thrust, Exact(force), Exact(torque), flow) == JetEffect(jet, supply, failure, cg)
  {
    hide Scaled, Cross, CrossFits, FlowFits, RoundHalfAway;
    var base, x, y, z, armX;
    base, after := Times(jet.nominalThrust, supply.thrustScale, 30, status);
    thrust, after := Times(base, failure, 30, after);
    x, after := Times(thrust, jet.direction.x, 30, after);
    y, after := Times(thrust, jet.direction.y, 30, after);
    z, after := Times(thrust, jet.direction.z, 30, after);
    force := Vec3(x, y, z);
    armX, after := Minus(jet.position.x, cg, after);
    var arm := Vec3(armX, jet.position.y, jet.position.z);
    torque, after := CrossMixed(arm, Vec3(TruncKilo(x), TruncKilo(y), TruncKilo(z)), 29, after);
    flow, after := FlowOfJet(jet, supply.flowScale, failure, after);
  }

  // ----- all jets

  /** What a segment starts from. */
  datatype Scene = Scene(v: Valves, jets: seq<Jet>, remaining: i32, start: i32, faults: seq<JetFault>,
                         supply: SupplySample, cg: i32)

  predicate ShapedScene(s: Scene) {
    |s.jets| == |s.faults| == MAX_RCS_JETS
  }

  function Failure(s: Scene, i: nat): i32
    requires ShapedScene(s) && i < MAX_RCS_JETS
  {
    FaultScale(s.faults[i], ScheduledOpen(s.v.slots[i], s.start))
  }

  /** What jet `i` contributes: nothing when it is shut or the tank is empty. */
  function EffectOf(s: Scene, i: nat): Effect
    requires ShapedScene(s) && i < MAX_RCS_JETS
  {
    if Failure(s, i) == 0 || s.remaining == 0 then NO_EFFECT
    else JetEffect(s.jets[i], s.supply, Failure(s, i), s.cg)
  }

  function Join(a: Effect, b: Effect): Effect {
    Effect(a.thrust + b.thrust, a.force.Plus(b.force), a.torque.Plus(b.torque), a.flow + b.flow)
  }

  /** Sum of the contributions of the first `n` jets. */
  function TotalEffect(s: Scene, n: nat): Effect
    requires ShapedScene(s) && n <= MAX_RCS_JETS
  {
    if n == 0 then NO_EFFECT else Join(TotalEffect(s, n - 1), EffectOf(s, n - 1))
  }

  /** Neither jet `i` nor the sums up to and including it leave their types. */
  predicate StepFits(s: Scene, i: nat)
    requires ShapedScene(s) && i < MAX_RCS_JETS
  {
    && (Failure(s, i) == 0 || s.remaining == 0 || JetFits(s.jets[i], s.supply, Failure(s, i), s.cg))
    && TotalFits(TotalEffect(s, i + 1))
  }

  predicate TotalFits(total: Effect) {
    total.force.FitsEach() && total.torque.FitsEach() && Fits(total.flow)
  }

  ghost predicate FiresCleanly(s: Scene, n: nat)
    requires ShapedScene(s) && n <= MAX_RCS_JETS
  {
    forall i :: 0 <= i < n ==> StepFits(s, i)
  }

  lemma {:induction false} EmptyTankJet(s: Scene, i: nat)
    requires ShapedScene(s) && i < MAX_RCS_JETS && s.remaining == 0
    ensures EffectOf(s, i) == NO_EFFECT
  {
    hide JetEffect, FaultScale;
  }

  lemma {:induction false} JoinNothing(e: Effect)
    ensures Join(NO_EFFECT, e) == e
  {}

  /** An empty tank moves nothing. */
  lemma {:induction false} EmptyTankNoEffect(s: Scene, n: nat)
    requires ShapedScene(s) && n <= MAX_RCS_JETS && s.remaining == 0
    ensures TotalEffect(s, n) == NO_EFFECT
  {
    hide EffectOf, Join, FaultScale, ScheduledOpen, JetEffect;
    if n > 0 {
      EmptyTankNoEffect(s, n - 1);
      EmptyTankJet(s, n - 1);
      JoinNothing(EffectOf(s, n - 1));
    }
  }

  datatype Firing = Firing(mask: set<nat>, force: Vec3, torque: Vec3, flow: i32,
                           forces: seq<Vec3>, thrusts: seq<i32>)

  /** The firing is the exact sum over the jets that flow. */
  ghost predicate ExactFiring(f: Firing, s: Scene, n: nat)
    requires ShapedScene(s) && n <= MAX_RCS_JETS
  {
    && Totals(f, TotalEffect(s, n))
    && |f.forces| == |f.thrusts| == n
    && (forall i :: 0 <= i < n ==> Exact(f.forces[i]) == EffectOf(s, i).force)
    && (forall i :: 0 <= i < n ==> f.thrusts[i] == EffectOf(s, i).thrust)
  }

  predicate Totals(f: Firing, total: Effect) {
    Exact(f.force) == total.force && Exact(f.torque) == total.torque && f.flow == total.flow
  }

  /** Adding one jet's contribution keeps the firing exact. */
  lemma {:induction false} FiringStep(f: Firing, g: Firing, s: Scene, n: nat)
    requires ShapedScene(s) && n < MAX_RCS_JETS && ExactFiring(f, s, n)
    requires |g.forces| == |g.thrusts| == n + 1
    requires g.forces[..n] == f.forces && g.thrusts[..n] == f.thrusts
    requires Exact(g.forces[n]) == EffectOf(s, n).force && g.thrusts[n] == EffectOf(s, n).thrust
    requires Exact(g.force) == Exact(f.force).Plus(EffectOf(s, n).force)
    requires Exact(g.torque) == Exact(f.torque).Plus(EffectOf(s, n).torque)
    requires g.flow == f.flow + EffectOf(s, n).flow
    ensures ExactFiring(g, s, n + 1)
  {
    hide EffectOf;
    forall i | 0 <= i < n
      ensures g.forces[i] == f.forces[i] && g.thrusts[i] == f.thrusts[i]
    {
      assert g.forces[..n][i] == g.forces[i] && g.thrusts[..n][i] == g.thrusts[i];
    }
  }

  ghost predicate Sees(state: RcsState, s: Scene)
    reads state
  {
    state.Valid() && s.v == state.Valves() && s.remaining == state.remaining
  }

  method FireJets(state: RcsState, ghost s: Scene, jets: seq<Jet>, start: i32, cg: i32, faults: seq<JetFault>,
                  supply: SupplySample, status: NumericStatus)
    returns (f: Firing, after: NumericStatus)
    requires Sees(state, s) && s == Scene(s.v, jets, s.remaining, start, faults, supply, cg)
    requires ShapedScene(s) && 0 <= state.remaining && 0 < supply.flowScale
    requires forall i :: 0 <= i < MAX_RCS_JETS ==> jets[i].IsValid()
    ensures f.mask == ActiveMask(s.v, s.remaining, start, faults)
    ensures 0 <= f.flow && |f.thrusts| == MAX_RCS_JETS
    ensures after.IsClear() <==> status.IsClear() && FiresCleanly(s, MAX_RCS_JETS)
    ensures after.IsClear() ==> ExactFiring(f, s, MAX_RCS_JETS)
  {
    hide JetEffect, FaultScale, ExactFiring, StepFits, JetFits;
    f := Firing({}, ZERO3, ZERO3, 0, [], []);
    after := status;
    NothingFired(f, s);
    for index := 0 to MAX_RCS_JETS
      invariant f.mask == set i: nat | i < index && Failure(s, i) != 0 && s.remaining != 0
      invariant 0 <= f.flow && |f.forces| == |f.thrusts| == index
      invariant after.IsClear() <==> status.IsClear() && FiresCleanly(s, index)
      invariant after.IsClear() ==> ExactFiring(f, s, index)
    {
      ghost var prior := f;
      ghost var clear := after.IsClear();
      var failure := FaultScale(faults[index], state.openAt[index] <= start < state.closeAt[index]);
      assert failure == Failure(s, index);
      if failure == 0 || state.remaining == 0 {
        f := f.(forces := f.forces + [ZERO3], thrusts := f.thrusts + [0]);
      } else {
        FaultScaleNonNegative(faults[index], state.openAt[index] <= start < state.closeAt[index]);
        f, after := AddJet(f, index, jets[index], supply, failure, cg, after);
      }
      if clear {
        StepFitsExactly(prior, s, index);
      }
      if after.IsClear() {
        assert f.forces[..index] == prior.forces && f.thrusts[..index] == prior.thrusts;
        FiringStep(prior, f, s, index);
      }
    }
  }

  /** When the sums so far are exact, the next jet fits if its own quantities
      and the sums with it do. */
  lemma {:induction false} StepFitsExactly(f: Firing, s: Scene, i: nat)
    requires ShapedScene(s) && i < MAX_RCS_JETS && ExactFiring(f, s, i)
    ensures StepFits(s, i) <==>
            || Failure(s, i) == 0 || s.remaining == 0
            || (JetFits(s.jets[i], s.supply, Failure(s, i), s.cg)
                && JoinFits(f, JetEffect(s.jets[i], s.supply, Failure(s, i), s.cg)))
  {
    hide JetFits, JetEffect, Failure, JoinFits, TotalFits, Join, Totals;
    assert Totals(f, TotalEffect(s, i));
    JoinFitsExactly(f, TotalEffect(s, i), EffectOf(s, i));
  }

  lemma {:induction false} JoinFitsExactly(f: Firing, total: Effect, e: Effect)
    requires Totals(f, total)
    ensures TotalFits(Join(total, e)) <==> JoinFits(f, e)
    ensures e == NO_EFFECT ==> JoinFits(f, e)
  {}

  /** The running sums of a firing can take one more effect. */
  predicate JoinFits(f: Firing, e: Effect) {
    && Exact(f.force).Plus(e.force).FitsEach() && Exact(f.torque).Plus(e.torque).FitsEach()
    && Fits(f.flow + e.flow)
  }

  lemma {:induction false} NothingFired(f: Firing, s: Scene)
    requires ShapedScene(s) && f == Firing({}, ZERO3, ZERO3, 0, [], [])
    ensures ExactFiring(f, s, 0)
  {}

  method AddJet(f: Firing, index: nat, jet: Jet, supply: SupplySample, failure: i32, cg: i32, status: NumericStatus)
    returns (g: Firing, after: NumericStatus)
    requires jet.IsValid() && 0 < supply.flowScale && 0 <= failure && 0 <= f.flow
    ensures g.mask == f.mask + {index} && 0 <= g.flow
    ensures |g.forces| == |f.forces| + 1 && |g.thrusts| == |f.thrusts| + 1
    ensures g.forces[..|f.forces|] == f.forces && g.thrusts[..|f.thrusts|] == f.thrusts
    ensures after.IsClear() <==>
            status.IsClear() && JetFits(jet, supply, failure, cg) && JoinFits(f, JetEffect(jet, supply, failure, cg))
    ensures after.IsClear() ==>
              var e := JetEffect(jet, supply, failure, cg);
              && Exact(g.force) == Exact(f.force).Plus(e.force)
              && Exact(g.torque) == Exact(f.torque).Plus(e.torque)
              && g.flow == f.flow + e.flow
              && Exact(g.forces[|f.forces|]) == e.force && g.thrusts[|f.thrusts|] == e.thrust
  {
    hide JetEffect, JetFits;
    var thrust, jetForce, jetTorque, jetFlow, force, torque, flow;
    thrust, jetForce, jetTorque, jetFlow, after := FireJet(jet, supply, failure, cg, status);
    force, after := PlusVec(f.force, jetForce, after);
    torque, after := PlusVec(f.torque, jetTorque, after);
    flow, after := Plus(f.flow, jetFlow, after);
    g := Firing(f.mask + {index}, force, torque, flow, f.forces + [jetForce], f.thrusts + [thrust]);
  }

  lemma {:induction false} FaultScaleNonNegative(fault: JetFault, scheduled: bool)
    ensures 0 <= FaultScale(fault, scheduled)
  {}

  // ----- propellant

  datatype Burn = Burn(ticks: int, consumed: int, depleted: bool)

  /** Ticks until the tank runs dry, before clamping to the segment. */
  function DepletionTicks(remaining: int, flow: nat): int
    requires flow > 0
  {
    RoundHalfAway(remaining * Pow2(25), flow)
  }

  /** Either the whole interval is burned, or the tank empties within it. */
  ghost predicate ExactBurn(b: Burn, remaining: int, flow: int, dt: int)
    requires 0 <= flow && 0 < dt
  {
    var wanted := Scaled(flow, dt, 25);
    && (b.depleted <==> flow > 0 && wanted >= remaining)
    && (!b.depleted ==> b.ticks == dt && b.consumed == wanted)
    && (b.depleted ==> b.consumed == remaining && b.ticks == Clamp(DepletionTicks(remaining, flow), 0, dt))
  }

  /** Neither the demand nor the depletion time leaves its type. */
  ghost predicate BurnFits(remaining: int, flow: int, dt: int) {
    var wanted := Scaled(flow, dt, 25);
    Fits(wanted) && (flow > 0 && wanted >= remaining ==> Fits(DepletionTicks(remaining, flow)))
  }

  /** How long a segment of length `dt` lasts. */
  function BurnTicks(remaining: int, flow: int, dt: nat): int {
    if flow > 0 && Scaled(flow, dt, 25) >= remaining then Clamp(DepletionTicks(remaining, flow), 0, dt) else dt
  }

  method BurnPropellant(remaining: i32, flow: i32, dt: i32, status: NumericStatus)
    returns (b: Burn, after: NumericStatus)
    requires 0 <= remaining && 0 <= flow && 0 < dt
    ensures 0 <= b.consumed && 0 <= b.ticks <= dt
    ensures b.consumed <= remaining
    ensures after.IsClear() <==> status.IsClear() && BurnFits(remaining, flow, dt)
    ensures after.IsClear() ==> ExactBurn(b, remaining, flow, dt)
  {
    hide Scaled, RoundHalfAway;
    var wanted;
    wanted, after := Times(flow, dt, 25, status);
    wanted := Max(wanted, 0);
    if flow > 0 && wanted >= remaining {
      var ticks;
      ticks, after := Over(remaining, flow, 25, after);
      b := Burn(Clamp(ticks, 0, dt), remaining, true);
    } else {
      b := Burn(dt, wanted, false);
    }
  }

  /** The unclamped depletion time is within half a tick of the exact one. */
  lemma {:induction false} DepletionWithinHalfTick(remaining: nat, flow: nat)
    requires flow > 0
    ensures 2 * Abs(remaining * Pow2(25) - DepletionTicks(remaining, flow) * flow) <= flow
    ensures 0 <= DepletionTicks(remaining, flow)
  {
    MulMonotone(0, remaining, Pow2(25));
    RoundHalfAwayIsNearest(remaining * Pow2(25), flow);
  }

  function ImpulseSum(thrusts: seq<int>, ticks: int): int {
    if thrusts == [] then 0
    else ImpulseSum(thrusts[..|thrusts| - 1], ticks) + Scaled(thrusts[|thrusts| - 1], ticks, 15)
  }

  /** No part and no running sum of the impulse leaves its type. */
  ghost predicate ImpulseFits(thrusts: seq<int>, ticks: int) {
    forall k :: 0 <= k < |thrusts| ==> PartFits(thrusts, ticks, k)
  }

  predicate PartFits(thrusts: seq<int>, ticks: int, k: nat)
    requires k < |thrusts|
  {
    Fits(Scaled(thrusts[k], ticks, 15)) && Fits(ImpulseSum(thrusts[..k + 1], ticks))
  }

  lemma {:induction false} PartStep(thrusts: seq<int>, ticks: int, k: nat)
    requires k < |thrusts|
    ensures var part := Scaled(thrusts[k], ticks, 15);
            && ImpulseSum(thrusts[..k + 1], ticks) == ImpulseSum(thrusts[..k], ticks) + part
            && (PartFits(thrusts, ticks, k) <==> Fits(part) && Fits(ImpulseSum(thrusts[..k], ticks) + part))
  {
    hide Scaled;
    assert thrusts[..k + 1][..k] == thrusts[..k];
  }

  method TotalImpulse(thrusts: seq<i32>, ticks: i32, status: NumericStatus)
    returns (impulse: i32, after: NumericStatus)
    ensures after.IsClear() <==> status.IsClear() && ImpulseFits(thrusts, ticks)
    ensures after.IsClear() ==> impulse == ImpulseSum(thrusts, ticks)
  {
    hide Scaled;
    impulse, after := 0, status;
    for k := 0 to |thrusts|
      invariant after.IsClear() <==> status.IsClear() && forall i :: 0 <= i < k ==> PartFits(thrusts, ticks, i)
      invariant after.IsClear() ==> impulse == ImpulseSum(thrusts[..k], ticks)
    {
      PartStep(thrusts, ticks, k);
      var part;
      part, after := Times(thrusts[k], ticks, 15, after);
      impulse, after := Plus(impulse, part, after);
    }
    assert thrusts[..|thrusts|] == thrusts;
  }

  // ----- the segment

  datatype SegmentResult = SegmentResult(integratedEnd: i32, firing: Firing, totalImpulse: i32, consumed: i32,
                                         remaining: i32, pressure: i32, thrustScale: i32, depleted: bool)

  /** Everything an `Ok` result promises about the scene it started from. */
  ghost predicate ExactSegment(r: SegmentResult, s: Scene, end: int)
    requires ShapedScene(s) && s.start < end
  {
    && r.pressure == s.supply.pressure && r.thrustScale == s.supply.thrustScale
    && r.firing.mask == ActiveMask(s.v, s.remaining, s.start, s.faults)
    && ExactFiring(r.firing, s, MAX_RCS_JETS)
    && 0 <= r.firing.flow
    && ExactBurn(Burn(Gap(s.start, r.integratedEnd), r.consumed, r.depleted),
                 s.remaining, r.firing.flow, end - s.start)
    && r.totalImpulse == ImpulseSum(r.firing.thrusts, Gap(s.start, r.integratedEnd))
    && 0 <= r.consumed && 0 <= r.remaining && r.consumed + r.remaining == s.remaining
    && s.start <= r.integratedEnd <= end
  }

  function Thrusts(s: Scene): seq<int>
    requires ShapedScene(s)
  {
    seq(MAX_RCS_JETS, i requires 0 <= i < MAX_RCS_JETS => EffectOf(s, i).thrust)
  }

  /** Nothing computed for the segment leaves its type. */
  ghost predicate SegmentFits(s: Scene, end: int)
    requires ShapedScene(s) && s.start < end
  {
    var flow, dt := TotalEffect(s, MAX_RCS_JETS).flow, end - s.start;
    && FiresCleanly(s, MAX_RCS_JETS) && BurnFits(s.remaining, flow, dt)
    && ImpulseFits(Thrusts(s), BurnTicks(s.remaining, flow, dt))
  }

  lemma {:induction false} FiringThrusts(f: Firing, s: Scene)
    requires ShapedScene(s) && ExactFiring(f, s, MAX_RCS_JETS)
    ensures f.thrusts == Thrusts(s) && f.flow == TotalEffect(s, MAX_RCS_JETS).flow
  {
    hide EffectOf, TotalEffect;
  }

  lemma {:induction false} BurnLasts(b: Burn, remaining: int, flow: int, dt: int)
    requires 0 <= flow && 0 < dt && ExactBurn(b, remaining, flow, dt)
    ensures b.ticks == BurnTicks(remaining, flow, dt)
  {
    hide Scaled, DepletionTicks;
  }

  /** The arithmetic of a segment whose inputs have been accepted. */
  method FlowSegment(state: RcsState, ghost s: Scene, jets: seq<Jet>, start: i32, end: i32, cg: i32,
                     faults: seq<JetFault>, supply: SupplySample, status: NumericStatus)
    returns (r: RcsResult<SegmentResult>, after: NumericStatus)
    requires Sees(state, s) && s == Scene(s.v, jets, s.remaining, start, faults, supply, cg)
    requires ShapedScene(s) && 0 <= state.remaining && 0 < supply.flowScale && 0 <= start < end
    requires forall i :: 0 <= i < MAX_RCS_JETS ==> jets[i].IsValid()
    modifies state`remaining
    ensures state.Valid() && state.Valves() == s.v
    ensures r.Err? ==> r.error == Numeric
    ensures r.Ok? <==> status.IsClear() && SegmentFits(s, end)
    ensures r.Ok? ==> after.IsClear() && r.value.remaining == state.remaining && ExactSegment(r.value, s, end)
  {
    hide ExactFiring, ExactBurn, ActiveMask, ImpulseSum, FiresCleanly, BurnFits, ImpulseFits, TotalEffect, BurnTicks;
    var firing;
    firing, after := FireJets(state, s, jets, start, cg, faults, supply, status);
    if !after.IsClear() {
      return Err(Numeric), after;
    }
    FiringThrusts(firing, s);
    var burn, impulse, left;
    burn, after := BurnPropellant(state.remaining, firing.flow, end - start, after);
    if after.IsClear() {
      BurnLasts(burn, state.remaining, firing.flow, end - start);
    }
    impulse, after := TotalImpulse(firing.thrusts, burn.ticks, after);
    left, after := Minus(state.remaining, burn.consumed, after);
    state.remaining := Max(left, 0);
    if !after.IsClear() {
      return Err(Numeric), after;
    }
    r := Ok(SegmentResult(start + burn.ticks, firing, impulse, burn.consumed, state.remaining,
                          supply.pressure, supply.thrustScale, burn.depleted));
  }

  /** A successful segment: no edge inside it, supply within the knots, and
      every quantity exact. */
  ghost predicate SegmentOk(r: SegmentResult, s: Scene, pack: Pack, end: int) {
    && ShapedScene(s) && s.start < end && s.jets == pack.jets
    && SuppliedBy(s, pack)
    && EdgeFree(s.v, s.start, end)
    && ExactSegment(r, s, end)
  }

  /** The scene's supply is the pack's curve at the scene's load. */
  ghost predicate SuppliedBy(s: Scene, pack: Pack) {
    && pack.supplyCount <= MAX_SUPPLY_KNOTS && 0 <= s.remaining <= pack.wetMass
    && s.supply == SupplyAt(pack.supplyKnots[..pack.supplyCount], s.remaining)
    && GoodSample(s.supply, pack.supplyKnots[..pack.supplyCount])
  }

  /** Whether the inputs get past the first check. */
  ghost predicate Admissible(pack: Pack, start: int, end: int) {
    ValidPack(pack) && pack.effectors.HasRcs() && 0 <= start < end
  }

  method IntegrateRcsSegment(state: RcsState, pack: Pack, start: i32, end: i32, cg: i32,
                             faults: seq<JetFault>, status: NumericStatus)
    returns (r: RcsResult<SegmentResult>, after: NumericStatus, ghost s: Scene)
    requires state.Valid() && |faults| == MAX_RCS_JETS
    modifies state`remaining
    ensures state.Valid() && state.Valves() == old(state.Valves())
    ensures !Admissible(pack, start, end) ==> r == Err(InvalidPack)
    ensures Admissible(pack, start, end) ==>
              (r.Err? && r.error.EventSplitRequired? <==> !EdgeFree(state.Valves(), start, end))
    ensures r.Err? && r.error.EventSplitRequired? ==>
              start < r.error.edge < end && EdgeFree(state.Valves(), start, r.error.edge)
    ensures r.Err? && r.error != Numeric ==> state.remaining == old(state.remaining)
    ensures s.v == old(state.Valves()) && s.jets == pack.jets && s.remaining == old(state.remaining)
    ensures s.start == start && s.faults == faults && s.cg == cg
    ensures Admissible(pack, start, end) && EdgeFree(state.Valves(), start, end) ==>
              if !(0 <= old(state.remaining) <= pack.wetMass) then r == Err(InvalidPack)
              else (r.Err? ==> r.error == Numeric) && (r.Ok? <==> status.IsClear() && SegmentFits(s, end))
                   && (status.IsClear() ==> SuppliedBy(s, pack))
    ensures r.Ok? ==>
              && Admissible(pack, start, end) && after.IsClear()
              && r.value.remaining == state.remaining && SegmentOk(r.value, s, pack, end)
  {
    hide ValidPack, GoodSample, ExactSegment, EdgeFree, SegmentFits, SupplyAt;
    after := status;
    s := Scene(state.Valves(), pack.jets, state.remaining, start, faults, SupplySample(0, 0, 0), cg);
    var valid := IsValid(pack);
    if !valid || !pack.effectors.HasRcs() || start < 0 || end <= start {
      return Err(InvalidPack), after, s;
    }
    var edge := state.NextValveEdgeAfter(start, end);
    SplitOrNot(state.Valves(), start, end, edge);
    if edge.Some? && edge.value < end {
      return Err(EventSplitRequired(edge.value)), after, s;
    }
    var supply;
    supply, after := SampleSupply(pack, state.remaining, after);
    if supply.Err? {
      return Err(supply.error), after, s;
    }
    AcceptedPack(supply.value, pack);
    s := s.(supply := supply.value);
    r, after := FlowSegment(state, s, pack.jets, start, end, cg, faults, supply.value, after);
  }

  lemma {:induction false} SplitOrNot(v: Valves, start: i32, end: i32, edge: Option<i32>)
    requires start < end && EarliestEdge(v, start, end, edge)
    ensures EdgeFree(v, start, end) <==> !(edge.Some? && edge.value < end)
    ensures edge.Some? && edge.value < end ==> start < edge.value && EdgeFree(v, start, edge.value)
  {
    CutIsEdgeFree(v, start, end, edge);
  }

  lemma {:induction false} AcceptedPack(sample: SupplySample, pack: Pack)
    requires ValidPack(pack) && pack.effectors.HasRcs()
    requires GoodSample(sample, pack.supplyKnots[..pack.supplyCount])
    ensures 0 < sample.flowScale && pack.supplyCount <= MAX_SUPPLY_KNOTS
    ensures forall i :: 0 <= i < MAX_RCS_JETS ==> pack.jets[i].IsValid()
  {}

  // ----- consequences

  /** The reported mask holds at every tick of a successful segment. */
  lemma {:induction false} MaskHoldsThroughout(r: SegmentResult, s: Scene, pack: Pack, end: i32, time: i32)
    requires SegmentOk(r, s, pack, end) && s.start <= time < end
    ensures ActiveMask(s.v, s.remaining, time, s.faults) == r.firing.mask
  {
    MaskConstant(s.v, s.remaining, s.start, end, time, s.faults);
  }

  /** No jet open, no force, no torque, no flow, nothing consumed. */
  predicate Silent(r: SegmentResult) {
    && r.firing.mask == {} && r.firing.force == ZERO3 && r.firing.torque == ZERO3
    && r.firing.flow == 0 && r.consumed == 0 && !r.depleted
  }

  lemma {:induction false} ZeroFlow(dt: int)
    ensures Scaled(0, dt, 25) == 0
  {
    RoundExact(0, Pow2(25));
  }

  lemma {:induction false} EmptyTankIsSilent(r: SegmentResult, s: Scene, pack: Pack, end: i32)
    requires SegmentOk(r, s, pack, end) && s.remaining == 0
    ensures Silent(r)
  {
    hide TotalEffect, EffectOf, ImpulseSum, Scaled, GoodSample, EdgeFree;
    EmptyTankNoEffect(s, MAX_RCS_JETS);
    ZeroFlow(end - s.start);
  }

  /** A depleting segment empties the tank inside its own interval. */
  lemma {:induction false} DepletionIsInside(r: SegmentResult, s: Scene, pack: Pack, end: i32)
    requires SegmentOk(r, s, pack, end) && r.depleted
    ensures r.remaining == 0 && r.consumed == s.remaining
    ensures r.firing.flow > 0 && s.start <= r.integratedEnd <= end
    ensures var ticks := DepletionTicks(s.remaining, r.firing.flow);
            && 2 * Abs(s.remaining * Pow2(25) - ticks * r.firing.flow) <= r.firing.flow
            && Gap(s.start, r.integratedEnd) == Min(ticks, end - s.start)
  {
    hide DepletionTicks, Scaled, ExactFiring, ImpulseSum, GoodSample, EdgeFree;
    DepletionWithinHalfTick(s.remaining, r.firing.flow);
  }

  /** A segment over before its first tick: the tank holds less than half a
      tick of the flow. */
  predicate Stalls(s: Scene) {
    ShapedScene(s) && s.remaining * 0x400_0000 < TotalEffect(s, MAX_RCS_JETS).flow
  }

  lemma {:induction false} BurnTakesNoTime(b: Burn, remaining: nat, flow: nat, dt: int)
    requires 0 < dt && ExactBurn(b, remaining, flow, dt) && (flow > 0 ==> remaining > 0)
    ensures b.ticks == 0 <==> remaining * 0x400_0000 < flow
  {
    hide RoundHalfAway;
    Pow2OfScales();
    if flow > 0 {
      RoundsToZero(remaining * Pow2(25), flow);
    }
    if remaining * 0x400_0000 < flow {
      MulMonotone(1, dt, flow);
      RoundBetween(2 * remaining, flow * dt, flow * dt, Pow2(25));
    }
  }

  lemma {:induction false} RoundsToZero(n: nat, d: nat)
    requires d > 0
    ensures 0 <= RoundHalfAway(n, d) && (RoundHalfAway(n, d) == 0 <==> 2 * n < d)
  {}

  /** A successful segment takes no time exactly when its scene stalls; then it
      empties a tank that was not empty. Otherwise it makes progress. */
  lemma {:induction false} ZeroTicksExactly(r: SegmentResult, s: Scene, pack: Pack, end: i32)
    requires SegmentOk(r, s, pack, end)
    ensures s.start <= r.integratedEnd <= end
    ensures r.integratedEnd == s.start <==> Stalls(s)
    ensures Stalls(s) ==> s.remaining > 0 && r.remaining == 0
    ensures 0 <= r.remaining <= s.remaining
  {
    hide TotalEffect, ExactBurn, ImpulseSum, GoodSample, EdgeFree;
    if s.remaining == 0 {
      EmptyTankIsSilent(r, s, pack, end);
    }
    BurnTakesNoTime(Burn(Gap(s.start, r.integratedEnd), r.consumed, r.depleted),
                    s.remaining, r.firing.flow, end - s.start);
    if Stalls(s) {
      StalledBurnEmpties(Burn(0, r.consumed, r.depleted), s.remaining, r.firing.flow, end - s.start);
    }
  }

  lemma {:induction false} StalledBurnEmpties(b: Burn, remaining: nat, flow: nat, dt: int)
    requires 0 < dt && ExactBurn(b, remaining, flow, dt) && b.ticks == 0
    ensures b.consumed == remaining
  {
    hide Scaled;
  }

  datatype Leg = Leg(result: SegmentResult, scene: Scene, end: i32)

  /** Successful segments, each starting from the propellant the last left. */
  ghost predicate Chain(legs: seq<Leg>, pack: Pack, initial: int) {
    && (forall k :: 0 <= k < |legs| ==> SegmentOk(legs[k].result, legs[k].scene, pack, legs[k].end))
    && (forall k :: 0 <= k < |legs| ==> legs[k].scene.remaining == Left(legs[..k], initial))
  }

  /** Propellant after the legs. */
  function Left(legs: seq<Leg>, initial: int): int {
    if legs == [] then initial else legs[|legs| - 1].result.remaining
  }

  function Consumed(legs: seq<Leg>): int {
    if legs == [] then 0 else Consumed(legs[..|legs| - 1]) + legs[|legs| - 1].result.consumed
  }

  /** Over any run of successful segments, consumed plus remaining propellant
      is what the run started with, and remaining never leaves [0, start]. */
  lemma {:induction false} RunConservesPropellant(legs: seq<Leg>, pack: Pack, initial: nat)
    requires Chain(legs, pack, initial)
    ensures Consumed(legs) + Left(legs, initial) == initial
    ensures 0 <= Left(legs, initial) <= initial
  {
    hide SegmentOk;
    if legs != [] {
      var n := |legs| - 1;
      ChainPrefix(legs, pack, initial);
      RunConservesPropellant(legs[..n], pack, initial);
      LegConserves(legs[n], pack);
    }
  }

  lemma {:induction false} ChainPrefix(legs: seq<Leg>, pack: Pack, initial: int)
    requires Chain(legs, pack, initial) && legs != []
    ensures Chain(legs[..|legs| - 1], pack, initial)
  {
    hide SegmentOk;
    var front := legs[..|legs| - 1];
    forall k | 0 <= k < |front|
      ensures front[k] == legs[k] && front[..k] == legs[..k]
    {
    }
  }

  lemma {:induction false} LegConserves(leg: Leg, pack: Pack)
    requires SegmentOk(leg.result, leg.scene, pack, leg.end)
    ensures leg.result.consumed + leg.result.remaining == leg.scene.remaining
    ensures 0 <= leg.result.consumed && 0 <= leg.result.remaining
  {}

  /** Once a segment depletes the tank, every later one is silent. */
  lemma {:induction false} SilentAfterDepletion(legs: seq<Leg>, pack: Pack, initial: nat, i: nat, k: nat)
    requires Chain(legs, pack, initial) && i < k < |legs| && legs[i].result.depleted
    ensures Silent(legs[k].result) && legs[k].result.remaining == 0
    decreases k
  {
    hide SegmentOk;
    assert legs[k].scene.remaining == Left(legs[..k], initial) == legs[k - 1].result.remaining;
    if i == k - 1 {
      DepletionIsInside(legs[i].result, legs[i].scene, pack, legs[i].end);
    } else {
      SilentAfterDepletion(legs, pack, initial, i, k - 1);
    }
    EmptyTankIsSilent(legs[k].result, legs[k].scene, pack, legs[k].end);
    LegConserves(legs[k], pack);
  }

  datatype Interval = Interval(start: i32, end: i32, cg: i32, faults: seq<JetFault>)

  /** A leg flown over the interval with the given valves. */
  predicate FlownOver(leg: Leg, i: Interval, v: Valves) {
    && leg.scene.start == i.start && leg.end == i.end && leg.scene.cg == i.cg && leg.scene.faults == i.faults
    && leg.scene.v == v
  }

  /** Integrates intervals in turn until one is refused. */
  method IntegrateRun(state: RcsState, pack: Pack, plan: seq<Interval>)
    returns (ghost legs: seq<Leg>, results: seq<SegmentResult>, refused: Option<RcsError>)
    requires state.Valid()
    requires forall k :: 0 <= k < |plan| ==> |plan[k].faults| == MAX_RCS_JETS
    modifies state`remaining
    ensures state.Valid() && state.Valves() == old(state.Valves())
    ensures Chain(legs, pack, old(state.remaining)) && |legs| == |results| <= |plan|
    ensures forall k :: 0 <= k < |legs| ==> legs[k].result == results[k] && FlownOver(legs[k], plan[k], state.Valves())
    ensures refused != Some(Numeric) ==> state.remaining == Left(legs, old(state.remaining))
    ensures refused == None <==> |legs| == |plan|
  {
    hide SegmentOk, SegmentFits, SuppliedBy;
    legs, results, refused := [], [], None;
    for k := 0 to |plan|
      invariant state.Valid() && state.Valves() == old(state.Valves())
      invariant |legs| == |results| == k
      invariant Chain(legs, pack, old(state.remaining))
      invariant forall i :: 0 <= i < |legs| ==>
                  legs[i].result == results[i] && FlownOver(legs[i], plan[i], old(state.Valves()))
      invariant state.remaining == Left(legs, old(state.remaining))
    {
      var r, after;
      ghost var s;
      var leg := plan[k];
      r, after, s := IntegrateRcsSegment(state, pack, leg.start, leg.end, leg.cg, leg.faults, CLEAR);
      if r.Err? {
        refused := Some(r.error);
        return;
      }
      ExtendChain(legs, pack, old(state.remaining), Leg(r.value, s, leg.end));
      legs, results := legs + [Leg(r.value, s, leg.end)], results + [r.value];
    }
  }

  lemma {:induction false} ExtendChain(legs: seq<Leg>, pack: Pack, initial: int, leg: Leg)
    requires Chain(legs, pack, initial) && SegmentOk(leg.result, leg.scene, pack, leg.end)
    requires leg.scene.remaining == Left(legs, initial)
    ensures Chain(legs + [leg], pack, initial)
  {
    hide SegmentOk;
    var longer := legs + [leg];
    forall k | 0 <= k < |legs|
      ensures longer[..k] == legs[..k] && longer[k] == legs[k]
    {
    }
    assert longer[..|legs|] == legs;
  }
}
