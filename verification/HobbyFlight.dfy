/**
 The eight-phase hobby-rocket flight machine: phase transitions and events of
 one step, propellant as a function of consumed impulse, and the mission loop.
 Thrust, drag and acceleration of each step are arbitrary inputs.
 */
module HobbyFlight {
  import opened Arithmetic
  import opened Numeric
  import opened Faultless

  const MAX_STEPS: nat := 200_000
  const MAX_MASS: int := 0x4000_0000
  const MAX_TIME: int := 0x4000_0000
  const POWERED_STEP: i32 := 2_621
  const COAST_STEP: i32 := 5_243
  const RECOVERY_STEP: i32 := 13_107

  datatype Phase =
    ConstrainedPowered | Powered | Coast | DrogueInflating | DrogueDescent | MainInflating | MainDescent | Complete

  function Rank(p: Phase): nat {
    match p
    case ConstrainedPowered => 0
    case Powered => 1
    case Coast => 2
    case DrogueInflating => 3
    case DrogueDescent => 4
    case MainInflating => 5
    case MainDescent => 6
    case Complete => 7
  }

  datatype Event = Ignition | Liftoff | RailExit | Burnout | Apogee | Drogue | Main | Ground | End

  /** The fields of the three packs that the flight machine reads. */
  datatype Packs = Packs(dryMass: i32, loadedMass: i32, propellantMass: i32, totalImpulse: i32, burnTime: i32,
                         launchAltitude: i32, railLength: i32, mainAltitude: i32,
                         drogueInflation: i32, mainInflation: i32, maxTime: i32) {
    predicate IsValid() {
      && 0 < dryMass <= MAX_MASS && 0 < loadedMass <= MAX_MASS && 0 < propellantMass < loadedMass
      && 0 < totalImpulse && 0 < burnTime <= MAX_TIME
      && 0 <= launchAltitude && 0 < railLength && 0 < mainAltitude
      && 0 < drogueInflation && 0 < mainInflation && 0 < maxTime <= MAX_TIME
    }

    function RailTop(): i32 {
      Wrap32(launchAltitude + railLength)
    }

    function MainThreshold(): i32 {
      Wrap32(launchAltitude + mainAltitude)
    }
  }

  datatype State = State(step: nat, time: i32, altitude: i32, velocity: i32, acceleration: i32,
                         mass: i32, propellant: i32, impulse: i32, phase: Phase, phaseStart: i32)

  function Cadence(p: Phase): i32 {
    match p
    case ConstrainedPowered => POWERED_STEP
    case Powered => POWERED_STEP
    case Coast => COAST_STEP
    case _ => RECOVERY_STEP
  }

  // ----- phase transitions

  /** Phase, its start time, and the events raised so far in this step. */
  datatype Leg = Leg(phase: Phase, start: i32, events: set<Event>)

  /** The kinematics a transition looks at. */
  datatype Motion = Motion(time: i32, velocityBefore: i32, velocity: i32, altitude: i32, liftoff: bool)

  function Enter(l: Leg, phase: Phase, time: i32, raised: set<Event>): Leg {
    Leg(phase, time, l.events + raised)
  }

  function AfterRail(l: Leg, p: Packs, m: Motion): Leg {
    if l.phase == ConstrainedPowered && m.altitude >= p.RailTop() then Enter(l, Powered, m.time, {RailExit}) else l
  }

  function AfterBurnout(l: Leg, p: Packs, m: Motion): Leg {
    if (l.phase == ConstrainedPowered || l.phase == Powered) && m.time >= p.burnTime
    then Enter(l, Coast, m.time, {Burnout}) else l
  }

  function AfterApogee(l: Leg, m: Motion): Leg {
    if l.phase == Coast && m.velocityBefore > 0 && m.velocity <= 0
    then Enter(l, DrogueInflating, m.time, {Apogee, Drogue}) else l
  }

  function AfterDrogue(l: Leg, p: Packs, m: Motion): Leg {
    if l.phase == DrogueInflating && m.time - l.start >= p.drogueInflation
    then Enter(l, DrogueDescent, m.time, {}) else l
  }

  function AfterMain(l: Leg, p: Packs, m: Motion): Leg {
    if (l.phase == DrogueInflating || l.phase == DrogueDescent) && m.velocity < 0 && m.altitude <= p.MainThreshold()
    then Enter(l, MainInflating, m.time, {Main}) else l
  }

  function AfterInflation(l: Leg, p: Packs, m: Motion): Leg {
    if l.phase == MainInflating && m.time - l.start >= p.mainInflation
    then Enter(l, MainDescent, m.time, {}) else l
  }

  predicate Lands(p: Packs, m: Motion) {
    m.liftoff && m.velocity < 0 && m.altitude <= p.launchAltitude
  }

  function AfterGround(l: Leg, p: Packs, m: Motion): Leg {
    if Lands(p, m) then Enter(l, Complete, m.time, {Ground, End}) else l
  }

  /** All transitions of one step, in the order the code tries them. */
  function Transition(l: Leg, p: Packs, m: Motion): Leg {
    AfterGround(
      AfterInflation(AfterMain(AfterDrogue(AfterApogee(AfterBurnout(AfterRail(l, p, m), p, m), m), p, m), p, m), p, m),
      p, m)
  }

  /** Which events an airborne phase has behind it: those before it have all
      happened and those after it have not. A landing keeps what it found. */
  ghost predicate Consistent(phase: Phase, history: set<Event>) {
    && (Main in history ==> Drogue in history) && (Drogue in history <==> Apogee in history)
    && (Apogee in history ==> Burnout in history)
    && (Ground in history <==> phase == Complete) && (End in history <==> phase == Complete)
    && (Rank(phase) == 0 ==> RailExit !in history)
    && (phase != Complete ==>
          && (Burnout in history <==> Rank(phase) >= 2)
          && (Apogee in history <==> Rank(phase) >= 3)
          && (Main in history <==> Rank(phase) >= 5))
  }

  /** One step moves the phase forward, raises only events not raised before,
      and leaves the history consistent with the phase. */
  lemma {:induction false} TransitionKeeps(l: Leg, p: Packs, m: Motion, history: set<Event>)
    requires l.events <= {Liftoff} && l.phase != Complete && Consistent(l.phase, history) && l.events !! history
    ensures var t := Transition(l, p, m);
            && Rank(l.phase) <= Rank(t.phase)
            && Consistent(t.phase, history + t.events)
            && t.events !! history
            && t.events - l.events <= {RailExit, Burnout, Apogee, Drogue, Main, Ground, End}
            && (Apogee in t.events ==> m.velocityBefore > 0) && (Ground in t.events <==> Lands(p, m))
  {
    hide Lands;
  }

  // ----- thresholds

  /** The sums of launch altitude and rail length or main altitude fit `i32`. */
  predicate RailFits(p: Packs) {
    p.launchAltitude + p.railLength <= MAX_I32
  }

  predicate MainFits(p: Packs) {
    p.launchAltitude + p.mainAltitude <= MAX_I32
  }

  /** The drogue is out when the main test is made. */
  predicate UnderDrogue(l: Leg, p: Packs, m: Motion) {
    var phase := AfterDrogue(AfterApogee(AfterBurnout(AfterRail(l, p, m), p, m), m), p, m).phase;
    phase == DrogueInflating || phase == DrogueDescent
  }

  /** Where the two events are raised, by the thresholds the code computes. */
  lemma {:induction false} ThresholdEvents(l: Leg, p: Packs, m: Motion)
    requires l.events <= {Liftoff}
    ensures RailExit in Transition(l, p, m).events <==> l.phase == ConstrainedPowered && m.altitude >= p.RailTop()
    ensures Main in Transition(l, p, m).events <==>
            UnderDrogue(l, p, m) && m.velocity < 0 && m.altitude <= p.MainThreshold()
  {
    hide Lands, Wrap32;
  }

  /** Rail exit is raised from the true top of the rail on, in every step from
      every phase, exactly when the sum fits. */
  lemma {:induction false} RailExitExactly(p: Packs)
    requires p.IsValid()
    ensures (forall l: Leg, m: Motion :: l.events <= {Liftoff} ==>
               (RailExit in Transition(l, p, m).events <==>
                l.phase == ConstrainedPowered && m.altitude >= p.launchAltitude + p.railLength))
       <==> RailFits(p)
  {
    hide Transition;
    forall l: Leg, m: Motion | l.events <= {Liftoff}
      ensures RailExit in Transition(l, p, m).events <==> l.phase == ConstrainedPowered && m.altitude >= p.RailTop()
    {
      ThresholdEvents(l, p, m);
    }
    if !RailFits(p) {
      var l, m := Leg(ConstrainedPowered, 0, {}), Motion(0, 0, 0, p.launchAltitude, false);
      assert RailExit in Transition(l, p, m).events;
    }
  }

  /** The main is deployed from the true main altitude down exactly when the sum
      fits. */
  lemma {:induction false} MainExactly(p: Packs)
    requires p.IsValid()
    ensures (forall l: Leg, m: Motion :: l.events <= {Liftoff} ==>
               (Main in Transition(l, p, m).events <==>
                UnderDrogue(l, p, m) && m.velocity < 0 && m.altitude <= p.launchAltitude + p.mainAltitude))
       <==> MainFits(p)
  {
    hide Transition;
    forall l: Leg, m: Motion | l.events <= {Liftoff}
      ensures Main in Transition(l, p, m).events <==>
              UnderDrogue(l, p, m) && m.velocity < 0 && m.altitude <= p.MainThreshold()
    {
      ThresholdEvents(l, p, m);
    }
    if !MainFits(p) {
      var l, m := Leg(DrogueDescent, 0, {}), Motion(0, 0, -1, p.launchAltitude, false);
      assert UnderDrogue(l, p, m) && Main !in Transition(l, p, m).events;
    }
  }

  // ----- propellant

  /** Propellant per impulse in the code's fixed point. */
  function Ratio(p: Packs): int
    requires p.totalImpulse > 0
  {
    RoundHalfAway(p.propellantMass * Pow2(16), p.totalImpulse)
  }

  /** Propellant left after `impulse` has been delivered. */
  function PropellantAt(p: Packs, impulse: int): int
    requires p.totalImpulse > 0
  {
    Max(0, p.propellantMass - Scaled(Ratio(p), impulse, 16))
  }

  lemma {:induction false} RatioNonNegative(p: Packs)
    requires p.IsValid()
    ensures 0 <= Ratio(p)
  {
    MulMonotone(0, p.propellantMass, Pow2(16));
  }

  /** More impulse never leaves more propellant. */
  lemma {:induction false} PropellantNonIncreasing(p: Packs, a: int, b: int)
    requires p.IsValid() && a <= b
    ensures PropellantAt(p, b) <= PropellantAt(p, a)
  {
    hide Ratio;
    RatioNonNegative(p);
    MulMonotone(a, b, Ratio(p));
    RoundMonotone(Ratio(p) * a, Ratio(p) * b, Pow2(16));
  }

  lemma {:induction false} PropellantAtStart(p: Packs)
    requires p.IsValid()
    ensures PropellantAt(p, 0) == p.propellantMass
  {
    hide Ratio;
    RoundExact(0, Pow2(16));
  }

  /** Impulse delivered once `thrust` has acted for `dt`, capped at the total. */
  function ImpulseAfter(p: Packs, impulse: int, thrust: int, dt: int): int {
    if thrust <= 0 || impulse >= p.totalImpulse then impulse
    else Min(impulse + Scaled(thrust, dt, 15), p.totalImpulse)
  }

  /** The motor is lit and not used up. */
  predicate Fires(p: Packs, impulse: int, thrust: int) {
    0 < thrust && impulse < p.totalImpulse
  }

  /** Propellant left after a step: unchanged while the motor is out. */
  function PropellantAfter(p: Packs, impulse: int, propellant: int, thrust: int, dt: int): int
    requires p.totalImpulse > 0
  {
    if Fires(p, impulse, thrust) then PropellantAt(p, ImpulseAfter(p, impulse, thrust, dt)) else propellant
  }

  /** No quantity of the propellant update leaves its type. */
  predicate PropellantFits(p: Packs, impulse: int, thrust: int, dt: int)
    requires p.totalImpulse > 0
  {
    var used := Scaled(Ratio(p), ImpulseAfter(p, impulse, thrust, dt), 16);
    Fires(p, impulse, thrust) ==>
      && Fits(Scaled(thrust, dt, 15)) && Fits(impulse + Scaled(thrust, dt, 15))
      && Fits(Ratio(p)) && Fits(used) && Fits(p.propellantMass - used)
  }

  /** While nothing leaves its type, impulse only accumulates, up to the motor's
      total, and propellant is its function. */
  method UpdatePropellant(p: Packs, impulse: i32, propellant: i32, thrust: i32, dt: i32, status: NumericStatus)
    returns (consumed: i32, left: i32, after: NumericStatus)
    requires p.IsValid() && 0 <= impulse <= p.totalImpulse && 0 < dt
    ensures 0 <= consumed <= p.totalImpulse
    ensures after.IsClear() <==> status.IsClear() && PropellantFits(p, impulse, thrust, dt)
    ensures after.IsClear() ==> impulse <= consumed == ImpulseAfter(p, impulse, thrust, dt)
    ensures after.IsClear() ==> left == PropellantAfter(p, impulse, propellant, thrust, dt)
  {
    hide Scaled, RoundHalfAway;
    if thrust <= 0 || impulse >= p.totalImpulse {
      return impulse, propellant, status;
    }
    var delta, total, ratio, used;
    delta, after := Times(thrust, dt, 15, status);
    total, after := Plus(impulse, delta, after);
    consumed := Min(total, p.totalImpulse);
    ratio, after := Over(p.propellantMass, p.totalImpulse, 16, after);
    used, after := Times(ratio, consumed, 16, after);
    left, after := Minus(p.propellantMass, used, after);
    left := Max(left, 0);
  }

  // ----- one step

  /** Thrust and acceleration of the current state, and the faults that
      computing them raised. */
  datatype Evaluation = Evaluation(thrust: i32, acceleration: i32, faults: NumericStatus)

  /** Mass other than propellant. */
  function DryPlusCase(p: Packs): int {
    p.dryMass + p.loadedMass - p.propellantMass
  }

  predicate Grounded(s: State, liftoff: bool) {
    s.phase == ConstrainedPowered && !liftoff
  }

  /** The pad holds a rocket that has not lifted off. */
  function HeldAt(v: int, held: bool): int {
    if held then Max(0, v) else v
  }

  function Gain(a: State, held: bool, e: Evaluation): int {
    Scaled(HeldAt(e.acceleration, held), Cadence(a.phase), 18)
  }

  function VelocityAfter(a: State, held: bool, e: Evaluation): int {
    HeldAt(a.velocity + Gain(a, held, e), held)
  }

  function Rise(a: State, held: bool, e: Evaluation): int {
    Scaled(VelocityAfter(a, held, e), Cadence(a.phase), 24)
  }

  /** One semi-implicit Euler step. */
  predicate Integrates(a: State, held: bool, e: Evaluation, b: State, altitude: int) {
    && b.acceleration == HeldAt(e.acceleration, held)
    && b.velocity == VelocityAfter(a, held, e)
    && altitude == a.altitude + Rise(a, held, e)
  }

  /** No quantity of the step leaves its type. */
  predicate StepFits(p: Packs, a: State, held: bool, e: Evaluation)
    requires p.totalImpulse > 0
  {
    var dt := Cadence(a.phase);
    && PropellantFits(p, a.impulse, e.thrust, dt)
    && Fits(DryPlusCase(p) + PropellantAfter(p, a.impulse, a.propellant, e.thrust, dt))
    && Fits(Gain(a, held, e)) && Fits(a.velocity + Gain(a, held, e))
    && Fits(Rise(a, held, e)) && Fits(a.altitude + Rise(a, held, e))
  }

  /** A successor of `a`: clock, kinematics, phase machine and masses.
      `altitude` is the integrated altitude before a landing clamps it. */
  ghost predicate Flies(p: Packs, a: State, liftoffBefore: bool, e: Evaluation, b: State, liftoff: bool,
                        events: set<Event>, altitude: i32, clear: bool)
  {
    var m := Motion(b.time, a.velocity, b.velocity, altitude, liftoff);
    var t := Transition(Leg(a.phase, a.phaseStart, if liftoff && !liftoffBefore then {Liftoff} else {}), p, m);
    && b.step == a.step + 1 && b.time == a.time + Cadence(a.phase)
    && (liftoff <==> liftoffBefore || b.velocity > 0)
    && b.phase == t.phase && b.phaseStart == t.start && events == t.events
    && b.altitude == (if Lands(p, m) then p.launchAltitude else altitude)
    && (Grounded(a, liftoffBefore) ==> 0 <= b.velocity && 0 <= b.acceleration)
    && (clear ==> PropellantStep(p, a, e, b) && Integrates(a, Grounded(a, liftoffBefore), e, b, altitude))
  }

  ghost predicate PropellantStep(p: Packs, a: State, e: Evaluation, b: State) {
    && a.impulse <= b.impulse == ImpulseAfter(p, a.impulse, e.thrust, Cadence(a.phase))
    && b.mass - b.propellant == DryPlusCase(p)
    && (p.totalImpulse > 0 ==>
          b.propellant == PropellantAfter(p, a.impulse, a.propellant, e.thrust, Cadence(a.phase)))
  }

  predicate Running(p: Packs, s: State) {
    && s.phase != Complete && 0 <= s.impulse <= p.totalImpulse
    && 0 <= s.phaseStart <= s.time < p.maxTime
  }

  lemma {:induction false} DryPlusCaseFits(p: Packs)
    requires p.IsValid()
    ensures Wrap32(Wrap32(p.dryMass + p.loadedMass) - p.propellantMass) == DryPlusCase(p)
  {}

  /** The chain of phase tests, in place. */
  method RunTransitions(l: Leg, p: Packs, m: Motion) returns (r: Leg)
    ensures r == Transition(l, p, m)
  {
    hide Wrap32;
    var phase, start, events := l.phase, l.start, l.events;
    if phase == ConstrainedPowered && m.altitude >= p.RailTop() {
      phase, start, events := Powered, m.time, events + {RailExit};
    }
    assert Leg(phase, start, events) == AfterRail(l, p, m);
    if (phase == ConstrainedPowered || phase == Powered) && m.time >= p.burnTime {
      phase, start, events := Coast, m.time, events + {Burnout};
    }
    if phase == Coast && m.velocityBefore > 0 && m.velocity <= 0 {
      phase, start, events := DrogueInflating, m.time, events + {Apogee, Drogue};
    }
    assert Leg(phase, start, events) == AfterApogee(AfterBurnout(AfterRail(l, p, m), p, m), m);
    r := RunRecovery(Leg(phase, start, events), p, m);
  }

  /** The recovery half of the chain. */
  method RunRecovery(l: Leg, p: Packs, m: Motion) returns (r: Leg)
    ensures r == AfterGround(AfterInflation(AfterMain(AfterDrogue(l, p, m), p, m), p, m), p, m)
  {
    hide Wrap32;
    var phase, start, events := l.phase, l.start, l.events;
    if phase == DrogueInflating && m.time - start >= p.drogueInflation {
      phase, start := DrogueDescent, m.time;
    }
    assert Leg(phase, start, events) == AfterDrogue(l, p, m);
    if (phase == DrogueInflating || phase == DrogueDescent) && m.velocity < 0 && m.altitude <= p.MainThreshold() {
      phase, start, events := MainInflating, m.time, events + {Main};
    }
    assert Leg(phase, start, events) == AfterMain(AfterDrogue(l, p, m), p, m);
    if phase == MainInflating && m.time - start >= p.mainInflation {
      phase, start := MainDescent, m.time;
    }
    if m.liftoff && m.velocity < 0 && m.altitude <= p.launchAltitude {
      phase, start, events := Complete, m.time, events + {Ground, End};
    }
    r := Leg(phase, start, events);
  }

  /** One step of the flight machine. */
  method AdvanceFlight(p: Packs, a: State, liftoffBefore: bool, e: Evaluation, status: NumericStatus)
    returns (b: State, liftoff: bool, events: set<Event>, after: NumericStatus, altitude: i32)
    requires p.IsValid() && Running(p, a)
    ensures Flies(p, a, liftoffBefore, e, b, liftoff, events, altitude, after.IsClear())
    ensures after.IsClear() <==> status.IsClear() && StepFits(p, a, Grounded(a, liftoffBefore), e)
    ensures 0 <= b.impulse <= p.totalImpulse
  {
    hide PropellantAt, PropellantFits, Scaled, Wrap32, Transition, RoundHalfAway;
    var dt := Cadence(a.phase);
    var impulse, propellant, mass, delta, velocity, climb, height, time;
    impulse, propellant, after := UpdatePropellant(p, a.impulse, a.propellant, e.thrust, dt, status);
    DryPlusCaseFits(p);
    mass, after := Plus(Wrap32(Wrap32(p.dryMass + p.loadedMass) - p.propellantMass), propellant, after);
    var acceleration := if Grounded(a, liftoffBefore) && e.acceleration <= 0 then 0 else e.acceleration;
    delta, after := Times(acceleration, dt, 18, after);
    velocity, after := Plus(a.velocity, delta, after);
    if Grounded(a, liftoffBefore) && velocity <= 0 {
      velocity := 0;
    }
    climb, after := Times(velocity, dt, 24, after);
    height, after := Plus(a.altitude, climb, after);
    altitude := height;
    time, after := Add(a.time, dt, after);
    liftoff, events := liftoffBefore, {};
    if !liftoff && velocity > 0 {
      liftoff, events := true, {Liftoff};
    }
    var m := Motion(time, a.velocity, velocity, height, liftoff);
    var leg := RunTransitions(Leg(a.phase, a.phaseStart, events), p, m);
    events := leg.events;
    if Lands(p, m) {
      height := p.launchAltitude;
    }
    b := State(a.step + 1, time, height, velocity, acceleration, mass, propellant, impulse, leg.phase, leg.start);
  }
}
