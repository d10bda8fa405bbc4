/**
 The staged vehicle of the planar mission: what an accepted scenario
 guarantees, the initial state, and one step of the staging machine with its
 mass bookkeeping.
 */
module StagedVehicle {
  import opened Arithmetic
  import opened Numeric
  import opened TwoWord
  import opened Guidance
  import opened Wrappers

  const MAX_STAGES: nat := 4
  const MAX_AERO_TABLES: nat := 4
  const MAX_MASS: int := 20_480_000
  const EARTH_RADIUS_Q12: i32 := 26_124_849
  const EARTH_ROTATION_RAD_Q30: i32 := 78_298

  datatype Stage = Stage(dryMass: i32, propellantMass: i32, thrust: i32, massFlow: i32, burnSteps: u32,
                         separationDelay: u16, ignitionDelay: u16, referenceArea: i32,
                         aeroTable: u8, separate: bool)

  datatype Scenario = Scenario(timestep: i32, steps: u32, stride: u16, payload: i32,
                               initialAltitude: i32, initialRadialVelocity: i32, initialSurfaceVelocity: i32,
                               stages: seq<Stage>, knots: seq<PitchKnot>, aeroTableCount: u8)

  /** Propellant planned for one burning step. */
  function PlannedPerStep(stage: Stage, timestep: i32): int {
    RoundHalfAway(stage.massFlow * timestep, Pow2(20))
  }

  /** The field limits on stage `index`. */
  predicate StageInLimits(s: Scenario, index: nat)
    requires index < |s.stages|
  {
    var stage := s.stages[index];
    && 0 < stage.dryMass <= MAX_MASS && 0 <= stage.propellantMass <= MAX_MASS
    && 0 < stage.thrust <= 4_096_000 && 0 < stage.massFlow <= 6_553_600
    && 0 < stage.burnSteps <= s.steps
    && stage.separationDelay <= s.steps && stage.ignitionDelay <= s.steps
    && 0 < stage.referenceArea <= 131_072_000 && stage.aeroTable < s.aeroTableCount
    && (stage.separate <==> index + 1 < |s.stages|)
  }

  /** The limits, and a load that covers all but at most one planned step. */
  predicate ValidStage(s: Scenario, index: nat)
    requires index < |s.stages|
  {
    && StageInLimits(s, index)
    && PlannedPerStep(s.stages[index], s.timestep) * s.stages[index].burnSteps
       <= s.stages[index].propellantMass + PlannedPerStep(s.stages[index], s.timestep)
  }

  /** What the parser establishes about every scenario it returns. */
  ghost predicate ValidScenario(s: Scenario) {
    && 0 < s.timestep <= 8_192 && 0 < s.steps <= 32_768 && 0 < s.stride <= s.steps
    && 1 <= |s.stages| <= MAX_STAGES && 1 <= s.aeroTableCount <= MAX_AERO_TABLES
    && 0 < s.payload <= MAX_MASS
    && -8_192 <= s.initialAltitude <= 8_192_000
    && -268_435_456 <= s.initialRadialVelocity <= 268_435_456
    && -268_435_456 <= s.initialSurfaceVelocity <= 268_435_456
    && (forall i :: 0 <= i < |s.stages| ==> ValidStage(s, i))
    && ValidProgram(s.knots, s.timestep)
    && InitialMomentum(s, CLEAR).status == CLEAR
  }

  /** The orbital part of the initial state. */
  function InitialMomentum(s: Scenario, status: NumericStatus): Outcome {
    var radius := Sum(EARTH_RADIUS_Q12, s.initialAltitude, status);
    var air := ScaledProduct(EARTH_ROTATION_RAD_Q30, radius.value, 18, radius.status);
    var tangential := Sum(air.value, s.initialSurfaceVelocity, air.status);
    ScaledProduct(tangential.value, radius.value, 22, tangential.status)
  }

  // ----- masses

  /** Dry mass of the stages from `i` on. */
  function DryFrom(stages: seq<Stage>, i: nat): int
    decreases |stages| - i
  {
    if i >= |stages| then 0 else stages[i].dryMass + DryFrom(stages, i + 1)
  }

  /** Loaded propellant of the stages from `i` on. */
  function PropellantFrom(stages: seq<Stage>, i: nat): int
    decreases |stages| - i
  {
    if i >= |stages| then 0 else stages[i].propellantMass + PropellantFrom(stages, i + 1)
  }

  lemma {:induction false} MassBounds(s: Scenario, i: nat)
    requires forall k :: 0 <= k < |s.stages| ==> ValidStage(s, k)
    requires i <= |s.stages|
    ensures 0 <= DryFrom(s.stages, i) <= (|s.stages| - i) * MAX_MASS
    ensures 0 <= PropellantFrom(s.stages, i) <= (|s.stages| - i) * MAX_MASS
    decreases |s.stages| - i
  {
    if i < |s.stages| {
      MassBounds(s, i + 1);
      assert ValidStage(s, i);
    }
  }

  datatype Phase = CoastBeforeIgnition | Burning | CoastBeforeSeparation | Complete

  datatype Vehicle = Vehicle(mass: i32, propellant: i32, stage: u8, phase: Phase, phaseSteps: nat, burnSteps: nat)

  /** Total mass is the payload, the dry mass of every stage still attached,
      the propellant left in the active stage, and the full load of the rest. */
  ghost predicate MassAccounted(s: Scenario, v: Vehicle) {
    v.mass == s.payload + DryFrom(s.stages, v.stage) + v.propellant + PropellantFrom(s.stages, v.stage + 1)
  }

  ghost predicate GoodVehicle(s: Scenario, v: Vehicle) {
    && v.stage < |s.stages|
    && 0 <= v.propellant <= s.stages[v.stage].propellantMass
    && MassAccounted(s, v)
    && (v.phase == Complete ==> v.stage == |s.stages| - 1)
    && (v.phase == CoastBeforeSeparation ==> v.stage + 1 < |s.stages|)
  }

  /** The accumulation loop that sums the launch mass. */
  method LaunchMass(s: Scenario, status: NumericStatus) returns (mass: i32, after: NumericStatus)
    requires 0 < s.payload <= MAX_MASS && |s.stages| <= MAX_STAGES
    requires forall i :: 0 <= i < |s.stages| ==> ValidStage(s, i)
    ensures mass == s.payload + DryFrom(s.stages, 0) + PropellantFrom(s.stages, 0)
    ensures after == status
  {
    hide ValidStage, StageInLimits;
    mass, after := s.payload, status;
    MassBounds(s, 0);
    var index := 0;
    while index < |s.stages|
      invariant index <= |s.stages| && after == status
      invariant mass + DryFrom(s.stages, index) + PropellantFrom(s.stages, index)
             == s.payload + DryFrom(s.stages, 0) + PropellantFrom(s.stages, 0)
    {
      MassBounds(s, index + 1);
      StageMasses(s, index);
      mass, after := Add(mass, s.stages[index].dryMass, after);
      mass, after := Add(mass, s.stages[index].propellantMass, after);
      index := index + 1;
    }
  }

  lemma {:induction false} StageMasses(s: Scenario, i: nat)
    requires i < |s.stages| && ValidStage(s, i)
    ensures 0 < s.stages[i].dryMass <= MAX_MASS && 0 <= s.stages[i].propellantMass <= MAX_MASS
  {}

  /** The vehicle on the pad, or nothing if any sum saturates. */
  method InitialTruth(s: Scenario, status: NumericStatus)
    returns (r: Option<Vehicle>, momentum: i32, after: NumericStatus)
    requires 0 < s.payload <= MAX_MASS && 1 <= |s.stages| <= MAX_STAGES
    requires forall i :: 0 <= i < |s.stages| ==> ValidStage(s, i)
    ensures after == InitialMomentum(s, status).status
    ensures r.None? <==> !after.IsClear()
    ensures r.Some? ==>
              && GoodVehicle(s, r.value) && r.value.stage == 0 && Fresh(s, r.value)
              && momentum == InitialMomentum(s, status).value
  {
    hide ScaledProduct, Saturate, ValidStage;
    var radius, air, tangential, mass;
    radius, after := Add(EARTH_RADIUS_Q12, s.initialAltitude, status);
    air, after := MultiplyScaled(EARTH_ROTATION_RAD_Q30, radius, 18, after);
    tangential, after := Add(air, s.initialSurfaceVelocity, after);
    momentum, after := MultiplyScaled(tangential, radius, 22, after);
    mass, after := LaunchMass(s, after);
    if !after.IsClear() {
      return None, momentum, after;
    }
    var first := s.stages[0];
    StageMasses(s, 0);
    r := Some(Vehicle(mass, first.propellantMass, 0,
                      if first.ignitionDelay == 0 then Burning else CoastBeforeIgnition, 0, 0));
  }

  // ----- acceptance of a decoded scenario

  datatype ScenarioError = BadTimestep | BadDuration | BadCount | BadInitialState | BadStage
                         | BadMassInvariant | BadPitchProgram | BadAeroTable | NumericFaultRaised

  /** The planned burn of one stage against its load, in the kernel's own
      arithmetic: nothing in it can saturate once the fields are in limits. */
  method BurnFitsLoad(s: Scenario, index: nat, status: NumericStatus)
    returns (fits: bool, after: NumericStatus)
    requires index < |s.stages| && StageInLimits(s, index)
    requires 0 < s.timestep <= 8_192 && s.steps <= 32_768
    ensures fits <==> ValidStage(s, index)
    ensures after == status
  {
    hide PlannedPerStep, ScaledProduct;
    var stage := s.stages[index];
    var perStep, planned, limit;
    PlannedFits(s, index, status);
    perStep, after := MultiplyScaled(stage.massFlow, s.timestep, 20, status);
    BurnProduct(perStep, stage.burnSteps, after);
    planned, after := MultiplyScaled(perStep, stage.burnSteps, 0, after);
    limit, after := Add(stage.propellantMass, perStep, after);
    return planned <= limit, after;
  }

  lemma {:induction false} BurnProduct(perStep: i32, steps: i32, status: NumericStatus)
    requires 0 <= perStep <= 51_200 && 0 <= steps <= 32_768
    ensures var r := ScaledProduct(perStep, steps, 0, status); r.value == perStep * steps && r.status == status
  {
    hide RoundHalfAway, Pow2;
    BurnProductFits(perStep, steps);
    Unscaled(perStep * steps);
  }

  lemma {:induction false} BurnProductFits(perStep: int, steps: int)
    requires 0 <= perStep <= 51_200 && 0 <= steps <= 32_768
    ensures 0 <= perStep * steps <= 51_200 * 32_768
  {
    MulMonotone(0, perStep, steps);
    MulMonotone(perStep, 51_200, steps);
  }

  lemma {:induction false} Unscaled(k: int)
    ensures RoundHalfAway(k, Pow2(0)) == k
  {
    RoundExact(k, 1);
    assert k * 1 == k;
  }

  /** The field checks on one stage, in their order. */
  method StageWithinLimits(s: Scenario, index: nat) returns (ok: bool)
    requires index < |s.stages|
    ensures ok <==> StageInLimits(s, index)
  {
    var config := s.stages[index];
    if config.dryMass <= 0 || config.dryMass > 20_480_000
       || config.propellantMass < 0 || config.propellantMass > 20_480_000
       || config.thrust <= 0 || config.thrust > 4_096_000
       || config.massFlow <= 0 || config.massFlow > 6_553_600
       || config.burnSteps == 0 || config.burnSteps > s.steps
       || config.separationDelay > s.steps || config.ignitionDelay > s.steps
       || config.referenceArea <= 0 || config.referenceArea > 131_072_000
       || config.aeroTable >= s.aeroTableCount
       || (index + 1 < |s.stages| && !config.separate)
       || (index + 1 == |s.stages| && config.separate)
    {
      return false;
    }
    return true;
  }

  /** The checks on a decoded scenario, in their order. Acceptance is exactly
      validity, and the final test of the numeric status can never fail. */
  method AcceptScenario(s: Scenario, aeroTablesValid: bool) returns (error: Option<ScenarioError>)
    ensures error.None? <==> ValidScenario(s) && aeroTablesValid
    ensures error != Some(NumericFaultRaised)
  {
    hide InitialMomentum, GoodVehicle, StageInLimits, PlannedPerStep;
    if s.timestep <= 0 || s.timestep > 8_192 {
      return Some(BadTimestep);
    }
    if s.steps == 0 || s.steps > 32_768 || s.stride == 0 || s.stride > s.steps {
      return Some(BadDuration);
    }
    if !(1 <= |s.stages| <= MAX_STAGES) || !(2 <= |s.knots| <= 16) || !(1 <= s.aeroTableCount <= MAX_AERO_TABLES) {
      return Some(BadCount);
    }
    if s.payload <= 0 || s.payload > MAX_MASS || !(-8_192 <= s.initialAltitude <= 8_192_000)
       || !(-268_435_456 <= s.initialRadialVelocity <= 268_435_456)
       || !(-268_435_456 <= s.initialSurfaceVelocity <= 268_435_456) {
      return Some(BadInitialState);
    }
    var status := CLEAR;
    var index := 0;
    while index < |s.stages|
      invariant index <= |s.stages| && status == CLEAR
      invariant forall i :: 0 <= i < index ==> ValidStage(s, i)
    {
      var inLimits := StageWithinLimits(s, index);
      if !inLimits {
        assert !ValidStage(s, index);
        return Some(BadStage);
      }
      var fits;
      fits, status := BurnFitsLoad(s, index, status);
      if !fits {
        return Some(BadMassInvariant);
      }
      index := index + 1;
    }
    var program := Guidance.IsValid(s.knots, s.timestep);
    if !program {
      return Some(BadPitchProgram);
    }
    if !aeroTablesValid {
      return Some(BadAeroTable);
    }
    if !status.IsClear() {
      return Some(NumericFaultRaised);
    }
    var truth, _, after := InitialTruth(s, CLEAR);
    return if truth.None? || !after.IsClear() then Some(BadMassInvariant) else None;
  }

  // ----- one step of the staging machine

  datatype Event = Ignition | Cutoff | Separation | MaxQ | Impact | End

  /** Stage and phase as one number that a run can only raise. */
  function Rank(v: Vehicle): nat {
    4 * v.stage + (match v.phase
                   case CoastBeforeIgnition => 0
                   case Burning => 1
                   case CoastBeforeSeparation => 2
                   case Complete => 3)
  }

  /** The events of a step are exactly its phase and stage changes. */
  predicate EventsMatch(v: Vehicle, w: Vehicle, events: set<Event>) {
    && events <= {Ignition, Cutoff, Separation}
    && (Cutoff in events <==> v.phase == Burning && w.phase != Burning)
    && (Separation in events <==> w.stage == v.stage + 1)
    && (Ignition in events <==> w.phase == Burning && (v.phase != Burning || w.stage != v.stage))
  }

  /** A burning step uses the planned propellant, or what is left, and cuts
      off when the burn is over or the tank is dry. */
  predicate BurnAccounted(s: Scenario, v: Vehicle, w: Vehicle)
    requires v.stage < |s.stages|
  {
    var stage := s.stages[v.stage];
    && w.stage == v.stage && v.mass - w.mass == v.propellant - w.propellant
    && v.propellant - w.propellant == Min(PlannedPerStep(stage, s.timestep), v.propellant)
    && w.burnSteps == v.burnSteps + 1
    && (w.phase != Burning <==> w.burnSteps >= stage.burnSteps || w.propellant == 0)
  }

  /** Separation drops the spent stage with its unburned propellant. */
  predicate DropAccounted(s: Scenario, v: Vehicle, w: Vehicle)
    requires v.stage < |s.stages| && w.stage < |s.stages|
  {
    && v.phase == CoastBeforeSeparation
    && v.mass - w.mass == s.stages[v.stage].dryMass + v.propellant
    && w.propellant == s.stages[w.stage].propellantMass
  }

  /** A stage that has just become the active one. */
  predicate Fresh(s: Scenario, v: Vehicle) {
    && v.stage < |s.stages| && v.propellant == s.stages[v.stage].propellantMass
    && v.phaseSteps == v.burnSteps == 0
    && v.phase == (if s.stages[v.stage].ignitionDelay == 0 then Burning else CoastBeforeIgnition)
  }

  /** Coasts count their steps and end when the delay is reached; a coast of
      zero delay still takes one step. */
  predicate CoastAccounted(s: Scenario, v: Vehicle, w: Vehicle)
    requires v.stage < |s.stages|
  {
    var stage := s.stages[v.stage];
    var waited := v.phaseSteps + 1;
    match v.phase
    case CoastBeforeSeparation =>
      if waited >= stage.separationDelay then w.stage == v.stage + 1 && Fresh(s, w) else w == v.(phaseSteps := waited)
    case CoastBeforeIgnition =>
      w == if waited >= stage.ignitionDelay then v.(phase := Burning, phaseSteps := 0, burnSteps := 0)
           else v.(phaseSteps := waited)
    case Burning => w.phaseSteps == if w.phase == Burning then v.phaseSteps else 0
    case Complete => w == v
  }

  /** What a step may do to the vehicle. */
  ghost predicate Explains(s: Scenario, v: Vehicle, w: Vehicle, events: set<Event>) {
    && v.stage < |s.stages| && w.stage < |s.stages|
    && Rank(v) <= Rank(w) && v.stage <= w.stage <= v.stage + 1 && w.mass <= v.mass
    && EventsMatch(v, w, events)
    && CoastAccounted(s, v, w)
    && (v.phase == Burning ==> BurnAccounted(s, v, w))
    && (w.stage != v.stage ==> DropAccounted(s, v, w))
    && (v.phase != Burning && w.stage == v.stage ==> w.mass == v.mass && w.propellant == v.propellant)
    && (v.phase == Complete ==> w == v && events == {})
  }

  /** The planned propellant of a step is flow times time step, to nearest. */
  lemma {:induction false} PlannedIsNearest(stage: Stage, timestep: i32)
    ensures IsNearestAwayFromZero(PlannedPerStep(stage, timestep), stage.massFlow * timestep, 0x10_0000)
  {
    Pow2OfScales();
    RoundHalfAwayIsNearest(stage.massFlow * timestep, Pow2(20));
  }

  /** The initial momentum: the air turns with the earth at launch radius, the
      surface velocity adds to it, and the radius multiplies the sum. */
  lemma {:induction false} MomentumMeans(s: Scenario) returns (air: int)
    requires InitialMomentum(s, CLEAR).status == CLEAR
    ensures var radius := 26_124_849 + s.initialAltitude;
            && IsNearestAwayFromZero(air, EARTH_ROTATION_RAD_Q30 * radius, 0x4_0000)
            && IsNearestAwayFromZero(InitialMomentum(s, CLEAR).value, (air + s.initialSurfaceVelocity) * radius,
                                     0x40_0000)
  {
    hide RoundHalfAway;
    Pow2OfScales();
    var radius := EARTH_RADIUS_Q12 + s.initialAltitude;
    air := RoundHalfAway(EARTH_ROTATION_RAD_Q30 * radius, Pow2(18));
    RoundHalfAwayIsNearest(EARTH_ROTATION_RAD_Q30 * radius, Pow2(18));
    RoundHalfAwayIsNearest((air + s.initialSurfaceVelocity) * radius, Pow2(22));
  }

  lemma {:induction false} PlannedFits(s: Scenario, i: nat, status: NumericStatus)
    requires i < |s.stages| && StageInLimits(s, i) && 0 < s.timestep <= 8_192
    ensures 0 <= PlannedPerStep(s.stages[i], s.timestep) <= 51_200
    ensures ScaledProduct(s.stages[i].massFlow, s.timestep, 20, status)
         == Outcome(PlannedPerStep(s.stages[i], s.timestep), status)
  {
    FlowPerStep(s.stages[i].massFlow, s.timestep);
  }

  lemma {:induction false} FlowPerStep(flow: int, dt: int)
    requires 0 < flow <= 6_553_600 && 0 < dt <= 8_192
    ensures 0 <= RoundHalfAway(flow * dt, Pow2(20)) <= 51_200
  {
    MulMonotone(0, flow, dt);
    MulMonotone(flow, 6_553_600, dt);
    Pow2Add(16, 4);
    Pow2Of32();
    assert Pow2(4) == 16;
    RoundBetween(0, flow * dt, 51_200, Pow2(20));
  }

  lemma {:induction false} StageFacts(s: Scenario, i: nat)
    requires ValidScenario(s) && i < |s.stages|
    ensures ValidStage(s, i) && StageInLimits(s, i) && 0 < s.stages[i].dryMass <= MAX_MASS
    ensures 0 <= s.stages[i].propellantMass <= MAX_MASS && 0 < s.stages[i].burnSteps
    ensures s.stages[i].separate <==> i + 1 < |s.stages|
    ensures s.stages[i].aeroTable < s.aeroTableCount && 0 < s.timestep <= 8_192
    ensures |s.stages| <= MAX_STAGES
  {}

  /** A good vehicle's mass fits with room to spare. */
  lemma {:induction false} VehicleMassFits(s: Scenario, v: Vehicle)
    requires ValidScenario(s) && GoodVehicle(s, v)
    ensures v.propellant + s.stages[v.stage].dryMass <= v.mass <= 9 * MAX_MASS
    ensures 0 <= v.propellant <= MAX_MASS && 0 < s.stages[v.stage].dryMass <= MAX_MASS
  {
    hide ValidStage, StageInLimits;
    MassBounds(s, v.stage);
    MassBounds(s, v.stage + 1);
    StageFacts(s, v.stage);
  }

  /** One burning step. */
  method BurnStep(s: Scenario, v: Vehicle, status: NumericStatus)
    returns (w: Vehicle, events: set<Event>, after: NumericStatus)
    requires ValidScenario(s) && GoodVehicle(s, v) && v.phase == Burning
    ensures after == status && GoodVehicle(s, w) && Explains(s, v, w, events)
  {
    hide ValidScenario, ValidStage, StageInLimits, PlannedPerStep, ScaledProduct;
    StageFacts(s, v.stage);
    VehicleMassFits(s, v);
    var stage := s.stages[v.stage];
    var planned, mass, propellant;
    PlannedFits(s, v.stage, status);
    planned, after := MultiplyScaled(stage.massFlow, s.timestep, 20, status);
    var consumed := Min(planned, v.propellant);
    mass, after := Subtract(v.mass, consumed, after);
    propellant, after := Subtract(v.propellant, consumed, after);
    w, events := v.(mass := mass, propellant := propellant, burnSteps := v.burnSteps + 1), {};
    if w.burnSteps >= stage.burnSteps || propellant == 0 {
      w := w.(phase := if stage.separate then CoastBeforeSeparation else Complete, phaseSteps := 0);
      events := {Cutoff};
    }
  }

  /** One step of the coast before separation. */
  method SeparationStep(s: Scenario, v: Vehicle, status: NumericStatus)
    returns (w: Vehicle, events: set<Event>, after: NumericStatus, configured: bool)
    requires ValidScenario(s) && GoodVehicle(s, v) && v.phase == CoastBeforeSeparation
    ensures configured && after == status && GoodVehicle(s, w) && Explains(s, v, w, events)
  {
    hide ValidScenario, ValidStage, StageInLimits;
    StageFacts(s, v.stage);
    VehicleMassFits(s, v);
    var stage := s.stages[v.stage];
    w, events, after, configured := v.(phaseSteps := v.phaseSteps + 1), {}, status, true;
    if w.phaseSteps >= stage.separationDelay {
      var dropped, mass;
      dropped, after := Add(stage.dryMass, v.propellant, after);
      mass, after := Subtract(v.mass, dropped, after);
      events := {Separation};
      if v.stage + 1 >= |s.stages| {
        configured := false;
        return;
      }
      var next := s.stages[v.stage + 1];
      StageFacts(s, v.stage + 1);
      w := Vehicle(mass, next.propellantMass, v.stage + 1, CoastBeforeIgnition, 0, 0);
      if next.ignitionDelay == 0 {
        w, events := w.(phase := Burning), events + {Ignition};
      }
    }
  }

  /** One step of the staging machine. On an accepted scenario it never
      faults, never lacks a stage, and keeps the mass accounted. */
  method AdvanceVehicle(s: Scenario, v: Vehicle, status: NumericStatus)
    returns (w: Vehicle, events: set<Event>, after: NumericStatus, configured: bool)
    requires ValidScenario(s) && GoodVehicle(s, v)
    ensures configured && after == status
    ensures GoodVehicle(s, w) && Explains(s, v, w, events)
  {
    hide ValidScenario;
    w, events, after, configured := v, {}, status, true;
    match v.phase
    case Burning =>
      w, events, after := BurnStep(s, v, after);
    case CoastBeforeSeparation =>
      w, events, after, configured := SeparationStep(s, v, after);
    case CoastBeforeIgnition =>
      w := v.(phaseSteps := v.phaseSteps + 1);
      if w.phaseSteps >= s.stages[v.stage].ignitionDelay {
        w, events := w.(phase := Burning, phaseSteps := 0, burnSteps := 0), {Ignition};
      }
    case Complete =>
  }
}
