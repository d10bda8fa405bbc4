/**
 The smallest accepted scenario and a complete run of it, so that the results
 about accepted scenarios and their runs are known to speak of something, and
 accepted scenarios whose burns are shorter than planned.
 */
module StagedExample {
  import opened Arithmetic
  import opened Numeric
  import opened Guidance
  import opened StagedVehicle
  import opened Telemetry
  import opened StagedMission
  import opened StagedTimeline

  /** One stage that burns its single unit of propellant in one step. */
  const STAGE := Stage(1, 1, 1, 0x10_0000, 1, 0, 0, 1, 0, false)
  const SCENARIO := Scenario(1, 1, 1, 1, 0, 0, 0, [STAGE], [PitchKnot(0, 0), PitchKnot(1, 0x4000)], 1)

  /** The same mission with another stage and length. */
  function SingleStage(stage: Stage, steps: u32): Scenario {
    SCENARIO.(stages := [stage], steps := steps)
  }

  lemma {:induction false} Momentum(stage: Stage, steps: u32)
    ensures InitialMomentum(SingleStage(stage, steps), CLEAR).status == CLEAR
  {
    hide RoundHalfAway, Pow2;
    Pow2OfScales();
    RoundBetween(0, EARTH_ROTATION_RAD_Q30 * EARTH_RADIUS_Q12, 10_000_000, 0x4_0000);
    var air := ScaledProduct(EARTH_ROTATION_RAD_Q30, EARTH_RADIUS_Q12, 18, CLEAR);
    assert air.status == CLEAR && 0 <= air.value <= 10_000_000;
    MulMonotone(0, air.value, EARTH_RADIUS_Q12);
    MulMonotone(air.value, 10_000_000, EARTH_RADIUS_Q12);
    RoundBetween(0, air.value * EARTH_RADIUS_Q12, 100_000_000, 0x40_0000);
  }

  lemma {:induction false} OnePlanned()
    ensures PlannedPerStep(STAGE, 1) == 1
  {
    Pow2OfScales();
    RoundExact(1, 0x10_0000);
  }

  lemma {:induction false} SingleStageIsValid(stage: Stage, steps: u32)
    requires 0 < steps <= 32_768 && ValidStage(SingleStage(stage, steps), 0)
    ensures ValidScenario(SingleStage(stage, steps))
  {
    hide InitialMomentum, PlannedPerStep;
    Momentum(stage, steps);
    assert ValidProgram(SingleStage(stage, steps).knots, 1);
  }

  lemma {:induction false} ExampleIsValid()
    ensures ValidScenario(SCENARIO)
  {
    hide InitialMomentum, PlannedPerStep;
    OnePlanned();
    SingleStageIsValid(STAGE, 1);
  }

  /** Three planned steps, and a load that lasts exactly two. */
  const EARLY := Stage(1, 2, 1, 0x10_0000, 3, 0, 0, 1, 0, false)

  /** Three planned steps, and nothing to burn. */
  const UNLOADED := Stage(1, 0, 1, 1, 3, 0, 0, 1, 0, false)

  /** Both exceptions to the planned burn are accepted: a load used up one step
      early burns one step less, and an empty stage burns for one step. */
  lemma {:induction false} ShortBurnsAreAccepted()
    ensures HasStage(SingleStage(EARLY, 3), 0) && CutoffAt(SingleStage(EARLY, 3), 0) == 2
    ensures HasStage(SingleStage(UNLOADED, 3), 0) && CutoffAt(SingleStage(UNLOADED, 3), 0) == 1
  {
    hide PlannedPerStep, CutoffAt, HasStage;
    ShortPlans();
    BurnsFor(EARLY, 1, 2);
    BurnsFor(UNLOADED, 0, 1);
  }

  lemma {:induction false} ShortPlans()
    ensures PlannedPerStep(EARLY, 1) == 1 && PlannedPerStep(UNLOADED, 1) == 0
  {
    Pow2OfScales();
    RoundExact(1, 0x10_0000);
  }

  lemma {:induction false} BurnsFor(stage: Stage, planned: nat, length: nat)
    requires PlannedPerStep(stage, 1) == planned && ValidStage(SingleStage(stage, 3), 0)
    requires stage.ignitionDelay == 0 && BurnLength(stage.propellantMass, planned, stage.burnSteps) == length
    ensures HasStage(SingleStage(stage, 3), 0) && CutoffAt(SingleStage(stage, 3), 0) == length
  {
    hide PlannedPerStep, ValidScenario, BurnLength;
    SingleStageIsValid(stage, 3);
  }

  /** Two observations: on the pad, and cut off at the last step. */
  lemma {:induction false} ExampleRun() returns (obs: seq<Observation>)
    ensures ValidScenario(SCENARIO) && GoodRun(SCENARIO, obs) && |obs| == 2
    ensures obs[1].events == {Cutoff, End}
  {
    ExampleIsValid();
    OnePlanned();
    hide PlannedPerStep, ValidScenario;
    var v := Vehicle(3, 1, 0, Burning, 0, 0);
    var w := Vehicle(2, 0, 0, Complete, 0, 1);
    obs := [Observation(0, v, 0, {}), Observation(1, w, 0, {Cutoff, End})];
    assert DryFrom(SCENARIO.stages, 0) == 1;
    assert PropellantFrom(SCENARIO.stages, 1) == 0;
    assert GoodVehicle(SCENARIO, v);
    assert GoodVehicle(SCENARIO, w);
    assert StagingEvents(obs[1]) == {Cutoff};
    assert Explains(SCENARIO, v, w, {Cutoff});
  }
}
