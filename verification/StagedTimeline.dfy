/**
 The staging timeline: the step of every ignition, cutoff and separation as a
 closed form of the scenario, and the proof that every run under any physics
 keeps to it.
 */
module StagedTimeline {
  import opened Arithmetic
  import opened StagedVehicle
  import opened Telemetry
  import opened StagedMission

  // ----- burn length

  /** Burning steps of a stage: the planned number, one fewer when the load is
      exactly used up a step early, and a single one when there is no load. */
  function BurnLength(load: nat, planned: nat, steps: nat): nat {
    if load == 0 then 1 else if load == (steps - 1) * planned then steps - 1 else steps
  }

  /** A burn over its planned steps or out of propellant. */
  predicate BurnOver(load: nat, planned: nat, steps: nat, n: nat) {
    n >= steps || load <= n * planned
  }

  /** The acceptance rule on the load makes the burn length the first step at
      which the burn is over. */
  lemma {:induction false} BurnEndsAtItsLength(load: nat, planned: nat, steps: nat, n: nat)
    requires 0 < steps && planned * steps <= load + planned
    requires 1 <= n <= BurnLength(load, planned, steps)
    ensures BurnOver(load, planned, steps, n) <==> n == BurnLength(load, planned, steps)
  {
    assert planned * steps == (steps - 1) * planned + planned;
    MulMonotone(n, steps, planned);
    if n < steps {
      MulMonotone(n, steps - 1, planned);
      if n < steps - 1 && planned > 0 {
        MulStrict(n, steps - 1, planned);
      }
    }
  }

  function StageBurn(s: Scenario, j: nat): nat
    requires j < |s.stages| && ValidStage(s, j) && 0 < s.timestep <= 8_192
  {
    PlannedFits(s, j, Numeric.CLEAR);
    BurnLength(s.stages[j].propellantMass, PlannedPerStep(s.stages[j], s.timestep), s.stages[j].burnSteps)
  }

  // ----- the timeline

  ghost predicate HasStage(s: Scenario, j: nat) {
    ValidScenario(s) && j < |s.stages|
  }

  /** The step at which stage `j` becomes the active one. */
  ghost function StartAt(s: Scenario, j: nat): nat
    requires HasStage(s, j)
    decreases j, 0
  {
    if j == 0 then 0 else SeparationAt(s, j - 1)
  }

  ghost function IgnitionAt(s: Scenario, j: nat): nat
    requires HasStage(s, j)
    decreases j, 1
  {
    StartAt(s, j) + s.stages[j].ignitionDelay
  }

  ghost function CutoffAt(s: Scenario, j: nat): nat
    requires HasStage(s, j)
    decreases j, 2
  {
    StageFacts(s, j);
    IgnitionAt(s, j) + StageBurn(s, j)
  }

  /** A separation delay of zero still takes one step. */
  ghost function SeparationAt(s: Scenario, j: nat): nat
    requires HasStage(s, j)
    decreases j, 3
  {
    CutoffAt(s, j) + Max(1, s.stages[j].separationDelay)
  }

  /** What the vehicle's own counters say about how far its stage has come. */
  ghost predicate Ledger(s: Scenario, v: Vehicle)
    requires HasStage(s, v.stage)
  {
    StageFacts(s, v.stage);
    var stage, planned := s.stages[v.stage], PlannedPerStep(s.stages[v.stage], s.timestep);
    && v.propellant == Max(0, stage.propellantMass - v.burnSteps * planned)
    && match v.phase
       case CoastBeforeIgnition => v.burnSteps == 0 && v.phaseSteps < stage.ignitionDelay
       case Burning => v.burnSteps < StageBurn(s, v.stage)
       case CoastBeforeSeparation =>
         v.burnSteps == StageBurn(s, v.stage) && v.phaseSteps < Max(1, stage.separationDelay)
       case Complete => v.burnSteps == StageBurn(s, v.stage)
  }

  /** The same counters, measured against the mission step. */
  ghost predicate OnTime(s: Scenario, v: Vehicle, step: nat)
    requires HasStage(s, v.stage)
  {
    match v.phase
    case CoastBeforeIgnition => step == StartAt(s, v.stage) + v.phaseSteps
    case Burning => step == IgnitionAt(s, v.stage) + v.burnSteps
    case CoastBeforeSeparation => step == CutoffAt(s, v.stage) + v.phaseSteps
    case Complete => step >= CutoffAt(s, v.stage)
  }

  lemma {:induction false} FreshLedger(s: Scenario, v: Vehicle)
    requires HasStage(s, v.stage) && Fresh(s, v)
    ensures Ledger(s, v) && OnTime(s, v, StartAt(s, v.stage))
  {
    hide StartAt, ValidScenario, ValidStage, PlannedPerStep;
    StageFacts(s, v.stage);
    assert 0 * PlannedPerStep(s.stages[v.stage], s.timestep) == 0;
    BurnIsSomething(s, v.stage);
  }

  lemma {:induction false} BurnIsSomething(s: Scenario, j: nat)
    requires HasStage(s, j)
    ensures ValidStage(s, j) && 0 < s.timestep <= 8_192 && 1 <= StageBurn(s, j)
  {
    hide PlannedPerStep;
    StageFacts(s, j);
    PlannedFits(s, j, Numeric.CLEAR);
    if s.stages[j].burnSteps == 1 {
      assert 0 * PlannedPerStep(s.stages[j], s.timestep) == 0;
    }
  }

  /** One more burned step: the propellant formula, and cutoff at the length. */
  lemma {:induction false} BurnArithmetic(load: nat, planned: nat, steps: nat, n: nat, before: int, after: int)
    requires 0 < steps && planned * steps <= load + planned && n < BurnLength(load, planned, steps)
    requires before == Max(0, load - n * planned) && after == before - Min(planned, before)
    ensures after == Max(0, load - (n + 1) * planned)
    ensures n + 1 >= steps || after == 0 <==> n + 1 == BurnLength(load, planned, steps)
  {
    hide BurnLength;
    assert (n + 1) * planned == n * planned + planned;
    BurnEndsAtItsLength(load, planned, steps, n + 1);
  }

  lemma {:induction false} BurnFacts(s: Scenario, v: Vehicle, w: Vehicle, events: set<Event>)
    requires v.phase == Burning && Explains(s, v, w, events)
    ensures w.stage == v.stage < |s.stages| && w.burnSteps == v.burnSteps + 1
    ensures var stage := s.stages[v.stage];
            && w.propellant == v.propellant - Min(PlannedPerStep(stage, s.timestep), v.propellant)
            && (w.phase != Burning <==> w.burnSteps >= stage.burnSteps || w.propellant == 0)
    ensures w.phase != CoastBeforeIgnition && (w.phase != Burning ==> w.phaseSteps == 0)
  {
    hide PlannedPerStep;
  }

  /** A burning step keeps the ledger and cuts off exactly on time. */
  lemma {:induction false} BurningStep(s: Scenario, v: Vehicle, w: Vehicle, events: set<Event>, step: nat)
    requires HasStage(s, v.stage) && v.phase == Burning && Explains(s, v, w, events) && GoodVehicle(s, w)
    requires Ledger(s, v) && OnTime(s, v, step)
    ensures Ledger(s, w) && OnTime(s, w, step + 1)
  {
    hide IgnitionAt, ValidScenario, ValidStage, PlannedPerStep, GoodVehicle, BurnLength, Explains;
    StageFacts(s, v.stage);
    BurnFacts(s, v, w, events);
    var stage, planned := s.stages[v.stage], PlannedPerStep(s.stages[v.stage], s.timestep);
    PlannedFits(s, v.stage, Numeric.CLEAR);
    LoadRule(s, v.stage);
    BurnArithmetic(stage.propellantMass, planned, stage.burnSteps, v.burnSteps, v.propellant, w.propellant);
  }

  lemma {:induction false} LoadRule(s: Scenario, j: nat)
    requires j < |s.stages| && ValidStage(s, j)
    ensures var planned := PlannedPerStep(s.stages[j], s.timestep);
            planned * s.stages[j].burnSteps <= s.stages[j].propellantMass + planned
  {}

  lemma {:induction false} LedgerStep(s: Scenario, v: Vehicle, w: Vehicle, events: set<Event>, step: nat)
    requires HasStage(s, v.stage) && Explains(s, v, w, events) && GoodVehicle(s, w)
    requires Ledger(s, v) && OnTime(s, v, step)
    ensures Ledger(s, w) && OnTime(s, w, step + 1)
  {
    hide ValidScenario, ValidStage, PlannedPerStep, GoodVehicle, BurnLength;
    if v.phase == Burning {
      BurningStep(s, v, w, events, step);
    } else if w.stage != v.stage {
      FreshLedger(s, w);
    } else {
      BurnIsSomething(s, v.stage);
    }
  }

  lemma {:induction false} RunIsOnTime(s: Scenario, obs: seq<Observation>, k: nat)
    requires ValidScenario(s) && GoodRun(s, obs) && k < |obs|
    ensures HasStage(s, obs[k].vehicle.stage) && Ledger(s, obs[k].vehicle) && OnTime(s, obs[k].vehicle, k)
  {
    hide ValidScenario, Ledger, OnTime, Explains, Fresh;
    assert GoodVehicle(s, obs[k].vehicle);
    if k == 0 {
      FreshLedger(s, obs[0].vehicle);
    } else {
      RunIsOnTime(s, obs, k - 1);
      assert Follows(s, obs[k - 1], obs[k]);
      LedgerStep(s, obs[k - 1].vehicle, obs[k].vehicle, StagingEvents(obs[k]), k - 1);
    }
  }

  // ----- main results

  /** In every run, under any physics, a step raises an event exactly when the
      timeline of its stage says so. */
  lemma {:induction false} EventsKeepToTheTimeline(s: Scenario, obs: seq<Observation>, k: nat)
    requires ValidScenario(s) && GoodRun(s, obs) && 0 < k < |obs|
    ensures HasStage(s, obs[k].vehicle.stage)
    ensures var j, events := obs[k].vehicle.stage, obs[k].events;
            && (Ignition in events <==> k == IgnitionAt(s, j))
            && (Cutoff in events <==> k == CutoffAt(s, j))
            && (Separation in events <==> j > 0 && k == StartAt(s, j))
  {
    hide ValidScenario, StartAt, GoodVehicle, PlannedPerStep, BurnLength;
    RunIsOnTime(s, obs, k - 1);
    RunIsOnTime(s, obs, k);
    assert Follows(s, obs[k - 1], obs[k]);
    var v, w := obs[k - 1].vehicle, obs[k].vehicle;
    BurnIsSomething(s, v.stage);
    BurnIsSomething(s, w.stage);
  }

  /** The landmarks of one stage, in order; the next stage starts at the last. */
  lemma {:induction false} SlotOrder(s: Scenario, i: nat)
    requires HasStage(s, i)
    ensures StartAt(s, i) <= IgnitionAt(s, i) < CutoffAt(s, i) < SeparationAt(s, i)
    ensures HasStage(s, i + 1) ==> StartAt(s, i + 1) == SeparationAt(s, i)
  {
    hide ValidScenario, StageBurn;
    BurnIsSomething(s, i);
  }

  lemma {:induction false} StartsAscend(s: Scenario, i: nat, j: nat)
    requires i < j && HasStage(s, i) && HasStage(s, j)
    ensures SeparationAt(s, i) <= StartAt(s, j)
    decreases j
  {
    hide ValidScenario, StartAt, SeparationAt;
    SlotOrder(s, j - 1);
    if i < j - 1 {
      StartsAscend(s, i, j - 1);
    }
  }

  /** The active stage at a step is the one whose slot on the timeline holds
      that step. */
  lemma {:induction false} StageKeepsToTheTimeline(s: Scenario, obs: seq<Observation>, k: nat, j: nat)
    requires ValidScenario(s) && GoodRun(s, obs) && k < |obs| && j < |s.stages|
    ensures obs[k].vehicle.stage == j
       <==> StartAt(s, j) <= k && (j + 1 < |s.stages| ==> k < StartAt(s, j + 1))
  {
    hide ValidScenario, GoodRun, StartAt, SeparationAt;
    StageHoldsStep(s, obs, k);
    var i := obs[k].vehicle.stage;
    SlotOrder(s, i);
    SlotOrder(s, j);
    if i < j {
      StartsAscend(s, i, j);
    } else if j < i {
      StartsAscend(s, j, i);
    }
  }

  /** The slot of the active stage holds the step. */
  lemma {:induction false} StageHoldsStep(s: Scenario, obs: seq<Observation>, k: nat)
    requires ValidScenario(s) && GoodRun(s, obs) && k < |obs|
    ensures var i := obs[k].vehicle.stage;
            && HasStage(s, i) && StartAt(s, i) <= k
            && (i + 1 < |s.stages| ==> HasStage(s, i + 1) && k < StartAt(s, i + 1))
  {
    hide ValidScenario, PlannedPerStep, BurnLength, StartAt;
    RunIsOnTime(s, obs, k);
    var v := obs[k].vehicle;
    assert GoodVehicle(s, v);
    SlotOrder(s, v.stage);
    BurnIsSomething(s, v.stage);
  }

  /** Every ignition after launch, cutoff and separation that falls inside the
      run takes place. */
  lemma {:induction false} ScheduledEventsHappen(s: Scenario, obs: seq<Observation>, j: nat)
    requires ValidScenario(s) && GoodRun(s, obs) && j < |s.stages|
    ensures 0 < IgnitionAt(s, j) < |obs| ==> Ignition in obs[IgnitionAt(s, j)].events
    ensures CutoffAt(s, j) < |obs| ==> Cutoff in obs[CutoffAt(s, j)].events
    ensures j + 1 < |s.stages| && SeparationAt(s, j) < |obs| ==> Separation in obs[SeparationAt(s, j)].events
  {
    hide ValidScenario, GoodRun, StartAt, IgnitionAt, CutoffAt, SeparationAt;
    SlotOrder(s, j);
    if 0 < IgnitionAt(s, j) < |obs| {
      var k := IgnitionAt(s, j);
      StageKeepsToTheTimeline(s, obs, k, j);
      EventsKeepToTheTimeline(s, obs, k);
    }
    if CutoffAt(s, j) < |obs| {
      var k := CutoffAt(s, j);
      StageKeepsToTheTimeline(s, obs, k, j);
      EventsKeepToTheTimeline(s, obs, k);
    }
    if j + 1 < |s.stages| && SeparationAt(s, j) < |obs| {
      var k := SeparationAt(s, j);
      SlotOrder(s, j + 1);
      StageKeepsToTheTimeline(s, obs, k, j + 1);
      EventsKeepToTheTimeline(s, obs, k);
    }
  }

  /** Two runs of one scenario carry the same vehicle at the same step,
      whatever the physics did to the trajectory. */
  lemma {:induction false} VehicleIgnoresPhysics(s: Scenario, one: seq<Observation>, two: seq<Observation>, k: nat)
    requires ValidScenario(s) && GoodRun(s, one) && GoodRun(s, two) && k < |one| && k < |two|
    ensures one[k].vehicle == two[k].vehicle
    ensures StagingEvents(one[k]) == StagingEvents(two[k])
  {
    hide ValidScenario, PlannedPerStep;
    assert GoodVehicle(s, one[k].vehicle) && GoodVehicle(s, two[k].vehicle);
    if k > 0 {
      VehicleIgnoresPhysics(s, one, two, k - 1);
      assert Follows(s, one[k - 1], one[k]) && Follows(s, two[k - 1], two[k]);
      StepIsDetermined(s, one[k - 1].vehicle, one[k].vehicle, two[k].vehicle,
                       StagingEvents(one[k]), StagingEvents(two[k]));
    }
  }

  lemma {:induction false} StepIsDetermined(s: Scenario, v: Vehicle, w: Vehicle, u: Vehicle,
                                            e: set<Event>, f: set<Event>)
    requires GoodVehicle(s, w) && GoodVehicle(s, u)
    requires Explains(s, v, w, e) && Explains(s, v, u, f)
    ensures w == u && e == f
  {
    hide PlannedPerStep;
  }
}
