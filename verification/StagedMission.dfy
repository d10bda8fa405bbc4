/**
 The bounded-stage planar mission: the step loop around the staging machine,
 its observations, and what every prefix of a run keeps. The continuous physics
 of each step is an arbitrary input.
 */
module StagedMission {
  import opened Arithmetic
  import opened Numeric
  import opened Guidance
  import opened StagedVehicle
  import opened Telemetry
  import opened Wrappers

  datatype MissionError = InitialState | Configuration | NumericFault

  type Result<T> = Wrappers.Result<T, MissionError>

  datatype Outcome = DurationComplete | Impacted

  datatype Motion = Motion(time: i32, radius: i32, radialVelocity: i32)

  /** What the environment, force and orbit code returns for one step: the
      dynamic pressure, whether forces exist, the advanced motion (absent on a
      fault), and the status after classifying the orbit. */
  datatype Physics = Physics(pressure: i32, forcesExist: bool, motion: Option<Motion>,
                             orbitFound: bool, orbitStatus: NumericStatus)

  datatype MissionResult = MissionResult(vehicle: Vehicle, outcome: Outcome, history: set<Event>,
                                         maxPressure: i32, cutoffStep: nat)

  /** Events of the staging machine, without the terminal ones. */
  function StagingEvents(o: Observation): set<Event> {
    o.events - {Impact, End}
  }

  ghost predicate Follows(s: Scenario, before: Observation, after: Observation) {
    && Explains(s, before.vehicle, after.vehicle, StagingEvents(after))
    && End !in before.events && after.events <= {Ignition, Cutoff, Separation, Impact, End}
  }

  /** Every prefix of a run: consecutive steps from a silent step 0, mass
      accounted at each, and each step explained by the one before it. */
  ghost predicate GoodRun(s: Scenario, obs: seq<Observation>) {
    && obs != [] && Consecutive(obs) && obs[0].events == {} && obs[0].vehicle.stage == 0 && Fresh(s, obs[0].vehicle)
    && (forall k :: 0 <= k < |obs| ==> GoodVehicle(s, obs[k].vehicle) && obs[k].pitch <= PROGRADE)
    && (forall k :: 0 <= k < |obs| - 1 ==> Follows(s, obs[k], obs[k + 1]))
  }

  lemma {:induction false} ExtendRun(s: Scenario, obs: seq<Observation>, o: Observation)
    requires GoodRun(s, obs) && o.step == |obs| && GoodVehicle(s, o.vehicle) && o.pitch <= PROGRADE
    requires Follows(s, obs[|obs| - 1], o)
    ensures GoodRun(s, obs + [o]) && obs[0] == (obs + [o])[0]
  {
    hide Follows, GoodVehicle;
    var longer := obs + [o];
    forall k | 0 <= k < |longer| - 1
      ensures Follows(s, longer[k], longer[k + 1])
    {
      if k == |obs| - 1 {
        assert longer[k] == obs[k] && longer[k + 1] == o;
      }
    }
  }

  /** All events raised by the observed steps. */
  function Raised(obs: seq<Observation>): set<Event> {
    if obs == [] then {} else Raised(obs[..|obs| - 1]) + obs[|obs| - 1].events
  }

  /** Whether the vehicle has reached the ground. */
  predicate HasImpacted(m: Motion) {
    m.radius < EARTH_RADIUS_Q12 || (m.radius == EARTH_RADIUS_Q12 && m.radialVelocity <= 0)
  }

  method CommandedPitch(s: Scenario, time: i32, status: NumericStatus) returns (pitch: u16, after: NumericStatus)
    requires ValidScenario(s)
    ensures pitch == Pitch(time, s.knots, status).pitch <= PROGRADE && after == status
  {
    hide Pitch;
    pitch, after := PitchAt(time, s.knots, status);
    PitchMonotone(time, time, s.knots, s.timestep, status);
    assert ValidKnot(s.knots[|s.knots| - 1], s.timestep);
  }

  datatype StepResult =
    StepFault | StepMisconfigured | Stepped(observation: Observation, cutoffOrbit: bool)

  /** The step's observation is explained by the vehicle before it, and says
      whether the mission ends here. */
  ghost predicate GoodStep(s: Scenario, p: Physics, before: Vehicle, step: nat, time: i32, o: Observation) {
    && o.step == step + 1 && o.pitch <= PROGRADE
    && GoodVehicle(s, o.vehicle)
    && Explains(s, before, o.vehicle, StagingEvents(o))
    && o.events <= {Ignition, Cutoff, Separation, Impact, End}
    && Answers(s, p, time, o)
  }

  /** How an observation answers the physics of its step: impact and end are
      read off the motion, and the pitch is the program's at the clock before
      the step. */
  predicate Answers(s: Scenario, p: Physics, time: i32, o: Observation) {
    && p.motion.Some?
    && (Impact in o.events <==> HasImpacted(p.motion.value))
    && (End in o.events <==> HasImpacted(p.motion.value) || o.step >= s.steps)
    && o.pitch == Pitch(time, s.knots, CLEAR).pitch
  }

  /** The mission clock before step `k`. */
  function ClockAt(physics: seq<Physics>, k: nat): i32
    requires k <= |physics|
  {
    if k == 0 || physics[k - 1].motion.None? then 0 else physics[k - 1].motion.value.time
  }

  /** Every observation answers its own step of the physics. */
  ghost predicate Driven(s: Scenario, physics: seq<Physics>, obs: seq<Observation>) {
    && |obs| <= |physics| + 1
    && forall k :: 0 < k < |obs| ==> Answers(s, physics[k - 1], ClockAt(physics, k - 1), obs[k])
  }

  /** The largest dynamic pressure of the first `n` steps, and at least 0. */
  function Peak(physics: seq<Physics>, n: nat): (peak: i32)
    requires n <= |physics|
    ensures 0 <= peak && forall i :: 0 <= i < n ==> physics[i].pressure <= peak
    ensures peak > 0 ==> exists i :: 0 <= i < n && physics[i].pressure == peak
  {
    if n == 0 then 0 else Max(Peak(physics, n - 1), physics[n - 1].pressure)
  }

  /** The physics of the step raises no fault. */
  predicate FaultFree(p: Physics) {
    p.forcesExist && p.motion.Some? && p.orbitStatus.IsClear()
  }

  /** The body of the mission loop. */
  method MissionStep(s: Scenario, p: Physics, vehicle: Vehicle, step: nat, time: i32, cutoffOrbit: bool)
    returns (r: StepResult)
    requires ValidScenario(s) && GoodVehicle(s, vehicle)
    ensures r != StepMisconfigured
    ensures FaultFree(p) ==> r.Stepped?
    ensures r.Stepped? ==> GoodStep(s, p, vehicle, step, time, r.observation)
  {
    hide ValidScenario, GoodVehicle, Explains, Pitch;
    VehicleStageExists(s, vehicle);
    StageFacts(s, vehicle.stage);
    if vehicle.stage >= |s.stages| || s.stages[vehicle.stage].aeroTable >= s.aeroTableCount {
      return StepMisconfigured;
    }
    var pitch, status := CommandedPitch(s, time, CLEAR);
    if !p.forcesExist || p.motion.None? {
      return StepFault;
    }
    var next, events, staged;
    next, events, status, staged := AdvanceVehicle(s, vehicle, status);
    if !staged {
      return StepMisconfigured;
    }
    ghost var staging := events;
    StagingOnly(s, vehicle, next, events);
    var orbit := cutoffOrbit;
    if next.phase == Complete && !cutoffOrbit {
      orbit, status := p.orbitFound, p.orbitStatus;
    }
    if !status.IsClear() {
      return StepFault;
    }
    var impacted := HasImpacted(p.motion.value);
    if impacted {
      events := events + {Impact};
    }
    if impacted || step + 1 >= s.steps {
      events := events + {End};
    }
    assert events - {Impact, End} == staging;
    r := Stepped(Observation(step + 1, next, pitch, events), orbit);
  }

  lemma {:induction false} VehicleStageExists(s: Scenario, v: Vehicle)
    requires GoodVehicle(s, v)
    ensures v.stage < |s.stages|
  {}

  /** The history bit of a first stage that is already burning. */
  function InitialIgnition(v: Vehicle): set<Event> {
    if v.phase == Burning then {Ignition} else {}
  }

  /** `step` is the last step with a cutoff, or 0 if there was none. */
  predicate LastCutoff(obs: seq<Observation>, step: nat) {
    && step < |obs| && (step > 0 ==> Cutoff in obs[step].events)
    && forall k :: step < k < |obs| ==> Cutoff !in obs[k].events
  }

  /** Runs a parsed scenario under any physics. A numeric fault raised by the
      step after the last observed one, or by the closing computations, is the
      only way to fail; the observations are a good run that answers the physics,
      whichever way it ends; the recorded history is exactly what the steps
      raised, plus the ignition of a first stage that starts burning and the
      pressure maximum. */
  method ExecuteMission(s: Scenario, physics: seq<Physics>, finalStatus: NumericStatus)
    returns (r: Result<MissionResult>, obs: seq<Observation>)
    requires ValidScenario(s) && |physics| >= s.steps
    ensures GoodRun(s, obs) && Driven(s, physics, obs) && |obs| <= s.steps + 1
    ensures r.Err? ==>
              r.error == NumericFault
              && (!finalStatus.IsClear() || (|obs| <= s.steps && !FaultFree(physics[|obs| - 1])))
    ensures r.Ok? ==> finalStatus.IsClear()
    ensures r.Ok? ==> End in obs[|obs| - 1].events && r.value.vehicle == obs[|obs| - 1].vehicle
    ensures r.Ok? ==> (r.value.outcome == Impacted <==> Impact in obs[|obs| - 1].events)
    ensures r.Ok? ==> |obs| > 1 && (r.value.outcome == Impacted <==> Down(physics[|obs| - 2]))
    ensures r.Ok? && r.value.outcome == DurationComplete ==> |obs| == s.steps + 1
    ensures r.Ok? ==> Recorded(s, physics, obs, r.value.history, r.value.maxPressure, r.value.cutoffStep)
  {
    hide ValidScenario, GoodVehicle, Explains, GoodRun, Driven, Recorded, GoodStep, Down;
    var status := CLEAR;
    InitialFacts(s);
    var initial, momentum;
    initial, momentum, status := InitialTruth(s, status);
    if initial.None? {
      obs := [];
      return Err(InitialState), obs;
    }
    var vehicle := initial.value;
    var configured := IsValid(s.knots, s.timestep);
    if !configured {
      obs := [];
      return Err(Configuration), obs;
    }
    var maxPressure, cutoffStep, step := 0, 0, 0;
    var history := InitialIgnition(vehicle);
    var cutoffOrbit, outcome := false, DurationComplete;
    var time: i32 := 0;
    var pitch;
    pitch, status := CommandedPitch(s, time, status);
    obs := [Observation(0, vehicle, pitch, {})];
    StartRecord(s, physics, obs[0]);
    while step < s.steps
      invariant step < s.steps && |obs| == step + 1 && outcome == DurationComplete
      invariant Recorded(s, physics, obs, history, maxPressure, cutoffStep)
      invariant GoodVehicle(s, vehicle) && obs[step].vehicle == vehicle && End !in obs[step].events
      invariant time == ClockAt(physics, step)
    {
      RecordedRun(s, physics, obs, history, maxPressure, cutoffStep);
      var p := physics[step];
      ghost var was, peak := history, maxPressure;
      if p.pressure > maxPressure {
        maxPressure, history := p.pressure, history + {MaxQ};
      }
      var stepped := MissionStep(s, p, vehicle, step, time, cutoffOrbit);
      if stepped.StepMisconfigured? {
        return Err(Configuration), obs;
      }
      if stepped.StepFault? {
        return Err(NumericFault), obs;
      }
      var o := stepped.observation;
      RecordStep(s, physics, obs, was, peak, cutoffStep, o);
      StepFacts(s, p, vehicle, step, time, o);
      if Cutoff in o.events {
        cutoffStep := step + 1;
      }
      if Impact in o.events {
        outcome := Impacted;
      }
      history := history + o.events;
      obs := obs + [o];
      vehicle, time, step, cutoffOrbit := o.vehicle, p.motion.value.time, step + 1, stepped.cutoffOrbit;
      if End in o.events {
        break;
      }
    }
    RecordedRun(s, physics, obs, history, maxPressure, cutoffStep);
    ImpactExactly(s, physics, obs);
    history := history + {End};
    if !finalStatus.IsClear() {
      return Err(NumericFault), obs;
    }
    r := Ok(MissionResult(vehicle, outcome, history, maxPressure, cutoffStep));
  }

  /** The mission record after some steps: a good run that answers the physics,
      with its history, pressure maximum and last cutoff. */
  ghost predicate Recorded(s: Scenario, physics: seq<Physics>, obs: seq<Observation>,
                           history: set<Event>, maxPressure: i32, cutoffStep: nat)
  {
    && GoodRun(s, obs) && Driven(s, physics, obs)
    && HistoryMatches(history, obs) && LastCutoff(obs, cutoffStep)
    && maxPressure == Peak(physics, |obs| - 1) && (MaxQ in history <==> maxPressure > 0)
  }

  lemma {:induction false} RecordedRun(s: Scenario, physics: seq<Physics>, obs: seq<Observation>,
                                       history: set<Event>, maxPressure: i32, cutoffStep: nat)
    requires Recorded(s, physics, obs, history, maxPressure, cutoffStep)
    ensures GoodRun(s, obs) && Driven(s, physics, obs) && obs != []
    ensures End in obs[|obs| - 1].events ==> history + {End} == history
  {
    hide GoodRun, Driven, LastCutoff;
    if End in obs[|obs| - 1].events {
      HistoryHasEnd(history, obs);
    }
  }

  lemma {:induction false} StartRecord(s: Scenario, physics: seq<Physics>, o: Observation)
    requires o.step == 0 && o.events == {} && o.vehicle.stage == 0 && o.pitch <= PROGRADE
    requires GoodVehicle(s, o.vehicle) && Fresh(s, o.vehicle)
    ensures Recorded(s, physics, [o], InitialIgnition(o.vehicle), 0, 0)
  {
    hide GoodRun;
    StartRun(s, o);
    NothingDrivenYet(s, physics, [o]);
  }

  lemma {:induction false} RecordStep(s: Scenario, physics: seq<Physics>, obs: seq<Observation>,
                                      history: set<Event>, maxPressure: i32, cutoffStep: nat, o: Observation)
    requires Recorded(s, physics, obs, history, maxPressure, cutoffStep)
    requires 0 < |obs| <= |physics| && End !in obs[|obs| - 1].events
    requires GoodStep(s, physics[|obs| - 1], obs[|obs| - 1].vehicle, |obs| - 1, ClockAt(physics, |obs| - 1), o)
    ensures var pressure := physics[|obs| - 1].pressure;
            Recorded(s, physics, obs + [o],
                     (if pressure > maxPressure then history + {MaxQ} else history) + o.events,
                     if pressure > maxPressure then pressure else maxPressure,
                     if Cutoff in o.events then |obs| else cutoffStep)
  {
    hide GoodRun, Driven, HistoryMatches, LastCutoff, GoodVehicle, Explains, Answers, ClockAt;
    HistoryWithMaxQ(history, obs);
    ExtendRun(s, obs, o);
    HistoryStep(if physics[|obs| - 1].pressure > maxPressure then history + {MaxQ} else history, obs, o);
    DriveOn(s, physics, obs, o);
    CutoffStep(obs, cutoffStep, o);
  }

  lemma {:induction false} StepFacts(s: Scenario, p: Physics, before: Vehicle, step: nat, time: i32, o: Observation)
    requires GoodStep(s, p, before, step, time, o)
    ensures p.motion.Some? && GoodVehicle(s, o.vehicle) && (Impact in o.events ==> End in o.events)
    ensures End in o.events && Impact !in o.events ==> step + 1 >= s.steps
    ensures step + 1 >= s.steps ==> End in o.events
  {
    hide GoodVehicle, Explains;
  }

  lemma {:induction false} NothingDrivenYet(s: Scenario, physics: seq<Physics>, obs: seq<Observation>)
    requires |obs| == 1
    ensures Driven(s, physics, obs) && LastCutoff(obs, 0)
  {}

  lemma {:induction false} DriveOn(s: Scenario, physics: seq<Physics>, obs: seq<Observation>, o: Observation)
    requires 0 < |obs| <= |physics| && Driven(s, physics, obs)
    requires Answers(s, physics[|obs| - 1], ClockAt(physics, |obs| - 1), o)
    ensures Driven(s, physics, obs + [o])
  {
    hide Answers, ClockAt;
    var longer := obs + [o];
    forall k | 0 < k < |longer|
      ensures Answers(s, physics[k - 1], ClockAt(physics, k - 1), longer[k])
    {
      if k < |obs| {
        assert longer[k] == obs[k];
      }
    }
  }

  lemma {:induction false} CutoffStep(obs: seq<Observation>, last: nat, o: Observation)
    requires LastCutoff(obs, last)
    ensures LastCutoff(obs + [o], if Cutoff in o.events then |obs| else last)
  {}

  lemma {:induction false} StartRun(s: Scenario, o: Observation)
    requires o.step == 0 && o.events == {} && o.vehicle.stage == 0 && o.pitch <= PROGRADE
    requires GoodVehicle(s, o.vehicle) && Fresh(s, o.vehicle)
    ensures GoodRun(s, [o]) && HistoryMatches(InitialIgnition(o.vehicle), [o])
  {
    assert [o][..0] == [];
  }

  /** The mission history: what the steps raised, the ignition of a first
      stage that starts burning, and possibly the pressure maximum. */
  ghost predicate HistoryMatches(history: set<Event>, obs: seq<Observation>) {
    obs != [] && history - {MaxQ} == Raised(obs) + InitialIgnition(obs[0].vehicle)
  }

  lemma {:induction false} HistoryWithMaxQ(history: set<Event>, obs: seq<Observation>)
    requires HistoryMatches(history, obs)
    ensures HistoryMatches(history + {MaxQ}, obs)
  {
    assert history + {MaxQ} - {MaxQ} == history - {MaxQ};
  }

  lemma {:induction false} HistoryStep(history: set<Event>, obs: seq<Observation>, o: Observation)
    requires HistoryMatches(history, obs) && MaxQ !in o.events
    ensures HistoryMatches(history + o.events, obs + [o])
  {
    assert (obs + [o])[..|obs|] == obs;
    assert history + o.events - {MaxQ} == history - {MaxQ} + o.events;
  }

  lemma {:induction false} HistoryHasEnd(history: set<Event>, obs: seq<Observation>)
    requires HistoryMatches(history, obs) && End in obs[|obs| - 1].events
    ensures history + {End} == history
  {
    assert End in Raised(obs);
    assert End in history - {MaxQ};
  }

  lemma {:induction false} InitialFacts(s: Scenario)
    requires ValidScenario(s)
    ensures 0 < s.payload <= MAX_MASS && 1 <= |s.stages| <= MAX_STAGES && 0 < s.steps
    ensures forall i :: 0 <= i < |s.stages| ==> ValidStage(s, i)
    ensures InitialMomentum(s, CLEAR).status == CLEAR && ValidProgram(s.knots, s.timestep)
  {}

  lemma {:induction false} StagingOnly(s: Scenario, v: Vehicle, w: Vehicle, events: set<Event>)
    requires Explains(s, v, w, events)
    ensures events <= {Ignition, Cutoff, Separation}
  {}

  // ----- what every run keeps

  /** Stage and phase only move forward. */
  lemma {:induction false} PhasesAdvance(s: Scenario, obs: seq<Observation>, k: nat, m: nat)
    requires GoodRun(s, obs) && k <= m < |obs|
    ensures Rank(obs[k].vehicle) <= Rank(obs[m].vehicle)
    ensures obs[k].vehicle.mass >= obs[m].vehicle.mass
    decreases m - k
  {
    hide GoodVehicle, PlannedPerStep;
    if k < m {
      PhasesAdvance(s, obs, k, m - 1);
      assert Follows(s, obs[m - 1], obs[m]);
    }
  }

  /** Each stage cuts off at most once, and stages cut off in order. */
  lemma {:induction false} CutoffOncePerStage(s: Scenario, obs: seq<Observation>, k: nat, m: nat)
    requires GoodRun(s, obs) && 0 < k < m < |obs|
    requires Cutoff in obs[k].events && Cutoff in obs[m].events
    ensures obs[k].vehicle.stage < obs[m].vehicle.stage
  {
    hide GoodVehicle;
    assert Follows(s, obs[k - 1], obs[k]) && Follows(s, obs[m - 1], obs[m]);
    PhasesAdvance(s, obs, k, m - 1);
  }

  /** Each stage separates at most once. */
  lemma {:induction false} SeparationOncePerStage(s: Scenario, obs: seq<Observation>, k: nat, m: nat)
    requires GoodRun(s, obs) && 0 < k < m < |obs|
    requires Separation in obs[k].events && Separation in obs[m].events
    ensures obs[k].vehicle.stage < obs[m].vehicle.stage
  {
    hide GoodVehicle;
    assert Follows(s, obs[k - 1], obs[k]) && Follows(s, obs[m - 1], obs[m]);
    PhasesAdvance(s, obs, k, m - 1);
  }

  /** A completed vehicle never changes again. */
  lemma {:induction false} CompleteIsAbsorbing(s: Scenario, obs: seq<Observation>, k: nat, m: nat)
    requires GoodRun(s, obs) && k <= m < |obs| && obs[k].vehicle.phase == Complete
    ensures obs[m].vehicle == obs[k].vehicle
    ensures k < m ==> StagingEvents(obs[m]) == {}
    decreases m - k
  {
    hide GoodVehicle, PlannedPerStep;
    if k < m {
      CompleteIsAbsorbing(s, obs, k, m - 1);
      assert Follows(s, obs[m - 1], obs[m]);
    }
  }

  /** The vehicle is down: below the surface, or on it without climbing. */
  predicate Down(p: Physics) {
    && p.motion.Some?
    && (p.motion.value.radius < 26_124_849
        || (p.motion.value.radius == 26_124_849 && p.motion.value.radialVelocity <= 0))
  }

  /** Over any run: until the last observation no step brings the vehicle down
      and the steps are not used up. The last one raises Impact exactly when its
      step brings the vehicle down, and End exactly then or when the steps are
      used up. */
  lemma {:induction false} EndsAtTheGround(s: Scenario, physics: seq<Physics>, obs: seq<Observation>, k: nat)
    requires GoodRun(s, obs) && Driven(s, physics, obs) && 0 < k < |obs|
    ensures Impact in obs[k].events <==> Down(physics[k - 1])
    ensures End in obs[k].events <==> Down(physics[k - 1]) || k >= s.steps
    ensures k < |obs| - 1 ==> !Down(physics[k - 1]) && k < s.steps
  {
    hide GoodVehicle, Explains, Pitch;
    assert Answers(s, physics[k - 1], ClockAt(physics, k - 1), obs[k]);
    if k < |obs| - 1 {
      assert Follows(s, obs[k], obs[k + 1]);
    }
  }

  /** So a completed mission has impacted exactly when its last step brought the
      vehicle down, and one that never comes down lasts all its steps. */
  lemma {:induction false} ImpactExactly(s: Scenario, physics: seq<Physics>, obs: seq<Observation>)
    requires GoodRun(s, obs) && Driven(s, physics, obs) && End in obs[|obs| - 1].events && |obs| <= s.steps + 1
    ensures |obs| > 1
    ensures Impact in obs[|obs| - 1].events <==> Down(physics[|obs| - 2])
    ensures (forall k :: 0 <= k < |obs| - 1 ==> !Down(physics[k])) ==> |obs| == s.steps + 1
  {
    hide GoodVehicle, Explains, Pitch, Driven, Down;
    NotOnThePad(s, obs);
    EndsAtTheGround(s, physics, obs, |obs| - 1);
  }

  lemma {:induction false} NotOnThePad(s: Scenario, obs: seq<Observation>)
    requires GoodRun(s, obs) && End in obs[|obs| - 1].events
    ensures |obs| > 1
  {}

  /** The history of a mission: what some step raised, an ignition on the pad,
      and the pressure maximum exactly if some pressure was positive. */
  lemma {:induction false} HistoryMeans(s: Scenario, physics: seq<Physics>, obs: seq<Observation>,
                                        history: set<Event>, maxPressure: i32, cutoffStep: nat, e: Event)
    requires Recorded(s, physics, obs, history, maxPressure, cutoffStep)
    ensures e != MaxQ ==>
              (e in history <==> (exists k :: 0 <= k < |obs| && e in obs[k].events)
                                 || (e == Ignition && obs[0].vehicle.phase == Burning))
    ensures |obs| <= |physics| + 1
    ensures MaxQ in history <==> exists k :: 0 <= k < |obs| - 1 && physics[k].pressure > 0
    ensures forall k :: 0 <= k < |obs| - 1 ==> physics[k].pressure <= maxPressure
    ensures maxPressure == 0 || exists k :: 0 <= k < |obs| - 1 && physics[k].pressure == maxPressure
  {
    hide GoodRun, LastCutoff;
    RaisedMeans(obs, e);
    if e != MaxQ {
      assert e in history <==> e in history - {MaxQ};
    }
  }

  lemma {:induction false} RaisedMeans(obs: seq<Observation>, e: Event)
    ensures e in Raised(obs) <==> exists k :: 0 <= k < |obs| && e in obs[k].events
  {
    if obs != [] {
      var front := obs[..|obs| - 1];
      RaisedMeans(front, e);
      if e in Raised(front) {
        var k :| 0 <= k < |front| && e in front[k].events;
        assert e in obs[k].events;
      }
      if k :| 0 <= k < |obs| && e in obs[k].events {
        assert k < |obs| - 1 ==> front[k] == obs[k];
      }
    }
  }

  /** If the clock never runs back, the commanded pitch never drops. */
  lemma {:induction false} PitchNeverDrops(s: Scenario, physics: seq<Physics>, obs: seq<Observation>, i: nat, k: nat)
    requires ValidScenario(s) && Driven(s, physics, obs) && 0 < i <= k < |obs|
    requires ClockAt(physics, i - 1) <= ClockAt(physics, k - 1)
    ensures obs[i].pitch <= obs[k].pitch
  {
    hide Pitch;
    InitialFacts(s);
    assert Answers(s, physics[i - 1], ClockAt(physics, i - 1), obs[i]);
    assert Answers(s, physics[k - 1], ClockAt(physics, k - 1), obs[k]);
    PitchMonotone(ClockAt(physics, i - 1), ClockAt(physics, k - 1), s.knots, s.timestep, CLEAR);
  }

  /** A mission observed by a new emitter of its stride: the frames are those
      of the observed steps, and a mission that completes leaves nothing
      pending. */
  method RunWithTelemetry(s: Scenario, physics: seq<Physics>, finalStatus: NumericStatus, emitter: Emitter)
    returns (r: Result<MissionResult>, obs: seq<Observation>)
    requires ValidScenario(s) && |physics| >= s.steps
    requires emitter.stride == s.stride
    requires emitter.pending == {} && emitter.framesWritten == 0 && emitter.frames == []
    modifies emitter
    ensures GoodRun(s, obs) && Driven(s, physics, obs)
    ensures s.stride > 0 && emitter.frames == ExpectedFrames(obs, s.stride, |obs|)
    ensures emitter.framesWritten == |emitter.frames|
    ensures r.Ok? ==> emitter.pending == {}
  {
    hide GoodRun, Driven;
    r, obs := ExecuteMission(s, physics, finalStatus);
    Feed(emitter, obs);
  }

  /** Every event a completed mission raised is in the first frame written at
      or after its step. */
  lemma {:induction false} MissionEventsAreFramed(s: Scenario, obs: seq<Observation>, k: nat, e: Event) returns (j: nat)
    requires ValidScenario(s) && GoodRun(s, obs) && End in obs[|obs| - 1].events
    requires k < |obs| && e in obs[k].events
    ensures s.stride > 0 && k <= j < |obs| && Emits(obs[j], s.stride)
    ensures forall i :: k <= i < j ==> !Emits(obs[i], s.stride)
    ensures exists f :: f in ExpectedFrames(obs, s.stride, |obs|) && f.step == j && e in f.events
  {
    hide Emits, ExpectedFrames, Since;
    j := NoEventLost(obs, s.stride, k, e);
    assert Frame(j, Since(obs, s.stride, j)) in ExpectedFrames(obs, s.stride, |obs|);
  }
}
