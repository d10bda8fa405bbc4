/**
 The hobby mission loop and what every run of it keeps: the phase never goes
 back, each event is raised at most once and in a consistent order, and
 propellant follows the consumed impulse.
 */
module HobbyMission {
  import opened Arithmetic
  import opened Wrappers
  import opened Numeric
  import opened Faultless
  import opened HobbyFlight

  datatype MissionOutcome = Landed | NoLiftoff | RecoveryIncomplete | NumericFaulted | StepLimit

  datatype MissionError = Configuration

  type Result<T> = Wrappers.Result<T, MissionError>

  /** A state as the observer sees it. `faultless` says that reaching it left
      the status clear. */
  datatype Observation = Observation(state: State, events: set<Event>, liftoff: bool, faultless: bool)

  datatype Milestone = Milestone(time: i32, altitude: i32, velocity: i32)

  datatype MissionResult = MissionResult(outcome: MissionOutcome, terminal: State, faults: NumericStatus,
                                         history: set<Event>, milestones: map<Event, Milestone>)

  /** The state on the pad. The launch mass is an unchecked `i32` sum. */
  function Initial(p: Packs): State {
    State(0, 0, p.launchAltitude, 0, 0, Wrap32(p.dryMass + p.loadedMass), p.propellantMass, 0, ConstrainedPowered, 0)
  }

  /** `b` follows `a` under the evaluation `e` of `a`. */
  ghost predicate Next(p: Packs, e: Evaluation, a: Observation, b: Observation) {
    && a.faultless && e.faults.IsClear() && Running(p, a.state)
    && (p.totalImpulse > 0 ==> (b.faultless <==> StepFits(p, a.state, Grounded(a.state, a.liftoff), e)))
    && exists altitude :: Flies(p, a.state, a.liftoff, e, b.state, b.liftoff, b.events, altitude, b.faultless)
  }

  /** A run: from the pad, each observation follows from the one before under
      that one's evaluation. */
  ghost predicate GoodFlight(p: Packs, es: seq<Evaluation>, obs: seq<Observation>) {
    && 0 < |obs| <= |es| + 1 && obs[0] == Observation(Initial(p), {Ignition}, false, true)
    && (forall k :: 0 <= k < |obs| - 1 ==> Next(p, es[k], obs[k], obs[k + 1]))
  }

  function History(obs: seq<Observation>, n: nat): set<Event>
    requires n <= |obs|
  {
    if n == 0 then {} else History(obs, n - 1) + obs[n - 1].events
  }

  // ----- what every run keeps

  /** History and phase agree after observation `k`. */
  ghost predicate Settled(obs: seq<Observation>, k: nat)
    requires k < |obs|
  {
    && Consistent(obs[k].state.phase, History(obs, k + 1))
    && Aloft(obs[k], History(obs, k + 1))
    && Ignition in History(obs, k + 1)
  }

  /** Liftoff is recorded exactly when it happened, and nothing that needs an
      airborne rocket is recorded without it. */
  ghost predicate Aloft(o: Observation, history: set<Event>) {
    && (Liftoff in history <==> o.liftoff)
    && (o.state.velocity > 0 || Apogee in history || Ground in history ==> o.liftoff)
  }

  lemma {:induction false} StepSettles(p: Packs, e: Evaluation, a: Observation, b: Observation, history: set<Event>)
    requires Next(p, e, a, b) && Consistent(a.state.phase, history)
    requires Aloft(a, history) && Ignition in history
    ensures Consistent(b.state.phase, history + b.events)
    ensures Aloft(b, history + b.events)
    ensures b.events !! history && Rank(a.state.phase) <= Rank(b.state.phase)
  {
    hide Transition, Consistent, PropellantStep, Integrates;
    var altitude :| Flies(p, a.state, a.liftoff, e, b.state, b.liftoff, b.events, altitude, b.faultless);
    var m := HobbyFlight.Motion(b.state.time, a.state.velocity, b.state.velocity, altitude, b.liftoff);
    var l := Leg(a.state.phase, a.state.phaseStart, if b.liftoff && !a.liftoff then {Liftoff} else {});
    TransitionKeeps(l, p, m, history);
    TransitionNeverLiftsOff(l, p, m);
  }

  lemma {:induction false} TransitionNeverLiftsOff(l: Leg, p: Packs, m: HobbyFlight.Motion)
    ensures Liftoff in l.events <==> Liftoff in Transition(l, p, m).events
  {
    hide Lands;
  }

  lemma {:induction false} RunSettles(p: Packs, es: seq<Evaluation>, obs: seq<Observation>, k: nat)
    requires GoodFlight(p, es, obs) && k < |obs|
    ensures Settled(obs, k)
    ensures k > 0 ==> obs[k].events !! History(obs, k) && Rank(obs[k - 1].state.phase) <= Rank(obs[k].state.phase)
  {
    hide Next;
    if k == 0 {
      assert History(obs, 0) == {} && History(obs, 1) == {Ignition};
    } else {
      RunSettles(p, es, obs, k - 1);
      assert Next(p, es[k - 1], obs[k - 1], obs[k]);
      StepSettles(p, es[k - 1], obs[k - 1], obs[k], History(obs, k));
    }
  }

  /** The phase never moves backward. */
  lemma {:induction false} PhaseNeverBack(p: Packs, es: seq<Evaluation>, obs: seq<Observation>, i: nat, k: nat)
    requires GoodFlight(p, es, obs) && i <= k < |obs|
    ensures Rank(obs[i].state.phase) <= Rank(obs[k].state.phase)
    decreases k - i
  {
    hide GoodFlight;
    if i < k {
      PhaseNeverBack(p, es, obs, i, k - 1);
      RunSettles(p, es, obs, k);
    }
  }

  lemma {:induction false} HistoryHolds(obs: seq<Observation>, i: nat, n: nat)
    requires i < n <= |obs|
    ensures obs[i].events <= History(obs, n)
  {
    if i < n - 1 {
      HistoryHolds(obs, i, n - 1);
    }
  }

  /** No event is raised twice. */
  lemma {:induction false} EachEventOnce(p: Packs, es: seq<Evaluation>, obs: seq<Observation>, i: nat, k: nat)
    requires GoodFlight(p, es, obs) && i < k < |obs|
    ensures obs[i].events !! obs[k].events
  {
    hide GoodFlight;
    RunSettles(p, es, obs, k);
    HistoryHolds(obs, i, k);
  }

  /** Main implies drogue, apogee and burnout; apogee and landing imply
      liftoff; landing ends the flight. */
  lemma {:induction false} EventsInOrder(p: Packs, es: seq<Evaluation>, obs: seq<Observation>, k: nat)
    requires GoodFlight(p, es, obs) && k < |obs|
    ensures var h := History(obs, k + 1);
            && (Main in h ==> Drogue in h && Apogee in h && Burnout in h)
            && (Drogue in h <==> Apogee in h) && (Apogee in h ==> Burnout in h)
            && (Apogee in h || Ground in h ==> Liftoff in h)
            && (Ground in h <==> End in h) && (Ground in h ==> k == |obs| - 1)
  {
    RunSettles(p, es, obs, k);
    if k < |obs| - 1 {
      assert Next(p, es[k], obs[k], obs[k + 1]);
    }
  }

  /** While the status is clear, propellant is the fixed non-increasing
      function of consumed impulse, and the rest of the mass is constant. */
  lemma {:induction false} PropellantFollowsImpulse(p: Packs, es: seq<Evaluation>, obs: seq<Observation>, k: nat)
    requires p.IsValid() && GoodFlight(p, es, obs) && k < |obs| && obs[k].faultless
    ensures obs[k].state.propellant == PropellantAt(p, obs[k].state.impulse)
    ensures k > 0 ==> obs[k].state.mass - obs[k].state.propellant == DryPlusCase(p)
    ensures k > 0 ==> obs[k - 1].state.impulse <= obs[k].state.impulse
                      && obs[k].state.propellant <= obs[k - 1].state.propellant
  {
    hide PropellantAt, Transition;
    if k == 0 {
      PropellantAtStart(p);
    } else {
      assert Next(p, es[k - 1], obs[k - 1], obs[k]);
      PropellantFollowsImpulse(p, es, obs, k - 1);
      PropellantNonIncreasing(p, obs[k - 1].state.impulse, obs[k].state.impulse);
    }
  }

  /** Until liftoff the pad holds the rocket still. */
  lemma {:induction false} PadHolds(p: Packs, es: seq<Evaluation>, obs: seq<Observation>, k: nat)
    requires GoodFlight(p, es, obs) && k < |obs| && obs[k].faultless
    requires obs[k].state.phase == ConstrainedPowered && !obs[k].liftoff
    ensures obs[k].state.velocity == 0 && obs[k].state.altitude == p.launchAltitude
  {
    hide Transition, PropellantStep, Scaled;
    if k > 0 {
      assert Next(p, es[k - 1], obs[k - 1], obs[k]);
      RunSettles(p, es, obs, k);
      PadHolds(p, es, obs, k - 1);
      NoClimb();
    }
  }

  lemma {:induction false} NoClimb()
    ensures Scaled(0, POWERED_STEP, 24) == 0
  {
    RoundExact(0, Pow2(24));
  }

  /** On the pad the same split holds exactly when the launch mass fits. */
  lemma {:induction false} LaunchMassSplit(p: Packs)
    requires p.IsValid()
    ensures Initial(p).mass - Initial(p).propellant == DryPlusCase(p) <==> p.dryMass + p.loadedMass <= MAX_I32
  {}

  /** Admissible packs of the two largest masses launch with a wrapped mass. */
  lemma {:induction false} HeaviestLaunchWraps()
    ensures var p := Packs(MAX_MASS, MAX_MASS, 1, 1, 1, 0, 1, 1, 1, 1, 1);
            p.IsValid() && Initial(p).mass == MIN_I32 && Initial(p).mass - Initial(p).propellant != DryPlusCase(p)
  {
    LaunchMassSplit(Packs(MAX_MASS, MAX_MASS, 1, 1, 1, 0, 1, 1, 1, 1, 1));
  }

  // ----- thresholds that wrap

  /** What one step of a run raised, in terms of the transition it made. */
  lemma {:induction false} StepThresholds(p: Packs, e: Evaluation, a: Observation, b: Observation)
    returns (altitude: i32)
    requires Next(p, e, a, b)
    ensures RailExit in b.events <==> a.state.phase == ConstrainedPowered && altitude >= p.RailTop()
    ensures Main in b.events ==> b.state.velocity < 0 && altitude <= p.MainThreshold()
    ensures Ground in b.events <==> b.liftoff && b.state.velocity < 0 && altitude <= p.launchAltitude
    ensures b.faultless ==>
              altitude == a.state.altitude + Rise(a.state, Grounded(a.state, a.liftoff), e)
              && b.state.velocity == VelocityAfter(a.state, Grounded(a.state, a.liftoff), e)
  {
    hide Transition, PropellantStep, StepFits, Wrap32;
    altitude :| Flies(p, a.state, a.liftoff, e, b.state, b.liftoff, b.events, altitude, b.faultless);
    var m := HobbyFlight.Motion(b.state.time, a.state.velocity, b.state.velocity, altitude, b.liftoff);
    var l := Leg(a.state.phase, a.state.phaseStart, if b.liftoff && !a.liftoff then {Liftoff} else {});
    ThresholdEvents(l, p, m);
    GroundOnlyByLanding(l, p, m);
  }

  /** When the rail sum wraps, the first step of every flight leaves the rail. */
  lemma {:induction false} WrappedRailExitsAtOnce(p: Packs, es: seq<Evaluation>, obs: seq<Observation>)
    requires p.IsValid() && !RailFits(p) && GoodFlight(p, es, obs) && 1 < |obs| && obs[1].faultless
    ensures RailExit in obs[1].events
  {
    hide Next, Scaled;
    assert Next(p, es[0], obs[0], obs[1]);
    var altitude := StepThresholds(p, es[0], obs[0], obs[1]);
    RiseFromPad(obs[0].state, es[0]);
  }

  /** A held rocket does not sink. */
  lemma {:induction false} RiseFromPad(a: State, e: Evaluation)
    ensures 0 <= Rise(a, true, e)
  {
    var v, dt := VelocityAfter(a, true, e), Cadence(a.phase);
    MulMonotone(0, v, dt);
    RoundNonNegative(v * dt, Pow2(24));
  }

  /** When the main sum wraps, the main comes out only at the landing, in any
      flight. */
  lemma {:induction false} WrappedMainOnlyOnGround(p: Packs, es: seq<Evaluation>, obs: seq<Observation>, k: nat)
    requires p.IsValid() && !MainFits(p) && GoodFlight(p, es, obs) && k < |obs| && Main in obs[k].events
    ensures Ground in obs[k].events
  {
    hide Next;
    RunSettles(p, es, obs, k);
    HistoryHolds(obs, k, k + 1);
    assert Next(p, es[k - 1], obs[k - 1], obs[k]);
    var altitude := StepThresholds(p, es[k - 1], obs[k - 1], obs[k]);
  }

  /** Admissible packs for which both sums wrap. */
  lemma {:induction false} HighestLaunchWraps()
    ensures var p := Packs(1, 2, 1, 1, 1, MAX_I32, 1, 1, 1, 1, 1);
            p.IsValid() && !RailFits(p) && !MainFits(p) && p.RailTop() == p.MainThreshold() == MIN_I32
  {}

  // ----- the loop

  /** The outcome the final state and status call for. */
  function Verdict(s: State, liftoff: bool, status: NumericStatus): MissionOutcome {
    if !status.IsClear() then NumericFaulted
    else if s.phase == Complete then Landed
    else if !liftoff then NoLiftoff
    else if s.step >= MAX_STEPS then StepLimit
    else RecoveryIncomplete
  }

  /** The outcome, from the status, the history and the number of steps. */
  ghost predicate OutcomeFits(r: MissionResult) {
    match r.outcome
    case NumericFaulted => r.faults != CLEAR
    case Landed => r.faults == CLEAR && Ground in r.history
    case NoLiftoff => r.faults == CLEAR && Ground !in r.history && Liftoff !in r.history
    case StepLimit =>
      r.faults == CLEAR && Ground !in r.history && Liftoff in r.history && r.terminal.step >= 200_000
    case RecoveryIncomplete =>
      r.faults == CLEAR && Ground !in r.history && Liftoff in r.history && r.terminal.step < 200_000
  }

  lemma {:induction false} VerdictFits(p: Packs, es: seq<Evaluation>, obs: seq<Observation>, r: MissionResult)
    requires GoodFlight(p, es, obs) && r.terminal == obs[|obs| - 1].state && r.history == History(obs, |obs|)
    requires r.outcome == Verdict(r.terminal, obs[|obs| - 1].liftoff, r.faults)
    ensures OutcomeFits(r)
  {
    hide Next;
    RunSettles(p, es, obs, |obs| - 1);
  }

  /** What ends the loop. */
  predicate Stops(p: Packs, s: State, status: NumericStatus) {
    !status.IsClear() || s.phase == Complete || s.step >= MAX_STEPS || s.time >= p.maxTime
  }

  /** Events that leave a milestone. */
  function Marked(events: set<Event>): set<Event> {
    events * {RailExit, Burnout, Apogee, Drogue, Main, Ground}
  }

  /** Records the milestones of one step; a landing is marked at the clamped
      launch altitude, every other one at the integrated altitude. */
  method Mark(milestones: map<Event, Milestone>, s: State, events: set<Event>, altitude: i32)
    returns (r: map<Event, Milestone>)
    ensures r.Keys == milestones.Keys + Marked(events)
    ensures forall e :: e in milestones && e !in events ==> r[e] == milestones[e]
    ensures forall e :: e in Marked(events) ==>
              r[e] == Milestone(s.time, if e == Ground then s.altitude else altitude, s.velocity)
  {
    r := milestones;
    var here := Milestone(s.time, altitude, s.velocity);
    if RailExit in events {
      r := r[RailExit := here];
    }
    if Burnout in events {
      r := r[Burnout := here];
    }
    if Apogee in events {
      r := r[Apogee := here];
    }
    if Drogue in events {
      r := r[Drogue := here];
    }
    if Main in events {
      r := r[Main := here];
    }
    if Ground in events {
      r := r[Ground := Milestone(s.time, s.altitude, s.velocity)];
    }
  }

  lemma {:induction false} ExtendFlight(p: Packs, es: seq<Evaluation>, obs: seq<Observation>, o: Observation)
    requires GoodFlight(p, es, obs) && |obs| <= |es| && Next(p, es[|obs| - 1], obs[|obs| - 1], o)
    ensures GoodFlight(p, es, obs + [o]) && History(obs + [o], |obs| + 1) == History(obs, |obs|) + o.events
  {
    hide Next;
    var longer := obs + [o];
    forall k | 0 <= k < |longer| - 1
      ensures Next(p, es[k], longer[k], longer[k + 1])
    {
      if k == |obs| - 1 {
        assert longer[k] == obs[k] && longer[k + 1] == o;
      }
    }
    HistoryOfPrefix(obs, o, |obs|);
  }

  lemma {:induction false} HistoryOfPrefix(obs: seq<Observation>, o: Observation, n: nat)
    requires n <= |obs|
    ensures History(obs + [o], n) == History(obs, n)
  {
    if n > 0 {
      HistoryOfPrefix(obs, o, n - 1);
    }
  }

  /** The milestone of `e` is the time, altitude and velocity of the
      observation that raised it. Only an event raised together with the landing
      keeps the altitude from before the clamp, at or below the launch. */
  ghost predicate MilestoneOf(m: Milestone, e: Event, o: Observation, p: Packs) {
    && m.time == o.state.time && m.velocity == o.state.velocity
    && (if Ground in o.events && e != Ground then m.altitude <= p.launchAltitude else m.altitude == o.state.altitude)
  }

  ghost predicate MilestonesMatch(milestones: map<Event, Milestone>, obs: seq<Observation>, p: Packs) {
    forall k, e :: 0 <= k < |obs| && e in obs[k].events && e in {RailExit, Burnout, Apogee, Drogue, Main, Ground} ==>
                     e in milestones && MilestoneOf(milestones[e], e, obs[k], p)
  }

  /** A landing sits at the launch altitude; any other state, at the integrated. */
  lemma {:induction false} AltitudeReached(p: Packs, a: State, aloft: bool, e: Evaluation, b: State, liftoff: bool,
                                           events: set<Event>, altitude: i32, clear: bool)
    requires Flies(p, a, aloft, e, b, liftoff, events, altitude, clear)
    ensures if Ground in events then altitude <= p.launchAltitude == b.altitude else b.altitude == altitude
  {
    hide PropellantStep, Integrates, Transition;
    var l := Leg(a.phase, a.phaseStart, if liftoff && !aloft then {Liftoff} else {});
    GroundOnlyByLanding(l, p, HobbyFlight.Motion(b.time, a.velocity, b.velocity, altitude, liftoff));
  }

  lemma {:induction false} GroundOnlyByLanding(l: Leg, p: Packs, m: HobbyFlight.Motion)
    requires Ground !in l.events
    ensures Ground in Transition(l, p, m).events <==> Lands(p, m)
  {
    hide Lands;
  }

  /** Marking the events of one more observation keeps the milestones right,
      because no event comes twice. */
  lemma {:induction false} MilestonesStep(p: Packs, es: seq<Evaluation>, obs: seq<Observation>, o: Observation,
                                          before: map<Event, Milestone>, after: map<Event, Milestone>, altitude: i32)
    requires GoodFlight(p, es, obs + [o]) && MilestonesMatch(before, obs, p)
    requires after.Keys == before.Keys + Marked(o.events)
    requires forall e :: e in before && e !in o.events ==> after[e] == before[e]
    requires forall e :: e in Marked(o.events) ==>
               after[e] == Milestone(o.state.time, if e == Ground then o.state.altitude else altitude, o.state.velocity)
    requires if Ground in o.events then altitude <= p.launchAltitude else o.state.altitude == altitude
    ensures MilestonesMatch(after, obs + [o], p)
  {
    hide GoodFlight;
    var longer := obs + [o];
    forall k, e | 0 <= k < |longer| && e in Marked(longer[k].events)
      ensures e in after && MilestoneOf(after[e], e, longer[k], p)
    {
      if k < |obs| {
        EachEventOnce(p, es, longer, k, |obs|);
        assert e in Marked(obs[k].events);
      }
    }
  }

  /** Runs a mission under any thrust and acceleration. The loop ends within
      the step limit, its observations are a good flight, the history is what
      they raised, and the milestones are exactly the marked events, each as
      the observation that raised it shows it.
      `restValid` stands for the pack checks on fields the machine does not
      read: identities, geometry, motor knots and compatibility. */
  method RunMission(p: Packs, restValid: bool, evaluations: seq<Evaluation>)
    returns (r: Result<MissionResult>, obs: seq<Observation>)
    requires |evaluations| > MAX_STEPS
    ensures r == Err(Configuration) <==> !p.IsValid() || !restValid
    ensures r.Ok? ==> GoodFlight(p, evaluations, obs) && |obs| <= MAX_STEPS + 1
    ensures r.Ok? ==> r.value.terminal == obs[|obs| - 1].state
    ensures r.Ok? ==> r.value.history == History(obs, |obs|)
    ensures r.Ok? ==>
              r.value.milestones.Keys == r.value.history * {RailExit, Burnout, Apogee, Drogue, Main, Ground}
    ensures r.Ok? ==> MilestonesMatch(r.value.milestones, obs, p)
    ensures r.Ok? ==> r.value.outcome == Verdict(r.value.terminal, obs[|obs| - 1].liftoff, r.value.faults)
    ensures r.Ok? ==>
              (r.value.faults.IsClear() <==> obs[|obs| - 1].faultless && evaluations[|obs| - 1].faults.IsClear())
    ensures r.Ok? ==> Stops(p, r.value.terminal, r.value.faults) && OutcomeFits(r.value)
  {
    hide GoodFlight, Next, Flies, PropellantStep, MilestonesMatch, Verdict, StepFits, OutcomeFits;
    obs := [];
    if !p.IsValid() || !restValid {
      return Err(Configuration), obs;
    }
    var state, status, liftoff := Initial(p), CLEAR, false;
    var history, pending := {Ignition}, {Ignition};
    var milestones: map<Event, Milestone> := map[];
    var faultless := true;
    StartFlight(p, evaluations);
    while true
      invariant |obs| == state.step <= MAX_STEPS
      invariant 0 <= state.impulse <= p.totalImpulse && 0 <= state.phaseStart <= state.time
      invariant status.IsClear() <==> faultless
      invariant GoodFlight(p, evaluations, obs + [Observation(state, pending, liftoff, faultless)])
      invariant history == History(obs + [Observation(state, pending, liftoff, faultless)], |obs| + 1)
      invariant milestones.Keys == Marked(history)
      invariant MilestonesMatch(milestones, obs + [Observation(state, pending, liftoff, faultless)], p)
      decreases MAX_STEPS - state.step
    {
      var e := evaluations[state.step];
      status := status.Join(e.faults);
      ghost var current := Observation(state, pending, liftoff, faultless);
      obs := obs + [Observation(state, pending, liftoff, faultless)];
      pending := {};
      if !status.IsClear() || state.phase == Complete {
        break;
      }
      if state.step >= MAX_STEPS || state.time >= p.maxTime {
        break;
      }
      var b, altitude;
      ghost var a, wasAloft := state, liftoff;
      b, liftoff, pending, status, altitude := AdvanceFlight(p, state, liftoff, e, status);
      faultless := status.IsClear();
      ClockAdvances(p, a, wasAloft, e, b, liftoff, pending, altitude, faultless);
      NextHolds(p, current, e, Observation(b, pending, liftoff, faultless), altitude);
      ExtendFlight(p, evaluations, obs, Observation(b, pending, liftoff, faultless));
      AltitudeReached(p, a, wasAloft, e, b, liftoff, pending, altitude, faultless);
      ghost var marked := milestones;
      milestones := Mark(milestones, b, pending, altitude);
      MilestonesStep(p, evaluations, obs, Observation(b, pending, liftoff, faultless), marked, milestones, altitude);
      assert Marked(history + pending) == Marked(history) + Marked(pending);
      history := history + pending;
      state := b;
    }
    r := Ok(MissionResult(Verdict(state, liftoff, status), state, status, history, milestones));
    VerdictFits(p, evaluations, obs, r.value);
  }

  lemma {:induction false} StartFlight(p: Packs, es: seq<Evaluation>)
    ensures var o := Observation(Initial(p), {Ignition}, false, true);
            GoodFlight(p, es, [] + [o]) && History([] + [o], 1) == {Ignition} && MilestonesMatch(map[], [] + [o], p)
  {
    var o := Observation(Initial(p), {Ignition}, false, true);
    assert History([] + [o], 0) == {};
  }

  lemma {:induction false} ClockAdvances(p: Packs, a: State, aloft: bool, e: Evaluation, b: State, liftoff: bool,
                                         events: set<Event>, altitude: i32, clear: bool)
    requires Flies(p, a, aloft, e, b, liftoff, events, altitude, clear) && Running(p, a)
    ensures b.step == a.step + 1 && 0 <= b.phaseStart <= b.time
  {
    hide Wrap32, PropellantStep, Integrates;
  }

  lemma {:induction false} NextHolds(p: Packs, a: Observation, e: Evaluation, b: Observation, altitude: i32)
    requires a.faultless && e.faults.IsClear() && Running(p, a.state) && p.totalImpulse > 0
    requires b.faultless <==> StepFits(p, a.state, Grounded(a.state, a.liftoff), e)
    requires Flies(p, a.state, a.liftoff, e, b.state, b.liftoff, b.events, altitude, b.faultless)
    ensures Next(p, e, a, b)
  {}
}
