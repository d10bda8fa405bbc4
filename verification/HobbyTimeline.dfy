/**
 When each phase of a hobby flight ends and each event is raised, how the
 rocket moves and what it burns, in the quantities of the packs and of two
 successive observations alone.
 */
module HobbyTimeline {
  import opened Arithmetic
  import opened Faultless
  import opened HobbyFlight
  import opened HobbyMission

  /** The two powered phases. */
  predicate IsPowered(p: Phase) {
    p == ConstrainedPowered || p == Powered
  }

  /** The two phases under the drogue. */
  predicate IsUnderDrogue(p: Phase) {
    p == DrogueInflating || p == DrogueDescent
  }

  // ----- one transition

  /** Every event of a transition, from the kinematics and the phase before. */
  lemma {:induction false} TransitionEvents(l: Leg, p: Packs, m: HobbyFlight.Motion)
    requires p.IsValid() && l.events <= {Liftoff}
    ensures var events := Transition(l, p, m).events;
            && (RailExit in events <==> l.phase == ConstrainedPowered && m.altitude >= p.RailTop())
            && (Burnout in events <==> IsPowered(l.phase) && m.time >= p.burnTime)
            && (Apogee in events <==>
                  (l.phase == Coast || Burnout in events) && m.velocityBefore > 0 && m.velocity <= 0)
            && (Drogue in events <==> Apogee in events)
            && (Main in events <==>
                  (IsUnderDrogue(l.phase) || Apogee in events) && m.velocity < 0 && m.altitude <= p.MainThreshold())
            && (Ground in events <==> m.liftoff && m.velocity < 0 && m.altitude <= p.launchAltitude)
            && (End in events <==> Ground in events)
            && (Liftoff in events <==> Liftoff in l.events) && Ignition !in events
  {
    hide Wrap32;
  }

  /** The phase after a transition, from its events and the time spent inflating;
      the phase clock restarts exactly when the phase changes. */
  lemma {:induction false} TransitionPhases(l: Leg, p: Packs, m: HobbyFlight.Motion)
    requires p.IsValid() && l.events <= {Liftoff} && l.phase != Complete
    ensures var t := Transition(l, p, m);
            && t.start == (if t.phase == l.phase then l.start else m.time)
            && (t.phase == Complete <==> Ground in t.events)
            && (Ground !in t.events ==>
                  && (t.phase == ConstrainedPowered <==>
                        l.phase == ConstrainedPowered && RailExit !in t.events && Burnout !in t.events)
                  && (t.phase == Powered <==>
                        (l.phase == Powered || RailExit in t.events) && Burnout !in t.events)
                  && (t.phase == Coast <==> (l.phase == Coast || Burnout in t.events) && Apogee !in t.events)
                  && (t.phase == DrogueInflating <==>
                        (Apogee in t.events || (l.phase == DrogueInflating && m.time - l.start < p.drogueInflation))
                        && Main !in t.events)
                  && (t.phase == DrogueDescent <==>
                        (l.phase == DrogueDescent
                         || (l.phase == DrogueInflating && m.time - l.start >= p.drogueInflation))
                        && Main !in t.events)
                  && (t.phase == MainInflating <==>
                        Main in t.events || (l.phase == MainInflating && m.time - l.start < p.mainInflation))
                  && (t.phase == MainDescent <==>
                        l.phase == MainDescent
                        || (l.phase == MainInflating && m.time - l.start >= p.mainInflation)))
  {
    hide Wrap32;
  }

  // ----- one step of a flight

  /** The observation before the last, with what led on from it. */
  lemma {:induction false} StepOf(p: Packs, es: seq<Evaluation>, obs: seq<Observation>, k: nat)
    returns (altitude: i32)
    requires p.IsValid() && GoodFlight(p, es, obs) && 0 < k < |obs|
    ensures k <= |es| && es[k - 1].faults.IsClear() && obs[k - 1].faultless && obs[k - 1].state.phase != Complete
    ensures var a, b := obs[k - 1], obs[k];
            && Flies(p, a.state, a.liftoff, es[k - 1], b.state, b.liftoff, b.events, altitude, b.faultless)
  {
    hide Flies, StepFits;
    assert Next(p, es[k - 1], obs[k - 1], obs[k]);
    altitude :| Flies(p, obs[k - 1].state, obs[k - 1].liftoff, es[k - 1], obs[k].state, obs[k].liftoff, obs[k].events,
                      altitude, obs[k].faultless);
  }

  /** What a step of the flight says about its events: liftoff, burnout, apogee
      and drogue, and the landing, and, when their sums fit, rail exit and main. */
  lemma {:induction false} EventsOnTime(p: Packs, es: seq<Evaluation>, obs: seq<Observation>, k: nat)
    requires p.IsValid() && GoodFlight(p, es, obs) && 0 < k < |obs|
    ensures var a, b, events := obs[k - 1].state, obs[k].state, obs[k].events;
            && (Liftoff in events <==> !obs[k - 1].liftoff && b.velocity > 0)
            && (obs[k].liftoff <==> obs[k - 1].liftoff || b.velocity > 0)
            && (Burnout in events <==> IsPowered(a.phase) && b.time >= p.burnTime)
            && (Apogee in events <==>
                  (a.phase == Coast || Burnout in events) && a.velocity > 0 && b.velocity <= 0)
            && (Drogue in events <==> Apogee in events)
            && (Ground in events <==> obs[k].liftoff && b.velocity < 0 && b.altitude <= p.launchAltitude)
            && (End in events <==> Ground in events) && Ignition !in events
            && (p.launchAltitude + p.railLength <= MAX_I32 ==>
                  (RailExit in events <==>
                     a.phase == ConstrainedPowered && b.altitude >= p.launchAltitude + p.railLength))
            && (p.launchAltitude + p.mainAltitude <= MAX_I32 ==>
                  (Main in events <==>
                     (IsUnderDrogue(a.phase) || Apogee in events) && b.velocity < 0
                     && b.altitude <= p.launchAltitude + p.mainAltitude))
  {
    hide Transition, PropellantStep, Integrates, Wrap32, GoodFlight;
    var altitude := StepOf(p, es, obs, k);
    var a, b := obs[k - 1], obs[k];
    var m := HobbyFlight.Motion(b.state.time, a.state.velocity, b.state.velocity, altitude, b.liftoff);
    TransitionEvents(Leg(a.state.phase, a.state.phaseStart, if b.liftoff && !a.liftoff then {Liftoff} else {}), p, m);
    SumsThatFit(p);
  }

  lemma {:induction false} SumsThatFit(p: Packs)
    ensures RailFits(p) && 0 <= p.launchAltitude && 0 < p.railLength ==> p.RailTop() == p.launchAltitude + p.railLength
    ensures MainFits(p) && 0 <= p.launchAltitude && 0 < p.mainAltitude ==>
              p.MainThreshold() == p.launchAltitude + p.mainAltitude
  {}

  /** ... and about its phase: each begins with its event, both inflations last
      until their time has passed, the main or the ground permitting, and the
      phase clock restarts exactly when the phase changes. */
  lemma {:induction false} PhasesOnTime(p: Packs, es: seq<Evaluation>, obs: seq<Observation>, k: nat)
    requires p.IsValid() && GoodFlight(p, es, obs) && 0 < k < |obs|
    ensures var a, b, events := obs[k - 1].state, obs[k].state, obs[k].events;
            && b.phaseStart == (if b.phase == a.phase then a.phaseStart else b.time)
            && (b.phase == Complete <==> Ground in events)
            && (Ground !in events ==>
                  && (b.phase == ConstrainedPowered <==>
                        a.phase == ConstrainedPowered && RailExit !in events && Burnout !in events)
                  && (b.phase == Powered <==> (a.phase == Powered || RailExit in events) && Burnout !in events)
                  && (b.phase == Coast <==> (a.phase == Coast || Burnout in events) && Apogee !in events)
                  && (b.phase == DrogueInflating <==>
                        (Apogee in events || (a.phase == DrogueInflating && b.time - a.phaseStart < p.drogueInflation))
                        && Main !in events)
                  && (b.phase == DrogueDescent <==>
                        (a.phase == DrogueDescent
                         || (a.phase == DrogueInflating && b.time - a.phaseStart >= p.drogueInflation))
                        && Main !in events)
                  && (b.phase == MainInflating <==>
                        Main in events || (a.phase == MainInflating && b.time - a.phaseStart < p.mainInflation))
                  && (b.phase == MainDescent <==>
                        a.phase == MainDescent
                        || (a.phase == MainInflating && b.time - a.phaseStart >= p.mainInflation)))
  {
    hide Transition, PropellantStep, Integrates, Wrap32, GoodFlight;
    var altitude := StepOf(p, es, obs, k);
    var a, b := obs[k - 1], obs[k];
    var m := HobbyFlight.Motion(b.state.time, a.state.velocity, b.state.velocity, altitude, b.liftoff);
    TransitionPhases(Leg(a.state.phase, a.state.phaseStart, if b.liftoff && !a.liftoff then {Liftoff} else {}), p, m);
  }

  // ----- motion and propellant

  /** The time step of a phase: 10, 20 or 50 milliseconds in Q18. */
  function Tick(p: Phase): int {
    if IsPowered(p) then 2_621 else if p == Coast then 5_243 else 13_107
  }

  /** How a fault-free step moves the rocket: `gain` and `rise` are acceleration
      and velocity times the time step, to nearest, and the pad lets neither sink
      below zero before liftoff. A landing ends on the launch altitude. */
  lemma {:induction false} MotionMeans(p: Packs, es: seq<Evaluation>, obs: seq<Observation>, k: nat)
    returns (gain: int, rise: int)
    requires p.IsValid() && GoodFlight(p, es, obs) && 0 < k < |obs| && obs[k].faultless
    ensures var a, b, dt := obs[k - 1].state, obs[k].state, Tick(obs[k - 1].state.phase);
            var held := a.phase == ConstrainedPowered && !obs[k - 1].liftoff;
            && k <= |es| && b.step == a.step + 1 && b.time == a.time + dt
            && b.acceleration == (if held then Max(0, es[k - 1].acceleration) else es[k - 1].acceleration)
            && IsNearestAwayFromZero(gain, b.acceleration * dt, 0x4_0000)
            && b.velocity == (if held then Max(0, a.velocity + gain) else a.velocity + gain)
            && IsNearestAwayFromZero(rise, b.velocity * dt, 0x100_0000)
            && b.altitude == (if Ground in obs[k].events then p.launchAltitude else a.altitude + rise)
            && (Ground in obs[k].events ==> a.altitude + rise <= p.launchAltitude)
  {
    hide Transition, PropellantStep, Wrap32, GoodFlight, RoundHalfAway;
    var altitude := StepOf(p, es, obs, k);
    var a, b, e := obs[k - 1], obs[k], es[k - 1];
    var held := Grounded(a.state, a.liftoff);
    gain, rise := Gain(a.state, held, e), Rise(a.state, held, e);
    AltitudeReached(p, a.state, a.liftoff, e, b.state, b.liftoff, b.events, altitude, b.faultless);
    Pow2OfScales();
    RoundHalfAwayIsNearest(b.state.acceleration * Cadence(a.state.phase), Pow2(18));
    RoundHalfAwayIsNearest(b.state.velocity * Cadence(a.state.phase), Pow2(24));
  }

  /** What a fault-free step burns: a lit motor delivers thrust times the time
      step up to its total impulse, and the propellant left is the load less the
      share of it that the delivered impulse is of the total, each to nearest. */
  lemma {:induction false} BurnMeans(p: Packs, es: seq<Evaluation>, obs: seq<Observation>, k: nat)
    returns (delta: int, ratio: int, used: int)
    requires p.IsValid() && GoodFlight(p, es, obs) && 0 < k < |obs| && obs[k].faultless
    ensures var a, b, dt := obs[k - 1].state, obs[k].state, Tick(obs[k - 1].state.phase);
            && k <= |es|
            && IsNearestAwayFromZero(delta, es[k - 1].thrust * dt, 0x8000)
            && IsNearestAwayFromZero(ratio, p.propellantMass * 0x1_0000, p.totalImpulse)
            && IsNearestAwayFromZero(used, ratio * b.impulse, 0x1_0000)
            && (if es[k - 1].thrust > 0 && a.impulse < p.totalImpulse then
                  b.impulse == Min(a.impulse + delta, p.totalImpulse) && b.propellant == Max(0, p.propellantMass - used)
                else b.impulse == a.impulse && b.propellant == a.propellant)
            && b.mass == p.dryMass + p.loadedMass - p.propellantMass + b.propellant
  {
    hide Transition, Integrates, Wrap32, GoodFlight, RoundHalfAway;
    var altitude := StepOf(p, es, obs, k);
    var a, b, e := obs[k - 1], obs[k], es[k - 1];
    delta, ratio, used := Scaled(e.thrust, Cadence(a.state.phase), 15), Ratio(p), Scaled(Ratio(p), b.state.impulse, 16);
    Pow2OfScales();
    Pow2Of32();
    RoundHalfAwayIsNearest(e.thrust * Cadence(a.state.phase), Pow2(15));
    RoundHalfAwayIsNearest(p.propellantMass * Pow2(16), p.totalImpulse);
    RoundHalfAwayIsNearest(ratio * b.state.impulse, Pow2(16));
  }

  /** The flight starts fuelled and at rest on the pad, ignited, at step and time
      zero, and weighs what it was loaded with when that fits. */
  lemma {:induction false} StartMeans(p: Packs, es: seq<Evaluation>, obs: seq<Observation>)
    requires p.IsValid() && GoodFlight(p, es, obs)
    ensures var o := obs[0];
            && o.events == {Ignition} && !o.liftoff && o.faultless
            && o.state.step == 0 && o.state.time == 0 && o.state.altitude == p.launchAltitude
            && o.state.velocity == 0 && o.state.acceleration == 0 && o.state.propellant == p.propellantMass
            && o.state.impulse == 0 && o.state.phase == ConstrainedPowered && o.state.phaseStart == 0
            && (p.dryMass + p.loadedMass <= MAX_I32 ==> o.state.mass == p.dryMass + p.loadedMass)
  {}
}
