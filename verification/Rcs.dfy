/**
 The mutable RCS state: scheduling, safing and edge queries in place, supply
 sampling, and integration of one edge-free segment of propellant flow.
 */
module Rcs {
  import opened Arithmetic
  import opened Numeric
  import opened Interpolation
  import opened Effectors
  import opened RcsValves
  import opened Wrappers

  const G0_Q16: i32 := 642_689

  class RcsState {
    var remaining: i32
    var accumulated: seq<u8>
    var openAt: seq<i32>
    var closeAt: seq<i32>
    var lastEpoch: i32

    ghost predicate Valid()
      reads this
    {
      |accumulated| == |openAt| == |closeAt| == MAX_RCS_JETS
    }

    /** The valve machine this object represents. */
    ghost function Valves(): (v: Valves)
      requires Valid()
      reads this
      ensures forall i :: 0 <= i < MAX_RCS_JETS ==>
                v.slots[i] == Slot(accumulated[i], openAt[i], closeAt[i])
      ensures v.lastEpoch == lastEpoch
    {
      RawValves(seq(MAX_RCS_JETS, i requires 0 <= i < MAX_RCS_JETS reads this requires Valid() =>
                  Slot(accumulated[i], openAt[i], closeAt[i])), lastEpoch)
    }

    constructor (wetMass: i32)
      ensures Valid() && remaining == wetMass && Valves() == Initial()
    {
      remaining := wetMass;
      accumulated := seq(MAX_RCS_JETS, _ => 0);
      openAt := seq(MAX_RCS_JETS, _ => NO_EDGE);
      closeAt := seq(MAX_RCS_JETS, _ => NO_EDGE);
      lastEpoch := -8192;
    }

    /** A fresh state needs a valid pack that carries jets. */
    static method Create(pack: Pack) returns (r: RcsResult<RcsState>)
      ensures !(ValidPack(pack) && pack.effectors.HasRcs()) ==> r == Err(InvalidPack)
      ensures ValidPack(pack) && pack.effectors.HasRcs() ==>
                r.Ok? && fresh(r.value) && r.value.Valid()
                && r.value.remaining == pack.wetMass && r.value.Valves() == Initial()
    {
      hide ValidPack;
      var valid := IsValid(pack);
      if !valid || !pack.effectors.HasRcs() {
        return Err(InvalidPack);
      }
      var state := new RcsState(pack.wetMass);
      return Ok(state);
    }

    /** Schedules the pulses of one release, or refuses and changes nothing. */
    method ScheduleSuccessor(command: Command, pack: Pack) returns (r: RcsResult<()>)
      requires Valid() && WellShaped(command)
      modifies this
      ensures Valid() && remaining == old(remaining)
      ensures !(ValidPack(pack) && pack.effectors.HasRcs()) ==> r == Err(InvalidPack) && unchanged(this)
      ensures ValidPack(pack) && pack.effectors.HasRcs() ==>
                && r == (match Refusal(old(Valves()), command) case None => Ok(()) case Some(e) => Err(e))
                && Valves() == Schedule(old(Valves()), command, pack.jets)
                && (r.Err? ==> unchanged(this))
    {
      hide ValidPack, JetRefusal;
      var valid := IsValid(pack);
      if !valid || !pack.effectors.HasRcs() {
        return Err(InvalidPack);
      }
      var epoch := command.epoch;
      if epoch < 0 || epoch % INTERVAL != 0 {
        return Err(InvalidEpoch);
      }
      if epoch <= lastEpoch {
        return Err(DuplicateOrStaleCommand);
      }
      var refused := FirstJetRefusal(command);
      if refused.Some? {
        return Err(refused.value);
      }
      ScheduleJets(command, pack.jets);
      return Ok(());
    }

    /** The checking pass, in jet order. */
    method FirstJetRefusal(command: Command) returns (r: Option<RcsError>)
      requires Valid() && WellShaped(command)
      ensures r == JetRefusal(Valves(), command, 0)
    {
      var epoch := command.epoch;
      for index := 0 to MAX_RCS_JETS
        invariant JetRefusal(Valves(), command, index) == JetRefusal(Valves(), command, 0)
      {
        if command.quanta[index] > 8 {
          return Some(InvalidCommand);
        }
        if (closeAt[index] != NO_EDGE && closeAt[index] > epoch)
           || (openAt[index] != NO_EDGE && openAt[index] > epoch)
        {
          return Some(PendingPulse);
        }
      }
      return None;
    }

    /** The scheduling pass of an accepted release. */
    method ScheduleJets(command: Command, jets: seq<Jet>)
      requires Valid() && WellShaped(command) && |jets| == MAX_RCS_JETS
      requires Refusal(Valves(), command) == None
      modifies this
      ensures Valid() && remaining == old(remaining)
      ensures Valves() == Schedule(old(Valves()), command, jets)
    {
      hide Rescheduled, Refusal;
      ghost var before := Valves();
      lastEpoch := command.epoch;
      for index := 0 to MAX_RCS_JETS
        invariant Valid() && remaining == old(remaining) && lastEpoch == command.epoch
        invariant forall i :: 0 <= i < index ==>
                    Slot(accumulated[i], openAt[i], closeAt[i])
                    == Rescheduled(before.slots[i], jets[i], command.quanta[i], command.faults[i], command.epoch)
        invariant forall i :: index <= i < MAX_RCS_JETS ==>
                    Slot(accumulated[i], openAt[i], closeAt[i]) == before.slots[i]
      {
        ScheduleJet(index, jets[index], command.quanta[index], command.faults[index], command.epoch);
      }
    }

    /** The loop body of the release: one jet, in place. */
    method ScheduleJet(index: nat, jet: Jet, requested: u8, fault: JetFault, epoch: i32)
      requires Valid() && index < MAX_RCS_JETS
      modifies this`accumulated, this`openAt, this`closeAt
      ensures Valid()
      ensures Slot(accumulated[index], openAt[index], closeAt[index])
           == Rescheduled(old(Slot(accumulated[index], openAt[index], closeAt[index])), jet, requested, fault, epoch)
      ensures forall i :: 0 <= i < MAX_RCS_JETS && i != index ==>
                accumulated[i] == old(accumulated[i]) && openAt[i] == old(openAt[i]) && closeAt[i] == old(closeAt[i])
    {
      openAt := openAt[index := NO_EDGE];
      closeAt := closeAt[index := NO_EDGE];
      if requested == 0 {
        return;
      }
      var total := SaturatingAdd8(accumulated[index], requested);
      if total < jet.minPulse {
        accumulated := accumulated[index := total];
        return;
      }
      var emitted := Min(total, jet.maxPulse);
      accumulated := accumulated[index := total - emitted];
      if fault == StuckClosed || fault == StuckOpen {
        return;
      }
      var extra := if fault == DelayedValveOneQuantum then 1 else 0;
      var delay := SaturatingAdd8(jet.valveDelay, extra);
      openAt := openAt[index := SaturatingAdd32(epoch, delay * QUANTUM)];
      closeAt := closeAt[index := SaturatingAdd32(openAt[index], emitted * QUANTUM)];
    }

    method MakeSafe()
      requires Valid()
      modifies this
      ensures Valid() && Valves() == Safed(old(Valves())) && remaining == old(remaining)
    {
      accumulated := seq(MAX_RCS_JETS, _ => 0);
      openAt := seq(MAX_RCS_JETS, _ => NO_EDGE);
      closeAt := seq(MAX_RCS_JETS, _ => NO_EDGE);
    }

    /** The earliest real edge in `(after, through]`, if there is one. */
    method NextValveEdgeAfter(after: i32, through: i32) returns (r: Option<i32>)
      requires Valid()
      ensures EarliestEdge(Valves(), after, through, r)
    {
      var edge := NO_EDGE;
      ghost var v := Valves();
      for index := 0 to MAX_RCS_JETS
        invariant edge != NO_EDGE ==> IsEdge(v, edge, after, through)
        invariant forall i :: 0 <= i < index ==>
                    && (after < openAt[i] <= through ==> edge <= openAt[i])
                    && (after < closeAt[i] <= through ==> edge <= closeAt[i])
      {
        var open, close := openAt[index], closeAt[index];
        assert v.slots[index].open == open && v.slots[index].close == close;
        if open > after && open <= through {
          edge := Min(edge, open);
        }
        if close > after && close <= through {
          edge := Min(edge, close);
        }
      }
      return if edge != NO_EDGE then Some(edge) else None;
    }

    method ActiveMaskAt(time: i32, faults: seq<JetFault>) returns (mask: set<nat>)
      requires Valid() && |faults| == MAX_RCS_JETS
      ensures mask == ActiveMask(Valves(), remaining, time, faults)
    {
      mask := {};
      if remaining <= 0 {
        return;
      }
      for index := 0 to MAX_RCS_JETS
        invariant mask == set i: nat | i < index && FaultScale(faults[i], ScheduledOpen(Valves().slots[i], time)) != 0
      {
        if FaultScale(faults[index], openAt[index] <= time < closeAt[index]) != 0 {
          mask := mask + {index};
        }
      }
    }

    /** Cuts `[start, end)` at every edge that a segment may not contain. The
        cuts ascend, no piece has an edge strictly inside, and the open time of
        the pieces adds up to the pulse clipped to the interval. */
    method SplitAtEdges(start: i32, end: i32) returns (cuts: seq<i32>)
      requires Valid() && start < end
      ensures |cuts| >= 2 && cuts[0] == start && cuts[|cuts| - 1] == end
      ensures forall k :: 0 <= k < |cuts| - 1 ==> EdgeFree(Valves(), cuts[k], cuts[k + 1])
      ensures forall i :: 0 <= i < MAX_RCS_JETS ==>
                ScheduledTime(Valves().slots[i], cuts) == ClippedOpenTime(Valves().slots[i], start, end)
    {
      hide ClippedOpenTime, EdgeFree;
      ghost var v := Valves();
      forall i | 0 <= i < MAX_RCS_JETS
        ensures ClippedOpenTime(v.slots[i], start, start) == 0
      {
        ClippedEmpty(v.slots[i], start);
      }
      cuts := [start];
      var now := start;
      while now < end
        invariant |cuts| >= 1 && cuts[0] == start && cuts[|cuts| - 1] == now <= end
        invariant now == start ==> cuts == [start]
        invariant start <= now
        invariant forall k :: 0 <= k < |cuts| - 1 ==> EdgeFree(v, cuts[k], cuts[k + 1])
        invariant forall i :: 0 <= i < MAX_RCS_JETS ==>
                    ScheduledTime(v.slots[i], cuts) == ClippedOpenTime(v.slots[i], start, now)
        decreases end - now
      {
        var edge := NextValveEdgeAfter(now, end);
        var next := if edge.Some? && edge.value < end then edge.value else end;
        CutIsEdgeFree(v, now, end, edge);
        forall i | 0 <= i < MAX_RCS_JETS
          ensures ScheduledTime(v.slots[i], cuts + [next]) == ClippedOpenTime(v.slots[i], start, next)
        {
          ExtendCuts(v, i, cuts, next);
          ClippedAdds(v.slots[i], start, now, next);
        }
        cuts := cuts + [next];
        now := next;
      }
    }
  }

  /** `r` is the earliest edge in `(after, through]`, or there is none. */
  ghost predicate EarliestEdge(v: Valves, after: int, through: int, r: Option<i32>) {
    match r
    case None => forall e :: !IsEdge(v, e, after, through)
    case Some(first) =>
      IsEdge(v, first, after, through) && forall e :: IsEdge(v, e, after, through) ==> first <= e
  }

  /** A non-empty interval with no edge strictly inside. */
  ghost predicate EdgeFree(v: Valves, start: int, end: int) {
    start < end && forall e :: IsEdge(v, e, start, end) ==> e >= end
  }

  /** Sum of the piece lengths whose start finds the valve open. */
  function ScheduledTime(slot: Slot, cuts: seq<i32>): int {
    if |cuts| < 2 then 0
    else
      var last := |cuts| - 1;
      ScheduledTime(slot, cuts[..last])
      + (if ScheduledOpen(slot, cuts[last - 1]) then Gap(cuts[last - 1], cuts[last]) else 0)
  }

  lemma {:induction false} ClippedEmpty(slot: Slot, at: int)
    ensures ClippedOpenTime(slot, at, at) == 0
  {}

  /** Cutting at the earliest edge leaves nothing strictly before it. */
  lemma {:induction false} CutIsEdgeFree(v: Valves, now: i32, end: i32, edge: Option<i32>)
    requires now < end
    requires EarliestEdge(v, now, end, edge)
    ensures EdgeFree(v, now, if edge.Some? && edge.value < end then edge.value else end)
  {
    var next := if edge.Some? && edge.value < end then edge.value else end;
    forall e | IsEdge(v, e, now, next)
      ensures e >= next
    {
      assert IsEdge(v, e, now, end);
    }
  }

  lemma {:induction false} ExtendCuts(v: Valves, i: nat, cuts: seq<i32>, next: i32)
    requires i < MAX_RCS_JETS && cuts != [] && EdgeFree(v, cuts[|cuts| - 1], next)
    ensures ScheduledTime(v.slots[i], cuts + [next])
         == ScheduledTime(v.slots[i], cuts) + ClippedOpenTime(v.slots[i], cuts[|cuts| - 1], next)
  {
    assert (cuts + [next])[..|cuts|] == cuts;
    OpenTimeOfSegment(v, cuts[|cuts| - 1], next, i);
  }

  // ----- supply

  datatype SupplySample = SupplySample(pressure: i32, thrustScale: i32, flowScale: i32)

  function Loads(knots: seq<SupplyKnot>): seq<i32> {
    seq(|knots|, i requires 0 <= i < |knots| => knots[i].remaining)
  }

  function Pressures(knots: seq<SupplyKnot>): seq<i32> {
    seq(|knots|, i requires 0 <= i < |knots| => knots[i].pressure)
  }

  function ThrustScales(knots: seq<SupplyKnot>): seq<i32> {
    seq(|knots|, i requires 0 <= i < |knots| => knots[i].thrustScale)
  }

  function FlowScales(knots: seq<SupplyKnot>): seq<i32> {
    seq(|knots|, i requires 0 <= i < |knots| => knots[i].flowScale)
  }

  /** Bounded below and above by entries of the column. */
  ghost predicate InEnvelope(v: int, column: seq<i32>) {
    exists i, j :: 0 <= i < |column| && 0 <= j < |column| && column[i] <= v <= column[j]
  }

  /** A positive column over a valid supply curve is sampled without a fault
      and inside its own envelope. */
  lemma {:induction false} ColumnInEnvelope(load: i32, knots: seq<SupplyKnot>, column: seq<i32>, status: NumericStatus)
    requires ValidSupply(knots) && 0 < |knots| == |column|
    requires forall i :: 0 <= i < |column| ==> 0 < column[i]
    ensures var r := Interpolate(load, Loads(knots), column, status);
            r.status == status && 0 < r.value && InEnvelope(r.value, column)
  {
    hide Interpolate;
    var loads := Loads(knots);
    GoodColumn(knots, column);
    InterpolateBracketed(load, loads, column, status);
    var v, last := Interpolate(load, loads, column, status).value, |loads| - 1;
    if load <= loads[0] {
      assert column[0] <= v <= column[0];
    } else if load >= loads[last] {
      assert column[last] <= v <= column[last];
    } else {
      var i := Locate(load, loads, last);
      assert Between(v, column[i], column[i + 1]);
      assert InEnvelope(v, column) by {
        if column[i] <= column[i + 1] {
          assert column[i] <= v <= column[i + 1];
        } else {
          assert column[i + 1] <= v <= column[i];
        }
      }
    }
  }

  ghost predicate GoodSample(s: SupplySample, knots: seq<SupplyKnot>) {
    && 0 < s.pressure && 0 < s.thrustScale && 0 < s.flowScale
    && InEnvelope(s.pressure, Pressures(knots))
    && InEnvelope(s.thrustScale, ThrustScales(knots))
    && InEnvelope(s.flowScale, FlowScales(knots))
  }

  /** The three curves interpolated at a load. */
  function SupplyAt(knots: seq<SupplyKnot>, load: i32): SupplySample {
    SupplySample(Interpolate(load, Loads(knots), Pressures(knots), CLEAR).value,
                 Interpolate(load, Loads(knots), ThrustScales(knots), CLEAR).value,
                 Interpolate(load, Loads(knots), FlowScales(knots), CLEAR).value)
  }

  /** The sample at a load: outside the curve its first or last knot, on a knot
      that knot, and between two knots on the straight line between them, off by
      at most half a unit and a 2^-16th of their difference. */
  lemma {:induction false} SupplyMeans(knots: seq<SupplyKnot>, load: i32, k: nat)
    requires ValidSupply(knots) && k < |knots|
    ensures AtKnot(knots, load, k) ==>
              SupplyAt(knots, load) == SupplySample(knots[k].pressure, knots[k].thrustScale, knots[k].flowScale)
    ensures k + 1 < |knots| && knots[k].remaining <= load < knots[k + 1].remaining ==>
              var s, left, right := SupplyAt(knots, load), knots[k], knots[k + 1];
              && OnLine(s.pressure, left.pressure, right.pressure, load, left.remaining, right.remaining)
              && OnLine(s.thrustScale, left.thrustScale, right.thrustScale, load, left.remaining, right.remaining)
              && OnLine(s.flowScale, left.flowScale, right.flowScale, load, left.remaining, right.remaining)
  {
    hide Interpolate, OnLine;
    ColumnMeans(knots, Pressures(knots), load, k);
    ColumnMeans(knots, ThrustScales(knots), load, k);
    ColumnMeans(knots, FlowScales(knots), load, k);
  }

  /** On knot `k`, or beyond it at an end of the curve. */
  predicate AtKnot(knots: seq<SupplyKnot>, load: i32, k: nat)
    requires k < |knots|
  {
    || load == knots[k].remaining
    || (k == 0 && load <= knots[k].remaining)
    || (k == |knots| - 1 && load >= knots[k].remaining)
  }

  /** Between two values and on the line between them, up to rounding. */
  ghost predicate OnLine(v: int, left: int, right: int, x: int, x0: int, x1: int) {
    && Min(left, right) <= v <= Max(left, right)
    && 0x1_0000 * Abs((v - left) * (x1 - x0) - (right - left) * (x - x0)) <= (0x8000 + Abs(right - left)) * (x1 - x0)
  }

  lemma {:induction false} ColumnMeans(knots: seq<SupplyKnot>, column: seq<i32>, load: i32, k: nat)
    requires ValidSupply(knots) && k < |knots| == |column|
    requires forall i :: 0 <= i < |column| ==> 0 < column[i]
    ensures var v := Interpolate(load, Loads(knots), column, CLEAR).value;
            && (AtKnot(knots, load, k) ==> v == column[k])
            && (k + 1 < |knots| && knots[k].remaining <= load < knots[k + 1].remaining ==>
                  OnLine(v, column[k], column[k + 1], load, knots[k].remaining, knots[k + 1].remaining))
  {
    hide Interpolate;
    var loads := Loads(knots);
    GoodColumn(knots, column);
    InterpolateBracketed(load, loads, column, CLEAR);
    if k + 1 < |knots| && knots[k].remaining <= load < knots[k + 1].remaining {
      assert InSegment(load, loads, k);
      InterpolateInSegment(load, loads, column, k, CLEAR);
      InterpolateAccurate(load, loads, column, k, CLEAR);
    }
  }

  lemma {:induction false} GoodColumn(knots: seq<SupplyKnot>, column: seq<i32>)
    requires ValidSupply(knots) && 0 < |knots| == |column|
    requires forall i :: 0 <= i < |column| ==> 0 < column[i]
    ensures GoodKnots(Loads(knots), column)
  {
    var loads := Loads(knots);
    forall i | 0 <= i < |loads| - 1
      ensures 0 < Interpolation.Step(loads, i) <= MAX_I32
    {
      assert knots[i].IsValid() && knots[i].remaining < knots[i + 1].remaining;
    }
  }

  /** Samples the supply curve. With a clear status it refuses only an invalid
      pack or a load outside [0, wet mass], and stays inside the knots. */
  method SampleSupply(pack: Pack, remaining: i32, status: NumericStatus)
    returns (r: RcsResult<SupplySample>, after: NumericStatus)
    ensures !(ValidPack(pack) && pack.effectors.HasRcs() && 0 <= remaining <= pack.wetMass) ==>
              r == Err(InvalidPack) && after == status
    ensures ValidPack(pack) && pack.effectors.HasRcs() && 0 <= remaining <= pack.wetMass ==>
              && after == status
              && (if status.IsClear() then
                    r == Ok(SupplyAt(pack.supplyKnots[..pack.supplyCount], remaining))
                    && GoodSample(r.value, pack.supplyKnots[..pack.supplyCount])
                  else r == Err(Numeric))
  {
    hide Interpolate, InEnvelope;
    var valid := IsValid(pack);
    if !valid || !pack.effectors.HasRcs() || !(0 <= remaining <= pack.wetMass) {
      return Err(InvalidPack), status;
    }
    var knots := pack.supplyKnots[..pack.supplyCount];
    var pressure, thrust, flow;
    ColumnInEnvelope(remaining, knots, Pressures(knots), status);
    ColumnInEnvelope(remaining, knots, ThrustScales(knots), status);
    ColumnInEnvelope(remaining, knots, FlowScales(knots), status);
    pressure, after := InterpolateClamped(remaining, Loads(knots), Pressures(knots), status);
    thrust, after := InterpolateClamped(remaining, Loads(knots), ThrustScales(knots), after);
    flow, after := InterpolateClamped(remaining, Loads(knots), FlowScales(knots), after);
    if after.IsClear() {
      return Ok(SupplySample(pressure, thrust, flow)), after;
    }
    return Err(Numeric), after;
  }
}
