/**
 Open-loop pitch guidance: validation of a pitch program and the pitch it
 commands at each instant.
 */
module Guidance {
  import opened Arithmetic
  import opened Numeric
  import opened TwoWord
  import opened Interpolation

  const PROGRADE: u16 := 0x4000
  const RADIAL: u16 := 0

  datatype PitchKnot = PitchKnot(time: i32, pitch: u16)

  predicate ValidKnot(knot: PitchKnot, timestep: i32)
    requires timestep > 0
  {
    knot.pitch <= PROGRADE && 0 <= knot.time && knot.time % timestep == 0
  }

  /** Later knots are strictly later and pitch no less. */
  predicate Follows(left: PitchKnot, right: PitchKnot) {
    left.time < right.time && left.pitch <= right.pitch
  }

  ghost predicate ValidProgram(knots: seq<PitchKnot>, timestep: i32) {
    && 2 <= |knots| <= 16 && timestep > 0
    && (forall i :: 0 <= i < |knots| ==> ValidKnot(knots[i], timestep))
    && (forall i, j :: 0 <= i < j < |knots| ==> Follows(knots[i], knots[j]))
  }

  /** The scan compares neighbours only, yet decides the pairwise order. */
  method IsValid(knots: seq<PitchKnot>, timestep: i32) returns (valid: bool)
    ensures valid <==> ValidProgram(knots, timestep)
  {
    if |knots| < 2 || |knots| > 16 || timestep <= 0 {
      return false;
    }
    var index := 0;
    while index < |knots|
      invariant index <= |knots|
      invariant forall i :: 0 <= i < index ==> ValidKnot(knots[i], timestep)
      invariant forall i, j :: 0 <= i < j < index ==> Follows(knots[i], knots[j])
    {
      var knot := knots[index];
      if knot.pitch > PROGRADE || knot.time < 0 || knot.time % timestep != 0 {
        assert !ValidKnot(knots[index], timestep);
        return false;
      }
      if index != 0 && (knot.time <= knots[index - 1].time || knot.pitch < knots[index - 1].pitch) {
        assert !Follows(knots[index - 1], knots[index]);
        return false;
      }
      assert forall i :: 0 <= i < index - 1 ==> Follows(knots[i], knots[index - 1]);
      index := index + 1;
    }
    return true;
  }

  datatype PitchOutcome = PitchOutcome(pitch: u16, status: NumericStatus)

  /** Pitch on one segment, truncated to the 16-bit angle. */
  function SegmentPitch(time: i32, left: PitchKnot, right: PitchKnot, status: NumericStatus): PitchOutcome {
    var n := Difference(time, left.time, status);
    var d := Difference(right.time, left.time, n.status);
    var f := ScaledQuotient(n.value, d.value, 16, d.status);
    var delta := ScaledProduct(right.pitch - left.pitch, Clamp(f.value, 0, 0xffff), 16, f.status);
    var raw := Sum(left.pitch, delta.value, delta.status);
    PitchOutcome(raw.value % 0x1_0000, raw.status)
  }

  function PitchFrom(time: i32, knots: seq<PitchKnot>, index: nat, status: NumericStatus): PitchOutcome
    requires index < |knots|
    decreases |knots| - index
  {
    if index == |knots| - 1 then PitchOutcome(RADIAL, status.Record(InvalidInput))
    else if time < knots[index + 1].time then SegmentPitch(time, knots[index], knots[index + 1], status)
    else PitchFrom(time, knots, index + 1, status)
  }

  function Pitch(time: i32, knots: seq<PitchKnot>, status: NumericStatus): PitchOutcome {
    if knots == [] then PitchOutcome(RADIAL, status.Record(InvalidInput))
    else if time <= knots[0].time then PitchOutcome(knots[0].pitch, status)
    else if time >= knots[|knots| - 1].time then PitchOutcome(knots[|knots| - 1].pitch, status)
    else PitchFrom(time, knots, 0, status)
  }

  method PitchAt(time: i32, knots: seq<PitchKnot>, status: NumericStatus)
    returns (pitch: u16, after: NumericStatus)
    ensures PitchOutcome(pitch, after) == Pitch(time, knots, status)
  {
    hide Saturate, ScaledQuotient, ScaledProduct;
    if |knots| == 0 {
      return RADIAL, status.Record(InvalidInput);
    }
    if time <= knots[0].time {
      return knots[0].pitch, status;
    }
    var last := |knots| - 1;
    if time >= knots[last].time {
      return knots[last].pitch, status;
    }
    var index := 0;
    while index < last
      invariant index <= last
      invariant PitchFrom(time, knots, index, status) == Pitch(time, knots, status)
    {
      var left, right := knots[index], knots[index + 1];
      if time < right.time {
        var numerator, denominator, fraction, delta, raw;
        numerator, after := Subtract(time, left.time, status);
        denominator, after := Subtract(right.time, left.time, after);
        fraction, after := DivideScaled(numerator, denominator, 16, after);
        delta, after := MultiplyScaled(right.pitch - left.pitch, Clamp(fraction, 0, 0xffff), 16, after);
        raw, after := Add(left.pitch, delta, after);
        pitch := raw % 0x1_0000;
        return;
      }
      index := index + 1;
    }
    return RADIAL, status.Record(InvalidInput);
  }

  function Times(knots: seq<PitchKnot>): seq<i32> {
    seq(|knots|, i requires 0 <= i < |knots| => knots[i].time)
  }

  function Pitches(knots: seq<PitchKnot>): seq<i32> {
    seq(|knots|, i requires 0 <= i < |knots| => knots[i].pitch)
  }

  lemma {:induction false} ProgramIsGoodTable(knots: seq<PitchKnot>, timestep: i32)
    requires ValidProgram(knots, timestep)
    ensures GoodKnots(Times(knots), Pitches(knots))
    ensures NonDecreasing(Pitches(knots))
  {
    forall i | 0 <= i < |knots| - 1
      ensures 0 < Step(Times(knots), i) <= MAX_I32
      ensures 0 <= Step(Pitches(knots), i) <= MAX_I32
    {
      assert Follows(knots[i], knots[i + 1]);
      assert ValidKnot(knots[i], timestep) && ValidKnot(knots[i + 1], timestep);
    }
  }

  lemma {:induction false} PitchScan(time: i32, knots: seq<PitchKnot>, timestep: i32, index: nat, status: NumericStatus)
    requires ValidProgram(knots, timestep) && index < |knots| && knots[index].time <= time < knots[|knots| - 1].time
    ensures var r := ScanFrom(time, Times(knots), Pitches(knots), index, status);
            0 <= r.value <= 0xffff && PitchFrom(time, knots, index, status) == PitchOutcome(r.value, r.status)
    decreases |knots| - index
  {
    hide ScaledQuotient, ScaledProduct, Saturate;
    var times, pitches := Times(knots), Pitches(knots);
    assert Follows(knots[index], knots[index + 1]);
    if time < knots[index + 1].time {
      PitchSegment(time, knots[index], knots[index + 1], timestep, status);
    } else {
      PitchScan(time, knots, timestep, index + 1, status);
    }
  }

  lemma {:induction false} PitchSegment(time: i32, left: PitchKnot, right: PitchKnot, timestep: i32,
                                        status: NumericStatus)
    requires timestep > 0 && ValidKnot(left, timestep) && ValidKnot(right, timestep) && Follows(left, right)
    requires left.time <= time < right.time
    ensures var r := Segment(time, left.time, right.time, left.pitch, right.pitch, status);
            0 <= r.value <= 0xffff && SegmentPitch(time, left, right, status) == PitchOutcome(r.value, r.status)
  {
    hide ScaledQuotient, ScaledProduct, ExactFraction, RoundHalfAway;
    SegmentExact(time, left.time, right.time, left.pitch, right.pitch, status);
    FractionRange(time, left.time, right.time);
    BlendBetween(left.pitch, right.pitch, Clamp(ExactFraction(time, left.time, right.time), 0, 0xffff), status);
  }

  /** A valid program is sampled by the general interpolation. */
  lemma {:induction false} PitchIsInterpolation(time: i32, knots: seq<PitchKnot>, timestep: i32, status: NumericStatus)
    requires ValidProgram(knots, timestep)
    ensures var r := Interpolate(time, Times(knots), Pitches(knots), status);
            0 <= r.value <= 0xffff && Pitch(time, knots, status) == PitchOutcome(r.value, r.status)
  {
    hide PitchFrom, ScanFrom;
    if knots[0].time < time < knots[|knots| - 1].time {
      PitchScan(time, knots, timestep, 0, status);
    }
  }

  /** The commanded pitch never decreases in time, stays between the first and
      last knot, and sampling it never faults. */
  lemma {:induction false} PitchMonotone(time: i32, later: i32, knots: seq<PitchKnot>, timestep: i32,
                                         status: NumericStatus)
    requires ValidProgram(knots, timestep) && time <= later
    ensures Pitch(time, knots, status).pitch <= Pitch(later, knots, status).pitch
    ensures knots[0].pitch <= Pitch(time, knots, status).pitch <= knots[|knots| - 1].pitch
    ensures Pitch(time, knots, status).status == status
  {
    hide Pitch, Interpolate;
    var times, pitches := Times(knots), Pitches(knots);
    ProgramIsGoodTable(knots, timestep);
    PitchIsInterpolation(time, knots, timestep, status);
    PitchIsInterpolation(later, knots, timestep, status);
    InterpolateMonotone(time, later, times, pitches, status);
    InterpolateBracketed(time, times, pitches, status);
    KnotBounds(time, times, pitches, 0, status);
    KnotBounds(time, times, pitches, |times| - 1, status);
    Ordered(times, pitches, 0, |times| - 1);
  }
}
