/**
 The tabulated atmosphere: acceptance of a generated table and sampling it at
 any altitude. The tables themselves are parameters.
 */
module Environment {
  import opened Arithmetic
  import opened Numeric
  import opened Interpolation

  datatype Tables = Tables(altitudes: seq<i32>, densities: seq<i32>, gravities: seq<i32>)

  predicate ValidSpan(span: int) {
    0 < span && span % 0x1000 == 0 && span / 0x1000 <= 0xffff
  }

  ghost predicate ValidTables(t: Tables) {
    && 0 < |t.altitudes| == |t.densities| == |t.gravities|
    && (forall i :: 0 <= i < |t.densities| ==> 0 <= t.densities[i])
    && (forall i :: 0 <= i < |t.gravities| ==> 0 < t.gravities[i])
    && (forall i :: 0 <= i < |t.altitudes| - 1 ==> ValidSpan(Step(t.altitudes, i)))
  }

  /** What the validator accepts: its spans are `i32` differences, which wrap. */
  ghost predicate AcceptedTables(t: Tables) {
    && 0 < |t.altitudes| == |t.densities| == |t.gravities|
    && (forall i :: 0 <= i < |t.densities| ==> 0 <= t.densities[i])
    && (forall i :: 0 <= i < |t.gravities| ==> 0 < t.gravities[i])
    && (forall i :: 0 <= i < |t.altitudes| - 1 ==> ValidSpan(Wrap32(Step(t.altitudes, i))))
  }

  method TablesAreValid(t: Tables, identityMatches: bool) returns (valid: bool)
    ensures valid <==> identityMatches && AcceptedTables(t)
  {
    hide Wrap32;
    if |t.altitudes| == 0 || |t.altitudes| != |t.densities| || |t.altitudes| != |t.gravities| || !identityMatches {
      return false;
    }
    var index := 0;
    while index < |t.altitudes|
      invariant index <= |t.altitudes|
      invariant forall i :: 0 <= i < index ==> 0 <= t.densities[i] && 0 < t.gravities[i]
      invariant forall i :: 0 <= i < index - 1 ==> ValidSpan(Wrap32(Step(t.altitudes, i)))
    {
      if t.densities[index] < 0 || t.gravities[index] <= 0 {
        return false;
      }
      if index != 0 {
        var span := Wrap32(Step(t.altitudes, index - 1));
        if span <= 0 || span % 0x1000 != 0 || span / 0x1000 > 0xffff {
          assert !ValidSpan(Wrap32(Step(t.altitudes, index - 1)));
          return false;
        }
      }
      index := index + 1;
    }
    return true;
  }

  method Sample(t: Tables, altitude: i32, status: NumericStatus)
    returns (density: i32, gravity: i32, after: NumericStatus)
    ensures var d := FastInterpolate(altitude, t.altitudes, t.densities, status);
            density == d.value
            && Outcome(gravity, after) == FastInterpolate(altitude, t.altitudes, t.gravities, d.status)
  {
    hide FastInterpolate;
    density, after := InterpolateClampedIntegralQ12(altitude, t.altitudes, t.densities, status);
    gravity, after := InterpolateClampedIntegralQ12(altitude, t.altitudes, t.gravities, after);
  }

  lemma {:induction false} ValidColumn(t: Tables, column: seq<i32>)
    requires ValidTables(t) && |column| == |t.altitudes|
    requires forall i :: 0 <= i < |column| ==> 0 <= column[i]
    ensures GoodKnots(t.altitudes, column) && IntegralSpans(t.altitudes)
  {
    forall i | 0 <= i < |column| - 1
      ensures 0 < Step(t.altitudes, i) <= 0xffff * 0x1000
      ensures Step(t.altitudes, i) % 0x1000 == 0
      ensures MIN_I32 <= Step(column, i) <= MAX_I32
    {
      assert ValidSpan(Step(t.altitudes, i));
    }
  }

  /** One column of an accepted table: no fault at any altitude, and a value
      no smaller than the smallest entry. */
  lemma {:induction false} ColumnSample(t: Tables, column: seq<i32>, least: i32, altitude: i32, status: NumericStatus)
    requires ValidTables(t) && |column| == |t.altitudes| && 0 <= least
    requires forall i :: 0 <= i < |column| ==> least <= column[i]
    ensures var r := FastInterpolate(altitude, t.altitudes, column, status);
            r.status == status && least <= r.value
  {
    hide FastScanFrom;
    ValidColumn(t, column);
    var last := |column| - 1;
    if t.altitudes[0] < altitude < t.altitudes[last] {
      var i := Locate(altitude, t.altitudes, last);
      FastInSegment(altitude, t.altitudes, column, i, status);
      assert least <= column[i] && least <= column[i + 1];
    }
  }

  /** A table with honest spans can be sampled at every altitude without
      recording a fault; density is never negative and gravity is always
      positive. */
  lemma {:induction false} ValidTablesNeverFault(t: Tables, altitude: i32, status: NumericStatus)
    requires ValidTables(t)
    ensures var d := FastInterpolate(altitude, t.altitudes, t.densities, status);
            var g := FastInterpolate(altitude, t.altitudes, t.gravities, d.status);
            d.status == status && g.status == status && 0 <= d.value && 0 < g.value
  {
    hide FastInterpolate;
    ColumnSample(t, t.densities, 0, altitude, status);
    ColumnSample(t, t.gravities, 1, altitude, status);
  }

  // ----- wrapped spans

  /** The first knot that is not below its successor, or the last knot. */
  function FirstDrop(xs: seq<i32>, i: nat): (d: nat)
    requires i < |xs|
    ensures i <= d < |xs| && forall k :: i <= k < d ==> 0 < Step(xs, k)
    ensures d + 1 < |xs| ==> Step(xs, d) <= 0
    decreases |xs| - i
  {
    if i + 1 == |xs| || Step(xs, i) <= 0 then i else FirstDrop(xs, i + 1)
  }

  /** Accepted spans that rise do not wrap; the others wrapped once. */
  lemma {:induction false} SpanWraps(span: int)
    requires MIN_I32 - MAX_I32 <= span <= MAX_I32 - MIN_I32 && ValidSpan(Wrap32(span))
    ensures span % 0x1000 == 0
    ensures 0 < span ==> ValidSpan(span)
  {}

  lemma {:induction false} KnotsOnGrid(t: Tables, j: nat)
    requires AcceptedTables(t) && j < |t.altitudes|
    ensures Gap(t.altitudes[0], t.altitudes[j]) % 0x1000 == 0
  {
    if j > 0 {
      KnotsOnGrid(t, j - 1);
      assert ValidSpan(Wrap32(Step(t.altitudes, j - 1)));
      SpanWraps(Step(t.altitudes, j - 1));
    }
  }

  /** The part of the table before the first drop. */
  function Climb(t: Tables): Tables
    requires 0 < |t.altitudes| == |t.densities| == |t.gravities|
  {
    var n := FirstDrop(t.altitudes, 0) + 1;
    Tables(t.altitudes[..n], t.densities[..n], t.gravities[..n])
  }

  lemma {:induction false} ClimbIsValid(t: Tables)
    requires AcceptedTables(t)
    ensures ValidTables(Climb(t))
  {
    hide Wrap32;
    var climb := Climb(t);
    forall i | 0 <= i < |climb.altitudes| - 1
      ensures ValidSpan(Step(climb.altitudes, i))
    {
      assert Step(climb.altitudes, i) == Step(t.altitudes, i) > 0;
      assert ValidSpan(Wrap32(Step(t.altitudes, i)));
      SpanWraps(Step(t.altitudes, i));
    }
  }

  /** Below the drop the scan sees only the climb. */
  lemma {:induction false} ScanStaysInClimb(x: i32, xs: seq<i32>, ys: seq<i32>, n: nat, index: nat,
                                            status: NumericStatus)
    requires index < n <= |xs| == |ys| && xs[index] <= x < xs[n - 1]
    requires forall k :: 0 <= k < n - 1 ==> 0 < Step(xs, k)
    ensures FastScanFrom(x, xs, ys, index, status) == FastScanFrom(x, xs[..n], ys[..n], index, status)
    decreases n - index
  {
    hide FastSegment;
    assert 0 < Step(xs, index);
    if xs[index + 1] <= x {
      ScanStaysInClimb(x, xs, ys, n, index + 1, status);
    }
  }

  /** Past the climb the scan runs into the drop. */
  lemma {:induction false} ScanHitsDrop(x: i32, xs: seq<i32>, ys: seq<i32>, d: nat, index: nat, status: NumericStatus)
    requires index <= d && d + 1 < |xs| == |ys| && xs[d] <= x && Step(xs, d) <= 0
    requires forall k :: 0 <= k < d ==> 0 < Step(xs, k)
    ensures FastScanFrom(x, xs, ys, index, status) == Outcome(0, status.Record(InvalidInput))
    decreases d - index
  {
    hide FastSegment;
    if index < d {
      assert 0 < Step(xs, index);
      Climbs(xs, index + 1, d);
      ScanHitsDrop(x, xs, ys, d, index + 1, status);
    }
  }

  lemma {:induction false} Climbs(xs: seq<i32>, i: nat, d: nat)
    requires i <= d < |xs| && forall k :: 0 <= k < d ==> 0 < Step(xs, k)
    ensures xs[i] <= xs[d] && (i < d ==> xs[i] < xs[d])
    decreases d - i
  {
    if i < d {
      assert 0 < Step(xs, i);
      Climbs(xs, i + 1, d);
    }
  }

  /** The status left by sampling both columns at one altitude. */
  function SampledStatus(t: Tables, altitude: i32): NumericStatus {
    FastInterpolate(altitude, t.altitudes, t.gravities,
                    FastInterpolate(altitude, t.altitudes, t.densities, CLEAR).status).status
  }

  ghost predicate NeverFaults(t: Tables) {
    forall altitude :: SampledStatus(t, altitude) == CLEAR
  }

  /** Up to the first drop both columns are sampled without a fault. */
  lemma {:induction false} ClimbNeverFaults(t: Tables, altitude: i32)
    requires AcceptedTables(t) && t.altitudes[|t.altitudes| - 1] <= t.altitudes[FirstDrop(t.altitudes, 0)]
    ensures SampledStatus(t, altitude) == CLEAR
  {
    hide FastScanFrom, Wrap32;
    var xs, d := t.altitudes, FirstDrop(t.altitudes, 0);
    if xs[0] < altitude < xs[|xs| - 1] {
      ScanStaysInClimb(altitude, xs, t.densities, d + 1, 0, CLEAR);
      ScanStaysInClimb(altitude, xs, t.gravities, d + 1, 0, CLEAR);
      ClimbIsValid(t);
      ValidTablesNeverFault(Climb(t), altitude, CLEAR);
    }
  }

  /** An accepted table can be sampled everywhere exactly when its last knot is
      no higher than its first drop. Without wrapped spans there is no drop. */
  lemma {:induction false} NeverFaultsExactly(t: Tables)
    requires AcceptedTables(t)
    ensures NeverFaults(t) <==> t.altitudes[|t.altitudes| - 1] <= t.altitudes[FirstDrop(t.altitudes, 0)]
  {
    hide FastScanFrom, Wrap32, SampledStatus;
    var xs, d := t.altitudes, FirstDrop(t.altitudes, 0);
    if xs[|xs| - 1] <= xs[d] {
      forall altitude
        ensures SampledStatus(t, altitude) == CLEAR
      {
        ClimbNeverFaults(t, altitude);
      }
    } else {
      var x := DropFaults(t);
    }
  }

  /** An altitude at which a table that climbs back over its drop faults. */
  lemma {:induction false} DropFaults(t: Tables) returns (x: i32)
    requires AcceptedTables(t) && t.altitudes[|t.altitudes| - 1] > t.altitudes[FirstDrop(t.altitudes, 0)]
    ensures SampledStatus(t, x) != CLEAR
  {
    hide FastScanFrom, Wrap32;
    var xs, d := t.altitudes, FirstDrop(t.altitudes, 0);
    KnotsOnGrid(t, |xs| - 1);
    Climbs(xs, 0, d);
    x := if d == 0 then xs[0] + 1 else xs[d];
    ScanHitsDrop(x, xs, t.densities, d, 0, CLEAR);
    ScanHitsDrop(x, xs, t.gravities, d, 0, CLEAR.Record(InvalidInput));
  }

  const WRAPPED_CLIMB: seq<i32> := [
    0x7ff0_0000, -0x7010_1000, -0x6010_2000, -0x5010_3000, -0x4010_4000, -0x3010_5000,
    -0x2010_6000, -0x1010_7000, -0x0010_8000, 0x0fef_7000, 0x1fef_6000, 0x2fef_5000,
    0x3fef_4000, 0x4fef_3000, 0x5fef_2000, 0x6fef_1000, 0x7fef_0000, 0x7ff0_1000
  ]

  /** Such a table exists: its second knot wraps below the first, and the climb
      back passes it. */
  lemma {:induction false} SomeAcceptedTableFaults()
    ensures var t := Tables(WRAPPED_CLIMB, seq(18, _ => 1), seq(18, _ => 1));
            AcceptedTables(t) && !NeverFaults(t)
  {
    hide NeverFaults;
    var t := Tables(WRAPPED_CLIMB, seq(18, _ => 1), seq(18, _ => 1));
    WrappedSpans();
    assert FirstDrop(WRAPPED_CLIMB, 0) == 0;
    NeverFaultsExactly(t);
  }

  lemma {:induction false} WrappedSpans()
    ensures |WRAPPED_CLIMB| == 18 && Step(WRAPPED_CLIMB, 0) <= 0
    ensures forall i :: 0 <= i < 17 ==> ValidSpan(Wrap32(Step(WRAPPED_CLIMB, i)))
  {}
}
