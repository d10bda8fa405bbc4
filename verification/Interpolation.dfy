/**
 Clamped piecewise-linear table lookup: the general form, the fast form for
 integral Q20.12 spans, and what both guarantee about the sampled value.
 */
module Interpolation {
  import opened Arithmetic
  import opened Numeric
  import opened TwoWord

  const ONE_Q16: int := 0x1_0000

  // ----- the general form

  /** Value on the segment from `(x0, y0)` to `(x1, y1)`. */
  function Segment(x: i32, x0: i32, x1: i32, y0: i32, y1: i32, status: NumericStatus): Outcome {
    var n := Difference(x, x0, status);
    var d := Difference(x1, x0, n.status);
    var f := ScaledQuotient(n.value, d.value, 16, d.status);
    Blend(y0, y1, Clamp(f.value, 0, 0xffff), f.status)
  }

  /** Moves from `y0` toward `y1` by a Q0.16 fraction. */
  function Blend(y0: i32, y1: i32, fraction: i32, status: NumericStatus): Outcome {
    var range := Difference(y1, y0, status);
    var delta := ScaledProduct(range.value, fraction, 16, range.status);
    Sum(y0, delta.value, delta.status)
  }

  /** The scan for the first segment that ends beyond `x`. */
  function ScanFrom(x: i32, xs: seq<i32>, ys: seq<i32>, index: nat, status: NumericStatus): Outcome
    requires |xs| == |ys| && index < |xs|
    decreases |xs| - index
  {
    if index == |xs| - 1 || xs[index + 1] <= xs[index] then Outcome(0, status.Record(InvalidInput))
    else if x < xs[index + 1] then Segment(x, xs[index], xs[index + 1], ys[index], ys[index + 1], status)
    else ScanFrom(x, xs, ys, index + 1, status)
  }

  function Interpolate(x: i32, xs: seq<i32>, ys: seq<i32>, status: NumericStatus): Outcome {
    if xs == [] || |xs| != |ys| then Outcome(0, status.Record(InvalidInput))
    else if x <= xs[0] then Outcome(ys[0], status)
    else if x >= xs[|xs| - 1] then Outcome(ys[|ys| - 1], status)
    else ScanFrom(x, xs, ys, 0, status)
  }

  method InterpolateClamped(x: i32, xs: seq<i32>, ys: seq<i32>, status: NumericStatus)
    returns (r: i32, after: NumericStatus)
    ensures Outcome(r, after) == Interpolate(x, xs, ys, status)
  {
    hide Saturate, ScaledQuotient, ScaledProduct;
    if |xs| == 0 || |xs| != |ys| {
      return 0, status.Record(InvalidInput);
    }
    if x <= xs[0] {
      return ys[0], status;
    }
    var last := |xs| - 1;
    if x >= xs[last] {
      return ys[last], status;
    }
    var index := 0;
    while index < last
      invariant index <= last
      invariant ScanFrom(x, xs, ys, index, status) == Interpolate(x, xs, ys, status)
    {
      var x0, x1 := xs[index], xs[index + 1];
      if x1 <= x0 {
        return 0, status.Record(InvalidInput);
      }
      if x < x1 {
        var numerator, denominator, fraction, range, delta;
        numerator, after := Subtract(x, x0, status);
        denominator, after := Subtract(x1, x0, after);
        fraction, after := DivideScaled(numerator, denominator, 16, after);
        fraction := Clamp(fraction, 0, 0xffff);
        range, after := Subtract(ys[index + 1], ys[index], after);
        delta, after := MultiplyScaled(range, fraction, 16, after);
        r, after := Add(ys[index], delta, after);
        return;
      }
      index := index + 1;
    }
    return 0, status.Record(InvalidInput);
  }

  // ----- what a well-formed table guarantees

  /** Strictly increasing knots whose spans fit `i32`. */
  ghost predicate GoodKnots(xs: seq<i32>, ys: seq<i32>) {
    && 0 < |xs| == |ys|
    && (forall i :: 0 <= i < |xs| - 1 ==> 0 < Step(xs, i) <= MAX_I32)
    && (forall i :: 0 <= i < |ys| - 1 ==> MIN_I32 <= Step(ys, i) <= MAX_I32)
  }

  /** The rise from knot `i` to the next. */
  function Step(s: seq<i32>, i: nat): int
    requires i + 1 < |s|
  {
    Gap(s[i], s[i + 1])
  }

  ghost predicate NonDecreasing(s: seq<i32>) {
    forall i :: 0 <= i < |s| - 1 ==> 0 <= Step(s, i)
  }

  ghost predicate NonIncreasing(s: seq<i32>) {
    forall i :: 0 <= i < |s| - 1 ==> Step(s, i) <= 0
  }

  ghost predicate Between(v: int, a: int, b: int) {
    Min(a, b) <= v <= Max(a, b)
  }

  /** `x` lies in segment `i`. */
  ghost predicate InSegment(x: i32, xs: seq<i32>, i: nat) {
    i + 1 < |xs| && xs[i] <= x < xs[i + 1]
  }

  /** The exact position of `x` within a span, in 65536ths. */
  function ExactFraction(x: int, x0: int, x1: int): int
    requires x0 <= x < x1
  {
    RoundHalfAway((x - x0) * ONE_Q16, x1 - x0)
  }

  lemma {:induction false} FractionRange(x: i32, x0: i32, x1: i32)
    requires x0 <= x < x1
    ensures 0 <= ExactFraction(x, x0, x1) <= ONE_Q16
  {
    PartOf(x - x0, x1 - x0, ONE_Q16);
  }

  lemma {:induction false} BlendBetween(y0: i32, y1: i32, fraction: i32, status: NumericStatus)
    requires 0 <= fraction <= ONE_Q16 && MIN_I32 <= y1 - y0 <= MAX_I32
    ensures var r := Blend(y0, y1, fraction, status);
            && r.status == status
            && r.value == y0 + RoundHalfAway((y1 - y0) * fraction, ONE_Q16)
            && Between(r.value, y0, y1)
  {
    hide RoundHalfAway, Pow2;
    Pow2Of32();
    FractionOf(y1 - y0, fraction, ONE_Q16);
  }

  /** On a representable segment no operation saturates. */
  lemma {:induction false} SegmentExact(x: i32, x0: i32, x1: i32, y0: i32, y1: i32, status: NumericStatus)
    requires x0 <= x < x1 && x1 - x0 <= MAX_I32 && MIN_I32 <= y1 - y0 <= MAX_I32
    ensures Segment(x, x0, x1, y0, y1, status)
         == Blend(y0, y1, Clamp(ExactFraction(x, x0, x1), 0, 0xffff), status)
  {
    hide Blend, RoundHalfAway;
    Pow2Of32();
    FractionRange(x, x0, x1);
  }

  lemma {:induction false} ScanFinds(x: i32, xs: seq<i32>, ys: seq<i32>, index: nat, i: nat, status: NumericStatus)
    requires GoodKnots(xs, ys) && InSegment(x, xs, i) && index <= i
    ensures ScanFrom(x, xs, ys, index, status) == Segment(x, xs[i], xs[i + 1], ys[i], ys[i + 1], status)
    decreases i - index
  {
    hide Segment;
    assert Step(xs, index) > 0;
    if index < i {
      Ordered(xs, ys, index + 1, i);
      ScanFinds(x, xs, ys, index + 1, i, status);
    }
  }

  /** The scan for `x` meets a span that does not rise at knot `d`, and none
      before. */
  ghost predicate MeetsDrop(x: i32, xs: seq<i32>, d: nat) {
    && d + 1 < |xs| && xs[d + 1] <= xs[d] <= x
    && forall k :: 0 <= k < d ==> 0 < Step(xs, k) && xs[k + 1] <= x
  }

  /** What is refused: an empty or lopsided table, and an `x` between the ends
      for which the scan meets a span that does not rise. Every refusal returns
      zero and records InvalidInput. */
  lemma {:induction false} MalformedIsRefused(x: i32, xs: seq<i32>, ys: seq<i32>, d: nat, status: NumericStatus)
    requires xs == [] || |xs| != |ys| || (MeetsDrop(x, xs, d) && xs[0] < x < xs[|xs| - 1])
    ensures Interpolate(x, xs, ys, status) == Outcome(0, status.Record(InvalidInput))
  {
    hide ScanFrom;
    if xs != [] && |xs| == |ys| {
      ScanMeetsDrop(x, xs, ys, d, 0, status);
    }
  }

  lemma {:induction false} ScanMeetsDrop(x: i32, xs: seq<i32>, ys: seq<i32>, d: nat, index: nat, status: NumericStatus)
    requires index <= d && |xs| == |ys| && MeetsDrop(x, xs, d)
    ensures ScanFrom(x, xs, ys, index, status) == Outcome(0, status.Record(InvalidInput))
    decreases d - index
  {
    hide Segment;
    if index < d {
      assert 0 < Step(xs, index);
      ScanMeetsDrop(x, xs, ys, d, index + 1, status);
    }
  }

  lemma {:induction false} Ordered(xs: seq<i32>, ys: seq<i32>, i: nat, j: nat)
    requires GoodKnots(xs, ys) && i <= j < |xs|
    ensures i < j ==> xs[i] < xs[j]
    ensures NonDecreasing(ys) ==> ys[i] <= ys[j]
    ensures NonIncreasing(ys) ==> ys[i] >= ys[j]
    decreases j - i
  {
    if i < j {
      Ordered(xs, ys, i, j - 1);
      assert 0 < Step(xs, j - 1);
      assert NonDecreasing(ys) ==> 0 <= Step(ys, j - 1);
      assert NonIncreasing(ys) ==> Step(ys, j - 1) <= 0;
    }
  }

  /** Every lookup falls left of the table, right of it, or in one segment. */
  lemma {:induction false} Locate(x: i32, xs: seq<i32>, k: nat) returns (i: nat)
    requires k < |xs| && xs[0] <= x < xs[k]
    ensures InSegment(x, xs, i)
    decreases k
  {
    if xs[k - 1] <= x {
      i := k - 1;
    } else {
      i := Locate(x, xs, k - 1);
    }
  }

  /** The sampled value at every `x`, and its bracket. */
  lemma {:induction false} InterpolateInSegment(x: i32, xs: seq<i32>, ys: seq<i32>, i: nat, status: NumericStatus)
    requires GoodKnots(xs, ys) && InSegment(x, xs, i)
    ensures var r := Interpolate(x, xs, ys, status);
            && r == Blend(ys[i], ys[i + 1], Clamp(ExactFraction(x, xs[i], xs[i + 1]), 0, 0xffff), status)
            && r.status == status
            && Between(r.value, ys[i], ys[i + 1])
            && (x == xs[i] ==> r.value == ys[i])
  {
    hide Blend, Segment, ScanFrom, ExactFraction;
    assert 0 < Step(xs, i) <= MAX_I32 && MIN_I32 <= Step(ys, i) <= MAX_I32;
    Ordered(xs, ys, i + 1, |xs| - 1);
    FractionRange(x, xs[i], xs[i + 1]);
    BlendBetween(ys[i], ys[i + 1], Clamp(ExactFraction(x, xs[i], xs[i + 1]), 0, 0xffff), status);
    ZeroFraction(xs[i], xs[i + 1], ys[i], ys[i + 1], status);
    Ordered(xs, ys, 0, i);
    if x != xs[0] {
      ScanFinds(x, xs, ys, 0, i, status);
      SegmentExact(x, xs[i], xs[i + 1], ys[i], ys[i + 1], status);
    }
  }

  lemma {:induction false} ZeroFraction(x0: i32, x1: i32, y0: i32, y1: i32, status: NumericStatus)
    requires x0 < x1 && MIN_I32 <= y1 - y0 <= MAX_I32
    ensures ExactFraction(x0, x0, x1) == 0
    ensures Blend(y0, y1, 0, status) == Outcome(y0, status)
  {
    BlendBetween(y0, y1, 0, status);
  }

  /** A good table can be sampled anywhere without a fault, and the sample
      lies between the knots that bracket `x`. */
  lemma {:induction false} InterpolateBracketed(x: i32, xs: seq<i32>, ys: seq<i32>, status: NumericStatus)
    requires GoodKnots(xs, ys)
    ensures var r := Interpolate(x, xs, ys, status);
            && r.status == status
            && (x <= xs[0] ==> r.value == ys[0])
            && (x >= xs[|xs| - 1] ==> r.value == ys[|ys| - 1])
            && (forall i: nat :: InSegment(x, xs, i) ==> Between(r.value, ys[i], ys[i + 1]))
  {
    hide Blend, ScanFrom;
    var last := |xs| - 1;
    if xs[0] < x < xs[last] {
      var i := Locate(x, xs, last);
      InterpolateInSegment(x, xs, ys, i, status);
    }
    Ordered(xs, ys, 0, last);
    forall i: nat | InSegment(x, xs, i)
      ensures Between(Interpolate(x, xs, ys, status).value, ys[i], ys[i + 1])
    {
      InterpolateInSegment(x, xs, ys, i, status);
    }
  }

  /** The sample is the point of the straight line between the bracketing knots,
      off by at most half a unit and a 2^-16th of their difference. */
  lemma {:induction false} InterpolateAccurate(x: i32, xs: seq<i32>, ys: seq<i32>, i: nat, status: NumericStatus)
    requires GoodKnots(xs, ys) && InSegment(x, xs, i)
    ensures var rise, span := Gap(ys[i], ys[i + 1]), Gap(xs[i], xs[i + 1]);
            0x1_0000 * Abs(Gap(ys[i], Interpolate(x, xs, ys, status).value) * span - rise * Gap(xs[i], x))
            <= (0x8000 + Abs(rise)) * span
  {
    hide Interpolate, Blend, RoundHalfAway;
    var rise, span, f := Gap(ys[i], ys[i + 1]), Gap(xs[i], xs[i + 1]), ExactFraction(x, xs[i], xs[i + 1]);
    InterpolateInSegment(x, xs, ys, i, status);
    assert MIN_I32 <= Step(ys, i) <= MAX_I32;
    FractionRange(x, xs[i], xs[i + 1]);
    BlendBetween(ys[i], ys[i + 1], Clamp(f, 0, 0xffff), status);
    RoundHalfAwayIsNearest(Gap(xs[i], x) * ONE_Q16, span);
    RoundHalfAwayIsNearest(rise * Clamp(f, 0, 0xffff), ONE_Q16);
    ClampedFraction(f, Gap(xs[i], x), span);
    LineError(Gap(ys[i], Interpolate(x, xs, ys, status).value), rise, Clamp(f, 0, 0xffff), Gap(xs[i], x), span);
  }

  lemma {:induction false} ClampedFraction(f: int, offset: nat, span: nat)
    requires offset < span && 0 <= f <= ONE_Q16 && 2 * Abs(offset * ONE_Q16 - f * span) <= span
    ensures Abs(offset * ONE_Q16 - Clamp(f, 0, 0xffff) * span) <= span
  {
    if f == ONE_Q16 {
      assert Clamp(f, 0, 0xffff) * span == ONE_Q16 * span - span;
    }
  }

  lemma {:induction false} LineError(delta: int, rise: int, f: int, offset: int, span: nat)
    requires Abs(offset * ONE_Q16 - f * span) <= span && 2 * Abs(rise * f - delta * ONE_Q16) <= ONE_Q16
    ensures 0x1_0000 * Abs(delta * span - rise * offset) <= (0x8000 + Abs(rise)) * span
  {
    LineErrorsAdd(delta, rise, f, offset, span);
    ProductSize(rise * f - delta * ONE_Q16, span, 0x8000);
    ProductSize(offset * ONE_Q16 - f * span, rise, span);
    assert (0x8000 + Abs(rise)) * span == 0x8000 * span + span * Abs(rise);
  }

  lemma {:induction false} LineErrorsAdd(delta: int, rise: int, f: int, offset: int, span: int)
    ensures 0x1_0000 * (delta * span - rise * offset)
         == 0 - (rise * f - delta * ONE_Q16) * span - (offset * ONE_Q16 - f * span) * rise
  {
    var product, part, share := rise * f, delta * span, rise * offset;
    assert (product - delta * ONE_Q16) * span == product * span - 0x1_0000 * part;
    assert (offset * ONE_Q16 - f * span) * rise == 0x1_0000 * share - f * span * rise;
    assert product * span == f * span * rise;
  }

  lemma {:induction false} FractionMonotone(x: i32, x': i32, x0: i32, x1: i32)
    requires x0 <= x <= x' < x1
    ensures ExactFraction(x, x0, x1) <= ExactFraction(x', x0, x1)
  {
    RoundMonotone((x - x0) * ONE_Q16, (x' - x0) * ONE_Q16, x1 - x0);
  }

  lemma {:induction false} BlendMonotone(y0: i32, y1: i32, f: i32, g: i32, status: NumericStatus)
    requires 0 <= f <= g <= ONE_Q16 && MIN_I32 <= y1 - y0 <= MAX_I32
    ensures y0 <= y1 ==> Blend(y0, y1, f, status).value <= Blend(y0, y1, g, status).value
    ensures y0 >= y1 ==> Blend(y0, y1, f, status).value >= Blend(y0, y1, g, status).value
  {
    BlendBetween(y0, y1, f, status);
    BlendBetween(y0, y1, g, status);
    RiseMonotone(y1 - y0, f, g);
  }

  lemma {:induction false} RiseMonotone(range: int, f: int, g: int)
    requires f <= g
    ensures range >= 0 ==> RoundHalfAway(range * f, ONE_Q16) <= RoundHalfAway(range * g, ONE_Q16)
    ensures range <= 0 ==> RoundHalfAway(range * f, ONE_Q16) >= RoundHalfAway(range * g, ONE_Q16)
  {
    if range >= 0 {
      MulMonotone(f, g, range);
      RoundMonotone(range * f, range * g, ONE_Q16);
    }
    if range <= 0 {
      MulMonotone(f, g, -range);
      RoundMonotone(range * g, range * f, ONE_Q16);
    }
  }

  /** Within one segment the sample follows the direction of the knots. */
  lemma {:induction false} MonotoneInSegment(x: i32, x': i32, xs: seq<i32>, ys: seq<i32>, i: nat, status: NumericStatus)
    requires GoodKnots(xs, ys) && x <= x' && InSegment(x, xs, i) && InSegment(x', xs, i)
    ensures ys[i] <= ys[i + 1] ==> Interpolate(x, xs, ys, status).value <= Interpolate(x', xs, ys, status).value
    ensures ys[i] >= ys[i + 1] ==> Interpolate(x, xs, ys, status).value >= Interpolate(x', xs, ys, status).value
  {
    hide Blend, ScanFrom;
    InterpolateInSegment(x, xs, ys, i, status);
    InterpolateInSegment(x', xs, ys, i, status);
    FractionMonotone(x, x', xs[i], xs[i + 1]);
    FractionRange(x, xs[i], xs[i + 1]);
    assert MIN_I32 <= Step(ys, i) <= MAX_I32;
    BlendMonotone(ys[i], ys[i + 1],
                  Clamp(ExactFraction(x, xs[i], xs[i + 1]), 0, 0xffff),
                  Clamp(ExactFraction(x', xs[i], xs[i + 1]), 0, 0xffff), status);
  }

  /** A knot's value bounds every sample to its left and to its right. */
  lemma {:induction false} KnotBounds(x: i32, xs: seq<i32>, ys: seq<i32>, k: nat, status: NumericStatus)
    requires GoodKnots(xs, ys) && k < |xs|
    ensures var v := Interpolate(x, xs, ys, status).value;
            && (x <= xs[k] && NonDecreasing(ys) ==> v <= ys[k])
            && (x >= xs[k] && NonDecreasing(ys) ==> v >= ys[k])
            && (x <= xs[k] && NonIncreasing(ys) ==> v >= ys[k])
            && (x >= xs[k] && NonIncreasing(ys) ==> v <= ys[k])
  {
    hide Blend, ScanFrom;
    var last := |xs| - 1;
    Ordered(xs, ys, 0, k);
    Ordered(xs, ys, k, last);
    if xs[0] < x < xs[last] {
      var i := Locate(x, xs, last);
      InterpolateInSegment(x, xs, ys, i, status);
      Ordered(xs, ys, i, i + 1);
      if k <= i {
        Ordered(xs, ys, k, i);
      } else {
        Ordered(xs, ys, i + 1, k);
      }
    }
  }

  /** Interpolation is monotone wherever the knot values are, across segment
      borders and into both clamped ends. */
  lemma {:induction false} InterpolateMonotone(x: i32, x': i32, xs: seq<i32>, ys: seq<i32>, status: NumericStatus)
    requires GoodKnots(xs, ys) && x <= x'
    ensures NonDecreasing(ys) ==> Interpolate(x, xs, ys, status).value <= Interpolate(x', xs, ys, status).value
    ensures NonIncreasing(ys) ==> Interpolate(x, xs, ys, status).value >= Interpolate(x', xs, ys, status).value
  {
    hide Interpolate;
    var last := |xs| - 1;
    var k := 0;
    if xs[0] < x < xs[last] {
      var i := Locate(x, xs, last);
      if x' < xs[i + 1] {
        MonotoneInSegment(x, x', xs, ys, i, status);
        assert NonDecreasing(ys) ==> 0 <= Step(ys, i);
        assert NonIncreasing(ys) ==> Step(ys, i) <= 0;
        return;
      }
      k := i + 1;
    } else if x >= xs[last] {
      k := last;
    }
    InterpolateBracketed(x, xs, ys, status);
    InterpolateBracketed(x', xs, ys, status);
    KnotBounds(x, xs, ys, k, status);
    KnotBounds(x', xs, ys, k, status);
  }

  // ----- the fast form for integral Q20.12 spans

  /** The input check of the fast fraction. */
  predicate FastFractionAccepts(n: i32, d: i32) {
    0 <= n < d && d % 0x1000 == 0 && d / 0x1000 <= 0xffff && n <= 0xfff_ffff
  }

  function FastFraction(n: i32, d: i32, status: NumericStatus): Outcome {
    if FastFractionAccepts(n, d) then
      PartOf(n, d, ONE_Q16);
      Outcome(RoundHalfAway(n * ONE_Q16, d), status)
    else Outcome(0, status.Record(InvalidInput))
  }

  /** The fast fraction is the nearest 65536th for a proper fraction of whole Q12
      units within the 32-by-16 division, and refused with zero otherwise. */
  lemma {:induction false} FastFractionMeans(n: i32, d: i32, status: NumericStatus)
    ensures var r := FastFraction(n, d, status);
            if 0 <= n < d && d % 4096 == 0 && d <= 65_535 * 4096 && n <= 0xfff_ffff then
              IsNearestAwayFromZero(r.value, n * 0x1_0000, d) && r.status == status
            else r == Outcome(0, status.Record(InvalidInput))
  {
    if 0 < d {
      RoundHalfAwayIsNearest(n * ONE_Q16, d);
    }
  }

  /** The 32-by-16 division gives the same rounded fraction as the general
      64-by-32 division, because the span is a whole number of units. */
  method DivideUnsignedFractionQ16IntegralQ12(n: i32, d: i32, status: NumericStatus)
    returns (r: i32, after: NumericStatus)
    ensures Outcome(r, after) == FastFraction(n, d, status)
  {
    if n < 0 || d <= 0 || n >= d || d % 0x1000 != 0 || d / 0x1000 > 0xffff || n > 0xfff_ffff {
      return 0, status.Record(InvalidInput);
    }
    var units := d / 0x1000;
    var quotient, remainder := DivideUnsigned32By16(16 * n, units);
    RoundFromRemainder(16 * n, units, quotient, remainder);
    RoundCancel(16 * n, units, 0x1000);
    PartOf(n, d, ONE_Q16);
    if remainder >= units - remainder {
      r := quotient + 1;
    } else {
      r := quotient;
    }
    after := status;
  }

  function FastSegment(x: i32, x0: i32, x1: i32, y0: i32, y1: i32, status: NumericStatus): Outcome {
    var n := Difference(x, x0, status);
    var d := Difference(x1, x0, n.status);
    var f := FastFraction(n.value, d.value, d.status);
    Blend(y0, y1, f.value, f.status)
  }

  function FastScanFrom(x: i32, xs: seq<i32>, ys: seq<i32>, index: nat, status: NumericStatus): Outcome
    requires |xs| == |ys| && index < |xs|
    decreases |xs| - index
  {
    if index == |xs| - 1 || xs[index + 1] <= xs[index] then Outcome(0, status.Record(InvalidInput))
    else if x < xs[index + 1] then FastSegment(x, xs[index], xs[index + 1], ys[index], ys[index + 1], status)
    else FastScanFrom(x, xs, ys, index + 1, status)
  }

  function FastInterpolate(x: i32, xs: seq<i32>, ys: seq<i32>, status: NumericStatus): Outcome {
    if xs == [] || |xs| != |ys| then Outcome(0, status.Record(InvalidInput))
    else if x <= xs[0] then Outcome(ys[0], status)
    else if x >= xs[|xs| - 1] then Outcome(ys[|ys| - 1], status)
    else FastScanFrom(x, xs, ys, 0, status)
  }

  method InterpolateClampedIntegralQ12(x: i32, xs: seq<i32>, ys: seq<i32>, status: NumericStatus)
    returns (r: i32, after: NumericStatus)
    ensures Outcome(r, after) == FastInterpolate(x, xs, ys, status)
  {
    hide Saturate, FastFraction, ScaledProduct;
    if |xs| == 0 || |xs| != |ys| {
      return 0, status.Record(InvalidInput);
    }
    if x <= xs[0] {
      return ys[0], status;
    }
    var last := |xs| - 1;
    if x >= xs[last] {
      return ys[last], status;
    }
    var index := 0;
    while index < last
      invariant index <= last
      invariant FastScanFrom(x, xs, ys, index, status) == FastInterpolate(x, xs, ys, status)
    {
      var x0, x1 := xs[index], xs[index + 1];
      if x1 <= x0 {
        return 0, status.Record(InvalidInput);
      }
      if x < x1 {
        var numerator, denominator, fraction, range, delta;
        numerator, after := Subtract(x, x0, status);
        denominator, after := Subtract(x1, x0, after);
        fraction, after := DivideUnsignedFractionQ16IntegralQ12(numerator, denominator, after);
        range, after := Subtract(ys[index + 1], ys[index], after);
        delta, after := MultiplyScaled(range, fraction, 16, after);
        r, after := Add(ys[index], delta, after);
        return;
      }
      index := index + 1;
    }
    return 0, status.Record(InvalidInput);
  }

  /** Spans the fast form is specialised for. */
  ghost predicate IntegralSpans(xs: seq<i32>) {
    forall i :: 0 <= i < |xs| - 1 ==> Step(xs, i) % 0x1000 == 0 && Step(xs, i) <= 0xffff * 0x1000
  }

  lemma {:induction false} FastScanFinds(x: i32, xs: seq<i32>, ys: seq<i32>, index: nat, i: nat, status: NumericStatus)
    requires GoodKnots(xs, ys) && InSegment(x, xs, i) && index <= i
    ensures FastScanFrom(x, xs, ys, index, status) == FastSegment(x, xs[i], xs[i + 1], ys[i], ys[i + 1], status)
    decreases i - index
  {
    hide FastSegment;
    assert Step(xs, index) > 0;
    if index < i {
      Ordered(xs, ys, index + 1, i);
      FastScanFinds(x, xs, ys, index + 1, i, status);
    }
  }

  /** The fast form uses the unclamped rounded fraction. */
  lemma {:induction false} FastInSegment(x: i32, xs: seq<i32>, ys: seq<i32>, i: nat, status: NumericStatus)
    requires GoodKnots(xs, ys) && IntegralSpans(xs) && InSegment(x, xs, i)
    ensures 0 <= ExactFraction(x, xs[i], xs[i + 1]) <= ONE_Q16
    ensures var r := FastInterpolate(x, xs, ys, status);
            && r == Blend(ys[i], ys[i + 1], ExactFraction(x, xs[i], xs[i + 1]), status)
            && r.status == status
            && Between(r.value, ys[i], ys[i + 1])
  {
    hide Blend, FastScanFrom;
    assert 0 < Step(xs, i) <= MAX_I32 && MIN_I32 <= Step(ys, i) <= MAX_I32;
    FractionRange(x, xs[i], xs[i + 1]);
    BlendBetween(ys[i], ys[i + 1], ExactFraction(x, xs[i], xs[i + 1]), status);
    Ordered(xs, ys, i + 1, |xs| - 1);
    Ordered(xs, ys, 0, i);
    if x == xs[0] {
      ZeroFraction(xs[i], xs[i + 1], ys[i], ys[i + 1], status);
    } else {
      FastScanFinds(x, xs, ys, 0, i, status);
    }
  }

  /** The tail of a segment where the fraction rounds up to a whole: within
      1/131072 of the span from its right end. */
  predicate RoundsToWhole(x: i32, x0: i32, x1: i32) {
    (x1 - x) * 0x2_0000 <= x1 - x0
  }

  lemma {:induction false} WholeFraction(x: i32, x0: i32, x1: i32)
    requires x0 <= x < x1
    ensures ExactFraction(x, x0, x1) == ONE_Q16 <==> RoundsToWhole(x, x0, x1)
  {
    var n, d := (x - x0) * ONE_Q16, x1 - x0;
    FractionRange(x, x0, x1);
    if RoundsToWhole(x, x0, x1) {
      RoundDivUnique(n, d, ONE_Q16);
    } else {
      RoundDivBounds(n, d);
    }
  }

  /** A whole fraction lands on the right-hand knot; 65535/65536 of the rise
      rounds to the whole rise exactly when the rise is at most 2^15. */
  lemma {:induction false} LastFraction(y0: i32, y1: i32, status: NumericStatus)
    requires MIN_I32 <= y1 - y0 <= MAX_I32
    ensures Blend(y0, y1, ONE_Q16, status) == Outcome(y1, status)
    ensures Blend(y0, y1, 0xffff, status).value == y1 <==> Abs(y1 - y0) <= 0x8000
  {
    var range := y1 - y0;
    BlendBetween(y0, y1, ONE_Q16, status);
    BlendBetween(y0, y1, 0xffff, status);
    RoundExact(range, ONE_Q16);
    RoundDivBounds(Abs(range * 0xffff), ONE_Q16);
    if Abs(range) <= 0x8000 {
      RoundDivUnique(Abs(range * 0xffff), ONE_Q16, Abs(range));
    }
  }

  /** The two forms agree exactly outside the rounding tail of a segment whose
      values differ by more than 2^15; in the tail the fast form returns the
      right-hand knot. */
  lemma {:induction false} FastFormAgreement(x: i32, xs: seq<i32>, ys: seq<i32>, i: nat, status: NumericStatus)
    requires GoodKnots(xs, ys) && IntegralSpans(xs) && InSegment(x, xs, i)
    ensures FastInterpolate(x, xs, ys, status) == Interpolate(x, xs, ys, status)
         <==> !(RoundsToWhole(x, xs[i], xs[i + 1]) && Abs(Step(ys, i)) > 0x8000)
    ensures RoundsToWhole(x, xs[i], xs[i + 1]) ==>
              FastInterpolate(x, xs, ys, status) == Outcome(ys[i + 1], status)
  {
    FastInSegment(x, xs, ys, i, status);
    InterpolateInSegment(x, xs, ys, i, status);
    WholeFraction(x, xs[i], xs[i + 1]);
    assert MIN_I32 <= Step(ys, i) <= MAX_I32;
    LastFraction(ys[i], ys[i + 1], status);
  }

  /** The disagreement is real: one tick before the end of a 32-unit span. */
  lemma {:induction false} FastFormDiffers(status: NumericStatus)
    ensures FastInterpolate(0x1_ffff, [0, 0x2_0000], [0, 0x1_0000], status)
         != Interpolate(0x1_ffff, [0, 0x2_0000], [0, 0x1_0000], status)
  {
    var xs: seq<i32>, ys: seq<i32> := [0, 0x2_0000], [0, 0x1_0000];
    FastFormAgreement(0x1_ffff, xs, ys, 0, status);
  }
}
