/**
 The numeric contract every other component rests on: sticky faults, and the
 exact meaning of the scaled product and quotient and of the saturating sum
 and difference. The two-word algorithms that implement it are in `TwoWord`.
 */
module Numeric {
  import opened Arithmetic

  datatype NumericFault = Saturation | DivisionByZero | InvalidShift | InvalidInput

  /** The four defined bits of the status byte. */
  datatype NumericStatus =
    NumericStatus(saturation: bool, divisionByZero: bool, invalidShift: bool, invalidInput: bool)
  {
    predicate IsClear() {
      this == CLEAR
    }

    predicate Contains(fault: NumericFault) {
      match fault
      case Saturation => saturation
      case DivisionByZero => divisionByZero
      case InvalidShift => invalidShift
      case InvalidInput => invalidInput
    }

    function Record(fault: NumericFault): (s: NumericStatus)
      ensures forall f: NumericFault :: s.Contains(f) <==> (Contains(f) || f == fault)
    {
      match fault
      case Saturation => this.(saturation := true)
      case DivisionByZero => this.(divisionByZero := true)
      case InvalidShift => this.(invalidShift := true)
      case InvalidInput => this.(invalidInput := true)
    }

    /** All faults of both. */
    function Join(other: NumericStatus): (s: NumericStatus)
      ensures forall f: NumericFault :: s.Contains(f) <==> Contains(f) || other.Contains(f)
    {
      NumericStatus(saturation || other.saturation, divisionByZero || other.divisionByZero,
                    invalidShift || other.invalidShift, invalidInput || other.invalidInput)
    }
  }

  const CLEAR := NumericStatus(false, false, false, false)

  /** A returned value together with the status left behind. */
  datatype Outcome = Outcome(value: i32, status: NumericStatus)

  /** Clamp an exact integer to `i32`, recording Saturation when it moved. */
  function Saturate(exact: int, status: NumericStatus): (r: Outcome)
    ensures r.value == Clamp(exact, MIN_I32, MAX_I32)
    ensures r.status == if r.value == exact then status else status.Record(Saturation)
  {
    if exact < MIN_I32 then Outcome(MIN_I32, status.Record(Saturation))
    else if exact > MAX_I32 then Outcome(MAX_I32, status.Record(Saturation))
    else Outcome(exact, status)
  }

  function Sum(a: i32, b: i32, status: NumericStatus): Outcome {
    Saturate(a + b, status)
  }

  function Difference(a: i32, b: i32, status: NumericStatus): Outcome {
    Saturate(a - b, status)
  }

  /** `a * b / 2^shift` to nearest, halves away from zero, then clamped. */
  function ScaledProduct(a: i32, b: i32, shift: u8, status: NumericStatus): Outcome {
    if shift > 31 then Outcome(0, status.Record(InvalidShift))
    else Saturate(RoundHalfAway(a * b, Pow2(shift)), status)
  }

  /** The exact ratio `n * 2^shift / d`, with the sign moved to the numerator. */
  function ScaledNumerator(n: i32, d: i32, shift: u8): int {
    (if d < 0 then 0 - n else n) * Pow2(shift)
  }

  /** `n * 2^shift / d` to nearest, halves away from zero, then clamped. */
  function ScaledQuotient(n: i32, d: i32, shift: u8, status: NumericStatus): Outcome {
    if d == 0 then Outcome(0, status.Record(DivisionByZero))
    else if shift > 31 then Outcome(0, status.Record(InvalidShift))
    else Saturate(RoundHalfAway(ScaledNumerator(n, d, shift), Abs(d)), status)
  }

  method Add(a: i32, b: i32, status: NumericStatus) returns (r: i32, after: NumericStatus)
    ensures Outcome(r, after) == Saturate(a + b, status)
  {
    if b > 0 && a > MAX_I32 - b {
      r, after := MAX_I32, status.Record(Saturation);
    } else if b < 0 && a < MIN_I32 - b {
      r, after := MIN_I32, status.Record(Saturation);
    } else {
      r, after := a + b, status;
    }
  }

  method Subtract(a: i32, b: i32, status: NumericStatus) returns (r: i32, after: NumericStatus)
    ensures Outcome(r, after) == Saturate(a - b, status)
  {
    if b > 0 && a < MIN_I32 + b {
      r, after := MIN_I32, status.Record(Saturation);
    } else if b < 0 && a > MAX_I32 + b {
      r, after := MAX_I32, status.Record(Saturation);
    } else {
      r, after := a - b, status;
    }
  }

  /** `r` is the nearest-away integer `q` clamped to `i32`; Saturation is added
      exactly when clamping moved it, and no recorded fault is lost. */
  ghost predicate RoundedAndClamped(r: Outcome, q: int, status: NumericStatus) {
    && r.value == Clamp(q, MIN_I32, MAX_I32)
    && forall f: NumericFault ::
         r.status.Contains(f) <==> status.Contains(f) || (f == Saturation && !(MIN_I32 <= q <= MAX_I32))
  }

  /** The rounding contract of the scaled product, in terms of the exact ratio
      and not of how it is computed. */
  lemma {:induction false} ProductContract(a: i32, b: i32, shift: u8, status: NumericStatus, q: int)
    requires shift <= 31 && IsNearestAwayFromZero(q, a * b, Pow2(shift))
    ensures RoundedAndClamped(ScaledProduct(a, b, shift, status), q, status)
  {
    hide RoundHalfAway;
    NearestIsUnique(q, a * b, Pow2(shift));
  }

  /** What is refused, before anything is computed: a zero divisor, and a shift
      beyond 31. Every refusal returns zero and records its fault. */
  lemma {:induction false} RefusedScaling(a: i32, b: i32, shift: u8, status: NumericStatus)
    ensures shift >= 32 ==> ScaledProduct(a, b, shift, status) == Outcome(0, status.Record(InvalidShift))
    ensures b == 0 ==> ScaledQuotient(a, b, shift, status) == Outcome(0, status.Record(DivisionByZero))
    ensures b != 0 && shift >= 32 ==> ScaledQuotient(a, b, shift, status) == Outcome(0, status.Record(InvalidShift))
  {}

  /** The rounding contract of the scaled quotient; `n` and `d` may have either
      sign, and the exact ratio is compared after multiplying through by `d`. */
  lemma {:induction false} QuotientContract(n: i32, d: i32, shift: u8, status: NumericStatus, q: int)
    requires shift <= 31 && d != 0
    requires IsNearestAwayFromZero(if d < 0 then -q else q, n * Pow2(shift), Abs(d))
    ensures RoundedAndClamped(ScaledQuotient(n, d, shift, status), q, status)
  {
    hide RoundHalfAway, Pow2, IsNearestAwayFromZero;
    NumeratorMirrors(n, d, shift);
    MirrorNearest(if d < 0 then -q else q, n * Pow2(shift), Abs(d));
    NearestIsUnique(q, ScaledNumerator(n, d, shift), Abs(d));
  }

  lemma {:induction false} NumeratorMirrors(n: i32, d: i32, shift: u8)
    ensures ScaledNumerator(n, d, shift) == if d < 0 then -(n * Pow2(shift)) else n * Pow2(shift)
  {}

  lemma {:induction false} MirrorNearest(q: int, n: int, d: nat)
    requires IsNearestAwayFromZero(q, n, d)
    ensures IsNearestAwayFromZero(-q, -n, d)
  {
    assert (-q) * d == -(q * d);
  }

  /** Scaling by a fraction in [0, 1] keeps the sign and cannot grow. */
  lemma {:induction false} ProductByFraction(a: i32, fraction: i32, shift: u8, status: NumericStatus)
    requires shift <= 31 && 0 <= fraction <= Pow2(shift)
    ensures var r := ScaledProduct(a, fraction, shift, status);
            && r.status == status
            && (a >= 0 ==> 0 <= r.value <= a)
            && (a <= 0 ==> a <= r.value <= 0)
  {
    FractionOf(a, fraction, Pow2(shift));
  }

  lemma {:induction false} FractionOf(a: int, fraction: int, one: nat)
    requires 0 <= fraction <= one && 0 < one
    ensures a >= 0 ==> 0 <= RoundHalfAway(a * fraction, one) <= a
    ensures a <= 0 ==> a <= RoundHalfAway(a * fraction, one) <= 0
  {
    if a >= 0 {
      MulMonotone(fraction, one, a);
      MulMonotone(0, fraction, a);
      RoundBetween(0, a * fraction, a, one);
    } else {
      var b := -a;
      MulMonotone(fraction, one, b);
      MulMonotone(0, fraction, b);
      assert b * fraction == -(a * fraction) && b * one == -(a * one);
      RoundBetween(a, a * fraction, 0, one);
    }
  }

  /** The position of a point inside a span, as a fraction of 2^shift. */
  lemma {:induction false} QuotientOfPart(n: i32, d: i32, shift: u8, status: NumericStatus)
    requires shift <= 30 && 0 <= n <= d && 0 < d
    ensures var r := ScaledQuotient(n, d, shift, status);
            r.status == status && 0 <= r.value <= Pow2(shift)
  {
    PartOf(n, d, Pow2(shift));
    Pow2Monotone(shift, 30);
    Pow2Of32();
  }

  lemma {:induction false} PartOf(n: nat, d: nat, one: nat)
    requires n <= d && 0 < d
    ensures 0 <= RoundHalfAway(n * one, d) <= one
  {
    MulMonotone(0, n, one);
    MulMonotone(n, d, one);
    assert one * d == d * one;
    RoundBetween(0, n * one, one, d);
  }
}
