/**
 Long-duration integration with an exact sub-cell residual, and the rounded
 linear blend of the global-flight numeric contract.
 */
module Residual {
  import opened Arithmetic
  import opened Numeric
  import opened TwoWord

  const MIN_I64: int := -0x8000_0000_0000_0000
  const MAX_I64: int := 0x7fff_ffff_ffff_ffff

  type i64 = x: int | MIN_I64 <= x <= MAX_I64

  /** Two's-complement wrap-around of an `i64` result. */
  function Wrap64(v: int): i64 {
    if MIN_I64 <= v <= MAX_I64 then v
    else (v + 0x8000_0000_0000_0000) % WORD2 - 0x8000_0000_0000_0000
  }

  /** Division by 2^shift, truncating toward zero. */
  function TruncShift(v: int, shift: nat): int {
    if v >= 0 then Shr(v, shift) else 0 - Shr(-v, shift)
  }

  datatype Integration = Integration(value: i32, residual: i64, status: NumericStatus)

  /** One increment of the destination scale; `residual` carries the numerator
      left over by rounding. A fault leaves the residual alone. */
  function IntegrateWithResidual(rate: i32, dt: u32, shift: u8, residual: i64, status: NumericStatus): Integration {
    if shift == 0 || shift >= 63 then Integration(0, residual, status.Record(InvalidInput))
    else if rate * dt + residual < MIN_I64 || rate * dt + residual > MAX_I64 then
      Integration(0, residual, status.Record(Saturation))
    else RoundAndCarry(rate * dt + residual, shift, residual, status)
  }

  /** Rounds the numerator to a whole number of cells and keeps the rest. */
  function RoundAndCarry(numerator: i64, shift: u8, residual: i64, status: NumericStatus): Integration
    requires 0 < shift
  {
    var quotient := RoundedCells(numerator, shift);
    if quotient < MIN_I32 || quotient > MAX_I32 then Integration(0, residual, status.Record(Saturation))
    else Integration(quotient, Wrap64(numerator - quotient * Pow2(shift)), status)
  }

  function RoundedCells(numerator: i64, shift: u8): int
    requires 0 < shift
  {
    var half := Pow2(shift - 1);
    if numerator >= 0 then TruncShift(Wrap64(numerator + half), shift)
    else TruncShift(Wrap64(numerator - half), shift)
  }

  lemma {:induction false} TruncShiftIsDivision(v: int, shift: nat)
    ensures TruncShift(v, shift) == TruncDiv(v, Pow2(shift))
  {
    ShrFloor(Abs(v), shift);
  }

  /** The increment in the code's own steps: checked numerator, wrapping bias,
      truncating division, residual written only on success. */
  method Integrate(rate: i32, dt: u32, shift: u8, residual: i64, status: NumericStatus)
    returns (value: i32, carried: i64, after: NumericStatus)
    ensures Integration(value, carried, after) == IntegrateWithResidual(rate, dt, shift, residual, status)
  {
    hide TruncShift, TruncDiv, Wrap64;
    if shift == 0 || shift >= 63 {
      return 0, residual, status.Record(InvalidInput);
    }
    var numerator := rate * dt + residual;
    if numerator < MIN_I64 || numerator > MAX_I64 {
      return 0, residual, status.Record(Saturation);
    }
    var denominator, half := Pow2(shift), Pow2(shift - 1);
    var biased := if numerator >= 0 then Wrap64(numerator + half) else Wrap64(numerator - half);
    TruncShiftIsDivision(biased, shift);
    var quotient := TruncDiv(biased, denominator);
    if quotient < MIN_I32 || quotient > MAX_I32 {
      return 0, residual, status.Record(Saturation);
    }
    return quotient, Wrap64(numerator - quotient * denominator), status;
  }

  /** Integrates a whole run with one residual, in place. */
  method IntegrateAll(steps: seq<Impulse>, shift: u8) returns (total: int, residual: i64, status: NumericStatus)
    ensures Run(total, residual, status) == RunSteps(steps, shift)
    ensures 1 <= shift <= 31 && status.IsClear() ==>
              2 * Abs(Pow2(shift) * total - ExactSum(steps)) <= Pow2(shift)
  {
    hide IntegrateWithResidual;
    total, residual, status := 0, 0, CLEAR;
    for k := 0 to |steps|
      invariant Run(total, residual, status) == RunSteps(steps[..k], shift)
    {
      var value;
      value, residual, status := Integrate(steps[k].rate, steps[k].dt, shift, residual, status);
      total := total + value;
      assert steps[..k + 1][..k] == steps[..k];
    }
    assert steps[..|steps|] == steps;
    if 1 <= shift <= 31 && status.IsClear() {
      RunNeverDrifts(steps, shift);
    }
  }

  /** At most half a destination cell. */
  ghost predicate WithinHalfCell(residual: int, shift: nat) {
    2 * Abs(residual) <= Pow2(shift)
  }

  lemma {:induction false} RateTimesDt(rate: i32, dt: u32)
    ensures -0x8000_0000 * MAX_U32 <= rate * dt <= MAX_I32 * MAX_U32
  {
    MulMonotone(rate, MAX_I32, dt);
    MulMonotone(MIN_I32, rate, dt);
    MulMonotone(dt, MAX_U32, 0x8000_0000);
    MulMonotone(dt, MAX_U32, MAX_I32);
  }

  lemma {:induction false} HalfBelow(shift: nat)
    requires 1 <= shift <= 31
    ensures Pow2(shift - 1) <= 0x4000_0000 && Pow2(shift) == 2 * Pow2(shift - 1)
  {
    Pow2Monotone(shift - 1, 30);
    Pow2Of32();
  }

  lemma {:induction false} QuotientIsRounded(numerator: i64, shift: u8)
    requires 1 <= shift <= 62
    requires MIN_I64 + Pow2(shift - 1) <= numerator <= MAX_I64 - Pow2(shift - 1)
    ensures RoundedCells(numerator, shift) == RoundHalfAway(numerator, Pow2(shift))
  {
    RoundByShift(Abs(numerator), shift);
  }

  /** Carrying is exact whenever adding half a cell does not overflow. */
  lemma {:induction false} CarryConserves(numerator: i64, shift: u8, residual: i64, status: NumericStatus)
    requires 1 <= shift <= 31
    requires MIN_I64 + Pow2(shift - 1) <= numerator <= MAX_I64 - Pow2(shift - 1)
    requires RoundAndCarry(numerator, shift, residual, status).status == CLEAR
    ensures var r := RoundAndCarry(numerator, shift, residual, status);
            && r.value == RoundHalfAway(numerator, Pow2(shift))
            && r.value * Pow2(shift) + r.residual == numerator
            && WithinHalfCell(r.residual, shift)
            && status == CLEAR
  {
    hide RoundedCells, RoundHalfAway;
    HalfBelow(shift);
    QuotientIsRounded(numerator, shift);
    RoundHalfAwayIsNearest(numerator, Pow2(shift));
  }

  /** Up to shift 31 no intermediate sum can overflow, and one step conserves
      the exact numerator: what is not returned stays in the residual. */
  lemma {:induction false} StepConserves(rate: i32, dt: u32, shift: u8, residual: i64, status: NumericStatus)
    requires 1 <= shift <= 31 && WithinHalfCell(residual, shift)
    requires IntegrateWithResidual(rate, dt, shift, residual, status).status == CLEAR
    ensures var r := IntegrateWithResidual(rate, dt, shift, residual, status);
            && r.value == RoundHalfAway(rate * dt + residual, Pow2(shift))
            && r.value * Pow2(shift) + r.residual == rate * dt + residual
            && WithinHalfCell(r.residual, shift)
            && status == CLEAR
  {
    hide RoundAndCarry, RoundHalfAway;
    RateTimesDt(rate, dt);
    HalfBelow(shift);
    CarryConserves(rate * dt + residual, shift, residual, status);
  }

  /** What one step does while adding half a cell does not overflow, for the
      nearest number of cells `q` to the exact numerator: it returns `q` and keeps
      the rest when `q` fits, else faults and leaves the residual alone. Up to
      shift 31 a carried residual never overflows. */
  lemma {:induction false} StepExactly(rate: i32, dt: u32, shift: u8, residual: i64, status: NumericStatus, q: int)
    requires 1 <= shift <= 62 && IsNearestAwayFromZero(q, rate * dt + residual, Pow2(shift))
    requires MIN_I64 + Pow2(shift - 1) <= rate * dt + residual <= MAX_I64 - Pow2(shift - 1)
    ensures var r := IntegrateWithResidual(rate, dt, shift, residual, status);
            if MIN_I32 <= q <= MAX_I32 then
              r.value == q && r.value * Pow2(shift) + r.residual == rate * dt + residual && r.status == status
            else r == Integration(0, residual, status.Record(Saturation))
  {
    hide RoundedCells, RoundHalfAway, IsNearestAwayFromZero;
    var numerator := rate * dt + residual;
    QuotientIsRounded(numerator, shift);
    NearestIsUnique(q, numerator, Pow2(shift));
    Pow2Monotone(shift, 62);
    Pow2At62();
    RestIsSmall(q, numerator, Pow2(shift));
  }

  /** What is refused before any rounding: shifts outside 1 to 62, and a
      numerator that does not fit 64 bits. */
  lemma {:induction false} StepRefusals(rate: i32, dt: u32, shift: u8, residual: i64, status: NumericStatus)
    ensures var r, numerator := IntegrateWithResidual(rate, dt, shift, residual, status), rate * dt + residual;
            && (!(1 <= shift <= 62) ==> r == Integration(0, residual, status.Record(InvalidInput)))
            && (1 <= shift <= 62 && !(-0x8000_0000_0000_0000 <= numerator <= 0x7fff_ffff_ffff_ffff) ==>
                  r == Integration(0, residual, status.Record(Saturation)))
  {
    hide RoundedCells;
  }

  lemma {:induction false} RestIsSmall(q: int, n: i64, d: nat)
    requires 0 < d <= 0x4000_0000_0000_0000 && IsNearestAwayFromZero(q, n, d)
    ensures Wrap64(n - q * d) == n - q * d
  {}

  datatype Impulse = Impulse(rate: i32, dt: u32)

  /** State after a run of steps. `total` sums the returned increments. */
  datatype Run = Run(total: int, residual: i64, status: NumericStatus)

  function RunSteps(steps: seq<Impulse>, shift: u8): Run {
    if steps == [] then Run(0, 0, CLEAR)
    else
      var prior := RunSteps(steps[..|steps| - 1], shift);
      var last := steps[|steps| - 1];
      var r := IntegrateWithResidual(last.rate, last.dt, shift, prior.residual, prior.status);
      Run(prior.total + r.value, r.residual, r.status)
  }

  /** The exact sum of rate times time step. */
  ghost function ExactSum(steps: seq<Impulse>): int {
    if steps == [] then 0
    else ExactSum(steps[..|steps| - 1]) + steps[|steps| - 1].rate * steps[|steps| - 1].dt
  }

  /** Over any fault-free run the returned increments and the residual
      together are the exact sum, so the drift never exceeds half a cell. */
  lemma {:induction false} RunNeverDrifts(steps: seq<Impulse>, shift: u8)
    requires 1 <= shift <= 31 && RunSteps(steps, shift).status == CLEAR
    ensures var r := RunSteps(steps, shift);
            && Pow2(shift) * r.total + r.residual == ExactSum(steps)
            && WithinHalfCell(r.residual, shift)
            && 2 * Abs(Pow2(shift) * r.total - ExactSum(steps)) <= Pow2(shift)
  {
    hide IntegrateWithResidual, RoundHalfAway, Pow2;
    if steps == [] {
    } else {
      var front, last := steps[..|steps| - 1], steps[|steps| - 1];
      var prior := RunSteps(front, shift);
      if prior.status != CLEAR {
        StickyFault(last.rate, last.dt, shift, prior.residual, prior.status);
        assert false;
      }
      RunNeverDrifts(front, shift);
      StepConserves(last.rate, last.dt, shift, prior.residual, prior.status);
      Distribute(Pow2(shift), prior.total,
                 IntegrateWithResidual(last.rate, last.dt, shift, prior.residual, prior.status).value);
    }
  }

  lemma {:induction false} Distribute(p: int, total: int, value: int)
    ensures p * (total + value) == p * total + value * p
  {}

  lemma {:induction false} StickyFault(rate: i32, dt: u32, shift: u8, residual: i64, status: NumericStatus)
    requires status != CLEAR
    ensures IntegrateWithResidual(rate, dt, shift, residual, status).status != CLEAR
  {
    hide Wrap64, RoundedCells;
  }

  /** The drift law for one run. */
  ghost predicate Conserves(steps: seq<Impulse>, shift: u8) {
    var r := RunSteps(steps, shift);
    r.status == CLEAR ==> Pow2(shift) * r.total + r.residual == ExactSum(steps)
  }

  /** The law holds for every run exactly up to shift 31; the code accepts
      shifts up to 62. */
  lemma {:induction false} DriftLawExactly(shift: u8)
    requires 1 <= shift <= 62
    ensures (forall steps :: Conserves(steps, shift)) <==> shift <= 31
  {
    hide RunSteps, ExactSum, Pow2;
    if shift <= 31 {
      forall steps
        ensures Conserves(steps, shift)
      {
        if RunSteps(steps, shift).status == CLEAR {
          RunNeverDrifts(steps, shift);
        }
      }
    } else if shift == 32 {
      Shift32Overflows();
      assert !Conserves([Impulse(1, 0x8000_0000), Impulse(MIN_I32, MAX_U32)], 32);
    } else {
      WideShiftOverflows(shift);
      assert !Conserves([Impulse(MIN_I32, MAX_U32)], shift);
    }
  }

  const LOWEST: int := MIN_I32 * MAX_U32

  /** Beyond shift 32 a single step with the most negative product already
      wraps: half a cell is subtracted past the bottom of `i64`. */
  lemma {:induction false} WideShiftOverflows(shift: u8)
    requires 33 <= shift <= 62
    ensures !Conserves([Impulse(MIN_I32, MAX_U32)], shift)
  {
    hide Wrap64, RoundedCells, Pow2;
    var steps := [Impulse(MIN_I32, MAX_U32)];
    assert steps[..0] == [];
    assert LOWEST == MIN_I64 + 0x8000_0000;
    WideCells(shift);
    var q := RoundedCells(LOWEST, shift);
    MulMonotone(1, q, Pow2(shift));
    WrapMoves(LOWEST - q * Pow2(shift));
    var r := IntegrateWithResidual(MIN_I32, MAX_U32, shift, 0, CLEAR);
    assert r == RoundAndCarry(LOWEST, shift, 0, CLEAR);
    assert RunSteps([], shift) == Run(0, 0, CLEAR);
    assert RunSteps(steps, shift) == Run(q, r.residual, CLEAR);
    assert ExactSum(steps) == LOWEST;
  }

  lemma {:induction false} WrapMoves(v: int)
    ensures Wrap64(v) == v <==> MIN_I64 <= v <= MAX_I64
  {}

  lemma {:induction false} WideCells(shift: u8)
    requires 33 <= shift <= 62
    ensures Pow2(shift) >= WORD && 1 <= RoundedCells(LOWEST, shift) <= MAX_I32
  {
    hide Pow2, Shr;
    Pow2Of32();
    Pow2Monotone(32, shift - 1);
    Pow2Monotone(shift, 62);
    Pow2At62();
    HalfPower(shift);
    var w := Wrap64(LOWEST - Pow2(shift - 1));
    assert w == MAX_I64 + 0x8000_0001 - Pow2(shift - 1);
    WideShr(w, shift);
  }

  lemma {:induction false} WideShr(w: nat, shift: nat)
    requires Pow2(shift) >= WORD && Pow2(shift) <= w <= MAX_I64
    ensures 1 <= Shr(w, shift) <= MAX_I32
  {
    hide Pow2, Shr;
    var q, p := Shr(w, shift), Pow2(shift);
    ShrRange(w, shift);
    ShlIsProduct(q, shift);
    if q > MAX_I32 {
      MulMonotone(0x8000_0000, q, p);
      MulMonotone(WORD, p, 0x8000_0000);
    }
  }

  lemma {:induction false} HalfPower(shift: nat)
    requires shift > 0
    ensures Pow2(shift) == 2 * Pow2(shift - 1)
  {}

  lemma {:induction false} Pow2At62()
    ensures Pow2(62) == 0x4000_0000_0000_0000
  {
    Pow2Add(31, 31);
    Pow2Of32();
  }

  /** At shift 32 it takes the reachable residual -2^31 first. */
  lemma {:induction false} Shift32Overflows()
    ensures !Conserves([Impulse(1, 0x8000_0000), Impulse(MIN_I32, MAX_U32)], 32)
  {
    hide IntegrateWithResidual, Pow2;
    var one := [Impulse(1, 0x8000_0000)];
    var steps := [Impulse(1, 0x8000_0000), Impulse(MIN_I32, MAX_U32)];
    assert steps[..1] == one && one[..0] == [];
    FirstStepAt32();
    assert RunSteps(one, 32) == Run(1, -0x8000_0000, CLEAR);
    SecondStepAt32();
    assert RunSteps(steps, 32) == Run(0x8000_0000, WORD, CLEAR);
    assert ExactSum([]) == 0 && ExactSum(one) == 0x8000_0000;
    assert ExactSum(steps) == 0x8000_0000 + LOWEST;
    Pow2Of32();
  }

  lemma {:induction false} FirstStepAt32()
    ensures IntegrateWithResidual(1, 0x8000_0000, 32, 0, CLEAR) == Integration(1, -0x8000_0000, CLEAR)
  {
    hide Pow2, Shr;
    Pow2Of32();
    WordShift(WORD);
  }

  /** The true quotient is -2^31; the wrapped sum yields 2^31 - 1. */
  lemma {:induction false} SecondStepAt32()
    ensures var r := IntegrateWithResidual(MIN_I32, MAX_U32, 32, -0x8000_0000, CLEAR);
            r == Integration(MAX_I32, WORD, CLEAR)
  {
    hide Pow2, Shr;
    Pow2Of32();
    assert MIN_I32 * MAX_U32 - 0x8000_0000 == MIN_I64;
    assert Wrap64(MIN_I64 - 0x8000_0000) == MAX_I64 - 0x7fff_ffff;
    WordShift(MAX_I64 - 0x7fff_ffff);
  }

  // ----- rounded blend

  function TruncDiv(v: int, d: nat): int
    requires d > 0
  {
    if v >= 0 then v / d else 0 - (-v) / d
  }

  lemma {:induction false} RoundFromHalf(n: nat, d: nat)
    requires d > 0
    ensures (n + d / 2) / d == RoundDiv(n, d)
  {
    var q := (n + d / 2) / d;
    assert n + d / 2 == q * d + (n + d / 2) % d;
    RoundDivUnique(n, d, q);
  }

  /** Blends from `a` toward `b` by `numerator / denominator`, rounding ties
      away from zero. Unless `b - a` itself saturates the result lies between
      the two ends and meets both of them exactly. */
  method InterpolateI32(a: i32, b: i32, numerator: u32, denominator: u32, status: NumericStatus)
    returns (r: i32, after: NumericStatus)
    ensures denominator == 0 || numerator > denominator ==> r == a && after == status.Record(InvalidInput)
    ensures 0 < denominator && numerator <= denominator ==>
              var delta := Saturate(b - a, status);
              && after == delta.status
              && r == a + RoundHalfAway(delta.value * numerator, denominator)
              && Min(a, b) <= r <= Max(a, b)
              && (numerator == 0 ==> r == a)
              && (numerator == denominator && delta.value == b - a ==> r == b)
  {
    if denominator == 0 || numerator > denominator {
      return a, status.Record(InvalidInput);
    }
    var delta;
    delta, after := Subtract(b, a, status);
    RateTimesDt(delta, numerator);
    var scaled: i64 := delta * numerator;
    var half := denominator / 2;
    RoundFromHalf(Abs(scaled), denominator);
    FractionOf(delta, numerator, denominator);
    RoundExact(delta, denominator);
    var rounded: int;
    if scaled >= 0 {
      var biased: i64 := scaled + half;
      rounded := TruncDiv(biased, denominator);
    } else {
      var biased: i64 := scaled - half;
      rounded := TruncDiv(biased, denominator);
    }
    assert rounded == RoundHalfAway(scaled, denominator);
    if rounded < MIN_I32 || rounded > MAX_I32 {
      return a, after.Record(Saturation);
    }
    r, after := Add(a, rounded, after);
  }
}
