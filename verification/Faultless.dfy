/**
 The numeric operations as a caller that insists on a clear status sees them:
 the status stays clear exactly while the exact rounded results fit, and then
 they are the results.
 */
module Faultless {
  import opened Arithmetic
  import opened Numeric
  import opened TwoWord

  predicate Fits(v: int) {
    MIN_I32 <= v <= MAX_I32
  }

  /** `a * b / 2^shift` to nearest, halves away from zero. */
  function Scaled(a: int, b: int, shift: nat): int {
    RoundHalfAway(a * b, Pow2(shift))
  }

  method Times(a: i32, b: i32, shift: u8, status: NumericStatus) returns (r: i32, after: NumericStatus)
    requires shift <= 31
    ensures after.IsClear() <==> status.IsClear() && Fits(Scaled(a, b, shift))
    ensures after.IsClear() ==> r == Scaled(a, b, shift)
    ensures 0 <= a && 0 <= b ==> 0 <= r
    ensures 0 == a ==> r == 0
    ensures a == 0 || b == 0 ==> after == status
  {
    r, after := MultiplyScaled(a, b, shift, status);
    if 0 <= a && 0 <= b {
      MulMonotone(0, a, b);
    }
  }

  method Over(n: i32, d: i32, shift: u8, status: NumericStatus) returns (r: i32, after: NumericStatus)
    requires shift <= 31 && 0 <= n && 0 <= d
    ensures after.IsClear() <==> status.IsClear() && 0 < d && Fits(RoundHalfAway(n * Pow2(shift), d))
    ensures after.IsClear() ==> r == RoundHalfAway(n * Pow2(shift), d)
    ensures 0 <= r
  {
    r, after := DivideScaled(n, d, shift, status);
    MulMonotone(0, n, Pow2(shift));
  }

  method Plus(a: i32, b: i32, status: NumericStatus) returns (r: i32, after: NumericStatus)
    ensures after.IsClear() <==> status.IsClear() && Fits(a + b)
    ensures after.IsClear() ==> r == a + b
    ensures 0 <= a && 0 <= b ==> 0 <= r
  {
    r, after := Add(a, b, status);
  }

  method Minus(a: i32, b: i32, status: NumericStatus) returns (r: i32, after: NumericStatus)
    ensures after.IsClear() <==> status.IsClear() && Fits(a - b)
    ensures after.IsClear() ==> r == a - b
  {
    r, after := Subtract(a, b, status);
  }
}
