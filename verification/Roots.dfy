/**
 Integer square roots: the binary search over two-word squares, the
 digit-by-digit root of a single word, and the vector magnitudes built on them.
 */
module Roots {
  import opened Arithmetic
  import opened Numeric
  import opened TwoWord

  /** `r` is the floor of the square root of `n`. */
  ghost predicate IsFloorRoot(r: int, n: int) {
    0 <= r && r * r <= n < (r + 1) * (r + 1)
  }

  /** Reference definition: count up while the next square still fits. */
  ghost function FloorRoot(n: nat): (r: nat)
    ensures IsFloorRoot(r, n)
  {
    if n == 0 then 0
    else
      var r := FloorRoot(n - 1);
      assert (r + 2) * (r + 2) == (r + 1) * (r + 1) + 2 * r + 3;
      if (r + 1) * (r + 1) <= n then r + 1 else r
  }

  lemma {:induction false} SquareMonotone(a: nat, b: nat)
    requires a <= b
    ensures a * a <= b * b
  {
    MulMonotone(a, b, a);
    MulMonotone(a, b, b);
  }

  /** The bracketing squares determine the root, so any two algorithms that
      establish them agree. */
  lemma {:induction false} FloorRootUnique(r: int, n: nat)
    requires IsFloorRoot(r, n)
    ensures r == FloorRoot(n)
  {
    var s := FloorRoot(n);
    if r < s {
      SquareMonotone(r + 1, s);
    } else if s < r {
      SquareMonotone(s + 1, r);
    }
  }

  /** Binary search; terminates with the floor root of every 64-bit target. */
  method SqrtFloorUnsigned64(target: Unsigned64) returns (answer: u32)
    ensures answer == FloorRoot(target.Value())
  {
    ghost var n := target.Value();
    var low, high: u32 := 0, MAX_U32;
    answer := 0;
    while true
      invariant 0 <= low <= high <= MAX_U32
      invariant answer == if low == 0 then 0 else low - 1
      invariant answer * answer <= n < (high + 1) * (high + 1)
      decreases high - low
    {
      var middle := low + (high - low) / 2;
      var square := MultiplyUnsigned32(middle, middle);
      var fits := square.high < target.high || (square.high == target.high && square.low <= target.low);
      assert fits <==> middle * middle <= n;
      if fits {
        answer := middle;
        if middle == MAX_U32 {
          break;
        }
        low := middle + 1;
      } else {
        if middle == 0 {
          break;
        }
        high := middle - 1;
      }
      if low > high {
        break;
      }
    }
    FloorRootUnique(answer, n);
  }

  method SqrtFloorScaledU32(value: u32, shift: u8, status: NumericStatus)
    returns (r: u32, after: NumericStatus)
    ensures shift > 31 ==> r == 0 && after == status.Record(InvalidShift)
    ensures shift <= 31 ==> r == FloorRoot(value * Pow2(shift)) && after == status
  {
    if shift > 31 {
      return 0, status.Record(InvalidShift);
    }
    var radicand := ShiftLeft32(value, shift);
    ShlIsProduct(value, shift);
    r := SqrtFloorUnsigned64(radicand);
    after := status;
  }

  // ----- digit by digit

  /** Loop state of the digit-by-digit root: `partial` is the root found so
      far, all its remaining digits weigh less than `weight`, and the machine
      variables hold the scaled forms the algorithm updates. */
  ghost predicate DigitState(value: nat, partial: nat, weight: nat, remainder: int, root: int, bit: int) {
    && 0 < weight && partial + weight <= 0x1_0000
    && root == partial * weight
    && 0 <= remainder == value - partial * partial
    && value < (partial + weight) * (partial + weight)
    && (weight == 1 ==> bit == 0)
    && (weight > 1 ==> weight % 2 == 0 && bit == (weight / 2) * (weight / 2))
  }

  /** Weights are powers of two, so halving one above 2 leaves an even one. */
  lemma {:induction false} HalfWeight(k: nat)
    requires k > 0
    ensures Pow2(k) % 2 == 0 && Pow2(k) / 2 == Pow2(k - 1)
    ensures k == 1 ==> Pow2(k - 1) == 1
    ensures k > 1 ==> Pow2(k - 1) > 1
  {}

  /** The algebra of one digit: testing `root + bit` tests the square of the
      extended root. */
  lemma {:induction false} ExtendedSquare(partial: nat, h: nat)
    ensures partial * (2 * h) == 2 * (partial * h)
    ensures (partial + h) * h == partial * h + h * h
    ensures (partial + h) * (partial + h) == partial * partial + partial * (2 * h) + h * h
  {}

  /** Whether the next digit is a one, and the state it leads to. */
  lemma {:induction false} DigitStep(value: nat, partial: nat, k: nat, remainder: int, root: int, bit: int)
    requires k > 0 && DigitState(value, partial, Pow2(k), remainder, root, bit)
    ensures bit > 0 && 0 <= root && root + bit <= MAX_U32
    ensures remainder >= root + bit ==>
              DigitState(value, partial + Pow2(k - 1), Pow2(k - 1), remainder - root - bit, root / 2 + bit, bit / 4)
    ensures remainder < root + bit ==>
              DigitState(value, partial, Pow2(k - 1), remainder, root / 2, bit / 4)
  {
    var h := Pow2(k - 1);
    HalfWeight(k);
    assert Pow2(k) == 2 * h;
    RootRoom(partial, h);
    QuarterBit(k);
    if k > 1 {
      HalfWeight(k - 1);
    }
    ExtendedSquare(partial, h);
    var square, cross, hh := partial * partial, partial * h, h * h;
    assert root == 2 * cross && bit == hh;
    assert (partial + h) * (partial + h) == square + 2 * cross + hh;
  }

  lemma {:induction false} RootRoom(partial: nat, h: nat)
    requires h > 0 && partial + 2 * h <= 0x1_0000
    ensures 0 < h * h && 0 <= partial * (2 * h) && partial * (2 * h) + h * h <= MAX_U32
  {
    var w := 2 * h;
    if partial <= 0x8000 {
      MulMonotone(partial, 0x8000, w);
    } else {
      MulMonotone(w, 0x8000, partial);
    }
    MulMonotone(0, partial, w);
    MulMonotone(1, h, h);
    SquareMonotone(h, 0x8000);
  }

  lemma {:induction false} SquareNonNegative(x: int)
    ensures 0 <= x * x
  {}

  lemma {:induction false} QuarterBit(k: nat)
    requires k > 0
    ensures var h := Pow2(k - 1);
            if k == 1 then h * h / 4 == 0 else h * h / 4 == Pow2(k - 2) * Pow2(k - 2)
  {
    if k > 1 {
      var e, h := Pow2(k - 2), Pow2(k - 1);
      var square := e * e;
      assert h * h == 4 * square;
    }
  }

  /** The shift-and-subtract root agrees with the binary-search root. */
  method SqrtFloorU32(value: u32) returns (root: u32)
    ensures root == FloorRoot(value)
  {
    var remainder := value;
    root := 0;
    var bit: u32 := 0x4000_0000;
    ghost var k: nat := 16;
    ghost var partial: nat := 0;
    Pow2Of32();
    while bit > remainder
      invariant 0 <= bit && root == 0 && remainder == value
      invariant DigitState(value, 0, Pow2(k), remainder, root, bit)
    {
      if k == 0 {
        assert false;
      }
      DigitStep(value, 0, k, remainder, root, bit);
      k := k - 1;
      bit := bit / 4;
    }
    while bit != 0
      invariant 0 <= bit && 0 <= remainder
      invariant DigitState(value, partial, Pow2(k), remainder, root, bit)
    {
      if k == 0 {
        assert false;
      }
      DigitStep(value, partial, k, remainder, root, bit);
      if remainder >= root + bit {
        remainder := remainder - (root + bit);
        root := root / 2 + bit;
        partial := partial + Pow2(k - 1);
      } else {
        root := root / 2;
      }
      bit := bit / 4;
      k := k - 1;
    }
    SingleWeight(value, partial, k, remainder, root);
    FloorRootUnique(root, value);
  }

  lemma {:induction false} SingleWeight(value: nat, partial: nat, k: nat, remainder: int, root: int)
    requires DigitState(value, partial, Pow2(k), remainder, root, 0)
    ensures root == partial && IsFloorRoot(root, value)
  {
    if k > 0 {
      DigitStep(value, partial, k, remainder, root, 0);
    }
  }

  // ----- magnitudes

  /** Two-word addition that clamps to all ones and faults on overflow. */
  method AddUnsigned64Checked(value: Unsigned64, addend: Unsigned64, status: NumericStatus)
    returns (r: Unsigned64, after: NumericStatus)
    ensures var exact := value.Value() + addend.Value();
            if exact < WORD2 then r.Value() == exact && after == status
            else r.Value() == WORD2 - 1 && after == status.Record(Saturation)
  {
    var low := WrappingAdd(value.low, addend.low);
    var carry := if value.low + addend.low >= WORD then 1 else 0;
    var high := WrappingAdd(value.high, addend.high);
    var overflowHigh := value.high + addend.high >= WORD;
    var overflowCarry := high + carry >= WORD;
    high := WrappingAdd(high, carry);
    r, after := Unsigned64(low, high), status;
    if overflowHigh || overflowCarry {
      after := status.Record(Saturation);
      r := Unsigned64(MAX_U32, MAX_U32);
    }
  }

  const MAX_SQUARE: int := 0x4000_0000_0000_0000

  /** A squared component is at most 2^62, reached only by `i32::MIN`. */
  lemma {:induction false} SquareOfMagnitude(x: i32)
    ensures Abs(x) * Abs(x) == x * x
    ensures 0 <= x * x <= MAX_SQUARE
    ensures x * x == MAX_SQUARE <==> x == MIN_I32
  {
    if x != MIN_I32 {
      SquareMonotone(Abs(x), 0x7fff_ffff);
    }
    SquareNonNegative(x);
  }

  method SquareComponent(x: i32) returns (r: Unsigned64)
    ensures r.Value() == x * x
    ensures 0 <= x * x <= MAX_SQUARE
    ensures x * x == MAX_SQUARE <==> x == MIN_I32
  {
    SquareOfMagnitude(x);
    var m := Magnitude(x);
    r := MultiplyUnsigned32(m, m);
  }

  method Magnitude3Floor(x: i32, y: i32, z: i32, status: NumericStatus)
    returns (r: u32, after: NumericStatus)
    ensures x * x + y * y + z * z >= 0 && r == FloorRoot(x * x + y * y + z * z)
    ensures after == status
  {
    var squared := SquareComponent(x);
    var sy := SquareComponent(y);
    var sz := SquareComponent(z);
    squared, after := AddUnsigned64Checked(squared, sy, status);
    squared, after := AddUnsigned64Checked(squared, sz, after);
    r := SqrtFloorUnsigned64(squared);
  }

  /** Faults only when all four components are `i32::MIN`, whose true
      magnitude 2^32 is the one value that does not fit the result. */
  method Magnitude4Floor(w: i32, x: i32, y: i32, z: i32, status: NumericStatus)
    returns (r: u32, after: NumericStatus)
    ensures w == x == y == z == MIN_I32 ==> r == MAX_U32 && after == status.Record(Saturation)
    ensures w * w + x * x + y * y + z * z >= 0
    ensures !(w == x == y == z == MIN_I32) ==>
              r == FloorRoot(w * w + x * x + y * y + z * z) && after == status
  {
    var squared := SquareComponent(w);
    var sx := SquareComponent(x);
    var sy := SquareComponent(y);
    var sz := SquareComponent(z);
    squared, after := AddUnsigned64Checked(squared, sx, status);
    squared, after := AddUnsigned64Checked(squared, sy, after);
    squared, after := AddUnsigned64Checked(squared, sz, after);
    r := SqrtFloorUnsigned64(squared);
    if w == x == y == z == MIN_I32 {
      FloorRootUnique(MAX_U32, WORD2 - 1);
    }
  }
}
