/**
 Integer facts shared by the fixed-point kernel: powers of two, division with
 an explicit witness, rounding to nearest with halves away from zero, and the
 shifts and bitwise `|` of the machine words. Shifts and rounding are defined by
 recursions that only double, halve or subtract, so that the algorithms can be
 reasoned about without non-linear division.
 */
module Arithmetic {

  const MIN_I32: int := -0x8000_0000
  const MAX_I32: int := 0x7fff_ffff
  const MAX_U32: int := 0xffff_ffff
  const WORD: int := 0x1_0000_0000

  type i32 = x: int | MIN_I32 <= x <= MAX_I32
  type u32 = x: int | 0 <= x <= MAX_U32
  type u16 = x: int | 0 <= x <= 0xffff
  type u8 = x: int | 0 <= x <= 0xff
  type i16 = x: int | -0x8000 <= x <= 0x7fff

  function Abs(x: int): nat {
    if x < 0 then -x else x
  }

  function Min(a: int, b: int): int {
    if a <= b then a else b
  }

  function Max(a: int, b: int): int {
    if a <= b then b else a
  }

  function Clamp(v: int, low: int, high: int): int
    requires low <= high
  {
    if v < low then low else if v > high then high else v
  }

  /** Two's-complement wrap-around of an `i32` result. */
  function Wrap32(v: int): i32 {
    (v + 0x8000_0000) % 0x1_0000_0000 - 0x8000_0000
  }

  /** Two's-complement wrap-around of an `i16` result. */
  function Wrap16(v: int): i16 {
    (v + 0x8000) % 0x1_0000 - 0x8000
  }

  function SaturatingAdd32(a: i32, b: i32): i32 {
    Clamp(a + b, MIN_I32, MAX_I32)
  }

  /** The distance from `a` up to `b`. */
  function Gap(a: int, b: int): int {
    b - a
  }

  function Pow2(n: nat): (p: nat)
    ensures p > 0
  {
    if n == 0 then 1 else 2 * Pow2(n - 1)
  }

  lemma {:induction false} Pow2Add(a: nat, b: nat)
    ensures Pow2(a + b) == Pow2(a) * Pow2(b)
  {
    if b == 0 {
    } else {
      Pow2Add(a, b - 1);
      assert Pow2(a + b) == 2 * (Pow2(a) * Pow2(b - 1));
    }
  }

  lemma {:induction false} Pow2Monotone(a: nat, b: nat)
    requires a <= b
    ensures Pow2(a) <= Pow2(b)
  {
    if a < b {
      Pow2Monotone(a, b - 1);
    }
  }

  lemma {:induction false} Pow2Of32()
    ensures Pow2(16) == 0x1_0000 && Pow2(31) == 0x8000_0000 && Pow2(32) == WORD
  {
    assert Pow2(16) == 0x1_0000;
    Pow2Add(16, 15);
    assert Pow2(15) == 0x8000;
  }

  lemma {:induction false} Pow2OfScales()
    ensures Pow2(15) == 0x8000 && Pow2(18) == 0x4_0000 && Pow2(20) == 0x10_0000 && Pow2(21) == 0x20_0000
    ensures Pow2(22) == 0x40_0000 && Pow2(24) == 0x100_0000 && Pow2(25) == 0x200_0000 && Pow2(30) == 0x4000_0000
  {
    assert Pow2(15) == 0x8000;
    Pow2Add(15, 3);
    Pow2Add(15, 5);
    Pow2Add(15, 7);
    Pow2Add(15, 9);
    Pow2Add(15, 6);
    Pow2Add(15, 10);
    Pow2Add(15, 15);
  }

  // ----- multiplication and division

  lemma {:induction false} MulMonotone(a: int, b: int, c: int)
    requires a <= b && 0 <= c
    ensures a * c <= b * c
  {}

  lemma {:induction false} MulStrict(a: int, b: int, c: int)
    requires a < b && 0 < c
    ensures a * c + c <= b * c
  {
    MulMonotone(a + 1, b, c);
    assert (a + 1) * c == a * c + c;
  }

  /** A product is no larger than a bound on one factor allows. */
  lemma {:induction false} ProductSize(a: int, b: int, bound: nat)
    requires Abs(a) <= bound
    ensures Abs(a * b) <= bound * Abs(b)
  {
    MulMonotone(Abs(a), bound, Abs(b));
    assert Abs(a * b) == Abs(a) * Abs(b);
  }

  /** Quotient and remainder are determined by their defining equation. */
  lemma {:induction false} DivUnique(n: int, d: int, q: int, r: int)
    requires 0 < d && 0 <= r < d
    requires n == q * d + r
    ensures n / d == q && n % d == r
  {
    var q1, r1 := n / d, n % d;
    assert n == q1 * d + r1;
    if q1 < q {
      MulStrict(q1, q, d);
    } else if q < q1 {
      MulStrict(q, q1, d);
    }
  }

  // ----- rounding

  /** Nearest integer to `n / d` for a non-negative `n`, halves upward. */
  function RoundDiv(n: nat, d: nat): nat
    requires d > 0
  {
    if n < d then (if 2 * n >= d then 1 else 0)
    else 1 + RoundDiv(n - d, d)
  }

  /** Nearest integer to `n / d`, halves away from zero. */
  function RoundHalfAway(n: int, d: nat): int
    requires d > 0
  {
    if n >= 0 then RoundDiv(n, d) else 0 - RoundDiv(-n, d)
  }

  /** The independent reading of the rounding rule: no integer is closer to
      `n / d`, and a tie goes to the one of larger magnitude. */
  ghost predicate IsNearestAwayFromZero(q: int, n: int, d: nat) {
    && 2 * Abs(n - q * d) <= d
    && (2 * Abs(n - q * d) == d ==> Abs(q * d) > Abs(n))
  }

  lemma {:induction false} RoundDivBounds(n: nat, d: nat)
    requires d > 0
    ensures 2 * (RoundDiv(n, d) * d) <= 2 * n + d < 2 * (RoundDiv(n, d) * d) + 2 * d
  {
    if n < d {
    } else {
      RoundDivBounds(n - d, d);
      assert RoundDiv(n, d) * d == RoundDiv(n - d, d) * d + d;
    }
  }

  lemma {:induction false} RoundDivUnique(n: nat, d: nat, q: int)
    requires d > 0
    requires 2 * (q * d) <= 2 * n + d < 2 * (q * d) + 2 * d
    ensures RoundDiv(n, d) == q
  {
    var r := RoundDiv(n, d);
    RoundDivBounds(n, d);
    if r < q {
      MulStrict(r, q, d);
    } else if q < r {
      MulStrict(q, r, d);
    }
  }

  /** How the code rounds: truncate, then step up when the remainder is at
      least half of the divisor. */
  lemma {:induction false} RoundFromRemainder(n: nat, d: nat, q: nat, r: nat)
    requires d > 0 && n == q * d + r && r < d
    ensures RoundDiv(n, d) == if r >= d - r then q + 1 else q
  {
    assert (q + 1) * d == q * d + d;
    RoundDivUnique(n, d, if r >= d - r then q + 1 else q);
  }

  /** `RoundHalfAway` computes the nearest integer with ties away from zero. */
  lemma {:induction false} RoundHalfAwayIsNearest(n: int, d: nat)
    requires d > 0
    ensures IsNearestAwayFromZero(RoundHalfAway(n, d), n, d)
  {
    var q := RoundDiv(Abs(n), d);
    RoundDivBounds(Abs(n), d);
    assert (0 - q) * d == -(q * d);
    MulMonotone(0, q, d);
  }

  /** ... and it is the only integer that does. */
  lemma {:induction false} NearestIsUnique(q: int, n: int, d: nat)
    requires d > 0 && IsNearestAwayFromZero(q, n, d)
    ensures q == RoundHalfAway(n, d)
  {
    var m := if n >= 0 then q else -q;
    assert (-q) * d == -(q * d);
    if m < 0 {
      MulMonotone(m, -1, d);
      assert false;
    }
    RoundDivUnique(Abs(n), d, m);
  }

  lemma {:induction false} RoundDivMonotone(m: nat, n: nat, d: nat)
    requires d > 0 && m <= n
    ensures RoundDiv(m, d) <= RoundDiv(n, d)
  {
    if m >= d {
      RoundDivMonotone(m - d, n - d, d);
    }
  }

  lemma {:induction false} RoundMonotone(m: int, n: int, d: nat)
    requires d > 0 && m <= n
    ensures RoundHalfAway(m, d) <= RoundHalfAway(n, d)
  {
    if m >= 0 {
      RoundDivMonotone(m, n, d);
    } else if n < 0 {
      RoundDivMonotone(-n, -m, d);
    }
  }

  lemma {:induction false} RoundNonNegative(n: nat, d: nat)
    requires d > 0
    ensures 0 <= RoundHalfAway(n, d)
  {}

  lemma {:induction false} RoundExact(k: int, d: nat)
    requires d > 0
    ensures RoundHalfAway(k * d, d) == k
  {
    if k >= 0 {
      MulMonotone(0, k, d);
      RoundDivUnique(k * d, d, k);
    } else {
      MulMonotone(k, -1, d);
      assert (-k) * d == -(k * d);
      RoundDivUnique((-k) * d, d, -k);
    }
  }

  /** A rounded ratio lies between any integers that bracket the exact ratio. */
  lemma {:induction false} RoundBetween(low: int, n: int, high: int, d: nat)
    requires d > 0 && low * d <= n <= high * d
    ensures low <= RoundHalfAway(n, d) <= high
  {
    RoundExact(low, d);
    RoundExact(high, d);
    RoundMonotone(low * d, n, d);
    RoundMonotone(n, high * d, d);
  }

  /** Cancelling a common positive factor does not move the rounded ratio. */
  lemma {:induction false} RoundCancel(n: nat, d: nat, c: nat)
    requires d > 0 && c > 0
    ensures d * c > 0 && n * c >= 0
    ensures RoundDiv(n * c, d * c) == RoundDiv(n, d)
  {
    MulStrict(0, d, c);
    MulMonotone(0, n, c);
    if n < d {
      MulStrict(n, d, c);
      assert 2 * (n * c) == (2 * n) * c;
      if 2 * n >= d {
        MulMonotone(d, 2 * n, c);
      } else {
        MulStrict(2 * n, d, c);
      }
    } else {
      MulMonotone(d, n, c);
      assert (n - d) * c == n * c - d * c;
      RoundCancel(n - d, d, c);
    }
  }

  // ----- shifts and bits

  function Shl(n: nat, k: nat): nat {
    if k == 0 then n else 2 * Shl(n, k - 1)
  }

  function Shr(n: nat, k: nat): nat {
    if k == 0 then n else Shr(n, k - 1) / 2
  }

  /** Bitwise `|` of two non-negative machine words. */
  function BitOr(a: nat, b: nat): nat {
    if a == 0 && b == 0 then 0
    else 2 * BitOr(a / 2, b / 2) + (if a % 2 == 1 || b % 2 == 1 then 1 else 0)
  }

  lemma {:induction false} ShlIsProduct(n: nat, k: nat)
    ensures Shl(n, k) == n * Pow2(k)
  {
    if k > 0 {
      ShlIsProduct(n, k - 1);
    }
  }

  lemma {:induction false} ShlSum(a: nat, b: nat, k: nat)
    ensures Shl(a + b, k) == Shl(a, k) + Shl(b, k)
  {
    if k > 0 {
      ShlSum(a, b, k - 1);
    }
  }

  lemma {:induction false} ShlDouble(n: nat, k: nat)
    ensures Shl(2 * n, k) == Shl(n, k + 1)
  {
    if k > 0 {
      ShlDouble(n, k - 1);
    }
  }

  lemma {:induction false} ShlOne(k: nat)
    ensures Shl(1, k) == Pow2(k) && Shl(0, k) == 0
  {
    if k > 0 {
      ShlOne(k - 1);
    }
  }

  lemma {:induction false} ShlMonotone(a: nat, b: nat, k: nat)
    requires a <= b
    ensures Shl(a, k) <= Shl(b, k)
  {
    if k > 0 {
      ShlMonotone(a, b, k - 1);
    }
  }

  lemma {:induction false} ShrHalf(n: nat, k: nat)
    ensures Shr(n / 2, k) == Shr(n, k + 1)
  {
    if k > 0 {
      ShrHalf(n, k - 1);
    }
  }

  lemma {:induction false} ShrAdd(n: nat, a: nat, b: nat)
    ensures Shr(n, a + b) == Shr(Shr(n, a), b)
  {
    if b > 0 {
      ShrAdd(n, a, b - 1);
    }
  }

  lemma {:induction false} ShrMonotone(a: nat, b: nat, k: nat)
    requires a <= b
    ensures Shr(a, k) <= Shr(b, k) && Shr(b, k) <= b
  {
    if k > 0 {
      ShrMonotone(a, b, k - 1);
    }
  }

  /** Shifting right drops exactly the low bits. */
  lemma {:induction false} ShrFloor(n: nat, k: nat)
    ensures Shl(Shr(n, k), k) <= n < Shl(Shr(n, k), k) + Pow2(k)
    ensures n % Pow2(k) == n - Shl(Shr(n, k), k)
    ensures n / Pow2(k) == Shr(n, k)
  {
    ShrRange(n, k);
    ShlIsProduct(Shr(n, k), k);
    DivUnique(n, Pow2(k), Shr(n, k), n - Shl(Shr(n, k), k));
  }

  lemma {:induction false} ShrRange(n: nat, k: nat)
    ensures Shl(Shr(n, k), k) <= n < Shl(Shr(n, k), k) + Pow2(k)
  {
    if k > 0 {
      ShrRange(n / 2, k - 1);
      ShrHalf(n, k - 1);
    }
  }

  lemma {:induction false} ShrOfShl(n: nat, s: nat, k: nat)
    requires s <= k
    ensures Shr(Shl(n, s), k) == Shr(n, k - s)
  {
    if s > 0 {
      ShrHalf(Shl(n, s), k - 1);
      ShrOfShl(n, s - 1, k - 1);
    }
  }

  lemma {:induction false} ShrSmall(n: nat, k: nat, j: nat)
    requires n < Pow2(k + j)
    ensures Shr(n, j) < Pow2(k)
  {
    if j > 0 {
      ShrHalf(n, j - 1);
      ShrSmall(n / 2, k, j - 1);
    }
  }

  lemma {:induction false} BitOrZero(a: nat)
    ensures BitOr(a, 0) == a && BitOr(0, a) == a
  {
    if a != 0 {
      BitOrZero(a / 2);
    }
  }

  lemma {:induction false} BitOrBound(a: nat, b: nat, k: nat)
    requires a < Pow2(k) && b < Pow2(k)
    ensures BitOr(a, b) < Pow2(k)
    decreases k
  {
    if k > 0 {
      BitOrBound(a / 2, b / 2, k - 1);
    }
  }

  /** `|` of words that share no bit position is their sum. */
  lemma {:induction false} BitOrDisjoint(h: nat, low: nat, k: nat)
    requires low < Pow2(k)
    ensures BitOr(low, Shl(h, k)) == Shl(h, k) + low
    decreases k
  {
    if k == 0 {
      BitOrZero(h);
    } else {
      BitOrDisjoint(h, low / 2, k - 1);
    }
  }

  /** Setting a bit that is clear adds its weight. */
  lemma {:induction false} BitOrSet(a: nat, k: nat)
    requires Shr(a, k) % 2 == 0
    ensures BitOr(a, Pow2(k)) == a + Pow2(k)
  {
    if k == 0 {
      BitOrZero(a / 2);
    } else {
      ShrHalf(a, k - 1);
      BitOrSet(a / 2, k - 1);
    }
  }
}
