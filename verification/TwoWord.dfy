/**
 The two-word algorithms of the numeric kernel: 64-bit values held as a pair of
 32-bit words, schoolbook multiplication, shifts, bit-serial long division and
 the public scaled operations built from them. Every contract is stated on the
 integer a pair of words denotes, and the public operations are proved equal to
 the exact operations of `Numeric`.
 */
module TwoWord {
  import opened Arithmetic
  import opened Numeric

  const WORD2: int := 0x1_0000_0000_0000_0000

  datatype Unsigned64 = Unsigned64(low: u32, high: u32) {
    /** The integer the two words stand for. */
    function Value(): (v: nat)
      ensures v < WORD2
    {
      high * WORD + low
    }
  }

  const ZERO64 := Unsigned64(0, 0)

  method Magnitude(value: i32) returns (m: u32)
    ensures m == Abs(value)
  {
    if value == MIN_I32 {
      m := 0x8000_0000;
    } else if value < 0 {
      m := 0 - value;
    } else {
      m := value;
    }
  }

  function WrappingAdd(a: u32, b: u32): u32 {
    if a + b < WORD then a + b else a + b - WORD
  }

  /** Two-word addition with carry, wrapping modulo 2^64. */
  method AddWords(value: Unsigned64, addLow: u32, addHigh: u32) returns (r: Unsigned64)
    ensures var exact := value.Value() + addHigh * WORD + addLow;
            r.Value() == if exact < WORD2 then exact else exact - WORD2
  {
    var low := WrappingAdd(value.low, addLow);
    var high := WrappingAdd(value.high, addHigh);
    if low < value.low {
      high := WrappingAdd(high, 1);
    }
    r := Unsigned64(low, high);
  }

  /** Schoolbook product of four 16-bit half-word products. */
  method MultiplyUnsigned32(a: u32, b: u32) returns (r: Unsigned64)
    ensures r.Value() == a * b
  {
    var aLow, aHigh := a % 0x1_0000, a / 0x1_0000;
    var bLow, bHigh := b % 0x1_0000, b / 0x1_0000;
    HalfWordProduct(aLow, bLow);
    HalfWordProduct(aLow, bHigh);
    HalfWordProduct(aHigh, bLow);
    HalfWordProduct(aHigh, bHigh);
    r := AddPartialProducts(aLow * bLow, aLow * bHigh, aHigh * bLow, aHigh * bHigh);
    HalfWordExpansion(aLow, aHigh, bLow, bHigh);
  }

  method AddPartialProducts(product00: u32, product01: u32, product10: u32, product11: u32)
    returns (r: Unsigned64)
    requires product00 <= 0xfffe_0001 && product01 <= 0xfffe_0001
    requires product10 <= 0xfffe_0001 && product11 <= 0xfffe_0001
    ensures r.Value() == product11 * WORD + (product01 + product10) * 0x1_0000 + product00
  {
    r := Unsigned64(product00, 0);
    HalfWordSplit(product01);
    r := AddWords(r, product01 * 0x1_0000 % WORD, product01 / 0x1_0000);
    HalfWordSplit(product10);
    r := AddWords(r, product10 * 0x1_0000 % WORD, product10 / 0x1_0000);
    assert r.Value() == product00 + (product01 + product10) * 0x1_0000;
    r := r.(high := WrappingAdd(r.high, product11));
  }

  lemma {:induction false} HalfWordSplit(product: u32)
    ensures product / 0x1_0000 * WORD + product * 0x1_0000 % WORD == product * 0x1_0000
  {}

  lemma {:induction false} HalfWordProduct(x: nat, y: nat)
    requires x <= 0xffff && y <= 0xffff
    ensures 0 <= x * y <= 0xfffe_0001
  {
    MulMonotone(x, 0xffff, y);
    MulMonotone(0, x, y);
  }

  lemma {:induction false} HalfWordExpansion(al: nat, ah: nat, bl: nat, bh: nat)
    ensures (ah * 0x1_0000 + al) * (bh * 0x1_0000 + bl)
         == ah * bh * WORD + (al * bh + ah * bl) * 0x1_0000 + al * bl
  {}

  // ----- shifts

  lemma {:induction false} WordShift(n: nat)
    ensures Shr(n, 32) == n / WORD && Shl(n, 32) == n * WORD
  {
    Pow2Of32();
    ShrFloor(n, 32);
    ShlIsProduct(n, 32);
  }

  method ShiftLeft32(value: u32, shift: u8) returns (r: Unsigned64)
    requires shift <= 31
    ensures r.Value() == Shl(value, shift)
  {
    if shift == 0 {
      r := Unsigned64(value, 0);
    } else {
      ShrOfShl(value, shift, 32);
      WordShift(Shl(value, shift));
      ShrMonotone(value, value, 32 - shift);
      r := Unsigned64(Shl(value, shift) % WORD, Shr(value, 32 - shift));
    }
  }

  method ShiftRight(value: Unsigned64, shift: u8) returns (r: Unsigned64)
    requires shift <= 31
    ensures r.Value() == Shr(value.Value(), shift)
  {
    if shift == 0 {
      r := value;
    } else {
      var kept := Shr(value.low, shift);
      var spill := Shl(value.high, 32 - shift) % WORD;
      JoinSpill(value.low, value.high, shift);
      ShrMonotone(value.high, value.high, shift);
      r := Unsigned64(BitOr(kept, spill), Shr(value.high, shift));
      ShrOfShl(value.high, 32 - shift, 32);
      WordShift(Shl(value.high, 32 - shift));
      ShrOfPair(value.low, value.high, shift);
    }
  }

  /** The spilled high bits land above the kept low bits. */
  lemma {:induction false} JoinSpill(low: u32, high: u32, shift: nat)
    requires 1 <= shift <= 31
    ensures var kept, spill := Shr(low, shift), Shl(high, 32 - shift) % WORD;
            BitOr(kept, spill) == kept + spill < WORD
  {
    var kept, spill := Shr(low, shift), Shl(high, 32 - shift) % WORD;
    Pow2Of32();
    ShrSmall(low, 32 - shift, shift);
    ShlMod(high, 32 - shift, 32);
    BitOrDisjoint(high % Pow2(shift), kept, 32 - shift);
    Pow2Monotone(32 - shift, 32);
    BitOrBound(kept, spill, 32);
  }

  /** The bits of a shifted value that survive truncation to `width` bits. */
  lemma {:induction false} ShlMod(h: nat, k: nat, width: nat)
    requires k <= width
    ensures Shl(h, k) % Pow2(width) == Shl(h % Pow2(width - k), k)
  {
    if k > 0 {
      ShlMod(h, k - 1, width - 1);
      DoubleMod(Shl(h, k - 1), Pow2(width - 1));
    }
  }

  lemma {:induction false} DoubleMod(x: nat, p: nat)
    requires p > 0
    ensures 2 * x % (2 * p) == 2 * (x % p)
  {
    var q, r := x / p, x % p;
    assert q * (2 * p) == 2 * (q * p);
    DivUnique(2 * x, 2 * p, q, 2 * r);
  }

  /** A right shift of a pair moves the high word down next to the low bits. */
  lemma {:induction false} ShrOfPair(low: u32, high: u32, s: nat)
    requires s <= 32
    ensures Shr(high * WORD + low, s) == Shl(high, 32 - s) + Shr(low, s)
  {
    if s == 0 {
      WordShift(high);
    } else {
      ShrOfPair(low, high, s - 1);
    }
  }

  method Increment(value: Unsigned64) returns (r: Unsigned64)
    ensures r.Value() == if value.Value() + 1 < WORD2 then value.Value() + 1 else 0
  {
    r := value.(low := WrappingAdd(value.low, 1));
    if r.low == 0 {
      r := r.(high := WrappingAdd(r.high, 1));
    }
  }

  method BitAt(value: Unsigned64, position: u8) returns (b: u8)
    requires position < 64
    ensures b == Shr(value.Value(), position) % 2
  {
    if position < 32 {
      LowBit(value, position);
      b := Shr(value.low, position) % 2;
    } else {
      HighBits(value, position);
      b := Shr(value.high, position - 32) % 2;
    }
  }

  lemma {:induction false} LowBit(value: Unsigned64, p: nat)
    requires p < 32
    ensures Shr(value.Value(), p) % 2 == Shr(value.low, p) % 2
  {
    hide Shr;
    ShrOfPair(value.low, value.high, p);
    assert Shl(value.high, 32 - p) == 2 * Shl(value.high, 31 - p);
    SameParity(Shl(value.high, 31 - p), Shr(value.low, p));
  }

  lemma {:induction false} SameParity(half: nat, rest: nat)
    ensures (2 * half + rest) % 2 == rest % 2
  {}

  lemma {:induction false} HighBits(value: Unsigned64, p: nat)
    requires p >= 32
    ensures Shr(value.Value(), p) == Shr(value.high, p - 32)
  {
    ShrAdd(value.Value(), 32, p - 32);
    WordShift(value.Value());
  }

  /** Setting a bit that is still clear adds its weight. */
  method SetBit(value: Unsigned64, position: u8) returns (r: Unsigned64)
    requires position < 64
    requires Shr(value.Value(), position) % 2 == 0
    ensures r.Value() == value.Value() + Pow2(position)
  {
    if position < 32 {
      LowBit(value, position);
      WordSetBit(value.low, position);
      r := value.(low := BitOr(value.low, Pow2(position)));
    } else {
      HighBits(value, position);
      WordSetBit(value.high, position - 32);
      HighWeight(position - 32);
      r := value.(high := BitOr(value.high, Pow2(position - 32)));
    }
  }

  lemma {:induction false} WordSetBit(word: u32, position: nat)
    requires position < 32 && Shr(word, position) % 2 == 0
    ensures BitOr(word, Pow2(position)) == word + Pow2(position) < WORD
  {
    BitOrSet(word, position);
    Pow2Of32();
    Pow2Monotone(position, 31);
    BitOrBound(word, Pow2(position), 32);
  }

  lemma {:induction false} HighWeight(p: nat)
    ensures Pow2(32 + p) == WORD * Pow2(p)
  {
    if p == 0 {
      Pow2Of32();
    } else {
      HighWeight(p - 1);
    }
  }

  // ----- bit-serial long division

  /** State of the restoring division once the bits at and above `position`
      have been consumed: `digits` is their quotient, kept left-aligned in
      `quotient`, and `remainder` is what is left of them. */
  ghost predicate DividesPrefix(n: nat, d: nat, position: nat, digits: nat, quotient: nat, remainder: int)
  {
    && 0 <= remainder < d
    && quotient == Shl(digits, position)
    && Shr(n, position) == digits * d + remainder
  }

  lemma {:induction false} DividesPrefixStart(n: nat, d: nat, bits: nat)
    requires d > 0 && n < Pow2(bits)
    ensures DividesPrefix(n, d, bits, 0, 0, 0)
  {
    ShrSmall(n, 0, bits);
    ShlOne(bits);
  }

  /** Whether the next restoring step subtracts the divisor. */
  ghost function NextDigit(n: nat, d: nat, position: nat, remainder: int): nat
    requires position > 0
  {
    if 2 * remainder + Shr(n, position - 1) % 2 >= d then 1 else 0
  }

  /** One restoring step: shift in the next bit and subtract when it fits. */
  lemma {:induction false} DividesPrefixStep(n: nat, d: nat, position: nat, digits: nat, quotient: nat, remainder: int)
    requires d > 0 && position > 0
    requires DividesPrefix(n, d, position, digits, quotient, remainder)
    ensures Shr(quotient, position - 1) % 2 == 0
    ensures var digit := NextDigit(n, d, position, remainder);
            DividesPrefix(n, d, position - 1, 2 * digits + digit,
                          quotient + digit * Pow2(position - 1),
                          2 * remainder + Shr(n, position - 1) % 2 - digit * d)
  {
    var p := position - 1;
    var digit := NextDigit(n, d, position, remainder);
    assert Shr(n, p) == 2 * Shr(n, position) + Shr(n, p) % 2;
    DoubleDigits(digits, d, digit);
    ShlDouble(digits, p);
    ShrOfShl(2 * digits, p, p);
    ShlOne(p);
    ShlSum(2 * digits, digit, p);
  }

  /** With every bit consumed the prefix is the whole numerator. */
  lemma {:induction false} DividesPrefixEnd(n: nat, d: nat, digits: nat, quotient: nat, remainder: int)
    requires DividesPrefix(n, d, 0, digits, quotient, remainder)
    ensures n == quotient * d + remainder && 0 <= remainder < d
  {}

  lemma {:induction false} DoubleDigits(digits: nat, d: nat, digit: nat)
    ensures (2 * digits + digit) * d == 2 * (digits * d) + digit * d
  {}

  /** Restoring division over all 64 bits; the 32-bit remainder cannot
      overflow because a magnitude divisor is at most 2^31. */
  method DivideUnsigned64By32(numerator: Unsigned64, denominator: u32)
    returns (quotient: Unsigned64, remainder: u32)
    requires 0 < denominator <= 0x8000_0000
    ensures numerator.Value() == quotient.Value() * denominator + remainder
    ensures remainder < denominator
  {
    hide Shl, Shr, Pow2;
    ghost var n, d: nat := numerator.Value(), denominator;
    ghost var digits: nat := 0;
    quotient, remainder := ZERO64, 0;
    var position: u8 := 64;
    Pow2Of64();
    DividesPrefixStart(n, d, 64);
    while position != 0
      invariant position <= 64
      invariant DividesPrefix(n, d, position, digits, quotient.Value(), remainder)
    {
      DividesPrefixStep(n, d, position, digits, quotient.Value(), remainder);
      digits := 2 * digits + NextDigit(n, d, position, remainder);
      position := position - 1;
      var bit := BitAt(numerator, position);
      remainder := ShiftIn(remainder, bit);
      if remainder >= denominator {
        remainder := remainder - denominator;
        quotient := SetBit(quotient, position);
      }
    }
    DividesPrefixEnd(n, d, digits, quotient.Value(), remainder);
  }

  lemma {:induction false} Pow2Of64()
    ensures Pow2(64) == WORD2
  {
    Pow2Add(32, 32);
    Pow2Of32();
  }

  /** `(word << 1) | bit` without loss of the top bit. */
  method ShiftIn(word: u32, bit: u8) returns (r: u32)
    requires word < 0x8000_0000 && bit <= 1
    ensures r == 2 * word + bit
  {
    BitOrDisjoint(word, bit, 1);
    r := BitOr(bit, Shl(word, 1) % WORD);
  }

  /** The narrow form: a 16-bit divisor and only `bitCount` numerator bits. */
  method DivideUnsigned64By16Bits(numerator: Unsigned64, denominator: u16, bitCount: u8)
    returns (quotient: Unsigned64, remainder: u16)
    requires 0 < denominator && bitCount <= 64
    requires numerator.Value() < Pow2(bitCount)
    ensures numerator.Value() == quotient.Value() * denominator + remainder
    ensures remainder < denominator
  {
    ghost var n, d := numerator.Value(), denominator;
    ghost var digits: nat := 0;
    quotient := ZERO64;
    var partial: u32 := 0;
    var position: u8 := bitCount;
    DividesPrefixStart(n, d, bitCount);
    while position != 0
      invariant position <= bitCount
      invariant DividesPrefix(n, d, position, digits, quotient.Value(), partial)
    {
      DividesPrefixStep(n, d, position, digits, quotient.Value(), partial);
      digits := 2 * digits + NextDigit(n, d, position, partial);
      position := position - 1;
      var bit := BitAt(numerator, position);
      partial := ShiftIn(partial, bit);
      if partial >= denominator {
        partial := partial - denominator;
        quotient := SetBit(quotient, position);
      }
    }
    remainder := partial;
  }

  /** The single-word form used by the fast interpolation fraction. */
  method DivideUnsigned32By16(numerator: u32, denominator: u16)
    returns (quotient: u32, remainder: u16)
    requires 0 < denominator
    ensures numerator == quotient * denominator + remainder
    ensures remainder < denominator
  {
    ghost var digits: nat := 0;
    quotient := 0;
    var partial: u32 := 0;
    var position: u8 := 32;
    Pow2Of32();
    DividesPrefixStart(numerator, denominator, 32);
    while position != 0
      invariant position <= 32
      invariant DividesPrefix(numerator, denominator, position, digits, quotient, partial)
    {
      DividesPrefixStep(numerator, denominator, position, digits, quotient, partial);
      digits := 2 * digits + NextDigit(numerator, denominator, position, partial);
      position := position - 1;
      partial := ShiftIn(partial, Shr(numerator, position) % 2);
      if partial >= denominator {
        partial := partial - denominator;
        WordSetBit(quotient, position);
        quotient := BitOr(quotient, Pow2(position));
      }
    }
    remainder := partial;
  }

  // ----- the public scaled operations

  function Signed(magnitude: nat, negative: bool): int {
    if negative then 0 - magnitude else magnitude
  }

  method SignedFromMagnitude(value: Unsigned64, negative: bool, status: NumericStatus)
    returns (r: i32, after: NumericStatus)
    ensures Outcome(r, after) == Saturate(Signed(value.Value(), negative), status)
  {
    if negative {
      if value.high != 0 || value.low > 0x8000_0000 {
        r, after := MIN_I32, status.Record(Saturation);
      } else if value.low == 0x8000_0000 {
        r, after := MIN_I32, status;
      } else {
        r, after := 0 - value.low, status;
      }
    } else if value.high != 0 || value.low > 0x7fff_ffff {
      r, after := MAX_I32, status.Record(Saturation);
    } else {
      r, after := value.low, status;
    }
  }

  lemma {:induction false} SignOfProduct(a: i32, b: i32)
    ensures a * b == Signed(Abs(a) * Abs(b), (a < 0) != (b < 0))
    ensures 0 <= Abs(a) * Abs(b) <= 0x4000_0000_0000_0000
  {
    MulMonotone(Abs(a), 0x8000_0000, Abs(b));
    MulMonotone(0, Abs(a), Abs(b));
  }

  lemma {:induction false} RoundSigned(n: nat, d: nat, negative: bool)
    requires d > 0
    ensures RoundHalfAway(Signed(n, negative), d) == Signed(RoundDiv(n, d), negative)
  {}

  /** Adding half a unit and shifting rounds to nearest. */
  lemma {:induction false} RoundByShift(n: nat, shift: nat)
    ensures RoundDiv(n, Pow2(shift))
         == Shr(if shift == 0 then n else n + Pow2(shift - 1), shift)
  {
    var m := if shift == 0 then n else n + Pow2(shift - 1);
    var q := Shr(m, shift);
    ShrRange(m, shift);
    ShlIsProduct(q, shift);
    RoundDivUnique(n, Pow2(shift), q);
  }

  /** Computes the product rounded to nearest, halves away from zero; sets
      Saturation exactly when the exact rounded value does not fit. */
  method MultiplyScaled(a: i32, b: i32, shift: u8, status: NumericStatus)
    returns (r: i32, after: NumericStatus)
    ensures Outcome(r, after) == ScaledProduct(a, b, shift, status)
  {
    if shift > 31 {
      return 0, status.Record(InvalidShift);
    }
    var negative := (a < 0) != (b < 0);
    var ma := Magnitude(a);
    var mb := Magnitude(b);
    SignOfProduct(a, b);
    var product := MultiplyUnsigned32(ma, mb);
    ghost var n := product.Value();
    if shift != 0 {
      Pow2Monotone(shift - 1, 31);
      Pow2Of32();
      ShlOne(shift - 1);
      product := AddWords(product, Shl(1, shift - 1), 0);
    }
    var shifted := ShiftRight(product, shift);
    RoundByShift(n, shift);
    RoundSigned(n, Pow2(shift), negative);
    r, after := SignedFromMagnitude(shifted, negative, status);
  }

  lemma {:induction false} NumeratorSign(n: i32, d: i32, shift: u8)
    requires d != 0
    ensures ScaledNumerator(n, d, shift) == Signed(Shl(Abs(n), shift), (n < 0) != (d < 0))
  {
    ShlIsProduct(Abs(n), shift);
    assert (0 - n) * Pow2(shift) == 0 - n * Pow2(shift);
  }

  lemma {:induction false} ShiftedMagnitudeRoom(magnitude: nat, shift: nat)
    requires magnitude <= 0x8000_0000 && shift <= 31
    ensures Shl(magnitude, shift) + 1 < WORD2
  {
    ShlMonotone(magnitude, 0x8000_0000, shift);
    ShlIsProduct(0x8000_0000, shift);
    Pow2Monotone(shift, 31);
    Pow2Of32();
  }

  /** A truncated quotient of magnitudes leaves room for the rounding step. */
  lemma {:induction false} QuotientRoom(magnitude: nat, shift: nat, d: nat, q: nat, r: nat)
    requires magnitude <= 0x8000_0000 && shift <= 31 && d > 0
    requires Shl(magnitude, shift) == q * d + r
    ensures q + 1 < WORD2
  {
    ShiftedMagnitudeRoom(magnitude, shift);
    MulMonotone(1, d, q);
  }

  /** The rounding step after a truncating division of `n` by `divisor`. */
  method RoundQuotient(quotient: Unsigned64, remainder: u32, divisor: u32, ghost n: nat)
    returns (r: Unsigned64)
    requires 0 < divisor && remainder < divisor && quotient.Value() + 1 < WORD2
    requires n == quotient.Value() * divisor + remainder
    ensures r.Value() == RoundDiv(n, divisor)
  {
    RoundFromRemainder(n, divisor, quotient.Value(), remainder);
    r := quotient;
    if remainder >= divisor - remainder {
      r := Increment(quotient);
    }
  }

  /** Computes the quotient rounded to nearest, halves away from zero. */
  method DivideScaled(numerator: i32, denominator: i32, shift: u8, status: NumericStatus)
    returns (r: i32, after: NumericStatus)
    ensures Outcome(r, after) == ScaledQuotient(numerator, denominator, shift, status)
  {
    if denominator == 0 {
      return 0, status.Record(DivisionByZero);
    }
    if shift > 31 {
      return 0, status.Record(InvalidShift);
    }
    var negative := (numerator < 0) != (denominator < 0);
    var divisor := Magnitude(denominator);
    var magnitude := Magnitude(numerator);
    var shifted := ShiftLeft32(magnitude, shift);
    var quotient, remainder := DivideUnsigned64By32(shifted, divisor);
    ghost var n := shifted.Value();
    QuotientRoom(magnitude, shift, divisor, quotient.Value(), remainder);
    quotient := RoundQuotient(quotient, remainder, divisor, n);
    NumeratorSign(numerator, denominator, shift);
    RoundSigned(n, divisor, negative);
    r, after := SignedFromMagnitude(quotient, negative, status);
  }

  /** The reduced-denominator fast path agrees with the general division in
      value and status for every parameter triple and every input. */
  method DivideScaledReducedU16(shift: u8, reduction: u8, numeratorBits: u8,
                                numerator: i32, denominator: i32, status: NumericStatus)
    returns (r: i32, after: NumericStatus)
    ensures Outcome(r, after) == ScaledQuotient(numerator, denominator, shift, status)
  {
    if shift > 31 || reduction > shift || numeratorBits == 0 || numeratorBits > 32
       || numeratorBits + shift - reduction > 64
    {
      r, after := DivideScaled(numerator, denominator, shift, status);
      return;
    }
    var divisor := Magnitude(denominator);
    var reducedDivisor := Shr(divisor, reduction);
    var magnitude := Magnitude(numerator);
    var numeratorFits := numeratorBits == 32 || magnitude < Pow2(numeratorBits);
    if denominator == 0
       || divisor % Pow2(reduction) != 0
       || reducedDivisor == 0
       || reducedDivisor > 0xffff
       || !numeratorFits
    {
      r, after := DivideScaled(numerator, denominator, shift, status);
      return;
    }
    var quotient := DivideReduced(magnitude, reducedDivisor, shift - reduction, numeratorBits);
    ReductionCancels(magnitude, divisor, shift, reduction);
    NumeratorSign(numerator, denominator, shift);
    RoundSigned(Shl(magnitude, shift), divisor, (numerator < 0) != (denominator < 0));
    r, after := SignedFromMagnitude(quotient, (numerator < 0) != (denominator < 0), status);
  }

  /** The arithmetic of the fast path: a narrow scan over just enough bits. */
  method DivideReduced(magnitude: u32, divisor: u16, shift: u8, numeratorBits: u8) returns (quotient: Unsigned64)
    requires magnitude <= 0x8000_0000 && 0 < divisor && shift <= 31 && numeratorBits <= 32
    requires numeratorBits == 32 || magnitude < Pow2(numeratorBits)
    ensures quotient.Value() == RoundDiv(Shl(magnitude, shift), divisor)
  {
    var shifted := ShiftLeft32(magnitude, shift);
    if numeratorBits == 32 {
      Pow2Of32();
    }
    ShiftedFits(magnitude, numeratorBits, shift);
    var remainder;
    quotient, remainder := DivideUnsigned64By16Bits(shifted, divisor, numeratorBits + shift);
    QuotientRoom(magnitude, shift, divisor, quotient.Value(), remainder);
    quotient := RoundQuotient(quotient, remainder, divisor, shifted.Value());
  }

  lemma {:induction false} ShiftedFits(m: nat, bits: nat, s: nat)
    requires m < Pow2(bits)
    ensures Shl(m, s) < Pow2(bits + s)
  {
    if s > 0 {
      ShiftedFits(m, bits, s - 1);
    }
  }

  /** Dropping a power of two common to the shift and the divisor leaves the
      rounding decision where it was. */
  lemma {:induction false} ReductionCancels(magnitude: nat, divisor: nat, shift: nat, reduction: nat)
    requires reduction <= shift && divisor % Pow2(reduction) == 0 && Shr(divisor, reduction) > 0
    ensures divisor > 0
    ensures RoundDiv(Shl(magnitude, shift), divisor)
         == RoundDiv(Shl(magnitude, shift - reduction), Shr(divisor, reduction))
  {
    var reduced, c := Shr(divisor, reduction), Pow2(reduction);
    ShrFloor(divisor, reduction);
    ShlIsProduct(reduced, reduction);
    var m := Shl(magnitude, shift - reduction);
    ShlAdd(magnitude, shift - reduction, reduction);
    ShlIsProduct(m, reduction);
    RoundCancel(m, reduced, c);
  }

  lemma {:induction false} ShlAdd(n: nat, a: nat, b: nat)
    ensures Shl(n, a + b) == Shl(Shl(n, a), b)
  {
    if b > 0 {
      ShlAdd(n, a, b - 1);
    }
  }
}
