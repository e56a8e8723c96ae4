/**
 Whether `fromhex` rounds correctly: overflow, truncation below 2^-1022, and the wrap-around of its
 64-bit exponent sums.
 */
module HexCorrectness {
  import opened Basics
  import opened Powers
  import opened Doubles
  import opened HexRounding

  /** 2^1024 - 2^970: half a unit in the last place above the largest finite double. */
  ghost function OverflowThreshold(): real {
    Dyadic(2 * TWO53 - 1, 970)
  }

  lemma OverflowExactly(mantissa: nat, e: int)
    requires mantissa > 0
    ensures RoundedExponent(mantissa, e) > 1023 <==> Dyadic(mantissa, e) >= OverflowThreshold()
  {
    var t := TopExponent(mantissa, e);
    TopExponentBounds(mantissa, e);
    ThresholdBounds();
    if t >= 1024 {
      PowerOrder(1024, t);
    } else if t < 1023 {
      PowerOrder(t + 1, 1023);
    } else {
      WindowRange(mantissa);
      WindowRounds(mantissa, e);
      CellMiddle(TWO53 - 1, 971);
      DyadicOrder(Window(mantissa) + 1, TWO53 - 1, 971);
    }
  }

  lemma ThresholdBounds()
    ensures Dyadic(1, 1023) < OverflowThreshold() < Dyadic(1, 1024)
  {
    Pow2Small();
    ShlOne(53);
    DyadicShift(1, 970, 53);
    DyadicShift(TWO53, 970, 1);
    assert Shl(TWO53, 1) == 2 * TWO53;
    DyadicShift(1, 1023, 1);
    DyadicShift(1, 970, 54);
    assert Shl(1, 54) == 2 * Shl(1, 53);
    DyadicOrder(TWO53, 2 * TWO53 - 1, 970);
    DyadicOrder(2 * TWO53 - 1, 2 * TWO53, 970);
  }

  /** Every finite double is a whole number of units of 2^-1074. */
  lemma DoubleIsWholeUnits(y: Bits64) returns (n: int)
    requires IsFinite(y)
    ensures Value(y) == Dyadic(n, -1074)
  {
    var s: int := if SignBit(y) then -(Significand(y) as int) else Significand(y);
    n := Shl(s, Exponent(y) + 1074);
    DyadicShift(s, -1074, Exponent(y) + 1074);
  }

  /** The subnormal pattern, or the least normal one, that holds `n` units. */
  lemma UnitsAsDouble(neg: bool, n: nat) returns (y: Bits64)
    requires n <= TWO52
    ensures IsFinite(y) && Significand(y) == n && Value(y) == Signed(neg, Dyadic(n, -1074))
  {
    y := if n == TWO52 then Pack(neg, 1, 0) else Pack(neg, 0, n);
    SignedDyadic(neg, n, -1074);
  }

  /** A finite double of the right sign, less than 2^-1074 away, and exact if the value is a double. */
  ghost predicate Truncated(r: FloatResult, neg: bool, v: real) {
    && r.Float? && IsFinite(r.bits) && SignBit(r.bits) == neg
    && Abs(Value(r.bits) - Signed(neg, v)) < Dyadic(1, -1074)
    && forall y: Bits64 | IsFinite(y) && Value(y) == Signed(neg, v) :: Value(r.bits) == Value(y)
  }

  /** Under 2^-1022 the result is truncated to the unit 2^-1074. */
  lemma SubnormalIsTruncated(neg: bool, mantissa: nat, e: int)
    requires mantissa > 0 && TopExponent(mantissa, e) < -1022
    ensures Truncated(RoundToDouble(neg, mantissa, e), neg, Dyadic(mantissa, e))
  {
    var v := Dyadic(mantissa, e);
    var b := EncodesSubnormal(neg, mantissa, e);
    var q := SubnormalCell(mantissa, e);
    TruncationError(q, Significand(b), v);
    forall y: Bits64 | IsFinite(y) && Value(y) == Signed(neg, v)
      ensures Value(b) == Value(y)
    {
      var n := DoubleIsWholeUnits(y);
      DyadicNeg(n, -1074);
      WholeInCell(if neg then -n else n, q, v);
    }
  }

  /** ... and it is the nearest double exactly when dropping the bits under 2^-1074 is harmless. */
  lemma SubnormalNearestIff(neg: bool, mantissa: nat, e: int)
    requires mantissa > 0 && TopExponent(mantissa, e) < -1022
    ensures var r := RoundToDouble(neg, mantissa, e);
            r.Float? && SignBit(r.bits) == neg
            && (NearestEven(r.bits, Signed(neg, Dyadic(mantissa, e))) <==> TruncationHarmless(mantissa, e))
  {
    var v := Dyadic(mantissa, e);
    var b := EncodesSubnormal(neg, mantissa, e);
    var q := SubnormalCell(mantissa, e);
    if TruncationHarmless(mantissa, e) {
      NearestOnGrid(b, neg, v, q, -1074, Significand(b));
    } else {
      CellMiddle(q, -1074);
      var y := UnitsAsDouble(neg, q + 1);
      assert Abs(Value(y) - Signed(neg, v)) <= Abs(Value(b) - Signed(neg, v));
    }
  }

  lemma TruncationError(q: int, kept: int, v: real)
    requires Dyadic(q, -1074) <= v < Dyadic(q + 1, -1074)
    requires kept == q || (kept == q + 1 && v != Dyadic(q, -1074))
    ensures Abs(Dyadic(kept, -1074) - v) < Dyadic(1, -1074)
  {
    DyadicAdd(q, 1, -1074);
  }

  lemma WholeInCell(n: int, q: int, v: real)
    requires Dyadic(q, -1074) <= v < Dyadic(q + 1, -1074) && v == Dyadic(n, -1074)
    ensures n == q
  {
    DyadicOrder(n, q, -1074);
    DyadicOrder(n, q + 1, -1074);
  }

  /** A result for the magnitude `v` that IEEE 754 roundTiesToEven would give. */
  ghost predicate CorrectlyRounded(r: FloatResult, neg: bool, v: real) {
    if v >= OverflowThreshold() then r == OverflowError
    else r.Float? && SignBit(r.bits) == neg && NearestEven(r.bits, Signed(neg, v))
  }

  /** With unbounded exponents, rounding is correct exactly from 2^-1022 up or where truncation is harmless. */
  lemma RoundToDoubleIsCorrect(neg: bool, mantissa: nat, e: int)
    requires mantissa > 0
    ensures RoundToDouble(neg, mantissa, e) == OverflowError <==> Dyadic(mantissa, e) >= OverflowThreshold()
    ensures CorrectlyRounded(RoundToDouble(neg, mantissa, e), neg, Dyadic(mantissa, e))
            <==> Dyadic(mantissa, e) >= Dyadic(1, -1022) || TruncationHarmless(mantissa, e)
  {
    OverflowExactly(mantissa, e);
    TopExponentBounds(mantissa, e);
    RoundTo53Range(mantissa);
    if TopExponent(mantissa, e) < -1022 {
      PowerOrder(TopExponent(mantissa, e) + 1, -1022);
      SubnormalNearestIff(neg, mantissa, e);
    } else {
      PowerOrder(-1022, TopExponent(mantissa, e));
      if RoundedExponent(mantissa, e) <= 1023 {
        NormalIsNearest(neg, mantissa, e);
      }
    }
  }

  /**
   The wrapping sums give the unbounded result exactly when the rounded exponent fits in 64 bits;
   otherwise a huge value comes out as zero and a tiny one as an overflow.
   */
  lemma WrappingIsExact(neg: bool, mantissa: nat, fracDigits: nat, binExp: int)
    requires mantissa > 0 && FitsI64(binExp)
    requires BitLength(mantissa) < 0x2000_0000_0000_0000 && fracDigits < 0x0800_0000_0000_0000
    ensures Assemble(neg, mantissa, fracDigits, binExp) == RoundToDouble(neg, mantissa, binExp - 4 * fracDigits)
            <==> FitsI64(RoundedExponent(mantissa, binExp - 4 * fracDigits))
  {
    AssembleWraps(neg, mantissa, fracDigits, binExp);
    var t := RoundedExponent(mantissa, binExp - 4 * fracDigits);
    WrappedOnce(t);
    if !FitsI64(t) {
      FarExponents(neg, mantissa, t, I64(t));
    }
  }

  lemma WrappedOnce(t: int)
    requires -TWO64 < t < TWO64
    ensures I64(t) == if t >= TWO63 then t - TWO64 else if t < -TWO63 then t + TWO64 else t
  {
  }

  lemma FarExponents(neg: bool, mantissa: nat, t: int, u: int)
    requires mantissa > 0 && ((t > 1023 && u < -1100) || (u > 1023 && t < -1100))
    ensures EncodeRounded(neg, mantissa, t) != EncodeRounded(neg, mantissa, u)
  {
    RoundTo53Range(mantissa);
  }

  /** An exponent out of range is never correctly rounded: huge values become zero, tiny ones overflow. */
  lemma WrappedIsWrong(neg: bool, mantissa: nat, fracDigits: nat, binExp: int)
    requires mantissa > 0 && FitsI64(binExp)
    requires BitLength(mantissa) < 0x2000_0000_0000_0000 && fracDigits < 0x0800_0000_0000_0000
    requires !FitsI64(RoundedExponent(mantissa, binExp - 4 * fracDigits))
    ensures !CorrectlyRounded(Assemble(neg, mantissa, fracDigits, binExp), neg,
                              Dyadic(mantissa, binExp - 4 * fracDigits))
  {
    AssembleWraps(neg, mantissa, fracDigits, binExp);
    WrongWhenWrapped(neg, mantissa, binExp - 4 * fracDigits);
  }

  lemma WrongWhenWrapped(neg: bool, mantissa: nat, e: int)
    requires mantissa > 0 && BitLength(mantissa) < 0x2000_0000_0000_0000
    requires -TWO63 - 0x2000_0000_0000_0000 < e < TWO63 && !FitsI64(RoundedExponent(mantissa, e))
    ensures !CorrectlyRounded(EncodeRounded(neg, mantissa, I64(RoundedExponent(mantissa, e))), neg, Dyadic(mantissa, e))
  {
    var t := RoundedExponent(mantissa, e);
    RoundedExponentRange(mantissa, e);
    WrappedEncoding(neg, mantissa, t);
    OverflowExactly(mantissa, e);
    NotCorrect(EncodeRounded(neg, mantissa, I64(t)), neg, Dyadic(mantissa, e));
  }

  lemma RoundedExponentRange(mantissa: nat, e: int)
    requires mantissa > 0
    ensures e <= RoundedExponent(mantissa, e) <= e + BitLength(mantissa)
  {
  }

  lemma WrappedEncoding(neg: bool, mantissa: nat, t: int)
    requires mantissa > 0
    requires -TWO63 - 0x4000_0000_0000_0000 < t < TWO63 + 0x4000_0000_0000_0000 && !FitsI64(t)
    ensures t > 1023 ==> EncodeRounded(neg, mantissa, I64(t)).Float?
    ensures t <= 1023 ==> EncodeRounded(neg, mantissa, I64(t)) == OverflowError
  {
    WrappedFar(t);
    FarEncodings(neg, mantissa, I64(t));
  }

  lemma NotCorrect(r: FloatResult, neg: bool, v: real)
    requires v >= OverflowThreshold() ==> r.Float?
    requires v < OverflowThreshold() ==> r == OverflowError
    ensures !CorrectlyRounded(r, neg, v)
  {
  }

  lemma WrappedFar(t: int)
    requires -TWO63 - 0x4000_0000_0000_0000 < t < TWO63 + 0x4000_0000_0000_0000 && !FitsI64(t)
    ensures (t > 1023 && I64(t) < -1100) || (I64(t) > 1023 && t < -1100)
  {
    WrappedOnce(t);
  }

  lemma FarEncodings(neg: bool, mantissa: nat, u: int)
    requires mantissa > 0
    ensures u > 1023 ==> EncodeRounded(neg, mantissa, u) == OverflowError
    ensures u < -1100 ==> EncodeRounded(neg, mantissa, u).Float?
  {
    RoundTo53Range(mantissa);
  }
}
