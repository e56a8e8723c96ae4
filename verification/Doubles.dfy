/**
 IEEE 754 binary64 bit patterns, the real number each finite pattern denotes, and
 `float.as_integer_ratio`, which decodes a pattern into an exact fraction.
 */
module Doubles {
  import opened Basics
  import opened Powers

  const TWO52: int := 0x10_0000_0000_0000
  const TWO53: int := 0x20_0000_0000_0000

  type Bits64 = n: nat | n < TWO64

  const POSITIVE_INFINITY: Bits64 := 0x7ff0_0000_0000_0000
  const NEGATIVE_INFINITY: Bits64 := 0xfff0_0000_0000_0000
  const QUIET_NAN: Bits64 := 0x7ff8_0000_0000_0000

  // Rust's `bits >> 63 != 0`, `(bits >> 52) & 0x7ff` and `bits & 0x000f_ffff_ffff_ffff`.

  predicate SignBit(b: Bits64) {
    b / TWO63 != 0
  }

  function ExponentField(b: Bits64): (e: nat)
    ensures e < 2048
  {
    (b / TWO52) % 2048
  }

  function Fraction(b: Bits64): (f: nat)
    ensures f < TWO52
  {
    b % TWO52
  }

  /** `f64::from_bits((biased << 52) | fraction)`, negated when `neg`. */
  function Pack(neg: bool, biased: nat, fraction: nat): (b: Bits64)
    requires biased < 2048 && fraction < TWO52
    ensures SignBit(b) == neg && ExponentField(b) == biased && Fraction(b) == fraction
  {
    (if neg then TWO63 else 0) + biased * TWO52 + fraction
  }

  lemma PackFields(b: Bits64)
    ensures Pack(SignBit(b), ExponentField(b), Fraction(b)) == b
  {
  }

  predicate IsFinite(b: Bits64) {
    ExponentField(b) != 2047
  }

  predicate IsInfinite(b: Bits64) {
    ExponentField(b) == 2047 && Fraction(b) == 0
  }

  predicate IsNan(b: Bits64) {
    ExponentField(b) == 2047 && Fraction(b) != 0
  }

  predicate IsZero(b: Bits64) {
    ExponentField(b) == 0 && Fraction(b) == 0
  }

  /** Section 3.4 of IEEE 754-2019: the integral significand of a finite pattern. */
  function Significand(b: Bits64): (m: nat)
    ensures m < TWO53
  {
    if ExponentField(b) == 0 then Fraction(b) else Fraction(b) + TWO52
  }

  /** The exponent that goes with the integral significand. */
  function Exponent(b: Bits64): (e: int)
    ensures e >= -1074
  {
    if ExponentField(b) == 0 then -1074 else ExponentField(b) - 1075
  }

  /** The real number denoted by a finite pattern. */
  function Value(b: Bits64): real
    requires IsFinite(b)
  {
    Dyadic(if SignBit(b) then -(Significand(b) as int) else Significand(b), Exponent(b))
  }

  /** Where the scale lies: one, the least positive double, and the greatest finite one. */
  lemma Landmarks()
    ensures Value(0x3ff0_0000_0000_0000) == 1.0
    ensures Value(1) == Dyadic(1, -1074)
    ensures Value(0x7fef_ffff_ffff_ffff) == Dyadic(TWO53 - 1, 971)
    ensures Value(0x8000_0000_0000_0001) == Dyadic(-1, -1074)
  {
    OneIsOne();
    FieldsValue(1, false, 0, 1);
    FieldsValue(0x7fef_ffff_ffff_ffff, false, 2046, TWO52 - 1);
    FieldsValue(0x8000_0000_0000_0001, true, 0, 1);
  }

  lemma FieldsValue(b: Bits64, neg: bool, biased: nat, fraction: nat)
    requires biased < 2047 && fraction < TWO52 && b == (if neg then TWO63 else 0) + biased * TWO52 + fraction
    ensures IsFinite(b)
    ensures var m: int := if biased == 0 then fraction else fraction + TWO52;
            Value(b) == Dyadic(if neg then -m else m, if biased == 0 then -1074 else biased - 1075)
  {
    assert b == Pack(neg, biased, fraction);
  }

  lemma OneIsOne()
    ensures Value(0x3ff0_0000_0000_0000) == 1.0
  {
    FieldsValue(0x3ff0_0000_0000_0000, false, 1023, 0);
    Pow52();
    ShlOne(52);
    DyadicShift(1, -52, 52);
  }

  lemma Pow52()
    ensures Pow2(52) == TWO52
  {
    assert Pow2(13) == 0x2000;
    assert Pow2(26) == 0x400_0000;
    assert Pow2(39) == 0x80_0000_0000;
  }

  function Abs(x: real): real {
    if x < 0.0 then -x else x
  }

  /** `b` is a finite double closest to `v`, and on a tie its significand is even (roundTiesToEven). */
  ghost predicate NearestEven(b: Bits64, v: real) {
    && IsFinite(b)
    && forall y: Bits64 | IsFinite(y) ::
         && Abs(Value(b) - v) <= Abs(Value(y) - v)
         && (Abs(Value(b) - v) == Abs(Value(y) - v) && Value(y) != Value(b) ==> Significand(b) % 2 == 0)
  }

  // ------------------------------------------------------------------ as_integer_ratio

  function TrailingZeros(m: nat): (k: nat)
    requires m > 0
  {
    if m % 2 == 1 then 0 else 1 + TrailingZeros(m / 2)
  }

  lemma {:induction false} TrailingZerosSplit(m: nat)
    requires m > 0
    ensures Shr(m, TrailingZeros(m)) % 2 == 1
    ensures m == Shl(Shr(m, TrailingZeros(m)), TrailingZeros(m))
  {
    if m % 2 == 0 {
      TrailingZerosSplit(m / 2);
    }
  }

  datatype Ratio = Ratio(numerator: int, denominator: int)

  /** The exact fraction of a finite double. */
  function AsIntegerRatio(b: Bits64): Ratio
    requires IsFinite(b)
  {
    if IsZero(b) then Ratio(0, 1)
    else
      var mantissa := Significand(b);
      var trailing := TrailingZeros(mantissa);
      var odd := Shr(mantissa, trailing);
      var exp := Exponent(b) + trailing;
      ShiftedRatio(if SignBit(b) then -(odd as int) else odd, exp)
  }

  /** `num * 2^exp` as a fraction: the shift lands on one side of the bar only. */
  function ShiftedRatio(num: int, exp: int): Ratio {
    if exp >= 0 then Ratio(Shl(num, exp), 1) else Ratio(num, Pow2(-exp))
  }

  /** The fraction is exactly the real number `v`. */
  ghost predicate Denotes(r: Ratio, v: real) {
    r.numerator as real == Times(v, r.denominator)
  }

  ghost predicate IsMultiple(n: int, k: int, j: int) {
    n == k * j
  }

  ghost predicate Divides(k: int, n: int) {
    exists j: int :: IsMultiple(n, k, j)
  }

  /** No integer greater than one divides both parts. */
  ghost predicate InLowestTerms(r: Ratio) {
    forall k: int | k > 1 && Divides(k, r.numerator) :: !Divides(k, r.denominator)
  }

  lemma {:induction false} OddDivisorOfPow2(k: int, e: nat, j: int)
    requires k > 0 && k % 2 == 1 && IsMultiple(Pow2(e), k, j)
    ensures k == 1
  {
    if e == 0 {
      if k > 1 {
        ProductAtLeast(k, j);
      }
    } else {
      OddFactor(k, j);
      EvenFactor(k, j);
      OddDivisorOfPow2(k, e - 1, j / 2);
    }
  }

  lemma ProductAtLeast(k: int, j: int)
    requires k > 0 && k * j > 0
    ensures k * j >= k
  {
    if j >= 1 {
      assert k * (j - 1) >= 0;
    }
  }

  lemma EvenFactor(k: int, j: int)
    requires j % 2 == 0
    ensures k * j == 2 * (k * (j / 2))
  {
    var h := j / 2;
    assert j == 2 * h;
    assert k * (2 * h) == 2 * (k * h);
  }

  lemma OddFactor(k: int, j: int)
    requires k % 2 == 1
    ensures k * j == 2 * ((k / 2) * j) + j
  {
    var h := k / 2;
    assert k == 2 * h + 1;
    assert (2 * h + 1) * j == 2 * (h * j) + j;
  }

  ghost predicate IsPowerOfTwo(d: int) {
    exists k: nat :: d == Pow2(k)
  }

  lemma OddOverPow2(n: int, odd: int, k: nat)
    requires odd % 2 == 1 && (n == odd || n == -odd)
    ensures InLowestTerms(Ratio(n, Pow2(k)))
  {
    forall d: int | d > 1 && Divides(d, n)
      ensures !Divides(d, Pow2(k))
    {
      var i :| IsMultiple(n, d, i);
      if Divides(d, Pow2(k)) {
        var j :| IsMultiple(Pow2(k), d, j);
        OddDividesOdd(n, d, i);
        OddDivisorOfPow2(d, k, j);
      }
    }
  }

  lemma OddDividesOdd(n: int, d: int, i: int)
    requires n % 2 == 1 && n == d * i
    ensures d % 2 == 1
  {
    if d % 2 == 0 {
      EvenFactor(i, d);
    }
  }

  lemma OverOne(n: int)
    ensures InLowestTerms(Ratio(n, 1))
  {
    forall d: int | d > 1 && Divides(d, n)
      ensures !Divides(d, 1)
    {
      if Divides(d, 1) {
        var j :| IsMultiple(1, d, j);
        ProductAtLeast(d, j);
      }
    }
  }

  /**
   The fraction equals the double exactly, its denominator is a positive power of two and
   it is in lowest terms.
   */
  lemma AsIntegerRatioExact(b: Bits64)
    requires IsFinite(b)
    ensures var r := AsIntegerRatio(b);
            && IsPowerOfTwo(r.denominator)
            && Denotes(r, Value(b))
            && InLowestTerms(r)
  {
    assert Pow2(0) == 1;
    if IsZero(b) {
      ScaleSign(0.0, -1074);
      OverOne(0);
    } else {
      var num, odd, exp := RatioShape(b);
      ShiftedRatioValue(num, exp, Value(b));
      if exp >= 0 {
        OverOne(Shl(num, exp));
      } else {
        OddOverPow2(num, odd, -exp);
      }
    }
  }

  /** A nonzero finite double is an odd integer times a power of two; that is what the code shifts. */
  lemma RatioShape(b: Bits64) returns (num: int, odd: int, exp: int)
    requires IsFinite(b) && !IsZero(b)
    ensures odd > 0 && odd % 2 == 1 && (num == odd || num == -odd)
    ensures AsIntegerRatio(b) == ShiftedRatio(num, exp)
    ensures Dyadic(num, exp) == Value(b)
  {
    var m, e := Significand(b), Exponent(b);
    odd := OddPart(m, e);
    exp := e + TrailingZeros(m);
    num := if SignBit(b) then -odd else odd;
    DyadicNeg(odd, exp);
    DyadicNeg(m, e);
  }

  lemma OddPart(m: nat, e: int) returns (odd: int)
    requires m > 0
    ensures odd == Shr(m, TrailingZeros(m)) && odd % 2 == 1
    ensures Dyadic(m, e) == Dyadic(odd, e + TrailingZeros(m))
  {
    TrailingZerosSplit(m);
    odd := Shr(m, TrailingZeros(m));
    DyadicShift(odd, e, TrailingZeros(m));
  }

  lemma ShiftedRatioValue(num: int, exp: int, v: real)
    requires v == Dyadic(num, exp)
    ensures var r := ShiftedRatio(num, exp);
            && Denotes(r, v)
            && IsPowerOfTwo(r.denominator)
  {
    if exp >= 0 {
      assert Pow2(0) == 1;
      DyadicShift(num, 0, exp);
    } else {
      DyadicTimes(num, exp, -exp);
    }
  }
}
