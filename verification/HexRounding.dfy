/**
 The arithmetic half of `float.fromhex`: turning an integer mantissa and a binary
 exponent into a double. The code normalises to 53 bits (ties to even), carries, and then
 encodes; the exponent sums are 64-bit and wrap.
 */
module HexRounding {
  import opened Basics
  import opened Powers
  import opened Doubles

  datatype FloatResult = Float(bits: Bits64) | ValueError | OverflowError

  /** The mantissa shifted to 53 significant bits, rounding dropped bits to nearest, ties to even. */
  function RoundTo53(mantissa: nat): nat
    requires mantissa > 0
  {
    var length := BitLength(mantissa);
    if length <= 53 then
      Shl(mantissa, 53 - length)
    else
      var drop := length - 53;
      var half := Pow2(drop - 1);
      var lo := LowBits(mantissa, drop);
      var shifted := Shr(mantissa, drop);
      if lo > half || (lo == half && shifted % 2 != 0) then shifted + 1 else shifted
  }

  /** The tail of `fromhex`: overflow, normal, subnormal or underflow to zero. */
  function Encode(neg: bool, significand: nat, trueExp: int): FloatResult
    requires TWO52 <= significand < TWO53
  {
    if trueExp > 1023 then
      OverflowError
    else if trueExp >= -1022 then
      Float(Pack(neg, trueExp + 1023, significand % TWO52))
    else
      var extra := -(trueExp + 1022);
      if extra >= 53 then Float(Pack(neg, 0, 0))
      else
        SubnormalFits(significand, extra);
        Float(Pack(neg, 0, Shr(significand, extra)))
  }

  lemma SubnormalFits(m: nat, extra: nat)
    requires m < TWO53 && extra >= 1
    ensures Shr(m, extra) < TWO52
  {
    Split(m, extra);
    ShlGrows(Shr(m, extra), 1, extra);
  }

  /** `true_exp`, computed in 64-bit arithmetic. */
  function CodeExponent(mantissa: nat, fracDigits: nat, binExp: int): int {
    var effExp := I64(binExp - I64(fracDigits * 4));
    I64(I64(effExp + BitLength(mantissa)) - 1)
  }

  /** `fromhex` after parsing: `mantissa * 2^(binExp - 4 * fracDigits)` as a double. */
  function Assemble(neg: bool, mantissa: nat, fracDigits: nat, binExp: int): FloatResult
  {
    if mantissa == 0 then
      Float(Pack(neg, 0, 0))
    else
      var trueExp := CodeExponent(mantissa, fracDigits, binExp);
      var m := RoundTo53(mantissa);
      RoundTo53Range(mantissa);
      if m >= TWO53 then Encode(neg, m / 2, I64(trueExp + 1)) else Encode(neg, m, trueExp)
  }

  // ---------------------------------------------------------------- the 53-bit window

  /** The mantissa cut to 53 significant bits without rounding. */
  function Window(mantissa: nat): nat
    requires mantissa > 0
  {
    var length := BitLength(mantissa);
    if length <= 53 then Shl(mantissa, 53 - length) else Shr(mantissa, length - 53)
  }

  lemma Pow2Small()
    ensures Pow2(0) == 1 && Pow2(1) == 2 && Pow2(52) == TWO52 && Pow2(53) == TWO53
  {
    assert Pow2(13) == 0x2000;
    assert Pow2(26) == 0x400_0000;
    assert Pow2(39) == 0x80_0000_0000;
  }

  lemma WindowRange(mantissa: nat)
    requires mantissa > 0
    ensures TWO52 <= Window(mantissa) < TWO53
  {
    var length := BitLength(mantissa);
    BitLengthBounds(mantissa);
    Pow2Small();
    ShlOne(length - 1);
    ShlOne(length);
    if length <= 53 {
      var k := 53 - length;
      ShlShl(1, length - 1, k);
      ShlShl(1, length, k);
      ShlOrder(mantissa, Shl(1, length - 1), k);
      ShlOrder(mantissa, Shl(1, length), k);
      ShlOne(52);
      ShlOne(53);
    } else {
      var d := length - 53;
      var q := Shr(mantissa, d);
      Split(mantissa, d);
      ShlShl(1, 52, d);
      ShlShl(1, 53, d);
      ShlOne(52);
      ShlOne(53);
      ShlOne(d);
      ShlAdd(q, 1, d);
      ShlOrder(q + 1, Shl(1, 52) + 1, d);
      ShlAdd(Shl(1, 52), 1, d);
      ShlOrder(q, Shl(1, 53), d);
      ShlOrder(q, Shl(1, 52), d);
      ShlOrder(q + 1, Shl(1, 52), d);
    }
  }

  lemma RoundTo53Range(mantissa: nat)
    requires mantissa > 0
    ensures RoundTo53(mantissa) == Window(mantissa) || RoundTo53(mantissa) == Window(mantissa) + 1
    ensures TWO52 <= RoundTo53(mantissa) <= TWO53
  {
    WindowRange(mantissa);
  }

  // ------------------------------------------------- where the exact value lies on the grid

  /** The unrounded binary exponent of `mantissa * 2^e`: the floor of its base-two logarithm. */
  function TopExponent(mantissa: nat, e: int): int
    requires mantissa > 0
  {
    e + BitLength(mantissa) - 1
  }

  /** The exponent `fromhex` encodes: the unrounded one, plus the carry out of the significand. */
  function RoundedExponent(mantissa: nat, e: int): int
    requires mantissa > 0
  {
    TopExponent(mantissa, e) + if RoundTo53(mantissa) >= TWO53 then 1 else 0
  }

  /**
   `v` lies in the cell `[q, q+1) * 2^g` of a grid and `r` is its rounding to the grid,
   ties to even. The middle of the cell is `(2q+1) * 2^(g-1)`.
   */
  ghost predicate RoundsOnGrid(v: real, q: int, g: int, r: int) {
    && Dyadic(q, g) <= v < Dyadic(q + 1, g)
    && (r == q || r == q + 1)
    && (r == q ==> v <= Dyadic(2 * q + 1, g - 1))
    && (r == q + 1 ==> v >= Dyadic(2 * q + 1, g - 1))
    && (v == Dyadic(2 * q + 1, g - 1) ==> r % 2 == 0)
  }

  /** A mantissa split at a bit position, rounded by its low part, is rounded on the grid there. */
  lemma SplitRounds(mantissa: int, e: int, d: nat, q: int, lo: int, r: int)
    requires d >= 1 && mantissa == Shl(q, d) + lo && 0 <= lo < Pow2(d)
    requires r == q || r == q + 1
    requires r == q ==> lo < Pow2(d - 1) || (lo == Pow2(d - 1) && q % 2 == 0)
    requires r == q + 1 ==> lo > Pow2(d - 1) || (lo == Pow2(d - 1) && q % 2 == 1)
    ensures RoundsOnGrid(Dyadic(mantissa, e), q, e + d, r)
  {
    UnitCell(mantissa, e, d, q, lo);
  }

  /** The window is the cell that holds the exact value, and `RoundTo53` rounds inside it. */
  lemma WindowRounds(mantissa: nat, e: int)
    requires mantissa > 0
    ensures RoundsOnGrid(Dyadic(mantissa, e), Window(mantissa), TopExponent(mantissa, e) - 52, RoundTo53(mantissa))
  {
    var q, g := Window(mantissa), TopExponent(mantissa, e) - 52;
    if BitLength(mantissa) <= 53 {
      DyadicShift(mantissa, g, 53 - BitLength(mantissa));
      CellMiddle(q, g);
    } else {
      var d := BitLength(mantissa) - 53;
      Split(mantissa, d);
      SplitRounds(mantissa, e, d, q, LowBits(mantissa, d), RoundTo53(mantissa));
    }
  }

  lemma CellMiddle(q: int, g: int)
    ensures Dyadic(2 * q + 1, g - 1) == Dyadic(q, g) + Dyadic(1, g - 1)
    ensures Dyadic(q + 1, g) == Dyadic(q, g) + 2.0 * Dyadic(1, g - 1)
    ensures Dyadic(1, g - 1) > 0.0
  {
    DyadicAdd(2 * q, 1, g - 1);
    DyadicAdd(q, 1, g);
    DyadicAdd(q, q, g - 1);
    ScaleStep(q as real, g - 1);
    ScaleStep(1.0, g - 1);
    ScaleSign(1.0, g - 1);
  }

  /** No double lies strictly inside a cell whose grid is fine enough. */
  lemma NoDoubleInside(s: int, ey: int, q: int, g: int)
    requires -TWO53 < s < TWO53 && ey >= -1074 && g >= -1074 && q >= 0
    requires q >= TWO52 || g == -1074
    ensures Dyadic(s, ey) <= Dyadic(q, g) || Dyadic(s, ey) >= Dyadic(q + 1, g)
  {
    if ey >= g {
      var k := Shl(s, ey - g);
      DyadicShift(s, g, ey - g);
      DyadicOrder(k, q, g);
      DyadicOrder(q + 1, k, g);
    } else {
      var n := g - ey;
      DyadicShift(q, ey, n);
      ShlGrows(q, 1, n);
      DyadicOrder(s, Shl(q, n), ey);
    }
  }

  /** Rounding on the grid picks the closest of all doubles, for `v` and for its negation. */
  lemma GridRoundingIsNearest(v: real, q: int, g: int, r: int, y: Bits64)
    requires RoundsOnGrid(v, q, g, r) && IsFinite(y)
    requires q >= 0 && g >= -1074 && (q >= TWO52 || g == -1074)
    ensures forall neg: bool ::
              var w := Signed(neg, v);
              var x := Signed(neg, Dyadic(r, g));
              && Abs(x - w) <= Abs(Value(y) - w)
              && (Abs(x - w) == Abs(Value(y) - w) && Value(y) != x ==> r % 2 == 0)
  {
    var s: int := if SignBit(y) then -(Significand(y) as int) else Significand(y);
    NoDoubleInside(s, Exponent(y), q, g);
    NoDoubleInside(-s, Exponent(y), q, g);
    DyadicNeg(s, Exponent(y));
    CellMiddle(q, g);
  }

  function Signed(neg: bool, v: real): real {
    if neg then -v else v
  }

  // ------------------------------------------------------------------ the encoded double

  /** The rounded mantissa, renormalised after a carry, with the given exponent. */
  function EncodeRounded(neg: bool, mantissa: nat, trueExp: int): FloatResult
    requires mantissa > 0
  {
    RoundTo53Range(mantissa);
    var m := RoundTo53(mantissa);
    Encode(neg, if m >= TWO53 then m / 2 else m, trueExp)
  }

  /** `Assemble` with unbounded exponent arithmetic. */
  function RoundToDouble(neg: bool, mantissa: nat, e: int): FloatResult
    requires mantissa > 0
  {
    EncodeRounded(neg, mantissa, RoundedExponent(mantissa, e))
  }

  /** The exponent the code encodes is always the true rounded one reduced modulo 2^64. */
  lemma AssembleWraps(neg: bool, mantissa: nat, fracDigits: nat, binExp: int)
    requires mantissa > 0
    ensures Assemble(neg, mantissa, fracDigits, binExp)
            == EncodeRounded(neg, mantissa, I64(RoundedExponent(mantissa, binExp - 4 * fracDigits)))
  {
    RoundTo53Range(mantissa);
    CodeExponentWraps(mantissa, fracDigits, binExp);
  }

  /** Wrapping early or late makes no difference. */
  lemma CodeExponentWraps(mantissa: nat, fracDigits: nat, binExp: int)
    requires mantissa > 0
    ensures var t := TopExponent(mantissa, binExp - 4 * fracDigits);
            && CodeExponent(mantissa, fracDigits, binExp) == I64(t)
            && I64(CodeExponent(mantissa, fracDigits, binExp) + 1) == I64(t + 1)
  {
    var f, l := fracDigits * 4, BitLength(mantissa);
    WrapMinus(binExp, f);
    WrapPlus(binExp - f, l);
    WrapPlus(binExp - f + l, -1);
    WrapPlus(binExp - f + l - 1, 1);
  }

  lemma WrapPlus(x: int, y: int)
    ensures I64(I64(x) + y) == I64(x + y)
  {
  }

  lemma WrapMinus(x: int, y: int)
    ensures I64(x - I64(y)) == I64(x - y)
  {
  }

  lemma ShrSmall(m: nat, k: nat)
    requires m < TWO53 && k >= 53
    ensures Shr(m, k) == 0
  {
    Pow2Small();
    Pow2Mono(53, k);
    ShlNeg(0, k);
    SplitUnique(m, k, 0, m);
  }

  lemma SignedDyadic(neg: bool, m: int, e: int)
    ensures Dyadic(if neg then -m else m, e) == Signed(neg, Dyadic(m, e))
  {
    DyadicNeg(m, e);
  }

  /** From 2^-1022 up, the encoded double is the 53-bit rounding of the exact value. */
  lemma EncodesNormal(neg: bool, mantissa: nat, e: int) returns (b: Bits64)
    requires mantissa > 0 && TopExponent(mantissa, e) >= -1022 && RoundedExponent(mantissa, e) <= 1023
    ensures RoundToDouble(neg, mantissa, e) == Float(b)
    ensures IsFinite(b) && SignBit(b) == neg
    ensures Value(b) == Signed(neg, Dyadic(RoundTo53(mantissa), TopExponent(mantissa, e) - 52))
    ensures RoundTo53(mantissa) % 2 == 0 ==> Significand(b) % 2 == 0
  {
    RoundTo53Range(mantissa);
    var m, t := RoundTo53(mantissa), TopExponent(mantissa, e);
    b := RoundToDouble(neg, mantissa, e).bits;
    if m >= TWO53 {
      assert Significand(b) == TWO52 && Exponent(b) == t - 51;
      SignedDyadic(neg, TWO52, t - 51);
      DyadicShift(TWO52, t - 52, 1);
      assert Shl(TWO52, 1) == TWO53;
    } else {
      assert Significand(b) == m && Exponent(b) == t - 52;
      SignedDyadic(neg, m, t - 52);
    }
  }

  /** Below 2^-1022, the 53-bit rounding is cut to whole multiples of 2^-1074 by a plain shift. */
  lemma EncodesSubnormal(neg: bool, mantissa: nat, e: int) returns (b: Bits64)
    requires mantissa > 0 && TopExponent(mantissa, e) < -1022
    ensures RoundToDouble(neg, mantissa, e) == Float(b)
    ensures IsFinite(b) && SignBit(b) == neg
    ensures Significand(b) == Shr(RoundTo53(mantissa), -1022 - TopExponent(mantissa, e))
    ensures Value(b) == Signed(neg, Dyadic(Significand(b), -1074))
  {
    RoundTo53Range(mantissa);
    var m, k := RoundTo53(mantissa), -1022 - TopExponent(mantissa, e);
    b := RoundToDouble(neg, mantissa, e).bits;
    if m >= TWO53 {
      assert Shr(m, k) == Shr(m / 2, k - 1);
      if k - 1 >= 53 {
        ShrSmall(m / 2, k - 1);
      }
    } else if k >= 53 {
      ShrSmall(m, k);
    }
    SignedDyadic(neg, Significand(b), -1074);
  }

  // ------------------------------------------------------------- what the result satisfies

  lemma NearestOnGrid(b: Bits64, neg: bool, v: real, q: int, g: int, r: int)
    requires RoundsOnGrid(v, q, g, r)
    requires q >= 0 && g >= -1074 && (q >= TWO52 || g == -1074)
    requires IsFinite(b) && Value(b) == Signed(neg, Dyadic(r, g))
    requires r % 2 == 0 ==> Significand(b) % 2 == 0
    ensures NearestEven(b, Signed(neg, v))
  {
    forall y: Bits64 | IsFinite(y)
      ensures Abs(Value(b) - Signed(neg, v)) <= Abs(Value(y) - Signed(neg, v))
      ensures Abs(Value(b) - Signed(neg, v)) == Abs(Value(y) - Signed(neg, v)) && Value(y) != Value(b)
              ==> Significand(b) % 2 == 0
    {
      GridRoundingIsNearest(v, q, g, r, y);
    }
  }

  /** From 2^-1022 up to the overflow threshold the result is the nearest double, ties to even. */
  lemma NormalIsNearest(neg: bool, mantissa: nat, e: int)
    requires mantissa > 0 && TopExponent(mantissa, e) >= -1022 && RoundedExponent(mantissa, e) <= 1023
    ensures var r := RoundToDouble(neg, mantissa, e);
            && r.Float?
            && SignBit(r.bits) == neg
            && NearestEven(r.bits, Signed(neg, Dyadic(mantissa, e)))
  {
    var b := EncodesNormal(neg, mantissa, e);
    WindowRange(mantissa);
    WindowRounds(mantissa, e);
    NearestOnGrid(b, neg, Dyadic(mantissa, e), Window(mantissa), TopExponent(mantissa, e) - 52, RoundTo53(mantissa));
  }

  /** The number of mantissa bits that lie below 2^-1074, when positive. */
  function DroppedBits(e: int): int {
    -1074 - e
  }

  /**
   For a value under 2^-1022: the bits below 2^-1074 are less than half a unit, or exactly half
   with an even last place, or so close to a whole unit that the 53-bit rounding already carried.
   */
  predicate TruncationHarmless(mantissa: nat, e: int)
    requires mantissa > 0
  {
    var d := DroppedBits(e);
    d <= 0 ||
    var lo := LowBits(mantissa, d);
    || lo < Pow2(d - 1)
    || (lo == Pow2(d - 1) && Shr(mantissa, d) % 2 == 0)
    || FullCarry(mantissa, d)
  }

  /** Rounding to 53 bits carries past the lowest `d` bits. */
  predicate FullCarry(mantissa: nat, d: nat) {
    var drop := BitLength(mantissa) - 53;
    drop >= 1 && LowBits(mantissa, d) + Pow2(drop - 1) >= Pow2(d)
  }

  /** What the final right shift keeps when the mantissa reaches no lower than 2^-1074. */
  lemma KeptWhole(mantissa: nat, e: int)
    requires mantissa > 0 && TopExponent(mantissa, e) < -1022 && DroppedBits(e) <= 0
    ensures Shr(RoundTo53(mantissa), -1022 - TopExponent(mantissa, e)) == Shl(mantissa, -DroppedBits(e))
    ensures Dyadic(mantissa, e) == Dyadic(Shl(mantissa, -DroppedBits(e)), -1074)
  {
    var k, d := -1022 - TopExponent(mantissa, e), -DroppedBits(e);
    ShlShl(mantissa, d, k);
    ShrOfShl(Shl(mantissa, d), k);
    DyadicShift(mantissa, -1074, d);
  }

  /** What the final right shift keeps otherwise: the whole units, or one more after a full carry. */
  lemma KeptUnits(mantissa: nat, d: nat, k: nat)
    requires mantissa > 0 && d >= 1 && k >= 1 && d - k == BitLength(mantissa) - 53
    ensures Shr(RoundTo53(mantissa), k) == Shr(mantissa, d) + if FullCarry(mantissa, d) then 1 else 0
  {
    if d <= k {
      NarrowKept(mantissa, k - d, d);
    } else {
      WideKept(mantissa, d - k, k);
    }
  }

  lemma NarrowKept(mantissa: nat, j: nat, d: nat)
    ensures Shr(Shl(mantissa, j), j + d) == Shr(mantissa, d)
  {
    ShrShr(Shl(mantissa, j), j, d);
    ShrOfShl(mantissa, j);
  }

  lemma WideKept(mantissa: nat, drop: nat, k: nat)
    requires drop >= 1 && k >= 1 && BitLength(mantissa) == drop + 53
    ensures Shr(RoundTo53(mantissa), k)
            == Shr(mantissa, drop + k)
               + if LowBits(mantissa, drop + k) + Pow2(drop - 1) >= Pow2(drop + k) then 1 else 0
  {
    ShrShr(mantissa, drop, k);
    Split(mantissa, drop);
    LowBitsSplit(mantissa, drop, k);
    CarryOutOfLowBits(Shr(mantissa, drop), k, LowBits(mantissa, drop), drop);
  }

  /** Rounding `q` up carries out of its low `k` bits exactly when those bits are all ones. */
  lemma CarryOutOfLowBits(q: nat, k: nat, l: nat, drop: nat)
    requires k >= 1 && drop >= 1 && l < Pow2(drop)
    ensures var up := l > Pow2(drop - 1) || (l == Pow2(drop - 1) && q % 2 != 0);
            Shr(if up then q + 1 else q, k)
            == Shr(q, k) + if l + Shl(LowBits(q, k), drop) + Pow2(drop - 1) >= Pow2(drop + k) then 1 else 0
  {
    AddOneCarries(q, k);
    if LowBits(q, k) + 1 == Pow2(k) {
      FullIsOdd(q, k);
      FullLowBits(LowBits(q, k), k, l, drop);
    } else {
      LowBitsBound(q, k);
      NotFullLowBits(LowBits(q, k), k, l, drop);
    }
  }

  lemma FullIsOdd(q: nat, k: nat)
    requires k >= 1 && LowBits(q, k) + 1 == Pow2(k)
    ensures q % 2 == 1
  {
    assert Pow2(k) % 2 == 0 && LowBits(q, k) % 2 == q % 2;
  }

  lemma LowBitsBound(q: nat, k: nat)
    ensures LowBits(q, k) < Pow2(k)
  {
    Split(q, k);
  }

  lemma AddOneCarries(q: nat, k: nat)
    ensures Shr(q + 1, k) == Shr(q, k) + if LowBits(q, k) + 1 == Pow2(k) then 1 else 0
  {
    Split(q, k);
    ShlAdd(Shr(q, k), 1, k);
    ShlOne(k);
    if LowBits(q, k) + 1 == Pow2(k) {
      SplitUnique(q + 1, k, Shr(q, k) + 1, 0);
    } else {
      SplitUnique(q + 1, k, Shr(q, k), LowBits(q, k) + 1);
    }
  }

  lemma ShlPow2(k: nat, drop: nat)
    ensures Shl(Pow2(k), drop) == Pow2(drop + k)
  {
    ShlOne(k);
    ShlOne(drop + k);
    ShlShl(1, k, drop);
  }

  lemma FullLowBits(h: nat, k: nat, l: nat, drop: nat)
    requires drop >= 1 && h + 1 == Pow2(k)
    ensures l + Shl(h, drop) + Pow2(drop - 1) >= Pow2(drop + k) <==> l >= Pow2(drop - 1)
  {
    ShlAdd(h, 1, drop);
    ShlOne(drop);
    ShlPow2(k, drop);
  }

  lemma NotFullLowBits(h: nat, k: nat, l: nat, drop: nat)
    requires drop >= 1 && h + 1 < Pow2(k) && l < Pow2(drop)
    ensures l + Shl(h, drop) + Pow2(drop - 1) < Pow2(drop + k)
  {
    ShlAdd(h, 2, drop);
    ShlAdd(1, 1, drop);
    ShlOne(drop);
    ShlOrder(Pow2(k), h + 2, drop);
    ShlPow2(k, drop);
  }

  /**
   `q` counts the whole units of 2^-1074 in the exact value and `kept` the units in the result:
   as many, or one more after a full carry; when truncation is harmless `kept` is `q` rounded.
   */
  ghost predicate KeptInCell(mantissa: nat, e: int, q: nat, kept: nat)
    requires mantissa > 0
  {
    var v := Dyadic(mantissa, e);
    && Dyadic(q, -1074) <= v < Dyadic(q + 1, -1074)
    && (kept == q || kept == q + 1)
    && (TruncationHarmless(mantissa, e) ==> RoundsOnGrid(v, q, -1074, kept))
    && (kept == q + 1 ==> TruncationHarmless(mantissa, e) && v != Dyadic(q, -1074))
    && (!TruncationHarmless(mantissa, e) ==>
          v > Dyadic(2 * q + 1, -1075) || (v == Dyadic(2 * q + 1, -1075) && q % 2 == 1))
  }

  lemma SubnormalCell(mantissa: nat, e: int) returns (q: nat)
    requires mantissa > 0 && TopExponent(mantissa, e) < -1022
    ensures q < TWO52
    ensures KeptInCell(mantissa, e, q, Shr(RoundTo53(mantissa), -1022 - TopExponent(mantissa, e)))
  {
    var d := DroppedBits(e);
    if d <= 0 {
      q := Shl(mantissa, -d);
      WholeCell(mantissa, e, q);
    } else {
      q := Shr(mantissa, d);
      PartialCell(mantissa, e, d, -1022 - TopExponent(mantissa, e));
    }
    UnitsBelowNormal(mantissa, e, q);
  }

  lemma WholeCell(mantissa: nat, e: int, q: nat)
    requires mantissa > 0 && TopExponent(mantissa, e) < -1022 && DroppedBits(e) <= 0
    requires q == Shl(mantissa, -DroppedBits(e))
    ensures KeptInCell(mantissa, e, q, Shr(RoundTo53(mantissa), -1022 - TopExponent(mantissa, e)))
  {
    KeptWhole(mantissa, e);
    assert TruncationHarmless(mantissa, e);
    CellMiddle(q, -1074);
  }

  lemma PartialCell(mantissa: nat, e: int, d: nat, k: nat)
    requires mantissa > 0 && d == DroppedBits(e) && d >= 1 && k >= 1 && d - k == BitLength(mantissa) - 53
    ensures KeptInCell(mantissa, e, Shr(mantissa, d), Shr(RoundTo53(mantissa), k))
  {
    KeptUnits(mantissa, d, k);
    Split(mantissa, d);
    UnitCell(mantissa, e, d, Shr(mantissa, d), LowBits(mantissa, d));
    if FullCarry(mantissa, d) {
      FullCarryIsPastHalf(mantissa, d, k);
    }
  }

  lemma FullCarryIsPastHalf(mantissa: nat, d: nat, k: nat)
    requires d >= 1 && k >= 1 && d - k == BitLength(mantissa) - 53
    requires FullCarry(mantissa, d)
    ensures LowBits(mantissa, d) > Pow2(d - 1)
  {
    Pow2Mono(d - k - 1, d - 2);
  }

  lemma UnitsBelowNormal(mantissa: nat, e: int, q: nat)
    requires mantissa > 0 && TopExponent(mantissa, e) < -1022 && Dyadic(q, -1074) <= Dyadic(mantissa, e)
    ensures q < TWO52
  {
    TopExponentBounds(mantissa, e);
    PowerOrder(TopExponent(mantissa, e) + 1, -1022);
    Pow2Small();
    ShlOne(52);
    DyadicShift(1, -1074, 52);
    DyadicOrder(q, TWO52, -1074);
  }

  /** Where a mantissa stands in its cell, read off its low bits. */
  lemma UnitCell(mantissa: int, e: int, d: nat, q: int, lo: int)
    requires d >= 1 && mantissa == Shl(q, d) + lo && 0 <= lo < Pow2(d)
    ensures Dyadic(q, e + d) <= Dyadic(mantissa, e) < Dyadic(q + 1, e + d)
    ensures lo < Pow2(d - 1) <==> Dyadic(mantissa, e) < Dyadic(2 * q + 1, e + d - 1)
    ensures lo == Pow2(d - 1) <==> Dyadic(mantissa, e) == Dyadic(2 * q + 1, e + d - 1)
    ensures lo == 0 <==> Dyadic(mantissa, e) == Dyadic(q, e + d)
  {
    DyadicShift(q, e, d);
    DyadicShift(q + 1, e, d);
    DyadicShift(2 * q + 1, e, d - 1);
    ShlOne(d);
    ShlOne(d - 1);
    ShlAdd(q, 1, d);
    ShlAdd(2 * q, 1, d - 1);
    ShlInner(q, d - 1);
    DyadicOrder(Shl(q, d), mantissa, e);
    DyadicOrder(mantissa, Shl(q + 1, d), e);
    DyadicOrder(mantissa, Shl(2 * q + 1, d - 1), e);
  }

  lemma PowerOrder(a: int, b: int)
    requires a <= b
    ensures Dyadic(1, a) <= Dyadic(1, b)
    ensures a < b ==> 2.0 * Dyadic(1, a) <= Dyadic(1, b)
  {
    DyadicShift(1, a, b - a);
    ShlGrows(1, 0, b - a);
    DyadicOrder(1, Shl(1, b - a), a);
    if a < b {
      DyadicAdd(1, 1, a);
      DyadicOrder(2, Shl(1, b - a), a);
    }
  }

  /** `TopExponent` is the floor of the binary logarithm. */
  lemma TopExponentBounds(mantissa: nat, e: int)
    requires mantissa > 0
    ensures Dyadic(1, TopExponent(mantissa, e)) <= Dyadic(mantissa, e) < Dyadic(1, TopExponent(mantissa, e) + 1)
  {
    var l := BitLength(mantissa);
    BitLengthBounds(mantissa);
    ShlOne(l - 1);
    ShlOne(l);
    DyadicShift(1, e, l - 1);
    DyadicShift(1, e, l);
    DyadicOrder(mantissa, Pow2(l - 1), e);
    DyadicOrder(mantissa, Pow2(l), e);
  }
}
