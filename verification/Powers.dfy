/**
 Shifts, bit lengths and powers of two, each by repeated doubling or halving, and the
 real numbers `m * 2^e`.
 */
module Powers {

  function Pow2(n: nat): (p: int)
    ensures p > 0
  {
    if n == 0 then 1 else 2 * Pow2(n - 1)
  }

  /** `n << k`. */
  function Shl(n: int, k: nat): (r: int)
    ensures n >= 0 ==> r >= 0
  {
    if k == 0 then n else 2 * Shl(n, k - 1)
  }

  /** `n >> k`. */
  function Shr(n: nat, k: nat): nat {
    if k == 0 then n else Shr(n / 2, k - 1)
  }

  /** `n & ((1 << k) - 1)`. */
  function LowBits(n: nat, k: nat): nat {
    if k == 0 then 0 else n % 2 + 2 * LowBits(n / 2, k - 1)
  }

  lemma {:induction false} ShlOne(k: nat)
    ensures Shl(1, k) == Pow2(k)
  {
    if k != 0 {
      ShlOne(k - 1);
    }
  }

  lemma {:induction false} ShlAdd(a: int, b: int, k: nat)
    ensures Shl(a + b, k) == Shl(a, k) + Shl(b, k)
  {
    if k != 0 {
      ShlAdd(a, b, k - 1);
    }
  }

  lemma {:induction false} ShlNeg(a: int, k: nat)
    ensures Shl(-a, k) == -Shl(a, k)
  {
    if k != 0 {
      ShlNeg(a, k - 1);
    }
  }

  lemma {:induction false} ShlOrder(a: int, b: int, k: nat)
    ensures a < b <==> Shl(a, k) < Shl(b, k)
    ensures a == b <==> Shl(a, k) == Shl(b, k)
  {
    if k != 0 {
      ShlOrder(a, b, k - 1);
    }
  }

  lemma {:induction false} ShlShl(n: int, j: nat, k: nat)
    ensures Shl(Shl(n, j), k) == Shl(n, j + k)
  {
    if k != 0 {
      ShlShl(n, j, k - 1);
    }
  }

  /** Shifting doubles from the inside as well as from the outside. */
  lemma ShlInner(n: int, k: nat)
    ensures Shl(2 * n, k) == 2 * Shl(n, k)
  {
    ShlAdd(n, n, k);
  }

  lemma {:induction false} ShlGrows(n: int, j: nat, k: nat)
    requires n >= 0 && j <= k
    ensures 0 <= Shl(n, j) <= Shl(n, k)
    ensures n > 0 && j < k ==> 2 * Shl(n, j) <= Shl(n, k)
    decreases k
  {
    if j < k {
      ShlGrows(n, j, k - 1);
    } else if k > 0 {
      ShlGrows(n, j - 1, k - 1);
    }
  }

  lemma Pow2Mono(j: nat, k: nat)
    requires j <= k
    ensures Pow2(j) <= Pow2(k)
    ensures j < k ==> 2 * Pow2(j) <= Pow2(k)
  {
    ShlGrows(1, j, k);
    ShlOne(j);
    ShlOne(k);
  }

  /** Shifting right and masking cut a number in two at bit `k`. */
  lemma {:induction false} Split(n: nat, k: nat)
    ensures n == Shl(Shr(n, k), k) + LowBits(n, k)
    ensures LowBits(n, k) < Pow2(k)
  {
    if k != 0 {
      Split(n / 2, k - 1);
    }
  }

  /** The cut is unique. */
  lemma SplitUnique(n: nat, k: nat, q: int, lo: int)
    requires n == Shl(q, k) + lo && 0 <= lo < Pow2(k)
    ensures Shr(n, k) == q && LowBits(n, k) == lo
  {
    Split(n, k);
    var p := Shr(n, k);
    ShlOne(k);
    if p < q {
      ShlAdd(p, 1, k);
      ShlOrder(q, p + 1, k);
    } else if q < p {
      ShlAdd(q, 1, k);
      ShlOrder(p, q + 1, k);
    }
  }

  lemma ShrOfShl(n: nat, k: nat)
    ensures Shl(n, k) >= 0
    ensures Shr(Shl(n, k), k) == n
  {
    ShlGrows(n, 0, k);
    SplitUnique(Shl(n, k), k, n, 0);
  }

  lemma {:induction false} ShrShr(n: nat, j: nat, k: nat)
    ensures Shr(Shr(n, j), k) == Shr(n, j + k)
  {
    if j != 0 {
      ShrShr(n / 2, j - 1, k);
    }
  }

  lemma {:induction false} LowBitsSplit(n: nat, j: nat, k: nat)
    ensures LowBits(n, j + k) == LowBits(n, j) + Shl(LowBits(Shr(n, j), k), j)
  {
    if j != 0 {
      LowBitsSplit(n / 2, j - 1, k);
    }
  }

  /** The number of binary digits of `n`: zero for zero. */
  function BitLength(n: nat): nat {
    if n == 0 then 0 else 1 + BitLength(n / 2)
  }

  lemma {:induction false} BitLengthBounds(n: nat)
    requires n > 0
    ensures BitLength(n) > 0
    ensures Pow2(BitLength(n) - 1) <= n < Pow2(BitLength(n))
  {
    if n > 1 {
      BitLengthBounds(n / 2);
    }
  }

  lemma BitLengthUnique(n: nat, l: nat)
    requires l > 0 && Pow2(l - 1) <= n < Pow2(l)
    ensures BitLength(n) == l
  {
    BitLengthBounds(n);
    if BitLength(n) < l {
      Pow2Mono(BitLength(n), l - 1);
    } else if l < BitLength(n) {
      Pow2Mono(l, BitLength(n) - 1);
    }
  }

  lemma BitLengthAtMost(n: nat, k: nat)
    requires n < Pow2(k)
    ensures BitLength(n) <= k
  {
    if n > 0 && BitLength(n) > k {
      BitLengthBounds(n);
      Pow2Mono(k, BitLength(n) - 1);
    }
  }

  /** The real number m * 2^e. */
  function Dyadic(m: int, e: int): real {
    ScaleBy(m as real, e)
  }

  function ScaleBy(x: real, e: int): real
    decreases if e >= 0 then e else -e
  {
    if e == 0 then x
    else if e > 0 then 2.0 * ScaleBy(x, e - 1)
    else ScaleBy(x, e + 1) / 2.0
  }

  lemma ScaleStep(x: real, e: int)
    ensures ScaleBy(x, e + 1) == 2.0 * ScaleBy(x, e)
  {
  }

  lemma {:induction false} ScaleAdd(x: real, y: real, e: int)
    ensures ScaleBy(x + y, e) == ScaleBy(x, e) + ScaleBy(y, e)
    decreases if e >= 0 then e else -e
  {
    if e > 0 {
      ScaleAdd(x, y, e - 1);
    } else if e < 0 {
      ScaleAdd(x, y, e + 1);
    }
  }

  lemma {:induction false} ScaleSign(x: real, e: int)
    ensures x > 0.0 <==> ScaleBy(x, e) > 0.0
    ensures x == 0.0 <==> ScaleBy(x, e) == 0.0
    decreases if e >= 0 then e else -e
  {
    if e > 0 {
      ScaleSign(x, e - 1);
    } else if e < 0 {
      ScaleSign(x, e + 1);
    }
  }

  lemma {:induction false} ScaleScale(x: real, a: int, b: int)
    ensures ScaleBy(ScaleBy(x, a), b) == ScaleBy(x, a + b)
    decreases if b >= 0 then b else -b
  {
    if b > 0 {
      ScaleScale(x, a, b - 1);
      ScaleStep(x, a + b - 1);
    } else if b < 0 {
      ScaleScale(x, a, b + 1);
      ScaleStep(x, a + b);
    }
  }

  lemma DyadicAdd(a: int, b: int, e: int)
    ensures Dyadic(a + b, e) == Dyadic(a, e) + Dyadic(b, e)
  {
    ScaleAdd(a as real, b as real, e);
  }

  lemma DyadicNeg(m: int, e: int)
    ensures Dyadic(-m, e) == -Dyadic(m, e)
  {
    DyadicAdd(m, -m, e);
    ScaleSign(0.0, e);
  }

  lemma DyadicOrder(a: int, b: int, e: int)
    ensures a < b <==> Dyadic(a, e) < Dyadic(b, e)
    ensures a == b <==> Dyadic(a, e) == Dyadic(b, e)
  {
    DyadicAdd(a, b - a, e);
    ScaleSign((b - a) as real, e);
  }

  /** Moving `k` powers of two between the integer and the exponent. */
  lemma {:induction false} DyadicShift(m: int, e: int, k: nat)
    ensures Dyadic(Shl(m, k), e) == Dyadic(m, e + k)
  {
    if k != 0 {
      DyadicShift(m, e, k - 1);
      var n := Shl(m, k - 1);
      DyadicAdd(n, n, e);
      ScaleStep(m as real, e + k - 1);
    }
  }

  function Times(x: real, n: int): real {
    x * n as real
  }

  lemma TimesDouble(x: real, n: int)
    ensures Times(x, 2 * n) == 2.0 * Times(x, n)
  {
    assert (2 * n) as real == 2.0 * n as real;
  }

  lemma {:induction false} DyadicTimes(m: int, e: int, k: nat)
    ensures Times(Dyadic(m, e), Pow2(k)) == Dyadic(m, e + k)
  {
    if k != 0 {
      DyadicTimes(m, e, k - 1);
      ScaleStep(m as real, e + k - 1);
      TimesDouble(Dyadic(m, e), Pow2(k - 1));
    }
  }
}
