/**
 `int.to_bytes`, `int.from_bytes` and `int.bit_length`: the machine-word encoder, the big-integer
 encoder, the decoder, and two's complement as what they agree on.
 */
module IntBytes {
  import opened Basics
  import opened Powers

  datatype EncodeError = NegativeToUnsigned | TooBig

  datatype Encoded = Bytes(bytes: seq<Byte>) | Overflow(error: EncodeError)

  // ---------------------------------------------------------------------- specification

  /** The low `length` bytes of `n` in two's complement, least significant first. */
  function LeDigits(n: int, length: nat): (s: seq<Byte>)
    ensures |s| == length
    decreases length
  {
    if length == 0 then [] else [n % 256] + LeDigits(n / 256, length - 1)
  }

  /** The natural number with the given bytes, least significant first. */
  function LeValue(s: seq<Byte>): nat {
    if s == [] then 0 else s[0] + 256 * LeValue(s[1..])
  }

  lemma ReversedTwice<T>(s: seq<T>)
    ensures Reversed(Reversed(s)) == s
  {
  }

  function Ordered(s: seq<Byte>, bigEndian: bool): seq<Byte> {
    if bigEndian then Reversed(s) else s
  }

  /** The integers that `length` bytes can hold. Zero bytes hold only zero. */
  predicate InRange(n: int, length: nat, signed: bool) {
    if !signed then 0 <= n < Pow2(8 * length)
    else if length == 0 then n == 0
    else -Pow2(8 * length - 1) <= n < Pow2(8 * length - 1)
  }

  /** What `to_bytes` must return. */
  function Encode(n: int, length: nat, bigEndian: bool, signed: bool): Encoded {
    if !signed && n < 0 then Overflow(NegativeToUnsigned)
    else if InRange(n, length, signed) then Bytes(Ordered(LeDigits(n, length), bigEndian))
    else Overflow(TooBig)
  }

  /** The decode expression at the end of `from_bytes`. */
  function FromBytes(data: seq<Byte>, bigEndian: bool, signed: bool): int {
    if data == [] then 0
    else
      var le := Ordered(data, bigEndian);
      if signed && le[|le| - 1] >= 0x80 then LeValue(le) - Pow2(8 * |le|) else LeValue(le)
  }

  // ----------------------------------------------------------------- bytes and positions

  lemma EightBits(k: nat)
    ensures Pow2(k + 8) == 256 * Pow2(k)
  {
    assert Pow2(k + 4) == 16 * Pow2(k) by { assert Pow2(k + 2) == 4 * Pow2(k); }
    assert Pow2(k + 8) == 16 * Pow2(k + 4) by { assert Pow2(k + 6) == 4 * Pow2(k + 4); }
  }

  /** A shorter encoding is a prefix of a longer one. */
  lemma {:induction false} LeDigitsPrefix(n: int, k: nat, length: nat)
    requires k <= length
    ensures LeDigits(n, length)[..k] == LeDigits(n, k)
    decreases length
  {
    if k > 0 {
      LeDigitsPrefix(n / 256, k - 1, length - 1);
      assert LeDigits(n, length)[..k] == [n % 256] + LeDigits(n / 256, length - 1)[..k - 1];
    }
  }

  /** Beyond the bytes that hold `n`, every further byte repeats the sign. */
  lemma {:induction false} LeDigitsTail(n: int, k: nat, length: nat)
    requires k <= length && -Pow2(8 * k) <= n < Pow2(8 * k)
    ensures forall i | k <= i < length :: LeDigits(n, length)[i] == if n < 0 then 0xff else 0
    decreases length
  {
    if length > 0 {
      if k > 0 {
        EightBits(8 * (k - 1));
        LeDigitsTail(n / 256, k - 1, length - 1);
      } else {
        LeDigitsTail(n / 256, 0, length - 1);
      }
    }
  }

  /** Reducing modulo 2^(8 k) first does not change the low `k` bytes. */
  lemma {:induction false} LeDigitsShift(n: int, m: int, k: nat, j: int)
    requires m == n + Shl(j, 8 * k)
    ensures LeDigits(n, k) == LeDigits(m, k)
    decreases k
  {
    if k > 0 {
      var t := Shl(j, 8 * (k - 1));
      ShlEight(j, 8 * (k - 1));
      assert m == n + 256 * t;
      LeDigitsShift(n / 256, m / 256, k - 1, j);
    }
  }

  lemma ShlEight(j: int, k: nat)
    ensures Shl(j, k + 8) == 256 * Shl(j, k)
  {
    assert Shl(j, k + 4) == 16 * Shl(j, k) by { assert Shl(j, k + 2) == 4 * Shl(j, k); }
    assert Shl(j, k + 8) == 16 * Shl(j, k + 4) by { assert Shl(j, k + 6) == 4 * Shl(j, k + 4); }
  }

  // -------------------------------------------------------------------------- round trips

  lemma {:induction false} LeValueBound(s: seq<Byte>)
    ensures LeValue(s) < Pow2(8 * |s|)
  {
    if s != [] {
      LeValueBound(s[1..]);
      EightBits(8 * (|s| - 1));
    }
  }

  lemma {:induction false} LeValueOfDigits(n: int, length: nat)
    requires 0 <= n < Pow2(8 * length)
    ensures LeValue(LeDigits(n, length)) == n
  {
    if length > 0 {
      EightBits(8 * (length - 1));
      LeValueOfDigits(n / 256, length - 1);
      assert LeDigits(n, length)[1..] == LeDigits(n / 256, length - 1);
    }
  }

  lemma {:induction false} DigitsOfLeValue(s: seq<Byte>)
    ensures LeDigits(LeValue(s), |s|) == s
  {
    if s != [] {
      DigitsOfLeValue(s[1..]);
      assert LeValue(s) % 256 == s[0] && LeValue(s) / 256 == LeValue(s[1..]);
    }
  }

  /** The top byte tells whether the value reaches the upper half. */
  lemma {:induction false} TopByte(s: seq<Byte>)
    requires s != []
    ensures s[|s| - 1] >= 0x80 <==> LeValue(s) >= Pow2(8 * |s| - 1)
  {
    if |s| == 1 {
      assert LeValue(s) == s[0];
      assert Pow2(7) == 0x80;
    } else {
      TopByte(s[1..]);
      EightBits(8 * |s| - 9);
    }
  }

  /** Decoding what was encoded gives the integer back, for every integer in range. */
  lemma DecodeEncode(n: int, length: nat, bigEndian: bool, signed: bool)
    requires InRange(n, length, signed)
    ensures Encode(n, length, bigEndian, signed).Bytes?
    ensures |Encode(n, length, bigEndian, signed).bytes| == length
    ensures FromBytes(Encode(n, length, bigEndian, signed).bytes, bigEndian, signed) == n
  {
    var le := LeDigits(n, length);
    DecodeOrdered(le, bigEndian, signed);
    if length > 0 {
      DigitsDenote(n, length, signed);
      TopByte(le);
    }
  }

  /** Decoding undoes the order and reads the value, less 2^(8 length) when signed and the top bit is set. */
  lemma DecodeOrdered(le: seq<Byte>, bigEndian: bool, signed: bool)
    ensures FromBytes(Ordered(le, bigEndian), bigEndian, signed)
            == if le != [] && signed && le[|le| - 1] >= 0x80 then LeValue(le) - Pow2(8 * |le|) else LeValue(le)
  {
    ReversedTwice(le);
    assert Ordered(Ordered(le, bigEndian), bigEndian) == le && |Ordered(le, bigEndian)| == |le|;
  }

  /** The digits denote the integer, reduced modulo 2^(8 length). */
  lemma DigitsDenote(n: int, length: nat, signed: bool)
    requires length > 0 && InRange(n, length, signed)
    ensures Pow2(8 * length) == 2 * Pow2(8 * length - 1)
    ensures LeValue(LeDigits(n, length)) == if n < 0 then n + Pow2(8 * length) else n
  {
    var m := if n < 0 then n + Pow2(8 * length) else n;
    ShlOne(8 * length);
    ShlNeg(0, 8 * length);
    LeDigitsShift(n, m, length, if n < 0 then 1 else 0);
    LeValueOfDigits(m, length);
  }

  /** Encoding what was decoded gives the bytes back, and the decoded integer is in range. */
  lemma EncodeDecode(data: seq<Byte>, bigEndian: bool, signed: bool)
    ensures InRange(FromBytes(data, bigEndian, signed), |data|, signed)
    ensures Encode(FromBytes(data, bigEndian, signed), |data|, bigEndian, signed) == Bytes(data)
  {
    var le := Ordered(data, bigEndian);
    ReversedTwice(data);
    LeValueBound(le);
    if data != [] {
      var n := FromBytes(data, bigEndian, signed);
      assert Pow2(8 * |le|) == 2 * Pow2(8 * |le| - 1);
      TopByte(le);
      ShlOne(8 * |le|);
      ShlNeg(0, 8 * |le|);
      DigitsOfLeValue(le);
      LeDigitsShift(n, LeValue(le), |le|, if n < LeValue(le) then 1 else 0);
    }
  }

  // ------------------------------------------------------------------- what each byte weighs

  /** 256^k */
  function Weight(k: nat): (w: int)
    ensures w > 0
  {
    if k == 0 then 1 else 256 * Weight(k - 1)
  }

  lemma {:induction false} WeightIsPow2(k: nat)
    ensures Weight(k) == Pow2(8 * k)
  {
    if k > 0 {
      WeightIsPow2(k - 1);
      EightBits(8 * (k - 1));
    }
  }

  lemma QuotientUnique(n: int, k: int, q: int, r: int)
    requires k > 0 && n == k * q + r && 0 <= r < k
    ensures n / k == q
  {
    var p, e := n / k, n % k;
    assert n == k * p + e && 0 <= e < k;
    if q > p {
      ProductStep(k, p, q);
    } else if q < p {
      ProductStep(k, q, p);
    }
  }

  lemma ProductStep(k: int, a: int, b: int)
    requires k > 0 && a < b
    ensures k * a + k <= k * b
  {
    var d := b - a - 1;
    assert k * b == k * a + k + k * d;
    assert k * d >= 0;
  }

  /** Dividing by 256 and then by `w` is dividing by both at once. */
  lemma QuotientTwice(n: int, w: int)
    requires w > 0
    ensures n / 256 / w == n / (256 * w)
  {
    var m, d := n / 256, n % 256;
    var q, e := m / w, m % w;
    assert n == 256 * (w * q + e) + d == 256 * w * q + (256 * e + d);
    QuotientUnique(n, 256 * w, q, 256 * e + d);
  }

  lemma {:induction false} LeDigitWeighs(n: int, length: nat, k: nat)
    requires k < length
    ensures LeDigits(n, length)[k] == n / Weight(k) % 256
    decreases k
  {
    if k > 0 {
      LeDigitWeighs(n / 256, length - 1, k - 1);
      QuotientTwice(n, Weight(k - 1));
    }
  }

  /** Byte `k` of the encoding is the digit of weight 256^k, or, big-endian, of the weight counted from the end. */
  lemma EncodedByte(n: int, length: nat, signed: bool, k: nat)
    requires InRange(n, length, signed) && k < length
    ensures var little, big := Encode(n, length, false, signed), Encode(n, length, true, signed);
            && little.Bytes? && |little.bytes| == length && little.bytes[k] == n / Weight(k) % 256
            && big.Bytes? && |big.bytes| == length && big.bytes[k] == n / Weight(length - 1 - k) % 256
  {
    LeDigitWeighs(n, length, k);
    LeDigitWeighs(n, length, length - 1 - k);
  }

  lemma {:induction false} LeValueSnoc(s: seq<Byte>, b: Byte)
    ensures LeValue(s + [b]) == LeValue(s) + b * Weight(|s|)
  {
    if s == [] {
      assert LeValue([b]) == b + 256 * LeValue([b][1..]);
    } else {
      assert (s + [b])[1..] == s[1..] + [b];
      LeValueSnoc(s[1..], b);
      var w := Weight(|s| - 1);
      assert b * (256 * w) == 256 * (b * w);
    }
  }

  /** The first byte weighs most big-endian, and the last byte little-endian. No bytes are worth nothing. */
  lemma DecodedByte(b: Byte, s: seq<Byte>)
    ensures FromBytes([b] + s, true, false) == b * Weight(|s|) + FromBytes(s, true, false)
    ensures FromBytes(s + [b], false, false) == b * Weight(|s|) + FromBytes(s, false, false)
    ensures FromBytes([], true, false) == FromBytes([], false, false) == 0
  {
    UnsignedValues(b, s);
    LeValueSnoc(Reversed(s), b);
    LeValueSnoc(s, b);
  }

  lemma UnsignedValues(b: Byte, s: seq<Byte>)
    ensures FromBytes([b] + s, true, false) == LeValue(Reversed(s) + [b]) && FromBytes(s, true, false) == LeValue(Reversed(s))
    ensures FromBytes(s + [b], false, false) == LeValue(s + [b]) && FromBytes(s, false, false) == LeValue(s)
  {
    assert Reversed([b] + s) == Reversed(s) + [b];
  }

  /** A signed number is the unsigned one, less 256^length when the byte of greatest weight has its top bit set. */
  lemma DecodedSign(data: seq<Byte>)
    requires data != []
    ensures FromBytes(data, true, true) == FromBytes(data, true, false) - if data[0] >= 0x80 then Weight(|data|) else 0
    ensures FromBytes(data, false, true)
            == FromBytes(data, false, false) - if data[|data| - 1] >= 0x80 then Weight(|data|) else 0
  {
    WeightIsPow2(|data|);
    SignedValue(data, true);
    SignedValue(data, false);
    assert Ordered(data, true)[|data| - 1] == data[0] && Ordered(data, false)[|data| - 1] == data[|data| - 1];
  }

  lemma SignedValue(data: seq<Byte>, bigEndian: bool)
    requires data != []
    ensures var le := Ordered(data, bigEndian);
            && |le| == |data|
            && FromBytes(data, bigEndian, true)
               == FromBytes(data, bigEndian, false) - if le[|data| - 1] >= 0x80 then Pow2(8 * |data|) else 0
  {
  }

  // ------------------------------------------------------------------- in-place reversal

  /** `Vec::reverse`. */
  method ReverseInPlace(a: array<Byte>)
    modifies a
    ensures a[..] == Reversed(old(a[..]))
  {
    var n := a.Length;
    ghost var before := a[..];
    for i := 0 to n / 2
      invariant forall k | 0 <= k < i :: a[k] == before[n - 1 - k] && a[n - 1 - k] == before[k]
      invariant forall k | i <= k < n - i :: a[k] == before[k]
    {
      a[i], a[n - 1 - i] := a[n - 1 - i], a[i];
    }
    assert forall k | 0 <= k < n :: a[..][k] == Reversed(before)[k];
  }

  // ------------------------------------------------------------------ the machine-word path

  /** `(n as u64).to_le_bytes()`. */
  function WordBytes(n: Word): (s: seq<Byte>)
    ensures |s| == 8
  {
    LeDigits(n % TWO64, 8)
  }

  lemma WordBytesAreDigits(n: Word)
    ensures WordBytes(n) == LeDigits(n, 8)
  {
    WordPowers();
    var j := if n < 0 then 1 else 0;
    assert n % TWO64 == n + j * TWO64;
    ShlNeg(0, 64);
    ShlOne(64);
    LeDigitsShift(n, n % TWO64, 8, j);
  }

  lemma WordPowers()
    ensures Pow2(63) == TWO63 && Pow2(64) == TWO64
  {
    assert Pow2(13) == 0x2000;
    assert Pow2(26) == 0x400_0000;
    assert Pow2(39) == 0x80_0000_0000;
    assert Pow2(52) == 0x10_0000_0000_0000;
  }

  /** Fill a fresh buffer with `bytes` and then `fill`, and put it in the requested order. */
  method FillBuffer(length: nat, bytes: seq<Byte>, fill: Byte, bigEndian: bool) returns (out: seq<Byte>)
    ensures out == Ordered(Filled(length, bytes, fill), bigEndian)
  {
    var buf := new Byte[length](_ => 0);
    for i := 0 to length
      invariant buf[..i] == Filled(length, bytes, fill)[..i]
    {
      buf[i] := if i < |bytes| then bytes[i] else fill;
    }
    assert buf[..] == Filled(length, bytes, fill);
    if bigEndian {
      ReverseInPlace(buf);
    }
    out := buf[..];
  }

  function Filled(length: nat, bytes: seq<Byte>, fill: Byte): seq<Byte> {
    seq(length, i requires 0 <= i < length => if i < |bytes| then bytes[i] else fill)
  }

  /** `int_i64_to_bytes`. */
  method IntI64ToBytes(n: Word, length: nat, bigEndian: bool, signed: bool) returns (r: Encoded)
    ensures r == Encode(n, length, bigEndian, signed)
  {
    if !signed && n < 0 {
      return Overflow(NegativeToUnsigned);
    }
    if n == 0 {
      ZeroFits(length, bigEndian, signed);
      return Bytes(seq(length, _ => 0));
    }
    var wordBytes := WordBytes(n);
    WordBytesAreDigits(n);
    WordPowers();
    if signed {
      if length == 0 {
        return Overflow(TooBig);
      }
      if length < 8 {
        var maxPos := Pow2(8 * length - 1) - 1;
        var minNeg := -Pow2(8 * length - 1);
        if n > maxPos || n < minNeg {
          return Overflow(TooBig);
        }
      } else {
        Pow2Mono(63, 8 * length - 1);
      }
      var signFill := if n < 0 then 0xff else 0;
      FillIsDigits(n, wordBytes, 8, signFill, length);
      var bytes := FillBuffer(length, wordBytes, signFill, bigEndian);
      return Bytes(bytes);
    } else {
      if length == 0 || (length < 8 && n >= Pow2(8 * length)) {
        return Overflow(TooBig);
      }
      if length >= 8 {
        Pow2Mono(64, 8 * length);
      }
      FillIsDigits(n, wordBytes, 8, 0, length);
      var bytes := FillBuffer(length, wordBytes, 0, bigEndian);
      return Bytes(bytes);
    }
  }

  /** Copying the bytes of `n` and filling up with its sign is the wider encoding of `n`. */
  lemma FillIsDigits(n: int, bytes: seq<Byte>, k: nat, fill: Byte, length: nat)
    requires bytes == LeDigits(n, k) && -Pow2(8 * k) <= n < Pow2(8 * k)
    requires fill == if n < 0 then 0xff else 0
    ensures Filled(length, bytes, fill) == LeDigits(n, length)
  {
    if k <= length {
      LeDigitsPrefix(n, k, length);
      LeDigitsTail(n, k, length);
      forall i | 0 <= i < k
        ensures LeDigits(n, length)[i] == bytes[i]
      {
        assert LeDigits(n, length)[..k][i] == bytes[i];
      }
    } else {
      LeDigitsPrefix(n, length, k);
      forall i | 0 <= i < length
        ensures LeDigits(n, length)[i] == bytes[i]
      {
        assert LeDigits(n, k)[..length][i] == bytes[i];
      }
    }
  }

  lemma {:induction false} ZeroDigits(length: nat)
    ensures LeDigits(0, length) == seq(length, _ => 0)
  {
    LeDigitsTail(0, 0, length);
  }

  lemma ZeroFits(length: nat, bigEndian: bool, signed: bool)
    ensures Encode(0, length, bigEndian, signed) == Bytes(seq(length, _ => 0))
  {
    ZeroDigits(length);
    var s: seq<Byte> := seq(length, _ => 0);
    assert Reversed(s) == s;
  }

  // ------------------------------------------------------------------- the big-integer path

  /** The bytes of `BigInt::to_bytes_le` for a positive number: no leading zero byte. */
  function MagnitudeLength(n: nat): nat {
    if n < 256 then 1 else 1 + MagnitudeLength(n / 256)
  }

  /** The bytes of `BigInt::to_signed_bytes_le`: the shortest two's complement form. */
  function SignedLength(n: int): nat
    decreases if n < 0 then -n else n
  {
    if -128 <= n < 128 then 1 else 1 + SignedLength(n / 256)
  }

  lemma {:induction false} MagnitudeFits(n: nat, length: nat)
    requires n > 0
    ensures MagnitudeLength(n) <= length <==> n < Pow2(8 * length)
  {
    if length == 0 {
      assert Pow2(0) == 1;
    } else {
      EightBits(8 * (length - 1));
      if n >= 256 {
        MagnitudeFits(n / 256, length - 1);
      } else {
        Pow2Mono(0, 8 * (length - 1));
      }
    }
  }

  lemma {:induction false} SignedFits(n: int, length: nat)
    ensures length == 0 ==> SignedLength(n) > length
    ensures length > 0 ==> (SignedLength(n) <= length <==> InRange(n, length, true))
    decreases if n < 0 then -n else n
  {
    if length == 1 {
      assert Pow2(7) == 128;
    } else if length > 1 {
      EightBits(8 * length - 9);
      Pow2Mono(7, 8 * length - 9);
      assert Pow2(7) == 128;
      if n < -128 || n >= 128 {
        SignedFits(n / 256, length - 1);
      }
    }
  }

  lemma OwnLengthFits(n: int)
    ensures n > 0 ==> n < Pow2(8 * MagnitudeLength(n))
    ensures -Pow2(8 * SignedLength(n)) <= n < Pow2(8 * SignedLength(n))
  {
    if n > 0 {
      MagnitudeFits(n, MagnitudeLength(n));
    }
    SignedFits(n, SignedLength(n));
    Pow2Mono(8 * SignedLength(n) - 1, 8 * SignedLength(n));
  }

  /** `bigint_to_bytes`. */
  method BigintToBytes(n: int, length: nat, bigEndian: bool, signed: bool) returns (r: Encoded)
    ensures r == Encode(n, length, bigEndian, signed)
  {
    if !signed && n < 0 {
      return Overflow(NegativeToUnsigned);
    }
    if n == 0 {
      ZeroFits(length, bigEndian, signed);
      return Bytes(seq(length, _ => 0));
    }
    OwnLengthFits(n);
    if signed {
      var leBytes := LeDigits(n, SignedLength(n));
      SignedFits(n, length);
      if |leBytes| > length {
        return Overflow(TooBig);
      }
      var signByte := if n < 0 then 0xff else 0;
      FillIsDigits(n, leBytes, SignedLength(n), signByte, length);
      var bytes := FillBuffer(length, leBytes, signByte, bigEndian);
      return Bytes(bytes);
    } else {
      var leBytes := LeDigits(n, MagnitudeLength(n));
      MagnitudeFits(n, length);
      if |leBytes| > length {
        return Overflow(TooBig);
      }
      FillIsDigits(n, leBytes, MagnitudeLength(n), 0, length);
      var bytes := FillBuffer(length, leBytes, 0, bigEndian);
      return Bytes(bytes);
    }
  }

  // ---------------------------------------------------------------------------- bit_length

  /** `n.unsigned_abs().leading_zeros()` by scanning down from bit 63. */
  function LeadingZeros(n: nat, width: nat): nat
    requires n < Pow2(width)
  {
    if width == 0 then 0
    else if n >= Pow2(width - 1) then 0
    else 1 + LeadingZeros(n, width - 1)
  }

  function AbsInt(n: int): nat {
    if n < 0 then -n else n
  }

  /** The machine-word arm of `bit_length`. */
  function WordBitLength(n: Word): int {
    WordPowers();
    if AbsInt(n) == 0 then 0 else 64 - LeadingZeros(AbsInt(n), 64)
  }

  lemma {:induction false} LeadingZerosCount(n: nat, width: nat)
    requires 0 < n < Pow2(width)
    ensures LeadingZeros(n, width) + BitLength(n) == width
  {
    if n >= Pow2(width - 1) {
      BitLengthUnique(n, width);
    } else {
      LeadingZerosCount(n, width - 1);
    }
  }

  /** Both arms of `bit_length` count the binary digits of the magnitude. */
  lemma BitLengthArmsAgree(n: Word)
    ensures WordBitLength(n) == BitLength(AbsInt(n))
  {
    WordPowers();
    if AbsInt(n) > 0 {
      LeadingZerosCount(AbsInt(n), 64);
    }
  }

  /** The bit length is that of the least power of two above the magnitude, for integers of either sign. */
  lemma BitLengthIsLeast(n: int)
    ensures -Pow2(BitLength(AbsInt(n))) < n < Pow2(BitLength(AbsInt(n)))
    ensures forall k: nat | -Pow2(k) < n < Pow2(k) :: BitLength(AbsInt(n)) <= k
  {
    if n != 0 {
      BitLengthBounds(AbsInt(n));
    }
    forall k: nat | -Pow2(k) < n < Pow2(k)
      ensures BitLength(AbsInt(n)) <= k
    {
      MagnitudeBits(AbsInt(n), k);
    }
  }

  /** A non-negative integer encodes unsigned exactly when its bits fit in the bytes, and a negative one never. */
  lemma UnsignedFitsByBitLength(n: int, length: nat, bigEndian: bool)
    ensures var r := Encode(n, length, bigEndian, false);
            if n < 0 then r == Overflow(NegativeToUnsigned)
            else if 8 * length >= BitLength(n) then r.Bytes?
            else r == Overflow(TooBig)
  {
    if n >= 0 {
      MagnitudeBits(n, 8 * length);
    }
  }

  /** An integer encodes signed exactly when one more bit than it needs is there; zero also in no bytes. */
  lemma SignedFitsByBitLength(n: int, length: nat, bigEndian: bool)
    ensures var r := Encode(n, length, bigEndian, true);
            && (r.Bytes? <==> 8 * length > BitLength(if n < 0 then -n - 1 else n) || (length == 0 && n == 0))
            && (r.Bytes? || r == Overflow(TooBig))
  {
    if length > 0 {
      MagnitudeBits(if n < 0 then -n - 1 else n, 8 * length - 1);
    }
  }

  lemma MagnitudeBits(m: nat, k: nat)
    ensures m < Pow2(k) <==> BitLength(m) <= k
  {
    if m > 0 {
      BitLengthBounds(m);
      if BitLength(m) <= k {
        Pow2Mono(BitLength(m), k);
      } else {
        Pow2Mono(k, BitLength(m) - 1);
      }
    }
  }
}
