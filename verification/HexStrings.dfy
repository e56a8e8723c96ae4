/**
 `float.hex` and `float.fromhex` as functions on strings: the grammar `fromhex` accepts, the real
 number an accepted string denotes, and the printer.
 */
module HexStrings {
  import opened Basics
  import opened Powers
  import opened Doubles
  import opened HexRounding
  import opened HexCorrectness

  // ------------------------------------------------------------------------- characters

  /** Unicode White_Space, which `str::trim` strips. */
  predicate IsWhitespace(c: char) {
    || '\U{0009}' <= c <= '\U{000D}' || c == ' ' || c == '\U{0085}' || c == '\U{00A0}'
    || c == '\U{1680}' || '\U{2000}' <= c <= '\U{200A}' || c == '\U{2028}' || c == '\U{2029}'
    || c == '\U{202F}' || c == '\U{205F}' || c == '\U{3000}'
  }

  predicate IsDigit(c: char) {
    '0' <= c <= '9'
  }

  predicate IsHexDigit(c: char) {
    IsDigit(c) || 'a' <= c <= 'f' || 'A' <= c <= 'F'
  }

  function HexDigit(c: char): (d: nat)
    requires IsHexDigit(c)
    ensures d < 16
  {
    if IsDigit(c) then c as int - '0' as int
    else if 'a' <= c <= 'f' then c as int - 'a' as int + 10
    else c as int - 'A' as int + 10
  }

  function ToLower(c: char): char {
    if 'A' <= c <= 'Z' then (c as int + 32) as char else c
  }

  predicate EqIgnoreCase(s: string, t: string) {
    |s| == |t| && forall i | 0 <= i < |s| :: ToLower(s[i]) == ToLower(t[i])
  }

  // ---------------------------------------------------------------------------- parsing

  function TrimStart(s: string): (r: string)
    ensures |r| <= |s|
  {
    if s != "" && IsWhitespace(s[0]) then TrimStart(s[1..]) else s
  }

  function TrimEnd(s: string): (r: string)
    ensures |r| <= |s|
  {
    if s != "" && IsWhitespace(s[|s| - 1]) then TrimEnd(s[..|s| - 1]) else s
  }

  function Trim(s: string): string {
    TrimEnd(TrimStart(s))
  }

  /** `str::find`: the first index of one of two characters. */
  function Find(s: string, a: char, b: char): (r: Option<nat>)
    ensures r.Some? ==> r.value < |s| && (s[r.value] == a || s[r.value] == b)
  {
    if s == "" then None
    else if s[0] == a || s[0] == b then Some(0)
    else
      match Find(s[1..], a, b)
      case None => None
      case Some(i) => Some(i + 1)
  }

  predicate AllDigits(s: string) {
    forall i | 0 <= i < |s| :: IsDigit(s[i])
  }

  predicate AllHexDigits(s: string) {
    forall i | 0 <= i < |s| :: IsHexDigit(s[i])
  }

  function DecimalValue(s: string): nat
    requires AllDigits(s)
  {
    if s == "" then 0
    else 10 * DecimalValue(s[..|s| - 1]) + (s[|s| - 1] as int - '0' as int)
  }

  /** `str::parse::<i64>`: an optional sign, at least one decimal digit, and no overflow. */
  function ParseI64(s: string): (r: Option<int>)
    ensures r.Some? ==> FitsI64(r.value)
  {
    var neg := s != "" && s[0] == '-';
    var digits := StripSign(s);
    if digits == "" || !AllDigits(digits) then None
    else
      var n := if neg then -(DecimalValue(digits) as int) else DecimalValue(digits);
      if FitsI64(n) then Some(n) else None
  }

  /** `BigInt::parse_bytes(s, 16)` on hexadecimal digits. */
  function HexValue(s: string): nat
    requires AllHexDigits(s)
  {
    if s == "" then 0 else 16 * HexValue(s[..|s| - 1]) + HexDigit(s[|s| - 1])
  }

  /** The parts of an accepted hexadecimal literal. */
  datatype HexLiteral = HexLiteral(neg: bool, intHex: string, fracHex: string, binExp: int) {
    predicate Valid() {
      AllHexDigits(intHex) && AllHexDigits(fracHex) && FitsI64(binExp)
    }
  }

  function StripSign(t: string): string {
    if t != "" && (t[0] == '-' || t[0] == '+') then t[1..] else t
  }

  function StripPrefix(u: string): string {
    if |u| >= 2 && u[0] == '0' && (u[1] == 'x' || u[1] == 'X') then u[2..] else u
  }

  /** Sign, optional 0x prefix, hexadecimal digits around an optional point, and a binary exponent. */
  function ParseHex(t: string): (r: Option<HexLiteral>)
    ensures r.Some? ==> r.value.Valid() && ('p' in t || 'P' in t)
    ensures r.Some? ==> |r.value.intHex| + |r.value.fracHex| <= |t|
  {
    ParseBody(t != "" && t[0] == '-', StripPrefix(StripSign(t)))
  }

  function ParseBody(neg: bool, rest: string): (r: Option<HexLiteral>)
    ensures r.Some? ==> r.value.Valid() && ('p' in rest || 'P' in rest)
    ensures r.Some? ==> |r.value.intHex| + |r.value.fracHex| <= |rest|
  {
    match Find(rest, 'p', 'P')
    case None => None
    case Some(p) =>
      match ParseI64(rest[p + 1..])
      case None => None
      case Some(binExp) =>
        var (intHex, fracHex) := SplitAtPoint(rest[..p]);
        if intHex == "" && fracHex == "" then None
        else if !AllHexDigits(intHex) || !AllHexDigits(fracHex) then None
        else Some(HexLiteral(neg, intHex, fracHex, binExp))
  }

  function SplitAtPoint(mantissa: string): (string, string) {
    match Find(mantissa, '.', '.')
    case None => (mantissa, "")
    case Some(dot) => (mantissa[..dot], mantissa[dot + 1..])
  }

  /** The infinities and nan, in any letter case. */
  function SpecialName(t: string): Option<Bits64> {
    if EqIgnoreCase(t, "inf") || EqIgnoreCase(t, "+inf") then Some(POSITIVE_INFINITY)
    else if EqIgnoreCase(t, "-inf") then Some(NEGATIVE_INFINITY)
    else if EqIgnoreCase(t, "nan") || EqIgnoreCase(t, "+nan") || EqIgnoreCase(t, "-nan") then Some(QUIET_NAN)
    else None
  }

  /** `float.fromhex`. */
  function FromHex(s: string): FloatResult {
    var t := Trim(s);
    match SpecialName(t)
    case Some(bits) => Float(bits)
    case None =>
      match ParseHex(t)
      case None => ValueError
      case Some(h) => Assemble(h.neg, Mantissa(h), |h.fracHex|, h.binExp)
  }

  /** The digits before and after the point read as one integer. */
  function Mantissa(h: HexLiteral): nat
    requires h.Valid()
  {
    HexValue(h.intHex + h.fracHex)
  }

  // ------------------------------------------------------------------- what a string denotes

  /** The digits after the point: each worth a sixteenth of the one before. */
  function FractionReal(f: string): real
    requires AllHexDigits(f)
  {
    if f == "" then 0.0 else (HexDigit(f[0]) as real + FractionReal(f[1..])) / 16.0
  }

  /** The magnitude a literal denotes, as section 5.12.3 of IEEE 754-2019 reads it. */
  function Denoted(h: HexLiteral): real
    requires h.Valid()
  {
    ScaleBy(HexValue(h.intHex) as real + FractionReal(h.fracHex), h.binExp)
  }

  function TrueExponent(h: HexLiteral): int
    requires h.Valid()
  {
    h.binExp - 4 * |h.fracHex|
  }

  lemma {:induction false} FractionIsShifted(i: string, f: string)
    requires AllHexDigits(i) && AllHexDigits(f)
    ensures Dyadic(HexValue(i + f), -4 * |f|) == HexValue(i) as real + FractionReal(f)
    decreases |f|
  {
    if f == "" {
      assert i + f == i;
    } else {
      var j := i + [f[0]];
      assert i + f == j + f[1..];
      assert j[..|j| - 1] == i;
      FractionIsShifted(j, f[1..]);
      var x := HexValue(i + f) as real;
      ScaleScale(x, -4 * |f[1..]|, -4);
      Sixteenth(ScaleBy(x, -4 * |f[1..]|));
    }
  }

  lemma Sixteenth(x: real)
    ensures ScaleBy(x, -4) == x / 16.0
  {
    assert ScaleBy(x, -2) == x / 4.0;
  }

  /** Joining the digits and lowering the exponent by four per fraction digit keeps the value. */
  lemma MantissaDenotes(h: HexLiteral)
    requires h.Valid()
    ensures Denoted(h) == Dyadic(Mantissa(h), TrueExponent(h))
  {
    FractionIsShifted(h.intHex, h.fracHex);
    ScaleScale(Mantissa(h) as real, -4 * |h.fracHex|, h.binExp);
  }

  // ------------------------------------------------------------------------ main theorem

  lemma SameLetters(t: string, name: string)
    requires EqIgnoreCase(t, name) && 'p' !in name && 'P' !in name
    ensures 'p' !in t && 'P' !in t
  {
    forall i | 0 <= i < |t|
      ensures t[i] != 'p' && t[i] != 'P'
    {
      assert ToLower(t[i]) == ToLower(name[i]);
      assert name[i] in name;
    }
  }

  lemma SpecialNamesHaveNoExponent(t: string)
    requires SpecialName(t).Some?
    ensures 'p' !in t && 'P' !in t
  {
    if EqIgnoreCase(t, "inf") { SameLetters(t, "inf"); }
    else if EqIgnoreCase(t, "+inf") { SameLetters(t, "+inf"); }
    else if EqIgnoreCase(t, "-inf") { SameLetters(t, "-inf"); }
    else if EqIgnoreCase(t, "nan") { SameLetters(t, "nan"); }
    else if EqIgnoreCase(t, "+nan") { SameLetters(t, "+nan"); }
    else { SameLetters(t, "-nan"); }
  }

  /** `s` is accepted as the literal `h`. */
  predicate Reads(s: string, h: HexLiteral): (b: bool)
    ensures b ==> h.Valid() && |h.intHex| + |h.fracHex| <= |s|
  {
    ParseHex(Trim(s)) == Some(h)
  }

  lemma LiteralsAreAssembled(s: string, h: HexLiteral)
    ensures Reads(s, h) ==> FromHex(s) == Assemble(h.neg, Mantissa(h), |h.fracHex|, h.binExp)
  {
    if Reads(s, h) && SpecialName(Trim(s)).Some? {
      SpecialNamesHaveNoExponent(Trim(s));
    }
  }

  /** No 64-bit exponent sum in `fromhex` leaves its range. */
  predicate ExponentFits(h: HexLiteral)
    requires h.Valid()
  {
    Mantissa(h) == 0 || FitsI64(RoundedExponent(Mantissa(h), TrueExponent(h)))
  }

  /** Truncation below 2^-1022 loses nothing that rounding would have kept. */
  predicate Harmless(h: HexLiteral)
    requires h.Valid()
  {
    Mantissa(h) == 0 || TruncationHarmless(Mantissa(h), TrueExponent(h))
  }

  /**
   `fromhex` on an accepted literal: the overflow error exactly from 2^1024 - 2^970 up, and
   otherwise a double of the literal's sign that is the roundTiesToEven value of what the literal
   denotes exactly when that is at least 2^-1022, or truncating it to 2^-1074 is harmless.
   */
  lemma FromHexRounds(s: string, h: HexLiteral)
    ensures Reads(s, h) && ExponentFits(h) ==>
              && (FromHex(s) == OverflowError <==> Denoted(h) >= OverflowThreshold())
              && (CorrectlyRounded(FromHex(s), h.neg, Denoted(h))
                  <==> Denoted(h) >= Dyadic(1, -1022) || Harmless(h))
  {
    if Reads(s, h) && ExponentFits(h) {
      LiteralsAreAssembled(s, h);
      AssembledRounds(h);
    }
  }

  lemma AssembledRounds(h: HexLiteral)
    requires h.Valid() && ExponentFits(h)
    ensures var r := Assemble(h.neg, Mantissa(h), |h.fracHex|, h.binExp);
            && (r == OverflowError <==> Denoted(h) >= OverflowThreshold())
            && (CorrectlyRounded(r, h.neg, Denoted(h)) <==> Denoted(h) >= Dyadic(1, -1022) || Harmless(h))
  {
    MantissaDenotes(h);
    if Mantissa(h) == 0 {
      ZeroIsNearest(h.neg, TrueExponent(h));
    } else {
      AssembleWraps(h.neg, Mantissa(h), |h.fracHex|, h.binExp);
      RoundToDoubleIsCorrect(h.neg, Mantissa(h), TrueExponent(h));
    }
  }

  /**
   For every string a machine can hold: the result is correctly rounded exactly when the rounded
   exponent fits in 64 bits and the value is at least 2^-1022 or harmless to truncate.
   */
  lemma FromHexCorrectExactly(s: string, h: HexLiteral)
    requires |s| < 0x0400_0000_0000_0000
    ensures Reads(s, h) ==>
              (CorrectlyRounded(FromHex(s), h.neg, Denoted(h))
               <==> ExponentFits(h) && (Denoted(h) >= Dyadic(1, -1022) || Harmless(h)))
  {
    FromHexRounds(s, h);
    LiteralsAreAssembled(s, h);
    if Reads(s, h) && !ExponentFits(h) {
      OutOfRangeIsWrong(h);
    }
  }

  lemma OutOfRangeIsWrong(h: HexLiteral)
    requires h.Valid() && !ExponentFits(h) && |h.intHex| + |h.fracHex| < 0x0400_0000_0000_0000
    ensures !CorrectlyRounded(Assemble(h.neg, Mantissa(h), |h.fracHex|, h.binExp), h.neg, Denoted(h))
  {
    MantissaDenotes(h);
    HexValueBits(h.intHex + h.fracHex);
    WrappedIsWrong(h.neg, Mantissa(h), |h.fracHex|, h.binExp);
  }

  lemma {:induction false} HexValueBits(s: string)
    requires AllHexDigits(s)
    ensures HexValue(s) < Pow2(4 * |s|)
    ensures BitLength(HexValue(s)) <= 4 * |s|
  {
    if s != "" {
      HexValueBits(s[..|s| - 1]);
      FourBits(0, 4 * (|s| - 1));
    }
    BitLengthAtMost(HexValue(s), 4 * |s|);
  }

  lemma ZeroIsNearest(neg: bool, e: int)
    ensures Dyadic(0, e) == 0.0 < OverflowThreshold()
    ensures NearestEven(Pack(neg, 0, 0), Signed(neg, 0.0))
  {
    ScaleSign(0.0, e);
    ScaleSign(0.0, -1074);
    ScaleSign((2 * TWO53 - 1) as real, 970);
  }

  /** Under 2^-1022 the result is within 2^-1074, and exact when the literal denotes a double. */
  lemma FromHexSubnormal(s: string, h: HexLiteral)
    ensures Reads(s, h) && ExponentFits(h) && Denoted(h) < Dyadic(1, -1022) ==>
              Truncated(FromHex(s), h.neg, Denoted(h))
  {
    if Reads(s, h) && ExponentFits(h) && Denoted(h) < Dyadic(1, -1022) {
      LiteralsAreAssembled(s, h);
      AssembledIsTruncated(h);
    }
  }

  lemma AssembledIsTruncated(h: HexLiteral)
    requires h.Valid() && ExponentFits(h) && Denoted(h) < Dyadic(1, -1022)
    ensures Truncated(Assemble(h.neg, Mantissa(h), |h.fracHex|, h.binExp), h.neg, Denoted(h))
  {
    var m, e := Mantissa(h), TrueExponent(h);
    MantissaDenotes(h);
    if m == 0 {
      ScaleSign(0.0, e);
      ZeroIsTruncated(h.neg);
    } else {
      AssembleWraps(h.neg, m, |h.fracHex|, h.binExp);
      BelowNormal(m, e);
      SubnormalIsTruncated(h.neg, m, e);
    }
  }

  lemma ZeroIsTruncated(neg: bool)
    ensures Truncated(Float(Pack(neg, 0, 0)), neg, 0.0)
  {
    ScaleSign(0.0, -1074);
    ScaleSign(1.0, -1074);
  }

  lemma BelowNormal(m: nat, e: int)
    requires m > 0 && Dyadic(m, e) < Dyadic(1, -1022)
    ensures TopExponent(m, e) < -1022
  {
    TopExponentBounds(m, e);
    if TopExponent(m, e) >= -1022 {
      PowerOrder(-1022, TopExponent(m, e));
    }
  }

  // ----------------------------------------------------------------------------- printing

  function HexChar(d: nat): (c: char)
    requires d < 16
    ensures IsHexDigit(c) && HexDigit(c) == d && c != 'p' && c != 'P' && c != '.'
  {
    if d < 10 then ('0' as int + d) as char else ('a' as int + d - 10) as char
  }

  /** `{:0w$x}`: `w` lower-case hexadecimal digits. */
  function HexPad(n: nat, w: nat): (s: string)
    ensures |s| == w && AllHexDigits(s)
    ensures 'p' !in s && 'P' !in s && '.' !in s
  {
    if w == 0 then "" else HexPad(n / 16, w - 1) + [HexChar(n % 16)]
  }

  function Decimal(n: nat): (s: string)
    ensures s != "" && AllDigits(s)
  {
    var last := [('0' as int + n % 10) as char];
    if n < 10 then last else Decimal(n / 10) + last
  }

  /** `{}` on an `i32`, after a plus sign when it is not negative. */
  function ExponentText(e: int): string {
    if e < 0 then "-" + Decimal(-e) else "+" + Decimal(e)
  }

  /** `[-]0x<lead>.<frac>p<exponent>`. */
  function HexText(neg: bool, lead: char, frac: string, exponent: string): string {
    var unsigned := "0x" + (([lead] + "." + frac) + ("p" + exponent));
    if neg then "-" + unsigned else unsigned
  }

  /** `float.hex`. */
  function FloatToHex(b: Bits64): string {
    if IsNan(b) then "nan"
    else if IsInfinite(b) then if SignBit(b) then "-inf" else "inf"
    else if IsZero(b) then HexText(SignBit(b), '0', "0", "+0")
    else if ExponentField(b) == 0 then HexText(SignBit(b), '0', HexPad(Fraction(b), 13), "-1022")
    else
      var exponent := ExponentField(b) - 1023;
      HexText(SignBit(b), '1', HexPad(Fraction(b), 13), ExponentText(exponent))
  }

  // --------------------------------------------------------------------------- round trip

  lemma {:induction false} DecimalRoundTrip(n: nat)
    ensures DecimalValue(Decimal(n)) == n
  {
    var s := Decimal(n);
    if n < 10 {
      assert s[..|s| - 1] == "";
    } else {
      assert s[..|s| - 1] == Decimal(n / 10);
      DecimalRoundTrip(n / 10);
    }
  }

  lemma SignedParses(sign: char, d: string)
    requires (sign == '-' || sign == '+') && d != "" && AllDigits(d)
    requires FitsI64(DecimalValue(d))
    ensures ParseI64([sign] + d) == Some(if sign == '-' then -(DecimalValue(d) as int) else DecimalValue(d))
  {
    assert ([sign] + d)[1..] == d;
  }

  /** The printed exponent parses back, and ends in a digit. */
  lemma ExponentRoundTrip(e: int)
    requires FitsI64(e) && FitsI64(-e)
    ensures ParseI64(ExponentText(e)) == Some(e)
    ensures var s := ExponentText(e); s != "" && IsDigit(s[|s| - 1])
  {
    var n: nat := if e < 0 then -e else e;
    DecimalRoundTrip(n);
    SignedParses(if e < 0 then '-' else '+', Decimal(n));
  }

  lemma FourBits(n: int, k: nat)
    ensures Pow2(k + 4) == 16 * Pow2(k)
    ensures Shl(n, k + 4) == 16 * Shl(n, k)
  {
    assert Pow2(k + 2) == 4 * Pow2(k) && Shl(n, k + 2) == 4 * Shl(n, k);
  }

  lemma {:induction false} HexPadRoundTrip(n: nat, w: nat)
    requires n < Pow2(4 * w)
    ensures HexValue(HexPad(n, w)) == n
  {
    if w != 0 {
      var s := HexPad(n, w);
      assert s[..|s| - 1] == HexPad(n / 16, w - 1);
      FourBits(0, 4 * w - 4);
      HexPadRoundTrip(n / 16, w - 1);
    }
  }

  lemma {:induction false} HexValueJoin(a: string, b: string)
    requires AllHexDigits(a) && AllHexDigits(b)
    ensures HexValue(a + b) == Shl(HexValue(a), 4 * |b|) + HexValue(b)
    decreases |b|
  {
    if b == "" {
      assert a + b == a;
    } else {
      var c := b[..|b| - 1];
      assert (a + b)[..|a + b| - 1] == a + c;
      HexValueJoin(a, c);
      FourBits(HexValue(a), 4 * |c|);
    }
  }

  lemma {:induction false} FindAfter(pre: string, c: char, post: string, x: char, y: char)
    requires x !in pre && y !in pre && (c == x || c == y)
    ensures Find(pre + [c] + post, x, y) == Some(|pre|)
  {
    var s := pre + [c] + post;
    if pre != "" {
      assert s[0] == pre[0];
      assert s[1..] == pre[1..] + [c] + post;
      FindAfter(pre[1..], c, post, x, y);
    }
  }

  lemma NothingToTrim(s: string)
    requires s != "" && !IsWhitespace(s[0]) && !IsWhitespace(s[|s| - 1])
    ensures Trim(s) == s
  {
  }

  lemma BodyParses(neg: bool, lead: char, frac: string, exponent: string, e: int)
    requires IsDigit(lead) && AllHexDigits(frac) && 'p' !in frac && 'P' !in frac && '.' !in frac
    requires ParseI64(exponent) == Some(e)
    ensures ParseBody(neg, ([lead] + "." + frac) + ("p" + exponent)) == Some(HexLiteral(neg, [lead], frac, e))
  {
    var digits := [lead] + "." + frac;
    var rest := digits + ("p" + exponent);
    assert rest == digits + "p" + exponent;
    FindAfter(digits, 'p', exponent, 'p', 'P');
    assert rest[|digits| + 1..] == exponent && rest[..|digits|] == digits;
    FindAfter([lead], '.', frac, '.', '.');
    assert digits[..1] == [lead] && digits[2..] == frac;
  }

  /** A printed literal parses into its parts. */
  lemma PrintedParses(neg: bool, lead: char, frac: string, exponent: string, e: int)
    requires IsDigit(lead) && AllHexDigits(frac) && 'p' !in frac && 'P' !in frac && '.' !in frac
    requires exponent != "" && IsDigit(exponent[|exponent| - 1]) && ParseI64(exponent) == Some(e)
    ensures ParseHex(Trim(HexText(neg, lead, frac, exponent))) == Some(HexLiteral(neg, [lead], frac, e))
  {
    var body := ([lead] + "." + frac) + ("p" + exponent);
    var s := HexText(neg, lead, frac, exponent);
    BodyParses(neg, lead, frac, exponent, e);
    assert body[|body| - 1] == exponent[|exponent| - 1];
    Unwraps(neg, body);
  }

  lemma Unwraps(neg: bool, body: string)
    requires body != "" && !IsWhitespace(body[|body| - 1])
    ensures var s := if neg then "-" + ("0x" + body) else "0x" + body;
            Trim(s) == s && (s[0] == '-' <==> neg) && StripPrefix(StripSign(s)) == body
  {
    var unsigned := "0x" + body;
    var s := if neg then "-" + unsigned else unsigned;
    assert s[|s| - 1] == body[|body| - 1];
    NothingToTrim(s);
    assert StripSign(s) == unsigned;
    assert unsigned[2..] == body;
  }

  /** The parts printed for a finite double. */
  function PrintedLiteral(b: Bits64): HexLiteral
    requires IsFinite(b)
  {
    if IsZero(b) then HexLiteral(SignBit(b), "0", "0", 0)
    else if ExponentField(b) == 0 then HexLiteral(SignBit(b), "0", HexPad(Fraction(b), 13), -1022)
    else HexLiteral(SignBit(b), "1", HexPad(Fraction(b), 13), ExponentField(b) - 1023)
  }

  lemma PrintedIsParsed(b: Bits64)
    requires IsFinite(b)
    ensures ParseHex(Trim(FloatToHex(b))) == Some(PrintedLiteral(b))
  {
    if IsZero(b) {
      PrintedZeroIsParsed(b);
    } else if ExponentField(b) == 0 {
      PrintedSubnormalIsParsed(b);
    } else {
      PrintedNormalIsParsed(b);
    }
  }

  lemma PrintedZeroIsParsed(b: Bits64)
    requires IsZero(b)
    ensures ParseHex(Trim(FloatToHex(b))) == Some(PrintedLiteral(b))
  {
    ZeroExponentText();
    PrintedParses(SignBit(b), '0', "0", "+0", 0);
  }

  lemma PrintedSubnormalIsParsed(b: Bits64)
    requires !IsZero(b) && ExponentField(b) == 0
    ensures ParseHex(Trim(FloatToHex(b))) == Some(PrintedLiteral(b))
  {
    LeastExponentText();
    PrintedParses(SignBit(b), '0', HexPad(Fraction(b), 13), "-1022", -1022);
  }

  lemma PrintedNormalIsParsed(b: Bits64)
    requires IsFinite(b) && ExponentField(b) != 0
    ensures ParseHex(Trim(FloatToHex(b))) == Some(PrintedLiteral(b))
  {
    var e := ExponentField(b) - 1023;
    ExponentRoundTrip(e);
    PrintedParses(SignBit(b), '1', HexPad(Fraction(b), 13), ExponentText(e), e);
  }

  lemma ZeroExponentText()
    ensures ParseI64("+0") == Some(0)
  {
    ExponentRoundTrip(0);
    assert Decimal(0) == "0";
  }

  lemma LeastExponentText()
    ensures ParseI64("-1022") == Some(-1022)
  {
    ExponentRoundTrip(-1022);
    assert Decimal(1022) == "1022";
  }

  /** The printed digits are the significand, and the printed exponent goes with them. */
  lemma PrintedMantissa(b: Bits64)
    requires IsFinite(b)
    ensures Mantissa(PrintedLiteral(b)) == Significand(b)
    ensures !IsZero(b) ==> TrueExponent(PrintedLiteral(b)) == Exponent(b)
  {
    if IsZero(b) {
      HexValueJoin("0", "0");
      ShlNeg(0, 4);
      assert HexValue("0") == 0;
    } else {
      LeadingDigit(if ExponentField(b) == 0 then "0" else "1", Fraction(b));
    }
  }

  lemma LeadingDigit(lead: string, fraction: nat)
    requires (lead == "0" || lead == "1") && fraction < TWO52
    ensures HexValue(lead + HexPad(fraction, 13)) == fraction + if lead == "1" then TWO52 else 0
  {
    Pow2Small();
    HexPadRoundTrip(fraction, 13);
    HexValueJoin(lead, HexPad(fraction, 13));
    ShlOne(52);
    ShlNeg(0, 52);
    assert lead[..0] == "";
  }

  /** The string printed for a finite double denotes that double exactly. */
  lemma PrintedDenotes(b: Bits64)
    requires IsFinite(b)
    ensures ParseHex(Trim(FloatToHex(b))) == Some(PrintedLiteral(b))
    ensures Signed(SignBit(b), Denoted(PrintedLiteral(b))) == Value(b)
  {
    PrintedIsParsed(b);
    PrintedValue(b, PrintedLiteral(b));
  }

  lemma PrintedValue(b: Bits64, h: HexLiteral)
    requires IsFinite(b) && h == PrintedLiteral(b)
    ensures Signed(SignBit(b), Denoted(h)) == Value(b)
  {
    PrintedMagnitude(b, h);
    SignedDyadic(SignBit(b), Significand(b), Exponent(b));
  }

  lemma PrintedMagnitude(b: Bits64, h: HexLiteral)
    requires IsFinite(b) && h == PrintedLiteral(b)
    ensures Denoted(h) == Dyadic(Significand(b), Exponent(b))
  {
    PrintedMantissa(b);
    MantissaDenotes(h);
    if IsZero(b) {
      assert Significand(b) == 0;
      ZeroDenotes(TrueExponent(h), Exponent(b));
    }
  }

  lemma ZeroDenotes(e: int, f: int)
    ensures Dyadic(0, e) == Dyadic(0, f) == 0.0
  {
    ScaleSign(0.0, e);
    ScaleSign(0.0, f);
  }

  /** `fromhex(x.hex())` gives back every bit of `x`, for all doubles but nan. */
  lemma HexRoundTrip(b: Bits64)
    requires !IsNan(b)
    ensures FromHex(FloatToHex(b)) == Float(b)
  {
    if IsInfinite(b) {
      PackFields(b);
      NothingToTrim(FloatToHex(b));
      assert EqIgnoreCase("inf", "inf") && EqIgnoreCase("-inf", "-inf");
    } else {
      PrintedIsParsed(b);
      LiteralsAreAssembled(FloatToHex(b), PrintedLiteral(b));
      PrintedAssembles(b, PrintedLiteral(b));
    }
  }

  lemma PrintedAssembles(b: Bits64, h: HexLiteral)
    requires IsFinite(b) && h == PrintedLiteral(b)
    ensures Assemble(h.neg, Mantissa(h), |h.fracHex|, h.binExp) == Float(b)
  {
    PackFields(b);
    PrintedMantissa(b);
    if !IsZero(b) {
      AssembleWraps(SignBit(b), Significand(b), |h.fracHex|, h.binExp);
      ExactEncodes(b);
    }
  }

  /** A significand that needs no rounding is encoded unchanged. */
  lemma ExactEncodes(b: Bits64)
    requires IsFinite(b) && !IsZero(b)
    ensures -1100 < RoundedExponent(Significand(b), Exponent(b)) < 1100
    ensures RoundToDouble(SignBit(b), Significand(b), Exponent(b)) == Float(b)
  {
    var m, e := Significand(b), Exponent(b);
    Pow2Small();
    BitLengthAtMost(m, 53);
    RoundTo53Range(m);
    PackFields(b);
    WindowRange(m);
    if ExponentField(b) == 0 {
      BitLengthAtMost(m, 52);
      KeptWhole(m, e);
      var c := EncodesSubnormal(SignBit(b), m, e);
      PackFields(c);
    } else {
      BitLengthUnique(m, 53);
    }
  }

  /** `as_integer_ratio` and `hex` denote the same rational. */
  lemma RatioAgreesWithHex(b: Bits64)
    requires IsFinite(b)
    ensures ParseHex(Trim(FloatToHex(b))).Some?
    ensures var h := ParseHex(Trim(FloatToHex(b))).value;
            Denotes(AsIntegerRatio(b), Signed(h.neg, Denoted(h)))
  {
    PrintedDenotes(b);
    AsIntegerRatioExact(b);
  }

  // ------------------------------------------------------------------------ concrete inputs

  /** `"0x1.8p-1074"`, 1.5 units of 2^-1074, comes out as one unit, where roundTiesToEven gives two. */
  lemma TruncationExample()
    ensures var h := HexLiteral(false, "1", "8", -1074);
            && Reads("0x1.8p-1074", h) && FromHex("0x1.8p-1074") == Float(1)
            && !CorrectlyRounded(FromHex("0x1.8p-1074"), false, Denoted(h))
  {
    var h := HexLiteral(false, "1", "8", -1074);
    ExampleReads();
    LiteralsAreAssembled("0x1.8p-1074", h);
    OneAndAHalf(h);
    TwentyFour();
    AssembleWraps(false, 24, 1, -1074);
    AssembledRounds(h);
  }

  lemma ExampleReads()
    ensures Reads("0x1.8p-1074", HexLiteral(false, "1", "8", -1074))
  {
    ExampleExponent();
    PrintedParses(false, '1', "8", "-1074", -1074);
    ExampleText();
  }

  lemma ExampleExponent()
    ensures ParseI64("-1074") == Some(-1074)
  {
    ExponentRoundTrip(-1074);
    assert Decimal(1074) == "1074";
  }

  lemma ExampleText()
    ensures HexText(false, '1', "8", "-1074") == "0x1.8p-1074"
  {
  }

  lemma OneAndAHalf(h: HexLiteral)
    requires h == HexLiteral(false, "1", "8", -1074)
    ensures Mantissa(h) == 24 && Denoted(h) < Dyadic(1, -1022)
  {
    HexValueJoin("1", "8");
    assert "1"[..0] == "" && "8"[..0] == "";
    assert BitLength(24) == 5;
    MantissaDenotes(h);
    TopExponentBounds(24, -1078);
    PowerOrder(-1073, -1022);
  }

  lemma TwentyFour()
    ensures TopExponent(24, -1078) == -1074 && RoundedExponent(24, -1078) <= -1073
    ensures !TruncationHarmless(24, -1078)
    ensures RoundToDouble(false, 24, -1078) == Float(1)
  {
    assert BitLength(24) == 5;
    assert LowBits(24, 4) == 8 && Pow2(3) == 8 && Shr(24, 4) == 1;
    KeptUnits(24, 4, 52);
    var b := EncodesSubnormal(false, 24, -1078);
    PackFields(b);
  }

  /** `0x2.0p+9223372036854775807` */
  function Wrapping(): string {
    HexText(false, '2', "0", ExponentText(TWO63 - 1))
  }

  /** 2^(2^63) comes out as zero, because the sum of its exponent and its bit length wraps. */
  lemma WrapExample()
    ensures var h := HexLiteral(false, "2", "0", TWO63 - 1);
            && Reads(Wrapping(), h) && FromHex(Wrapping()) == Float(0)
            && !CorrectlyRounded(FromHex(Wrapping()), false, Denoted(h))
  {
    var h := HexLiteral(false, "2", "0", TWO63 - 1);
    ExponentRoundTrip(TWO63 - 1);
    PrintedParses(false, '2', "0", ExponentText(TWO63 - 1), TWO63 - 1);
    LiteralsAreAssembled(Wrapping(), h);
    WrapsToZero(h);
    OutOfRangeIsWrong(h);
  }

  lemma WrapsToZero(h: HexLiteral)
    requires h == HexLiteral(false, "2", "0", TWO63 - 1)
    ensures h.Valid() && !ExponentFits(h)
    ensures Assemble(h.neg, Mantissa(h), |h.fracHex|, h.binExp) == Float(0)
  {
    HexValueJoin("2", "0");
    assert "2"[..0] == "" && "0"[..0] == "";
    assert Mantissa(h) == 32 && BitLength(32) == 6;
    AssembleWraps(false, 32, 1, TWO63 - 1);
    RoundTo53Range(32);
  }
}
