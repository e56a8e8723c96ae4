/**
 What the characters of a hexadecimal string stand for: the digits, letter case, white space, the special
 names, and the exact form of the printed text.
 */
module HexLetters {
  import opened Basics
  import opened Doubles
  import opened HexRounding
  import opened HexStrings

  const SMALL_DIGITS: string := "0123456789abcdef"
  const CAPITAL_DIGITS: string := "0123456789ABCDEF"

  const SMALL: string := "abcdefghijklmnopqrstuvwxyz"
  const CAPITAL: string := "ABCDEFGHIJKLMNOPQRSTUVWXYZ"

  // ------------------------------------------------------------------------------ digits

  lemma DigitTable(d: nat)
    requires d < 16
    ensures SMALL_DIGITS[d] as int == if d < 10 then 48 + d else 87 + d
    ensures CAPITAL_DIGITS[d] as int == if d < 10 then 48 + d else 55 + d
  {
    assert d == 0 || d == 1 || d == 2 || d == 3 || d == 4 || d == 5 || d == 6 || d == 7
           || d == 8 || d == 9 || d == 10 || d == 11 || d == 12 || d == 13 || d == 14 || d == 15;
  }

  /** The sixteen digits in either letter case are digits, and nothing else; each counts for its place. */
  lemma HexDigitsExactly(c: char, d: nat)
    ensures IsHexDigit(c) && HexDigit(c) == d <==> d < 16 && (c == SMALL_DIGITS[d] || c == CAPITAL_DIGITS[d])
  {
    if d < 16 {
      DigitTable(d);
    }
  }

  /** Of these the first ten are the decimal digits, and both numerals are read by place value. */
  lemma PlaceValue(s: string, c: char, d: nat)
    ensures AllDigits(s) && AllDigits([c]) ==> DecimalValue(s + [c]) == 10 * DecimalValue(s) + DecimalValue([c])
    ensures AllHexDigits(s) && IsHexDigit(c) ==> HexValue(s + [c]) == 16 * HexValue(s) + HexDigit(c)
    ensures AllDigits([c]) && DecimalValue([c]) == d <==> d < 10 && c == SMALL_DIGITS[d]
    ensures DecimalValue("") == 0 && HexValue("") == 0
  {
    if d < 16 {
      DigitTable(d);
    }
    assert (s + [c])[..|s|] == s;
    assert [c][..0] == "" && [c][0] == c;
  }

  // --------------------------------------------------------------------------- letter case

  lemma LetterTable(i: nat)
    requires i < 26
    ensures SMALL[i] as int == 97 + i && CAPITAL[i] as int == 65 + i
  {
    assert i == 0 || i == 1 || i == 2 || i == 3 || i == 4 || i == 5 || i == 6 || i == 7 || i == 8
           || i == 9 || i == 10 || i == 11 || i == 12 || i == 13 || i == 14 || i == 15 || i == 16 || i == 17
           || i == 18 || i == 19 || i == 20 || i == 21 || i == 22 || i == 23 || i == 24 || i == 25;
  }

  /** A capital becomes its small letter, and nothing else changes. */
  lemma ToLowerExactly(c: char)
    ensures forall i | 0 <= i < 26 && c == CAPITAL[i] :: ToLower(c) == SMALL[i]
    ensures c !in CAPITAL ==> ToLower(c) == c
  {
    forall i | 0 <= i < 26 && c == CAPITAL[i]
      ensures ToLower(c) == SMALL[i]
    {
      LetterTable(i);
    }
    if 'A' <= c <= 'Z' {
      var i := c as int - 65;
      LetterTable(i);
      assert CAPITAL[i] in CAPITAL;
    }
  }

  lemma SamePart(s: string, t: string, i: nat, j: nat)
    requires EqIgnoreCase(s, t) && i <= j <= |s|
    ensures EqIgnoreCase(s[i..j], t[i..j])
  {
    forall k | 0 <= k < j - i
      ensures ToLower(s[i..j][k]) == ToLower(t[i..j][k])
    {
      assert ToLower(s[i + k]) == ToLower(t[i + k]);
    }
  }

  /** Letter case makes no difference to what kind of character it is. */
  lemma CaselessKinds(a: char, b: char)
    requires ToLower(a) == ToLower(b)
    ensures IsWhitespace(a) <==> IsWhitespace(b)
    ensures IsDigit(a) || a == '.' || a == '+' || a == '-' ==> a == b
    ensures (a == 'p' || a == 'P') <==> (b == 'p' || b == 'P')
    ensures (a == 'x' || a == 'X') <==> (b == 'x' || b == 'X')
    ensures IsHexDigit(a) <==> IsHexDigit(b)
    ensures IsHexDigit(a) ==> HexDigit(a) == HexDigit(b)
  {
  }

  lemma {:induction false} CaselessTrimStart(s: string, t: string)
    requires EqIgnoreCase(s, t)
    ensures EqIgnoreCase(TrimStart(s), TrimStart(t))
  {
    if s != "" {
      CaselessKinds(s[0], t[0]);
      SamePart(s, t, 1, |s|);
      CaselessTrimStart(s[1..], t[1..]);
    }
  }

  lemma {:induction false} CaselessTrimEnd(s: string, t: string)
    requires EqIgnoreCase(s, t)
    ensures EqIgnoreCase(TrimEnd(s), TrimEnd(t))
  {
    if s != "" {
      CaselessKinds(s[|s| - 1], t[|s| - 1]);
      SamePart(s, t, 0, |s| - 1);
      CaselessTrimEnd(s[..|s| - 1], t[..|t| - 1]);
    }
  }

  lemma {:induction false} CaselessFind(s: string, t: string, a: char, b: char)
    requires EqIgnoreCase(s, t) && ((a == 'p' && b == 'P') || (a == '.' && b == '.'))
    ensures Find(s, a, b) == Find(t, a, b)
  {
    if s != "" {
      CaselessKinds(s[0], t[0]);
      CaselessKinds(t[0], s[0]);
      SamePart(s, t, 1, |s|);
      CaselessFind(s[1..], t[1..], a, b);
    }
  }

  lemma CaselessStrip(s: string, t: string)
    requires EqIgnoreCase(s, t)
    ensures EqIgnoreCase(StripSign(s), StripSign(t)) && EqIgnoreCase(StripPrefix(s), StripPrefix(t))
    ensures (s != "" && s[0] == '-') <==> (t != "" && t[0] == '-')
  {
    if s != "" {
      CaselessKinds(s[0], t[0]);
      CaselessKinds(t[0], s[0]);
      SamePart(s, t, 1, |s|);
    }
    if |s| >= 2 {
      CaselessKinds(s[1], t[1]);
      SamePart(s, t, 2, |s|);
    }
  }

  lemma CaselessDigits(s: string, t: string)
    requires EqIgnoreCase(s, t)
    ensures AllDigits(s) ==> s == t
    ensures AllHexDigits(s) <==> AllHexDigits(t)
  {
    forall i | 0 <= i < |s|
      ensures IsDigit(s[i]) ==> s[i] == t[i]
      ensures IsHexDigit(s[i]) <==> IsHexDigit(t[i])
    {
      CaselessKinds(s[i], t[i]);
    }
  }

  lemma CaselessExponent(s: string, t: string)
    requires EqIgnoreCase(s, t)
    ensures ParseI64(s) == ParseI64(t)
  {
    CaselessStrip(s, t);
    CaselessDigits(StripSign(s), StripSign(t));
    CaselessDigits(StripSign(t), StripSign(s));
  }

  lemma {:induction false} CaselessValue(s: string, t: string)
    requires EqIgnoreCase(s, t) && AllHexDigits(s) && AllHexDigits(t)
    ensures HexValue(s) == HexValue(t)
  {
    if s != "" {
      CaselessKinds(s[|s| - 1], t[|s| - 1]);
      SamePart(s, t, 0, |s| - 1);
      CaselessValue(s[..|s| - 1], t[..|t| - 1]);
    }
  }

  /** Literals that differ in the letter case of their digits only. */
  predicate SameLiteral(g: Option<HexLiteral>, h: Option<HexLiteral>) {
    if g.None? || h.None? then g == h
    else
      && g.value.neg == h.value.neg && g.value.binExp == h.value.binExp
      && EqIgnoreCase(g.value.intHex, h.value.intHex) && EqIgnoreCase(g.value.fracHex, h.value.fracHex)
  }

  lemma CaselessSplit(s: string, t: string)
    requires EqIgnoreCase(s, t)
    ensures EqIgnoreCase(SplitAtPoint(s).0, SplitAtPoint(t).0) && EqIgnoreCase(SplitAtPoint(s).1, SplitAtPoint(t).1)
  {
    CaselessFind(s, t, '.', '.');
    var dot := Find(s, '.', '.');
    if dot.Some? {
      SamePart(s, t, 0, dot.value);
      SamePart(s, t, dot.value + 1, |s|);
    }
  }

  lemma CaselessBody(neg: bool, s: string, t: string)
    requires EqIgnoreCase(s, t)
    ensures SameLiteral(ParseBody(neg, s), ParseBody(neg, t))
  {
    CaselessFind(s, t, 'p', 'P');
    var p := Find(s, 'p', 'P');
    if p.Some? {
      SamePart(s, t, p.value + 1, |s|);
      SamePart(s, t, 0, p.value);
      CaselessExponent(s[p.value + 1..], t[p.value + 1..]);
      CaselessSplit(s[..p.value], t[..p.value]);
      CaselessDigits(SplitAtPoint(s[..p.value]).0, SplitAtPoint(t[..p.value]).0);
      CaselessDigits(SplitAtPoint(s[..p.value]).1, SplitAtPoint(t[..p.value]).1);
    }
  }

  lemma CaselessParse(s: string, t: string)
    requires EqIgnoreCase(s, t)
    ensures SameLiteral(ParseHex(s), ParseHex(t))
  {
    CaselessStrip(s, t);
    CaselessStrip(StripSign(s), StripSign(t));
    CaselessBody(s != "" && s[0] == '-', StripPrefix(StripSign(s)), StripPrefix(StripSign(t)));
  }

  lemma CaselessMantissa(g: HexLiteral, h: HexLiteral)
    requires g.Valid() && h.Valid() && SameLiteral(Some(g), Some(h))
    ensures Mantissa(g) == Mantissa(h) && |g.fracHex| == |h.fracHex|
  {
    var a, b := g.intHex + g.fracHex, h.intHex + h.fracHex;
    forall i | 0 <= i < |a|
      ensures ToLower(a[i]) == ToLower(b[i])
    {
      if i < |g.intHex| {
        assert ToLower(g.intHex[i]) == ToLower(h.intHex[i]);
      } else {
        assert ToLower(g.fracHex[i - |g.intHex|]) == ToLower(h.fracHex[i - |g.intHex|]);
      }
    }
    CaselessValue(a, b);
  }

  lemma CaselessName(s: string, t: string)
    requires EqIgnoreCase(s, t)
    ensures SpecialName(s) == SpecialName(t)
  {
    forall name: string
      ensures EqIgnoreCase(s, name) <==> EqIgnoreCase(t, name)
    {
    }
  }

  /** `fromhex` does not depend on letter case: digits, prefix, exponent mark and names. */
  lemma FromHexIgnoresCase(s: string, t: string)
    requires EqIgnoreCase(s, t)
    ensures FromHex(s) == FromHex(t)
  {
    CaselessTrimStart(s, t);
    CaselessTrimEnd(TrimStart(s), TrimStart(t));
    CaselessName(Trim(s), Trim(t));
    CaselessParse(Trim(s), Trim(t));
    if ParseHex(Trim(s)).Some? {
      CaselessMantissa(ParseHex(Trim(s)).value, ParseHex(Trim(t)).value);
    }
  }

  // --------------------------------------------------------------- white space and names

  const WHITE_SPACE: string :=
    "\U{0009}\U{000A}\U{000B}\U{000C}\U{000D}\U{0020}\U{0085}\U{00A0}\U{1680}"
    + "\U{2000}\U{2001}\U{2002}\U{2003}\U{2004}\U{2005}\U{2006}\U{2007}\U{2008}\U{2009}\U{200A}"
    + "\U{2028}\U{2029}\U{202F}\U{205F}\U{3000}"

  /** The characters of the Unicode property White_Space, and no others. */
  lemma WhitespaceExactly(c: char)
    ensures IsWhitespace(c) <==> c in WHITE_SPACE
  {
  }

  predicate AllWhitespace(s: string) {
    forall i | 0 <= i < |s| :: IsWhitespace(s[i])
  }

  lemma {:induction false} TrimStartExactly(s: string) returns (before: string)
    ensures s == before + TrimStart(s) && AllWhitespace(before)
    ensures TrimStart(s) != "" ==> !IsWhitespace(TrimStart(s)[0])
  {
    before := "";
    if s != "" && IsWhitespace(s[0]) {
      var rest := TrimStartExactly(s[1..]);
      before := [s[0]] + rest;
      assert s == [s[0]] + s[1..];
    }
  }

  lemma {:induction false} TrimEndExactly(s: string) returns (after: string)
    ensures s == TrimEnd(s) + after && AllWhitespace(after)
    ensures TrimEnd(s) != "" ==> TrimEnd(s)[0] == s[0] && !IsWhitespace(TrimEnd(s)[|TrimEnd(s)| - 1])
  {
    after := "";
    if s != "" && IsWhitespace(s[|s| - 1]) {
      var rest := TrimEndExactly(s[..|s| - 1]);
      after := rest + [s[|s| - 1]];
      assert s == s[..|s| - 1] + [s[|s| - 1]];
    }
  }

  /** Trimming takes white space off both ends, and all of it. */
  lemma TrimExactly(s: string) returns (before: string, after: string)
    ensures s == before + Trim(s) + after && AllWhitespace(before) && AllWhitespace(after)
    ensures Trim(s) != "" ==> !IsWhitespace(Trim(s)[0]) && !IsWhitespace(Trim(s)[|Trim(s)| - 1])
  {
    before := TrimStartExactly(s);
    after := TrimEndExactly(TrimStart(s));
  }

  /** `t` is `sign` and then a name of three letters, each small or capital. */
  predicate Names(t: string, sign: string, small: string, capital: string) {
    && |t| == |sign| + |small| && |small| == |capital| && t[..|sign|] == sign
    && forall i | 0 <= i < |small| :: t[|sign| + i] == small[i] || t[|sign| + i] == capital[i]
  }

  lemma SameSmall(a: char, small: char)
    requires ToLower(a) == small && 'a' <= small <= 'z'
    ensures a == small || a as int == small as int - 32
  {
  }

  predicate IsName(sign: string, small: string, capital: string) {
    && (sign == "" || sign == "+" || sign == "-")
    && |small| == |capital| == 3
    && forall i | 0 <= i < 3 :: 'a' <= small[i] <= 'z' && capital[i] as int == small[i] as int - 32
  }

  lemma NamedIsNames(t: string, sign: string, small: string, capital: string)
    requires IsName(sign, small, capital) && EqIgnoreCase(t, sign + small)
    ensures Names(t, sign, small, capital)
  {
    var whole := sign + small;
    forall i | 0 <= i < 3
      ensures t[|sign| + i] == small[i] || t[|sign| + i] == capital[i]
    {
      assert whole[|sign| + i] == small[i];
      SameSmall(t[|sign| + i], small[i]);
    }
    if sign != "" {
      assert whole[0] == sign[0] && ToLower(t[0]) == ToLower(sign[0]);
      CaselessKinds(sign[0], t[0]);
    }
  }

  lemma NamesIsNamed(t: string, sign: string, small: string, capital: string)
    requires IsName(sign, small, capital) && Names(t, sign, small, capital)
    ensures EqIgnoreCase(t, sign + small)
  {
    var whole := sign + small;
    forall i | 0 <= i < |t|
      ensures ToLower(t[i]) == ToLower(whole[i])
    {
      if i < |sign| {
        assert t[i] == t[..|sign|][i] == whole[i];
      } else {
        var k := i - |sign|;
        assert whole[i] == small[k] && t[|sign| + k] == t[i];
      }
    }
  }

  lemma NamesExactly(t: string, sign: string, small: string, capital: string)
    requires IsName(sign, small, capital)
    ensures EqIgnoreCase(t, sign + small) <==> Names(t, sign, small, capital)
  {
    if EqIgnoreCase(t, sign + small) {
      NamedIsNames(t, sign, small, capital);
    }
    if Names(t, sign, small, capital) {
      NamesIsNamed(t, sign, small, capital);
    }
  }

  /** Which strings are the infinities and nan. */
  lemma SpecialNamesExactly(t: string)
    ensures SpecialName(t) == Some(POSITIVE_INFINITY) <==> Names(t, "", "inf", "INF") || Names(t, "+", "inf", "INF")
    ensures SpecialName(t) == Some(NEGATIVE_INFINITY) <==> Names(t, "-", "inf", "INF")
    ensures SpecialName(t) == Some(QUIET_NAN)
            <==> Names(t, "", "nan", "NAN") || Names(t, "+", "nan", "NAN") || Names(t, "-", "nan", "NAN")
    ensures SpecialName(t).Some? ==> SpecialName(t).value in {POSITIVE_INFINITY, NEGATIVE_INFINITY, QUIET_NAN}
  {
    assert "" + "inf" == "inf" && "" + "nan" == "nan";
    assert "+" + "inf" == "+inf" && "-" + "inf" == "-inf" && "+" + "nan" == "+nan" && "-" + "nan" == "-nan";
    NamesExactly(t, "", "inf", "INF");
    NamesExactly(t, "+", "inf", "INF");
    NamesExactly(t, "-", "inf", "INF");
    NamesExactly(t, "", "nan", "NAN");
    NamesExactly(t, "+", "nan", "NAN");
    NamesExactly(t, "-", "nan", "NAN");
    DifferentNames(t);
  }

  lemma SpecialBits()
    ensures IsInfinite(POSITIVE_INFINITY) && !SignBit(POSITIVE_INFINITY)
    ensures IsInfinite(NEGATIVE_INFINITY) && SignBit(NEGATIVE_INFINITY)
    ensures IsNan(QUIET_NAN)
  {
  }

  lemma DifferentNames(t: string)
    ensures Names(t, "", "inf", "INF") || Names(t, "+", "inf", "INF") ==> !Names(t, "-", "inf", "INF")
    ensures Names(t, "", "nan", "NAN") ==> !Names(t, "", "inf", "INF")
    ensures Names(t, "+", "nan", "NAN") ==> !Names(t, "+", "inf", "INF") && !Names(t, "-", "inf", "INF")
    ensures Names(t, "-", "nan", "NAN") ==> !Names(t, "+", "inf", "INF") && !Names(t, "-", "inf", "INF")
  {
    NameStarts(t, "", "inf", "INF");
    NameStarts(t, "+", "inf", "INF");
    NameStarts(t, "-", "inf", "INF");
    NameStarts(t, "", "nan", "NAN");
    NameStarts(t, "+", "nan", "NAN");
    NameStarts(t, "-", "nan", "NAN");
  }

  lemma NameStarts(t: string, sign: string, small: string, capital: string)
    requires |small| == 3
    ensures Names(t, sign, small, capital) ==>
              |t| == |sign| + 3 && t[..|sign|] == sign && (t[|sign|] == small[0] || t[|sign|] == capital[0])
    ensures Names(t, sign, small, capital) && sign != "" ==> t[0] == sign[0]
  {
    if Names(t, sign, small, capital) {
      assert t[|sign| + 0] == small[0] || t[|sign| + 0] == capital[0];
      if sign != "" {
        assert t[..|sign|][0] == sign[0];
      }
    }
  }

  // ------------------------------------------------------------------------ the printed text

  /** Decimal digits with no idle zero in front. */
  predicate PlainDecimal(s: string) {
    s != "" && AllDigits(s) && (s[0] == '0' ==> s == "0")
  }

  lemma {:induction false} DecimalIsPlain(n: nat)
    ensures PlainDecimal(Decimal(n)) && (Decimal(n)[0] == '0' ==> n == 0)
  {
    if n >= 10 {
      DecimalIsPlain(n / 10);
    }
  }

  lemma {:induction false} HexPadIsSmall(n: nat, w: nat)
    ensures forall i | 0 <= i < w :: HexPad(n, w)[i] in SMALL_DIGITS
  {
    if w != 0 {
      HexPadIsSmall(n / 16, w - 1);
      DigitTable(n % 16);
      assert HexChar(n % 16) == SMALL_DIGITS[n % 16];
    }
  }

  /**
   The printed text of a finite double, character by character: sign, `0x`, a leading one or zero, the point,
   thirteen small digits (a single zero for a zero), `p`, the exponent's sign always, and plain decimal digits.
   */
  lemma PrintedForm(b: Bits64) returns (frac: string, digits: string)
    requires IsFinite(b)
    ensures FloatToHex(b)
            == (if SignBit(b) then "-" else "")
               + ((if ExponentField(b) == 0 then "0x0." else "0x1.") + frac + "p"
                  + ((if ExponentField(b) < 1023 && !IsZero(b) then "-" else "+") + digits))
    ensures PlainDecimal(digits)
    ensures if IsZero(b) then frac == "0" && digits == "0"
            else |frac| == 13 && forall i | 0 <= i < 13 :: frac[i] in SMALL_DIGITS
  {
    if IsZero(b) {
      frac, digits := "0", "0";
      assert "+" + "0" == "+0";
      TextForm(SignBit(b), '0', frac, "+0");
    } else {
      frac := HexPad(Fraction(b), 13);
      HexPadIsSmall(Fraction(b), 13);
      digits := PrintedExponent(b);
      TextForm(SignBit(b), if ExponentField(b) == 0 then '0' else '1', frac,
               (if ExponentField(b) < 1023 then "-" else "+") + digits);
    }
  }

  lemma TextForm(neg: bool, lead: char, frac: string, exponent: string)
    requires lead == '0' || lead == '1'
    ensures HexText(neg, lead, frac, exponent)
            == (if neg then "-" else "") + ((if lead == '0' then "0x0." else "0x1.") + frac + "p" + exponent)
  {
    var start := if lead == '0' then "0x0." else "0x1.";
    assert start == "0x" + [lead] + ".";
    assert "0x" + (([lead] + "." + frac) + ("p" + exponent)) == start + frac + "p" + exponent;
    var unsigned := start + frac + "p" + exponent;
    assert "" + unsigned == unsigned;
  }

  lemma PrintedExponent(b: Bits64) returns (digits: string)
    requires IsFinite(b) && !IsZero(b)
    ensures PlainDecimal(digits)
    ensures (if ExponentField(b) == 0 then "-1022" else ExponentText(ExponentField(b) - 1023))
            == (if ExponentField(b) < 1023 then "-" else "+") + digits
  {
    if ExponentField(b) == 0 {
      digits := "1022";
      assert "-" + "1022" == "-1022";
    } else {
      var e := ExponentField(b) - 1023;
      DecimalIsPlain(if e < 0 then -e else e);
      digits := Decimal(if e < 0 then -e else e);
    }
  }

  /** Infinities and nan are printed by name, small, with a sign only on the negative infinity. */
  lemma PrintedNames(b: Bits64)
    requires !IsFinite(b)
    ensures FloatToHex(b) == if IsNan(b) then "nan" else if SignBit(b) then "-inf" else "inf"
    ensures FromHex(FloatToHex(b)).Float?
    ensures IsNan(b) ==> IsNan(FromHex(FloatToHex(b)).bits)
  {
    var t := FloatToHex(b);
    NothingToTrim(t);
    SpecialNamesExactly(t);
    SpecialBits();
  }
}
