/**
 Which strings `float.fromhex` accepts: a grammar of hexadecimal literals, and that the parser accepts
 exactly its sentences.
 */
module HexGrammar {
  import opened Basics
  import opened HexRounding
  import opened HexCorrectness
  import opened HexStrings

  /** The parts of a literal's spelling that its value does not tell. */
  datatype Spelling = Spelling(sign: string, prefix: string, point: string, marker: string, exponent: string)

  /** An optional sign and at least one digit, in the range of a machine word. */
  predicate IsDecimal(s: string, sign: string, digits: string, n: int) {
    && (sign == "" || sign == "+" || sign == "-")
    && digits != "" && AllDigits(digits) && s == sign + digits
    && n == (if sign == "-" then -(DecimalValue(digits) as int) else DecimalValue(digits)) && FitsI64(n)
  }

  ghost predicate Decimal64(s: string, n: int) {
    exists sign, digits :: IsDecimal(s, sign, digits, n)
  }

  /** `[sign] [0x] hexdigits [. hexdigits] p [sign] digits`, with a digit on some side of the point. */
  ghost predicate IsSpelling(t: string, h: HexLiteral, w: Spelling) {
    && (w.sign == "" || w.sign == "+" || w.sign == "-") && (h.neg <==> w.sign == "-")
    && (w.prefix == "" || w.prefix == "0x" || w.prefix == "0X")
    && AllHexDigits(h.intHex) && AllHexDigits(h.fracHex) && (h.intHex != "" || h.fracHex != "")
    && (w.point == "." || (w.point == "" && h.fracHex == ""))
    && (w.marker == "p" || w.marker == "P")
    && Decimal64(w.exponent, h.binExp)
    && t == w.sign + (w.prefix + Body(h, w))
  }

  function Body(h: HexLiteral, w: Spelling): string {
    (h.intHex + w.point + h.fracHex) + w.marker + w.exponent
  }

  ghost predicate Spells(t: string, h: HexLiteral) {
    exists w :: IsSpelling(t, h, w)
  }

  // ------------------------------------------------------------------------ exponents

  lemma DecimalExactly(s: string, n: int)
    ensures ParseI64(s) == Some(n) <==> Decimal64(s, n)
  {
    if ParseI64(s) == Some(n) {
      var digits := StripSign(s);
      var sign := s[..|s| - |digits|];
      assert s == sign + digits;
      assert IsDecimal(s, sign, digits, n);
    }
    if Decimal64(s, n) {
      var sign, digits :| IsDecimal(s, sign, digits, n);
      if sign == "" {
        assert s == digits && IsDigit(s[0]);
      } else {
        assert s[0] == sign[0] && s[1..] == digits;
      }
    }
  }

  // -------------------------------------------------------------------------- the body

  lemma {:induction false} FindNone(s: string, x: char, y: char)
    requires x !in s && y !in s
    ensures Find(s, x, y) == None
  {
    if s != "" {
      FindNone(s[1..], x, y);
    }
  }

  lemma HexHasNoMarks(s: string)
    requires AllHexDigits(s)
    ensures 'p' !in s && 'P' !in s && '.' !in s && 'x' !in s && 'X' !in s && '+' !in s && '-' !in s
  {
  }

  lemma PointExactly(mantissa: string, intHex: string, point: string, fracHex: string)
    requires AllHexDigits(intHex) && AllHexDigits(fracHex)
    requires point == "." || (point == "" && fracHex == "")
    requires mantissa == intHex + point + fracHex
    ensures SplitAtPoint(mantissa) == (intHex, fracHex)
  {
    HexHasNoMarks(intHex);
    if point == "." {
      FindAfter(intHex, '.', fracHex, '.', '.');
      assert mantissa == intHex + ['.'] + fracHex;
      assert mantissa[..|intHex|] == intHex && mantissa[|intHex| + 1..] == fracHex;
    } else {
      assert mantissa == intHex;
      FindNone(mantissa, '.', '.');
    }
  }

  lemma MantissaHasNoMarker(intHex: string, point: string, fracHex: string)
    requires AllHexDigits(intHex) && AllHexDigits(fracHex) && (point == "." || point == "")
    ensures var m := intHex + point + fracHex; 'p' !in m && 'P' !in m
  {
    HexHasNoMarks(intHex);
    HexHasNoMarks(fracHex);
  }

  lemma BodyAccepted(h: HexLiteral, w: Spelling, t: string)
    requires IsSpelling(t, h, w)
    ensures ParseBody(h.neg, Body(h, w)) == Some(h)
  {
    var m := h.intHex + w.point + h.fracHex;
    MantissaHasNoMarker(h.intHex, w.point, h.fracHex);
    FindAfter(m, w.marker[0], w.exponent, 'p', 'P');
    assert Body(h, w) == m + [w.marker[0]] + w.exponent;
    assert Body(h, w)[..|m|] == m && Body(h, w)[|m| + 1..] == w.exponent;
    DecimalExactly(w.exponent, h.binExp);
    PointExactly(m, h.intHex, w.point, h.fracHex);
  }

  /** The first two characters of a body are neither a sign nor the rest of a prefix. */
  lemma BodyStart(h: HexLiteral, w: Spelling, t: string)
    requires IsSpelling(t, h, w)
    ensures var b := Body(h, w); |b| >= 2 && b[0] != '+' && b[0] != '-' && b[1] != 'x' && b[1] != 'X'
  {
    var m := h.intHex + w.point + h.fracHex;
    HexHasNoMarks(h.intHex);
    HexHasNoMarks(h.fracHex);
    assert m != "" && Body(h, w) == m + (w.marker + w.exponent);
    assert Body(h, w)[0] == m[0];
    assert forall i | 0 <= i < |m| :: m[i] in h.intHex || m[i] == '.' || m[i] in h.fracHex;
    if |m| > 1 {
      assert Body(h, w)[1] == m[1];
    } else {
      assert Body(h, w)[1] == w.marker[0];
    }
  }

  lemma Unwrapped(h: HexLiteral, w: Spelling, t: string)
    requires IsSpelling(t, h, w)
    ensures StripPrefix(StripSign(t)) == Body(h, w)
    ensures t != "" && (t[0] == '-' <==> h.neg)
  {
    BodyStart(h, w, t);
    var u := w.prefix + Body(h, w);
    assert u[0] == if w.prefix == "" then Body(h, w)[0] else '0';
    if w.sign == "" {
      assert t == u;
    } else {
      assert t[0] == w.sign[0] && t[1..] == u;
    }
    assert StripSign(t) == u;
    if w.prefix == "" {
      assert u == Body(h, w);
    } else {
      assert u[1] == w.prefix[1] && u[2..] == Body(h, w);
    }
  }

  // ------------------------------------------------------------------------ both directions

  /** The parts the parser takes a body into. */
  predicate Parted(rest: string, h: HexLiteral, p: nat) {
    && p < |rest| && (rest[p] == 'p' || rest[p] == 'P')
    && SplitAtPoint(rest[..p]) == (h.intHex, h.fracHex)
    && ParseI64(rest[p + 1..]) == Some(h.binExp)
    && h.Valid() && (h.intHex != "" || h.fracHex != "")
  }

  lemma AcceptedBody(neg: bool, rest: string, h: HexLiteral) returns (p: nat)
    requires ParseBody(neg, rest) == Some(h)
    ensures Parted(rest, h, p) && h.neg == neg
  {
    p := Find(rest, 'p', 'P').value;
  }

  lemma PartsSpell(rest: string, h: HexLiteral, p: nat) returns (w: Spelling)
    requires Parted(rest, h, p)
    ensures rest == Body(h, w) && (w.point == "." || (w.point == "" && h.fracHex == ""))
    ensures (w.marker == "p" || w.marker == "P") && Decimal64(w.exponent, h.binExp)
  {
    var point := PointPart(rest[..p], h.intHex, h.fracHex);
    DecimalExactly(rest[p + 1..], h.binExp);
    w := Spelling("", "", point, [rest[p]], rest[p + 1..]);
    Rejoined(rest, p);
  }

  lemma Rejoined(rest: string, p: nat)
    requires p < |rest|
    ensures rest == rest[..p] + [rest[p]] + rest[p + 1..]
  {
  }

  lemma AcceptedIsSpelled(t: string, h: HexLiteral)
    requires ParseHex(t) == Some(h)
    ensures Spells(t, h)
  {
    var rest := StripPrefix(StripSign(t));
    var p := AcceptedBody(t != "" && t[0] == '-', rest, h);
    var v := PartsSpell(rest, h, p);
    var sign := SignPart(t);
    var prefix := PrefixPart(StripSign(t));
    var w := v.(sign := sign, prefix := prefix);
    assert Body(h, w) == Body(h, v);
    assert IsSpelling(t, h, w);
  }

  lemma SignPart(t: string) returns (sign: string)
    ensures sign == "" || sign == "+" || sign == "-"
    ensures (t != "" && t[0] == '-') <==> sign == "-"
    ensures t == sign + StripSign(t)
  {
    sign := if StripSign(t) == t then "" else [t[0]];
  }

  lemma PrefixPart(u: string) returns (prefix: string)
    ensures prefix == "" || prefix == "0x" || prefix == "0X"
    ensures u == prefix + StripPrefix(u)
  {
    prefix := if StripPrefix(u) == u then "" else [u[0], u[1]];
  }

  lemma PointPart(mantissa: string, intHex: string, fracHex: string) returns (point: string)
    requires SplitAtPoint(mantissa) == (intHex, fracHex)
    ensures point == "." || (point == "" && fracHex == "")
    ensures mantissa == intHex + point + fracHex
  {
    point := if Find(mantissa, '.', '.') == None then "" else ".";
  }

  /** The parser accepts a string as a literal exactly when the string spells it. */
  lemma AcceptedExactly(t: string, h: HexLiteral)
    ensures ParseHex(t) == Some(h) <==> Spells(t, h)
  {
    if ParseHex(t) == Some(h) {
      AcceptedIsSpelled(t, h);
    }
    if Spells(t, h) {
      var w :| IsSpelling(t, h, w);
      BodyAccepted(h, w, t);
      Unwrapped(h, w, t);
    }
  }

  lemma RefusedByParser(s: string)
    ensures FromHex(s) == ValueError <==> SpecialName(Trim(s)) == None && ParseHex(Trim(s)) == None
  {
    if ParseHex(Trim(s)).Some? {
      NeverRefused(ParseHex(Trim(s)).value);
    }
  }

  lemma NeverRefused(h: HexLiteral)
    requires h.Valid()
    ensures Assemble(h.neg, Mantissa(h), |h.fracHex|, h.binExp) != ValueError
  {
    if Mantissa(h) > 0 {
      AssembleWraps(h.neg, Mantissa(h), |h.fracHex|, h.binExp);
      RoundTo53Range(Mantissa(h));
    }
  }

  lemma ParsedExactly(t: string)
    ensures ParseHex(t).Some? <==> exists h :: Spells(t, h)
  {
    if ParseHex(t).Some? {
      AcceptedExactly(t, ParseHex(t).value);
    }
    if h :| Spells(t, h) {
      AcceptedExactly(t, h);
    }
  }

  /** `fromhex` raises `ValueError` exactly on strings that, trimmed, name no special value and spell no literal. */
  lemma RejectedExactly(s: string)
    ensures FromHex(s) == ValueError <==> SpecialName(Trim(s)) == None && !exists h :: Spells(Trim(s), h)
  {
    RefusedByParser(s);
    ParsedExactly(Trim(s));
  }
}
