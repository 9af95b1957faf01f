/** The formatter and the parser are inverse on what a literal can express: the
    text of a polynomial whose coefficients and degrees fit in nine digits parses
    back to the very same term list. */
module RoundTrip {
  import opened Text
  import opened Failures
  import opened Terms
  import opened Polynomials
  import opened Parser
  import opened Formatter

  function SignChar(t: Term): char {
    if t.coefficient > 0 then '+' else '-'
  }

  /** A term's text once its spaces are removed. */
  function CompactText(t: Term): (r: string)
    ensures IsToken(r) && AllSimpleChars(r)
  {
    SignedBody(SignChar(t), Body(t));
    [SignChar(t)] + Body(t)
  }

  function CompactTexts(p: seq<Term>): (r: seq<string>)
    ensures |r| == |p|
    ensures forall i :: 0 <= i < |p| ==> r[i] == CompactText(p[i])
  {
    if |p| == 0 then [] else [CompactText(p[0])] + CompactTexts(p[1..])
  }

  lemma NoSpaceInBody(t: Term)
    ensures ' ' !in Body(t)
  {
    var b := Body(t);
    assert forall i :: 0 <= i < |b| ==> IsBodyChar(b[i]);
  }

  lemma StripSignText(t: Term)
    ensures StripSpaces(SignText(t)) == [SignChar(t)]
  {
    if t.coefficient > 0 {
      assert StripSpaces(" + ") == "+";
    } else {
      assert StripSpaces(" - ") == "-";
    }
  }

  lemma StripTermText(t: Term)
    ensures StripSpaces(TermText(t)) == CompactText(t)
  {
    StripSpacesAppend(SignText(t), Body(t));
    StripSignText(t);
    NoSpaceInBody(t);
    StripSpacesNoSpace(Body(t));
  }

  /** Removing the spaces of a rendering leaves the compact term texts. */
  lemma {:induction false} StripRender(p: seq<Term>)
    ensures StripSpaces(Render(p)) == Concat(CompactTexts(p))
  {
    if |p| > 0 {
      StripRender(p[1..]);
      StripSpacesAppend(TermText(p[0]), Render(p[1..]));
      StripTermText(p[0]);
      assert CompactTexts(p)[1..] == CompactTexts(p[1..]);
    }
  }

  /** A sign followed by body characters is one token of simple characters. */
  lemma SignedBody(g: char, b: string)
    requires IsSign(g) && AllBodyChars(b)
    ensures IsToken([g] + b) && AllSimpleChars([g] + b)
  {
    var s := [g] + b;
    assert forall j :: 1 <= j < |s| ==> s[j] == b[j - 1];
  }

  lemma CompactTextToken(t: Term)
    ensures IsToken(CompactText(t)) && AllSimpleChars(CompactText(t))
  {
    SignedBody(SignChar(t), Body(t));
  }

  /** The compact texts of a polynomial, glued together: the first term's sign,
      its body, then the later terms. */
  lemma ConcatCompactHead(p: seq<Term>)
    requires |p| > 0
    ensures Concat(CompactTexts(p)) == [SignChar(p[0])] + (Body(p[0]) + Concat(CompactTexts(p[1..])))
  {
    assert CompactTexts(p)[1..] == CompactTexts(p[1..]);
    Associate([SignChar(p[0])], Body(p[0]), Concat(CompactTexts(p[1..])));
  }

  /** Without its spaces, the text of a polynomial led by a positive term starts
      with that term's body. */
  lemma StripFormatPositive(p: seq<Term>)
    requires |p| > 0 && p[0].coefficient > 0
    ensures StripSpaces(Format(p).value) == Body(p[0]) + Concat(CompactTexts(p[1..]))
  {
    FormatShape(p);
    NoSpaceInBody(p[0]);
    StripSpacesAppend(Body(p[0]), Render(p[1..]));
    StripSpacesNoSpace(Body(p[0]));
    StripRender(p[1..]);
  }

  /** Without its spaces, the text of a polynomial led by a negative term is a
      minus followed by that term's body. */
  lemma StripFormatNegative(p: seq<Term>)
    requires |p| > 0 && p[0].coefficient <= 0
    ensures StripSpaces(Format(p).value) == "-" + (Body(p[0]) + Concat(CompactTexts(p[1..])))
  {
    var b := Body(p[0]);
    var rest := Render(p[1..]);
    FormatShape(p);
    NoSpaceInBody(p[0]);
    StripSpacesAppend("-", b + rest);
    assert StripSpaces("-") == "-";
    StripSpacesAppend(b, rest);
    StripSpacesNoSpace(b);
    StripRender(p[1..]);
  }

  /** The compact texts of a polynomial use simple characters only. */
  lemma CompactTextsSimple(p: seq<Term>)
    ensures AllSimpleChars(Concat(CompactTexts(p)))
  {
    forall i | 0 <= i < |CompactTexts(p)| ensures AllSimpleChars(CompactTexts(p)[i]) {
      CompactTextToken(p[i]);
    }
    ConcatSimple(CompactTexts(p));
  }

  lemma SimpleSuffix(c: char, b: string)
    requires AllSimpleChars([c] + b)
    ensures AllSimpleChars(b)
  {
    assert forall i :: 0 <= i < |b| ==> b[i] == ([c] + b)[i + 1];
  }

  /** The formatted text, stripped and re-signed as the parser does, is the
      concatenation of the compact term texts, and is a simple polynomial. */
  lemma StripFormat(p: seq<Term>)
    requires |p| > 0
    ensures IsSimple(StripSpaces(Format(p).value))
    ensures AddSilentSign(StripSpaces(Format(p).value)) == Concat(CompactTexts(p))
  {
    var whole := Concat(CompactTexts(p));
    var b := Body(p[0]);
    var tail := b + Concat(CompactTexts(p[1..]));
    ConcatCompactHead(p);
    CompactTextsSimple(p);
    assert tail[0] == b[0];
    if p[0].coefficient > 0 {
      StripFormatPositive(p);
      assert whole == "+" + tail;
      SimpleSuffix('+', tail);
    } else {
      StripFormatNegative(p);
      assert whole == "-" + tail;
    }
  }

  lemma {:induction false} ConcatSimple(ts: seq<string>)
    requires forall i :: 0 <= i < |ts| ==> AllSimpleChars(ts[i])
    ensures AllSimpleChars(Concat(ts))
  {
    if |ts| > 0 {
      ConcatSimple(ts[1..]);
      var a, b := ts[0], Concat(ts[1..]);
      assert forall i :: 0 <= i < |a + b| ==> (a + b)[i] == if i < |a| then a[i] else b[i - |a|];
    }
  }

  /** The sign and the digits of a literal coefficient read back as that coefficient. */
  lemma ParseSignedDecimal(c: int)
    requires c != 0 && Abs(c) <= MaxLiteral
    ensures ParseCoefficient([if c > 0 then '+' else '-'] + DecimalString(Abs(c))) == Ok(c)
  {
    var digits := DecimalString(Abs(c));
    var s := [if c > 0 then '+' else '-'] + digits;
    DecimalStringLength(Abs(c), 9);
    assert s[1..] == digits;
    assert IsCoefficientLiteral(s);
  }

  lemma DegreeDigits(d: nat)
    requires d <= MaxLiteral
    ensures IsDegreeLiteral(DecimalString(d))
  {
    DecimalStringLength(d, 9);
  }

  lemma NoXInSignedDigits(g: char, digits: string)
    requires AllDigits(digits) && g != 'x'
    ensures 'x' !in [g] + digits
  {
    var s := [g] + digits;
    assert forall i :: 1 <= i < |s| ==> s[i] == digits[i - 1];
  }

  lemma ParseConstantText(t: Term)
    requires Bounded(t) && t.degree == 0
    ensures ParseTerm(CompactText(t)) == Ok(t)
  {
    var digits := DecimalString(Abs(t.coefficient));
    assert Body(t) == digits;
    CompactTextToken(t);
    NoXInSignedDigits(SignChar(t), digits);
    ParseSignedDecimal(t.coefficient);
  }

  lemma ParseUnitLinearText(t: Term)
    requires Bounded(t) && t.degree == 1 && Abs(t.coefficient) == 1
    ensures ParseTerm(CompactText(t)) == Ok(t)
  {
    assert Body(t) == "x";
  }

  /** `[g] + digits + "*" + rest` regrouped so that the signed digits come first. */
  lemma RegroupCoefficient(g: char, digits: string, rest: string)
    ensures [g] + ((digits + "*") + rest) == (([g] + digits) + "*") + rest
  {
    Associate([g], digits + "*", rest);
    Associate([g], digits, "*");
  }

  lemma NoXInDigits(g: char, digits: string)
    requires AllDigits(digits) && g != 'x'
    ensures 'x' !in ([g] + digits) + "*"
  {
    var s := ([g] + digits) + "*";
    assert forall i :: 1 <= i < |s| - 1 ==> s[i] == digits[i - 1];
  }

  /** A token ending in `*x`: the coefficient is read from the text before `*`. */
  lemma ParseTrailingX(s: string, head: string)
    requires s == (head + "*") + "x"
    requires IsToken(s) && 'x' !in head + "*" && |head| >= 2
    requires ParseCoefficient(head).Ok?
    ensures ParseTerm(s) == Ok(Term(1, ParseCoefficient(head).value))
  {
    IndexOfAppend(head + "*", "x", 'x');
    assert IndexOf(s, 'x') == |s| - 1;
    TakePrefix(head, "*" + "x");
    Associate(head, "*", "x");
    assert s[..|s| - 2] == head;
  }

  lemma ParseLinearText(t: Term)
    requires Bounded(t) && t.degree == 1 && Abs(t.coefficient) != 1
    ensures ParseTerm(CompactText(t)) == Ok(t)
  {
    var g := SignChar(t);
    var digits := DecimalString(Abs(t.coefficient));
    var head := [g] + digits;
    assert Body(t) == (digits + "*") + "x";
    RegroupCoefficient(g, digits, "x");
    CompactTextToken(t);
    NoXInDigits(g, digits);
    ParseSignedDecimal(t.coefficient);
    ParseTrailingX(CompactText(t), head);
  }

  lemma ParseUnitPowerText(t: Term)
    requires Bounded(t) && t.degree >= 2 && Abs(t.coefficient) == 1
    ensures ParseTerm(CompactText(t)) == Ok(t)
  {
    var g := SignChar(t);
    var exponent := DecimalString(t.degree);
    assert Body(t) == "x^" + exponent;
    var s := CompactText(t);
    assert s == [g] + "x^" + exponent;
    assert IndexOf(s, 'x') == 1;
    assert s[3..] == exponent;
    DegreeDigits(t.degree);
  }

  /** Where the pieces of `head*x^exponent` sit. */
  lemma InteriorXSlices(head: string, exponent: string)
    ensures var s := (head + "*") + ("x^" + exponent);
      && |s| == |head| + 3 + |exponent|
      && s[|head|] == '*' && s[|head| + 1] == 'x' && s[|head| + 2] == '^'
      && s[|head| + 3..] == exponent && s[..|head|] == head
  {
    var power := "x^" + exponent;
    DropPrefix(head + "*", power);
    DropPrefix("x^", exponent);
    TakePrefix(head, "*" + power);
    Associate(head, "*", power);
  }

  /** A token `head*x^exponent`: the degree is read after `x^` and the coefficient
      from the text before `*`. */
  lemma ParseInteriorX(s: string, head: string, exponent: string)
    requires s == (head + "*") + ("x^" + exponent)
    requires IsToken(s) && 'x' !in head + "*" && |head| >= 2
    requires IsDegreeLiteral(exponent) && |exponent| > 0
    requires ParseCoefficient(head).Ok?
    ensures ParseTerm(s) == Ok(Term(DigitsValue(exponent), ParseCoefficient(head).value))
  {
    var ix := |head| + 1;
    IndexOfAppend(head + "*", "x^" + exponent, 'x');
    InteriorXSlices(head, exponent);
    assert IndexOf(s, 'x') == ix;
    assert ix != 1 && ix != |s| - 1;
    assert ParseDegree(s, ix) == Ok(DigitsValue(exponent));
    assert ParseCoefficientBefore(s, ix) == ParseCoefficient(head);
  }

  lemma ParsePowerText(t: Term)
    requires Bounded(t) && t.degree >= 2 && Abs(t.coefficient) != 1
    ensures ParseTerm(CompactText(t)) == Ok(t)
  {
    var g := SignChar(t);
    var digits := DecimalString(Abs(t.coefficient));
    var exponent := DecimalString(t.degree);
    var power := "x^" + exponent;
    assert Body(t) == (digits + "*") + power;
    RegroupCoefficient(g, digits, power);
    CompactTextToken(t);
    NoXInDigits(g, digits);
    DegreeDigits(t.degree);
    ParseSignedDecimal(t.coefficient);
    ParseInteriorX(CompactText(t), [g] + digits, exponent);
  }

  /** Every term a literal can express is read back from its own text. */
  lemma ParseCompactText(t: Term)
    requires Bounded(t)
    ensures ParseTerm(CompactText(t)) == Ok(t)
  {
    CompactTextToken(t);
    if t.degree == 0 {
      ParseConstantText(t);
    } else if t.degree == 1 && Abs(t.coefficient) == 1 {
      ParseUnitLinearText(t);
    } else if t.degree == 1 {
      ParseLinearText(t);
    } else if Abs(t.coefficient) == 1 {
      ParseUnitPowerText(t);
    } else {
      ParsePowerText(t);
    }
  }

  /** Parsing a formatted polynomial gives back its terms, in order, as long as
      every coefficient and degree fits in nine digits. */
  lemma FormatThenParse(p: seq<Term>)
    requires |p| > 0
    requires forall t :: t in p ==> Bounded(t)
    ensures ParsePolynomial(Format(p).value) == Ok(p)
  {
    var text := Format(p).value;
    var s := StripSpaces(text);
    StripFormat(p);
    var texts := CompactTexts(p);
    forall i | 0 <= i < |texts| ensures IsToken(texts[i]) {
      CompactTextToken(p[i]);
    }
    TokenizeConcat(texts);
    forall i | 0 <= i < |texts| ensures ParseTerm(texts[i]) == Ok(p[i]) {
      assert p[i] in p;
      ParseCompactText(p[i]);
    }
    ParseTermsAllOk(texts, p);
    MakeNoZero(p);
    assert ParseSimple(s) == Ok(p);
  }

  /** A constant beyond nine digits fails the coefficient rule. */
  lemma RejectConstantText(t: Term)
    requires t.degree == 0 && Abs(t.coefficient) > MaxLiteral
    ensures ParseTerm(CompactText(t)).Raised?
  {
    var digits := DecimalString(Abs(t.coefficient));
    DecimalStringLong(Abs(t.coefficient));
    assert Body(t) == digits;
    CompactTextToken(t);
    NoXInSignedDigits(SignChar(t), digits);
    ParseTermConstant(CompactText(t));
  }

  /** A token `head*x` whose head is not a coefficient literal fails on the head. */
  lemma RejectTrailingX(s: string, head: string)
    requires s == (head + "*") + "x"
    requires IsToken(s) && 'x' !in head + "*" && |head| >= 2
    requires !IsCoefficientLiteral(head)
    ensures ParseTerm(s).Raised?
  {
    IndexOfAppend(head + "*", "x", 'x');
    TakePrefix(head, "*" + "x");
    Associate(head, "*", "x");
    assert s[..|s| - 2] == head;
    ParseTermTrailingX(s, |s| - 1);
  }

  /** A linear term with a ten-digit coefficient fails on its coefficient. */
  lemma RejectLinearText(t: Term)
    requires t.degree == 1 && Abs(t.coefficient) > MaxLiteral
    ensures ParseTerm(CompactText(t)).Raised?
  {
    var g := SignChar(t);
    var digits := DecimalString(Abs(t.coefficient));
    DecimalStringLong(Abs(t.coefficient));
    assert Body(t) == (digits + "*") + "x";
    RegroupCoefficient(g, digits, "x");
    CompactTextToken(t);
    NoXInDigits(g, digits);
    RejectTrailingX(CompactText(t), [g] + digits);
  }

  /** `x^` followed by ten digits fails the degree rule. */
  lemma RejectUnitPowerText(t: Term)
    requires t.degree > MaxLiteral && Abs(t.coefficient) == 1
    ensures ParseTerm(CompactText(t)).Raised?
  {
    var exponent := DecimalString(t.degree);
    DecimalStringLong(t.degree);
    assert Body(t) == "x^" + exponent;
    BarePowerSlices(SignChar(t), exponent);
    ParseTermBareX(CompactText(t));
  }

  /** Where the pieces of a sign followed by `x^exponent` sit. */
  lemma BarePowerSlices(g: char, exponent: string)
    ensures var s := [g] + ("x^" + exponent);
      |s| == 3 + |exponent| && s[1] == 'x' && s[2] == '^' && s[3..] == exponent
  {
    DropPrefix([g] + "x^", exponent);
    Associate([g], "x^", exponent);
  }

  /** A token `head*x^exponent` fails when the exponent is not a degree literal,
      or when it is one and the head is not a coefficient literal. */
  lemma RejectInteriorX(s: string, head: string, exponent: string)
    requires s == (head + "*") + ("x^" + exponent)
    requires IsToken(s) && 'x' !in head + "*" && |head| >= 2 && |exponent| > 0
    requires !IsDegreeLiteral(exponent) || !IsCoefficientLiteral(head)
    ensures ParseTerm(s).Raised?
  {
    IndexOfAppend(head + "*", "x^" + exponent, 'x');
    InteriorXSlices(head, exponent);
    ParseTermInteriorX(s, |head| + 1);
  }

  /** A term of degree two or more with a coefficient other than one fails on a
      degree or coefficient too wide for its literal. */
  lemma RejectPowerText(t: Term)
    requires t.degree >= 2 && Abs(t.coefficient) > 1 && !Bounded(t)
    ensures ParseTerm(CompactText(t)).Raised?
  {
    var g := SignChar(t);
    var digits := DecimalString(Abs(t.coefficient));
    var exponent := DecimalString(t.degree);
    var power := "x^" + exponent;
    assert Body(t) == (digits + "*") + power;
    RegroupCoefficient(g, digits, power);
    CompactTextToken(t);
    NoXInDigits(g, digits);
    if t.degree > MaxLiteral {
      DecimalStringLong(t.degree);
    } else {
      DecimalStringLong(Abs(t.coefficient));
    }
    RejectInteriorX(CompactText(t), [g] + digits, exponent);
  }

  /** The text of a term no literal can express is rejected with a typed failure. */
  lemma RejectCompactText(t: Term)
    requires t.coefficient != 0 && !Bounded(t)
    ensures ParseTerm(CompactText(t)).Raised?
  {
    if t.degree == 0 {
      RejectConstantText(t);
    } else if t.degree == 1 {
      RejectLinearText(t);
    } else if Abs(t.coefficient) == 1 {
      RejectUnitPowerText(t);
    } else {
      RejectPowerText(t);
    }
  }

  /** The text of a term is read back exactly when a literal can express the term,
      and is otherwise rejected with a typed failure, never a runtime fault. */
  lemma CompactTextOutcome(t: Term)
    requires t.coefficient != 0
    ensures Bounded(t) ==> ParseTerm(CompactText(t)) == Ok(t)
    ensures !Bounded(t) ==> ParseTerm(CompactText(t)).Raised?
  {
    if Bounded(t) {
      ParseCompactText(t);
    } else {
      RejectCompactText(t);
    }
  }

  /** The text of a polynomial with a term too wide for a literal does not parse
      back: the parser raises a typed failure on it. */
  lemma FormatThenParseRejects(p: seq<Term>)
    requires |p| > 0 && NoZeroTerms(p)
    requires !(forall t :: t in p ==> Bounded(t))
    ensures ParsePolynomial(Format(p).value).Raised?
  {
    var raw := Format(p).value;
    FormattedTokens(p);
    var j :| 0 <= j < |p| && !Bounded(p[j]);
    RejectCompactText(p[j]);
    assert !ParseTerm(CompactTexts(p)[j]).Ok?;
    var k := ParsePolynomialSimpleFailure(raw);
    CompactTextOutcome(p[k]);
  }

  /** The formatted text is a simple polynomial whose tokens are the compact
      texts of the terms. */
  lemma FormattedTokens(p: seq<Term>)
    requires |p| > 0
    ensures IsSimple(StripSpaces(Format(p).value))
    ensures SimpleTokens(StripSpaces(Format(p).value)) == CompactTexts(p)
  {
    StripFormat(p);
    TokenizeConcat(CompactTexts(p));
  }
}
