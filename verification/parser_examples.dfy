/** Space removal on the request text of a parser unit test. */
module TextExamples {
  import opened Text

  /** Spaces between space-free pieces disappear. */
  lemma StripJoinedPieces(a: string, b: string, c: string, d: string)
    requires ' ' !in a && ' ' !in b && ' ' !in c && ' ' !in d
    ensures StripSpaces(a + " " + (b + " " + (c + " " + d))) == a + (b + (c + d))
  {
    StripSpacesNoSpace(d);
    StripSpacesAfter(c, d);
    StripSpacesAfter(b, c + " " + d);
    StripSpacesAfter(a, b + " " + (c + " " + d));
  }

  lemma StripSumExample()
    ensures StripSpaces("2*x^2 + 3*x^2 -5") == "2*x^2+3*x^2-5"
  {
    var a, b, c, d := "2*x^2", "+", "3*x^2", "-5";
    StripJoinedPieces(a, b, c, d);
    assert a + " " + (b + " " + (c + " " + d)) == "2*x^2 + 3*x^2 -5";
    assert a + (b + (c + d)) == "2*x^2+3*x^2-5";
  }
}

/** The parser on the inputs its unit tests use. */
module ParserExamples {
  import TextExamples
  import opened Text
  import opened ErrorCodes
  import opened Failures
  import opened Terms
  import opened Polynomials
  import opened Parser

  /** A simple text with no sign after its first character is one token. */
  lemma SingleToken(s: string)
    requires IsSimple(s) && s[0] != '+'
    requires forall i :: 1 <= i < |s| ==> !IsSign(s[i])
    ensures Tokenize(AddSilentSign(s)) == [AddSilentSign(s)]
  {
    var t := AddSilentSign(s);
    if s[0] != '-' {
      assert forall j :: 1 <= j < |t| ==> t[j] == s[j - 1];
    }
    assert IsToken(t);
    assert Concat([t]) == t;
    TokenizeConcat([t]);
  }

  lemma ParseMissingMultiplySign()
    ensures ParsePolynomial("2x") == Raised(Failure(IncorrectMultiplySignPosition, ["+2x"]), Some("2x"))
  {
    StripSpacesNoSpace("2x");
    assert IsSimple("2x");
    SingleToken("2x");
    assert AddSilentSign("2x") == "+2x";
    assert IndexOf("+2x", 'x') == 2;
    assert ParseTerm("+2x") == Fail(IncorrectMultiplySignPosition, ["+2x"]);
  }

  lemma ParseMissingDegreeSign()
    ensures ParsePolynomial("x2") == Raised(Failure(IncorrectDegreeSignPosition, ["+x2"]), Some("x2"))
  {
    StripSpacesNoSpace("x2");
    assert IsSimple("x2");
    SingleToken("x2");
    assert AddSilentSign("x2") == "+x2";
    assert IndexOf("+x2", 'x') == 1;
    assert ParseTerm("+x2") == Fail(IncorrectDegreeSignPosition, ["+x2"]);
  }

  /** A product of two digits without `x` is not a coefficient literal. */
  lemma ParseDigitProduct(a: char, b: char)
    requires IsDigit(a) && IsDigit(b)
    ensures ParsePolynomial([a, '*', b])
      == Raised(Failure(ImpossibleToParseCoefficient, [['+', a, '*', b]]), Some([a, '*', b]))
  {
    var s := [a, '*', b];
    var t := ['+', a, '*', b];
    StripSpacesNoSpace(s);
    assert IsSimple(s);
    SingleToken(s);
    assert AddSilentSign(s) == t;
    assert IndexOf(t, 'x') == -1;
    assert !IsCoefficientLiteral(t) by { assert !IsDigit(t[1..][1]); }
    assert ParseTerm(t) == Fail(ImpossibleToParseCoefficient, [t]);
  }

  lemma ParseBadCoefficient()
    ensures ParsePolynomial("5*5") == Raised(Failure(ImpossibleToParseCoefficient, ["+5*5"]), Some("5*5"))
  {
    ParseDigitProduct('5', '5');
  }

  lemma ParseBadDegree()
    ensures ParsePolynomial("x^x") == Raised(Failure(ImpossibleToParseDegree, ["+x^x"]), Some("x^x"))
  {
    StripSpacesNoSpace("x^x");
    assert IsSimple("x^x");
    SingleToken("x^x");
    assert AddSilentSign("x^x") == "+x^x";
    assert IndexOf("+x^x", 'x') == 1;
    assert !IsDegreeLiteral("+x^x"[3..]) by { assert "+x^x"[3..][0] == 'x'; }
    assert ParseTerm("+x^x") == Fail(ImpossibleToParseDegree, ["+x^x"]);
  }

  lemma ParseUnsupported()
    ensures ParsePolynomial("abc") == Raised(Failure(UnsupportedPolynomialType, []), Some("abc"))
  {
    StripSpacesNoSpace("abc");
    assert !IsSimpleChar("abc"[0]);
  }

  lemma ParseNegatedX()
    ensures ParsePolynomial("-x") == Ok([Term(1, -1)])
  {
    StripSpacesNoSpace("-x");
    assert IsSimple("-x");
    SingleToken("-x");
    assert AddSilentSign("-x") == "-x";
    assert "-x" == ['-', 'x'];
    assert ParseTerm("-x") == Ok(Term(1, -1));
    assert Make([Term(1, -1)]) == [Term(1, -1)];
  }

  lemma ParseXExamples()
    ensures ParseX("-36") == Ok(-36)
    ensures ParseX("abc") == Fail(UnsupportedXType, [])
  {
    assert Unsigned("-36") == "36";
    assert DigitsValue("36") == 36 by { assert "36"[..1] == "3"; }
    assert !IsXLiteral("abc") by { assert !IsDigit(Unsigned("abc")[0]); }
  }

  lemma TokenizeSumExample()
    ensures Tokenize(AddSilentSign("2*x^2+3*x^2-5")) == ["+2*x^2", "+3*x^2", "-5"]
  {
    var tokens := ["+2*x^2", "+3*x^2", "-5"];
    assert AddSilentSign("2*x^2+3*x^2-5") == Concat(tokens) by {
      assert Concat(tokens[2..]) == "-5";
      assert Concat(tokens[1..]) == "+3*x^2" + "-5";
    }
    assert IsToken(tokens[0]) && IsToken(tokens[1]) && IsToken(tokens[2]);
    TokenizeConcat(tokens);
  }

  lemma SquareTermExample(c: char)
    requires c == '2' || c == '3'
    ensures ParseTerm(['+', c, '*', 'x', '^', '2']) == Ok(Term(2, DigitValue(c)))
  {
    var t := ['+', c, '*', 'x', '^', '2'];
    assert IndexOf(t, 'x') == 3;
    assert t[5..] == "2";
    assert t[..2] == ['+', c];
    assert IsCoefficientLiteral(t[..2]);
  }

  lemma ConstantTermExample()
    ensures ParseTerm("-5") == Ok(Term(0, -5))
  {
    assert IndexOf("-5", 'x') == -1;
    assert "-5"[1..] == "5";
    assert IsCoefficientLiteral("-5");
  }
}
