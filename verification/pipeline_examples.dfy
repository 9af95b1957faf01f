/** The formatter on the renderings its unit tests fix. */
module FormatterExamples {
  import opened Text
  import opened Failures
  import opened Terms
  import opened Formatter

  lemma QuadraticBodies()
    ensures Body(Term(2, 2)) == "2*x^2"
    ensures Body(Term(1, 3)) == "3*x"
    ensures Body(Term(0, -5)) == "5"
    ensures Body(Term(2, -1)) == "x^2"
    ensures Body(Term(1, 2)) == "2*x"
    ensures Body(Term(0, -1)) == "1"
    ensures Body(Term(3, 1)) == "x^3"
  {
  }

  lemma FormatQuadratic()
    ensures Format([Term(2, 2), Term(1, 3), Term(0, -5)]) == Ok("2*x^2 + 3*x - 5")
  {
    var p := [Term(2, 2), Term(1, 3), Term(0, -5)];
    QuadraticBodies();
    FormatShape(p);
    assert p[1..] == [Term(1, 3), Term(0, -5)];
    assert p[1..][1..] == [Term(0, -5)];
    assert Render([Term(0, -5)]) == " - 5" + Render([]);
    assert Render(p[1..]) == " + 3*x" + " - 5";
    assert Format(p).Ok?;
    assert "2*x^2" + (" + 3*x" + " - 5") == "2*x^2 + 3*x - 5";
  }

  lemma FormatNegativeLead()
    ensures Format([Term(2, -1), Term(1, 2), Term(0, -1)]) == Ok("-x^2 + 2*x - 1")
  {
    var p := [Term(2, -1), Term(1, 2), Term(0, -1)];
    QuadraticBodies();
    FormatShape(p);
    assert p[1..] == [Term(1, 2), Term(0, -1)];
    assert p[1..][1..] == [Term(0, -1)];
    assert Render([Term(0, -1)]) == " - 1" + Render([]);
    assert Render(p[1..]) == " + 2*x" + " - 1";
    assert Format(p).Ok?;
    assert "-" + ("x^2" + (" + 2*x" + " - 1")) == "-x^2 + 2*x - 1";
  }

  lemma FormatCube()
    ensures Format([Term(3, 1)]) == Ok("x^3")
  {
    var p := [Term(3, 1)];
    QuadraticBodies();
    FormatShape(p);
    assert p[1..] == [];
    assert Format(p).Ok?;
    assert "x^3" + "" == "x^3";
  }
}

/** Cached error strings from the processor's and the handler's tests. */
module CodecExamples {
  import opened Text
  import opened ErrorCodes
  import opened Failures
  import opened ErrorCodec

  lemma EncodeExamples()
    ensures Encode(Failure(UnsupportedPolynomialType, [])) == "1"
    ensures Encode(Failure(ImpossibleToParseCoefficient, ["+2*2"])) == "3 +2*2"
    ensures Encode(Failure(ImpossibleToParseDegree, ["+x^2*2"])) == "5 +x^2*2"
  {
    assert DecimalString(3) == "3";
    assert DecimalString(5) == "5";
  }

  /** `"1"` is a code alone, and `"5 +x^2*2"` a code with one parameter. */
  lemma DecodeExamples()
    ensures Decode("1") == Some(Failure(UnsupportedPolynomialType, []))
    ensures Decode("5 +x^2*2") == Some(Failure(ImpossibleToParseDegree, ["+x^2*2"]))
  {
    EncodeExamples();
    DecodeEncode(Failure(UnsupportedPolynomialType, []));
    assert ' ' !in "+x^2*2";
    DecodeEncode(Failure(ImpossibleToParseDegree, ["+x^2*2"]));
  }

  /** Texts without a leading integer cannot be replayed. */
  lemma DecodeMalformed()
    ensures Decode("") == None
    ensures Decode("abc") == None
  {
    assert Split("", " ") == [""];
    assert !IsDigit("abc"[0]);
    SplitWithoutDelimiter("abc", " ");
  }
}

/** Requests from the integration tests through the web layer. */
module HandlerExamples {
  import opened Text
  import opened ErrorCodes
  import opened Failures
  import opened Parser
  import opened ErrorCodec
  import opened Processor
  import opened ExceptionHandler
  import ParserExamples
  import CodecExamples

  /** `2*2` is answered with code 3 and cached as `"3 +2*2"`. */
  lemma RejectedSimplification()
    ensures ServeSimplify(EmptyCache, "2*2") == Served(
      BadRequest(3, Failure(ImpossibleToParseCoefficient, ["+2*2"])),
      Cache(map["2*2" := Failed("3 +2*2")], map[]))
  {
    ParserExamples.ParseDigitProduct('2', '2');
    CodecExamples.EncodeExamples();
  }

  /** An unreadable `x` is answered with code 2 and nothing is stored. */
  lemma RejectedX()
    ensures ServeEvaluate(EmptyCache, "x", "abc") == Served(BadRequest(2, Failure(UnsupportedXType, [])), EmptyCache)
  {
    ParserExamples.ParseXExamples();
  }
}
