/** A request whose simplified text no longer fits the parser's nine-digit rule:
    the source's evaluation of it from a cached text fails, while a fresh
    evaluation, and the corrected pipeline, answer with its value. */
module EvaluationFinding {
  import opened Text
  import opened ErrorCodes
  import opened Failures
  import opened Terms
  import opened Polynomials
  import opened Parser
  import opened Formatter
  import opened RoundTrip
  import opened ErrorCodec
  import opened Processor
  import opened ExceptionHandler

  /** The request `999999999 + 1` and the x `0`. */
  const Request: string := "999999999 + 1"
  const Summands: seq<Term> := [Term(0, 999_999_999), Term(0, 1)]
  const Sum: seq<Term> := [Term(0, 1_000_000_000)]

  lemma NineNines()
    ensures DecimalString(999_999_999) == "999999999"
  {
    assert DecimalString(9) == "9";
    assert DecimalString(99) == "99";
    assert DecimalString(999) == "999";
    assert DecimalString(9_999) == "9999";
    assert DecimalString(99_999) == "99999";
    assert DecimalString(999_999) == "999999";
    assert DecimalString(9_999_999) == "9999999";
    assert DecimalString(99_999_999) == "99999999";
  }

  lemma OneBillion()
    ensures DecimalString(1_000_000_000) == "1000000000"
  {
    assert DecimalString(1) == "1";
    assert DecimalString(10) == "10";
    assert DecimalString(100) == "100";
    assert DecimalString(1_000) == "1000";
    assert DecimalString(10_000) == "10000";
    assert DecimalString(100_000) == "100000";
    assert DecimalString(1_000_000) == "1000000";
    assert DecimalString(10_000_000) == "10000000";
    assert DecimalString(100_000_000) == "100000000";
  }

  /** The request is the formatter's text of its two summands. */
  lemma RequestIsFormatted()
    ensures Format(Summands) == Ok(Request)
  {
    NineNines();
    FormatShape(Summands);
    assert Body(Summands[0]) == "999999999";
    assert Summands[1..] == [Term(0, 1)];
    assert Body(Term(0, 1)) == "1";
    assert TermText(Term(0, 1)) == " + 1";
    assert Render([Term(0, 1)]) == " + 1" + Render([]);
    assert Render([Term(0, 1)]) == " + 1";
    assert Format(Summands).value == "999999999" + " + 1";
    assert Format(Summands).Ok?;
    assert "999999999" + " + 1" == Request;
  }

  lemma SumSimplified()
    ensures Simplify(Summands) == Sum
  {
    assert Merge([], Summands[0]) == [Summands[0]];
    assert MergeAll([], Summands) == MergeAll([Summands[0]], [Summands[1]]);
    assert Merge([Summands[0]], Summands[1]) == Sum;
  }

  /** A positive constant other than 1 is formatted as its bare digits. */
  lemma ConstantFormat(c: int)
    requires c > 1
    ensures Format([Term(0, c)]) == Ok(DecimalString(c))
  {
    var p := [Term(0, c)];
    FormatShape(p);
    assert Body(p[0]) == DecimalString(c);
    assert p[1..] == [];
    assert Render(p[1..]) == "";
    assert Body(p[0]) + Render(p[1..]) == DecimalString(c);
    assert Format(p).Ok?;
  }

  lemma SumText()
    ensures Format(Sum) == Ok("1000000000")
  {
    ConstantFormat(1_000_000_000);
    OneBillion();
  }

  /** Ten or more digits are one token whose coefficient does not fit the nine-digit
      literal: the parser rejects the text and names the signed token. */
  lemma LongDigitsRejected(d: string)
    requires AllDigits(d) && |d| >= 10
    ensures ParsePolynomial(d) == Raised(Failure(ImpossibleToParseCoefficient, ["+" + d]), Some(d))
  {
    assert ' ' !in d by { assert forall i :: 0 <= i < |d| ==> IsDigit(d[i]); }
    StripSpacesNoSpace(d);
    assert IsSimple(d);
    var t := "+" + d;
    assert AddSilentSign(d) == t;
    assert forall j :: 1 <= j < |t| ==> t[j] == d[j - 1];
    assert IsToken(t);
    assert Concat([t]) == t;
    TokenizeConcat([t]);
    assert 'x' !in t by { assert forall j :: 0 <= j < |t| ==> t[j] != 'x'; }
    assert ParseTerm(t) == Fail(ImpossibleToParseCoefficient, [t]);
    assert ParseTerms([t]) == Fail(ImpossibleToParseCoefficient, [t]);
  }

  lemma SignedBillion()
    ensures "+" + "1000000000" == "+1000000000"
  {
  }

  /** The simplified text has a ten-digit coefficient, which the parser rejects. */
  lemma SumTextRejected()
    ensures ParsePolynomial("1000000000")
      == Raised(Failure(ImpossibleToParseCoefficient, ["+1000000000"]), Some("1000000000"))
  {
    SignedBillion();
    assert AllDigits("1000000000");
    LongDigitsRejected("1000000000");
  }

  /** The request parses back to its two summands. */
  lemma ParseRequest()
    ensures ParsePolynomial(Request) == Ok(Summands)
  {
    RequestIsFormatted();
    assert forall t :: t in Summands ==> Bounded(t);
    FormatThenParse(Summands);
  }

  lemma ParseXZero()
    ensures ParseX("0") == Ok(0)
  {
    assert Unsigned("0") == "0";
    assert DigitsValue("0") == 0;
  }

  /** Computed afresh, the request simplifies to `1000000000`. */
  lemma FreshSimplifyRequest()
    ensures FreshSimplify(Request) == Ok("1000000000")
  {
    ParseRequest();
    SumSimplified();
    SumText();
  }

  /** Computed afresh, the request evaluates to 1000000000 at `x = 0`. */
  lemma FreshEvaluateRequest()
    ensures FreshEvaluate(Request, "0") == Ok(1_000_000_000)
  {
    ParseXZero();
    ParseRequest();
    SumSimplified();
    SumText();
    assert Evaluate(Sum, 0) == 1_000_000_000;
  }

  /** The cache after the request has been simplified once. */
  const Warm: Cache := Cache(map[Request := Simplified("1000000000")], map[])

  lemma WarmConsistent()
    ensures Consistent(Warm)
  {
    FreshSimplifyRequest();
  }

  /** The discrepancy: with the simplified text cached, the source's evaluation
      re-parses `1000000000` and fails on its coefficient, although the cache is
      consistent and a fresh evaluation gives 1000000000. */
  lemma CachedTextDisagrees()
    ensures Consistent(Warm)
    ensures EvaluateRequestAsWritten(Warm, Request, "0").outcome
      == Raised(Failure(ImpossibleToParseCoefficient, ["+1000000000"]), Some("1000000000"))
    ensures FreshEvaluate(Request, "0") == Ok(1_000_000_000)
  {
    WarmConsistent();
    FreshEvaluateRequest();
    ParseXZero();
    SumTextRejected();
  }

  /** The corrected pipeline answers the same request with its value. */
  lemma RepairedAgrees()
    ensures EvaluateRequest(Warm, Request, "0").outcome == Ok(1_000_000_000)
  {
    WarmConsistent();
    FreshEvaluateRequest();
    ParseXZero();
    EvaluateTransparent(Warm, Request, "0");
  }

  lemma CodedBillion()
    ensures "3" + " " + "+1000000000" == "3 +1000000000"
  {
  }

  /** The cached form of the failure on the simplified text. */
  lemma EncodedBillion()
    ensures Encode(Failure(ImpossibleToParseCoefficient, ["+1000000000"])) == "3 +1000000000"
  {
    var t := "+1000000000";
    assert DecimalString(3) == "3";
    assert ["3", t][1..] == [t];
    assert Join(["3", t], " ") == "3" + " " + t;
    CodedBillion();
  }

  /** Through the web layer the client gets code 3 naming `+1000000000`, and the
      failure is cached under the simplified text rather than the request, so a
      later simplification request for `1000000000` replays it. */
  lemma ServedCachedTextDisagrees()
    ensures ServeEvaluate(Warm, Request, "0") == Served(
      BadRequest(3, Failure(ImpossibleToParseCoefficient, ["+1000000000"])),
      Cache(map[Request := Simplified("1000000000"), "1000000000" := Failed("3 +1000000000")], map[]))
  {
    var f := Failure(ImpossibleToParseCoefficient, ["+1000000000"]);
    var o: Outcome<int> := Raised(f, Some("1000000000"));
    CachedTextDisagrees();
    EncodedBillion();
    var step := EvaluateRequestAsWritten(Warm, Request, "0");
    assert step.outcome == o && step.cache == Warm;
    assert Respond(o) == BadRequest(3, f);
    assert RecordFailure(Warm, o) == Warm.(polynomials := Warm.polynomials["1000000000" := Failed("3 +1000000000")]);
  }
}
