/** The memoizing request pipeline: a simplification or evaluation request is first
    looked up in two caches, and only computed, then stored, when nothing is found.
    The caches are maps passed in and returned; the parser and mapper calls a
    request makes are returned with it, in order. */
module Processor {
  import opened Text
  import opened ErrorCodes
  import opened Failures
  import opened Terms
  import opened Polynomials
  import opened Parser
  import opened Formatter
  import opened ErrorCodec
  import opened RoundTrip

  /** A stored polynomial request: its simplified text, or the error string of the
      failure parsing it raised. */
  datatype PolynomialRecord = Simplified(text: string) | Failed(errorCode: string)

  /** Polynomial records keyed by the raw request, and evaluation results keyed by
      the raw request and the raw `x`. */
  datatype Cache = Cache(
    polynomials: map<string, PolynomialRecord>,
    evaluations: map<(string, string), int>)

  const EmptyCache: Cache := Cache(map[], map[])

  /** An invocation of the parser or the mapper. */
  datatype Call = ParsePolynomialCall(input: string) | ParseXCall(input: string) | FormatCall

  /** What a request answers, the caches after it, and the calls it made. */
  datatype Step<T> = Step(outcome: Outcome<T>, cache: Cache, calls: seq<Call>)

  /** `rethrowException`: the failure read back from a cached error string, or the
      runtime exception of an unreadable one. A replayed failure names no
      polynomial, so it is never cached again. */
  function Replay<T>(e: string): (r: Outcome<T>)
    ensures !r.Ok?
    ensures r.Raised? ==> r.polynomial == None
    ensures r.Crash? ==> r.fault == MalformedErrorCode
  {
    match Decode(e)
    case Some(f) => Raised(f, None)
    case None => Crash(MalformedErrorCode)
  }

  /** A failure that survives the cache is replayed exactly. */
  lemma ReplayEncoded<T>(f: Failure)
    requires Encodable(f)
    ensures Replay<T>(Encode(f)) == Raised(f, None)
  {
    DecodeEncode(f);
  }

  /** Reference answer to a simplification request when nothing is cached. */
  function FreshSimplify(raw: string): Outcome<string> {
    var p :- ParsePolynomial(raw);
    Format(Simplify(p))
  }

  /** Reference answer to an evaluation request when nothing is cached: `x` is
      read first, then the polynomial, which is simplified and formatted before
      it is evaluated. */
  function FreshEvaluate(raw: string, x: string): Outcome<int> {
    var v :- ParseX(x);
    var p :- ParsePolynomial(raw);
    var q := Simplify(p);
    var text :- Format(q);
    Ok(Evaluate(q, v))
  }

  /** A failure that names a polynomial is the one the parser raises on it. */
  predicate Attributed<T>(o: Outcome<T>) {
    o.Raised? && o.polynomial.Some? ==>
      ParsePolynomial(o.polynomial.value).Raised? &&
      ParsePolynomial(o.polynomial.value).failure == o.failure
  }

  /** A polynomial record agrees with what computing its request afresh gives: a
      text is the fresh simplification, an error string decodes to the failure the
      parser raises. */
  predicate RecordAgrees(k: string, rec: PolynomialRecord) {
    match rec
    case Simplified(text) => FreshSimplify(k) == Ok(text)
    case Failed(e) => ParsePolynomial(k).Raised? && Decode(e) == Some(ParsePolynomial(k).failure)
  }

  /** Every record agrees with its request, and every evaluation result is the
      fresh evaluation. */
  predicate Consistent(c: Cache) {
    && (forall k :: k in c.polynomials ==> RecordAgrees(k, c.polynomials[k]))
    && (forall k :: k in c.evaluations ==> FreshEvaluate(k.0, k.1) == Ok(c.evaluations[k]))
  }

  /** `processSimplification`: parse, simplify, format, and store the text. */
  function ProcessSimplification(c: Cache, raw: string): (r: Step<string>)
    ensures r.outcome == FreshSimplify(raw)
    ensures r.calls == [ParsePolynomialCall(raw)] + (if ParsePolynomial(raw).Ok? then [FormatCall] else [])
    ensures r.outcome.Ok? ==> r.cache == c.(polynomials := c.polynomials[raw := Simplified(r.outcome.value)])
    ensures !r.outcome.Ok? ==> r.cache == c
    ensures Attributed(r.outcome)
  {
    var parsed := ParsePolynomial(raw);
    if !parsed.Ok? then Step(parsed.PropagateFailure(), c, [ParsePolynomialCall(raw)])
    else
      var text := Format(Simplify(parsed.value));
      var calls := [ParsePolynomialCall(raw), FormatCall];
      if !text.Ok? then Step(text, c, calls)
      else Step(text, c.(polynomials := c.polynomials[raw := Simplified(text.value)]), calls)
  }

  /** `simplify`: a cached failure is replayed and a cached text returned as it is,
      neither parsing nor storing anything; otherwise the request is processed. */
  function SimplifyRequest(c: Cache, raw: string): (r: Step<string>)
    ensures raw in c.polynomials ==> r.calls == [] && r.cache == c
    ensures raw in c.polynomials && c.polynomials[raw].Simplified? ==>
      r.outcome == Ok(c.polynomials[raw].text)
    ensures raw in c.polynomials && c.polynomials[raw].Failed? ==>
      r.outcome == Replay(c.polynomials[raw].errorCode)
    ensures raw !in c.polynomials ==> r == ProcessSimplification(c, raw)
    ensures Attributed(r.outcome)
  {
    if raw in c.polynomials then
      match c.polynomials[raw]
      case Failed(e) => Step(Replay(e), c, [])
      case Simplified(s) => Step(Ok(s), c, [])
    else ProcessSimplification(c, raw)
  }

  /** `processEvaluation`: parse the request, simplify, format and evaluate, then
      store both the polynomial record and the evaluation linked to it. */
  function ProcessEvaluation(c: Cache, raw: string, x: string, v: int): (r: Step<int>)
    requires ParseX(x) == Ok(v)
    ensures r.outcome == FreshEvaluate(raw, x)
    ensures r.calls == [ParsePolynomialCall(raw)] + (if ParsePolynomial(raw).Ok? then [FormatCall] else [])
    ensures r.outcome.Ok? ==> r.cache == Cache(
      c.polynomials[raw := Simplified(FreshSimplify(raw).value)],
      c.evaluations[(raw, x) := r.outcome.value])
    ensures !r.outcome.Ok? ==> r.cache == c
    ensures Attributed(r.outcome)
  {
    var parsed := ParsePolynomial(raw);
    if !parsed.Ok? then Step(parsed.PropagateFailure(), c, [ParsePolynomialCall(raw)])
    else
      var q := Simplify(parsed.value);
      var text := Format(q);
      var calls := [ParsePolynomialCall(raw), FormatCall];
      if !text.Ok? then Step(text.PropagateFailure(), c, calls)
      else
        var result := Evaluate(q, v);
        Step(Ok(result), Cache(
          c.polynomials[raw := Simplified(text.value)],
          c.evaluations[(raw, x) := result]), calls)
  }

  /** The cached-text branch of `processEvaluationWithoutCachedX`, corrected: the
      polynomial is read from the request rather than from its cached text, and
      one evaluation record is stored. */
  function EvaluateCached(c: Cache, raw: string, x: string, v: int): (r: Step<int>)
    requires ParseX(x) == Ok(v)
    ensures r.calls == [ParsePolynomialCall(raw)]
    ensures r.outcome.Ok? ==> r.cache == c.(evaluations := c.evaluations[(raw, x) := r.outcome.value])
    ensures !r.outcome.Ok? ==> r.cache == c
    ensures Attributed(r.outcome)
    ensures FreshSimplify(raw).Ok? ==> r.outcome == FreshEvaluate(raw, x)
  {
    var parsed := ParsePolynomial(raw);
    if !parsed.Ok? then Step(parsed.PropagateFailure(), c, [ParsePolynomialCall(raw)])
    else
      var result := Evaluate(Simplify(parsed.value), v);
      Step(Ok(result), c.(evaluations := c.evaluations[(raw, x) := result]), [ParsePolynomialCall(raw)])
  }

  /** `evaluate`: a cached result is returned without parsing anything; otherwise
      a cached polynomial failure is replayed before `x` is read, an unreadable `x`
      fails before the polynomial is read, and the polynomial is taken from the
      cached record when there is one and computed afresh when there is not. */
  function EvaluateRequest(c: Cache, raw: string, x: string): (r: Step<int>)
    ensures (raw, x) in c.evaluations ==> r == Step(Ok(c.evaluations[(raw, x)]), c, [])
    ensures (raw, x) !in c.evaluations && raw in c.polynomials && c.polynomials[raw].Failed? ==>
      r == Step(Replay(c.polynomials[raw].errorCode), c, [])
    ensures (raw, x) !in c.evaluations && !(raw in c.polynomials && c.polynomials[raw].Failed?) ==>
      |r.calls| > 0 && r.calls[0] == ParseXCall(x)
    ensures ((raw, x) !in c.evaluations && !(raw in c.polynomials && c.polynomials[raw].Failed?)
      && !ParseX(x).Ok?) ==> r == Step(Fail(UnsupportedXType, []), c, [ParseXCall(x)])
    ensures ((raw, x) !in c.evaluations && raw in c.polynomials && c.polynomials[raw].Simplified?
      && ParseX(x).Ok?) ==> r.calls == [ParseXCall(x), ParsePolynomialCall(raw)]
    ensures (raw, x) !in c.evaluations && raw !in c.polynomials ==> r.outcome == FreshEvaluate(raw, x)
    ensures forall k :: k in r.cache.polynomials && k != raw ==>
      k in c.polynomials && r.cache.polynomials[k] == c.polynomials[k]
    ensures forall k :: k in r.cache.evaluations && k != (raw, x) ==>
      k in c.evaluations && r.cache.evaluations[k] == c.evaluations[k]
    ensures Attributed(r.outcome)
  {
    if (raw, x) in c.evaluations then Step(Ok(c.evaluations[(raw, x)]), c, [])
    else if raw in c.polynomials && c.polynomials[raw].Failed? then
      Step(Replay(c.polynomials[raw].errorCode), c, [])
    else
      match ParseX(x)
      case Ok(v) =>
        var rest := if raw in c.polynomials then EvaluateCached(c, raw, x, v)
                    else ProcessEvaluation(c, raw, x, v);
        Step(rest.outcome, rest.cache, [ParseXCall(x)] + rest.calls)
      case _ => Step(Fail(UnsupportedXType, []), c, [ParseXCall(x)])
  }

  /** The cached-text branch of `processEvaluationWithoutCachedX` as the source
      writes it: the cached simplified text `s`, not the request, is parsed again,
      and one evaluation record is stored. */
  function EvaluateCachedText(c: Cache, raw: string, x: string, v: int, s: string): (r: Step<int>)
    requires ParseX(x) == Ok(v)
    ensures r.calls == [ParsePolynomialCall(s)]
    ensures r.outcome.Ok? <==> ParsePolynomial(s).Ok?
    ensures r.outcome.Ok? ==> r.cache == c.(evaluations := c.evaluations[(raw, x) := r.outcome.value])
    ensures !r.outcome.Ok? ==> r.cache == c
    ensures Attributed(r.outcome)
  {
    var parsed := ParsePolynomial(s);
    if !parsed.Ok? then Step(parsed.PropagateFailure(), c, [ParsePolynomialCall(s)])
    else
      var result := Evaluate(parsed.value, v);
      Step(Ok(result), c.(evaluations := c.evaluations[(raw, x) := result]), [ParsePolynomialCall(s)])
  }

  /** `evaluate` as the source writes it: the same as `EvaluateRequest` except that a
      cached simplified text is parsed in place of the request. */
  function EvaluateRequestAsWritten(c: Cache, raw: string, x: string): (r: Step<int>)
    ensures (raw, x) in c.evaluations ==> r == Step(Ok(c.evaluations[(raw, x)]), c, [])
    ensures (raw, x) !in c.evaluations && raw in c.polynomials && c.polynomials[raw].Failed? ==>
      r == Step(Replay(c.polynomials[raw].errorCode), c, [])
    ensures ((raw, x) !in c.evaluations && !(raw in c.polynomials && c.polynomials[raw].Failed?)
      && !ParseX(x).Ok?) ==> r == Step(Fail(UnsupportedXType, []), c, [ParseXCall(x)])
    ensures ((raw, x) !in c.evaluations && raw in c.polynomials && c.polynomials[raw].Simplified?
      && ParseX(x).Ok?) ==> r.calls == [ParseXCall(x), ParsePolynomialCall(c.polynomials[raw].text)]
    ensures (raw, x) !in c.evaluations && raw !in c.polynomials ==> r.outcome == FreshEvaluate(raw, x)
    ensures ((raw, x) !in c.evaluations && raw in c.polynomials && c.polynomials[raw].Simplified?
      && ParseX(x).Ok? && !ParsePolynomial(c.polynomials[raw].text).Ok?) ==>
      r.outcome == ParsePolynomial(c.polynomials[raw].text).PropagateFailure() && r.cache == c
    ensures Attributed(r.outcome)
  {
    if (raw, x) in c.evaluations then Step(Ok(c.evaluations[(raw, x)]), c, [])
    else if raw in c.polynomials && c.polynomials[raw].Failed? then
      Step(Replay(c.polynomials[raw].errorCode), c, [])
    else
      match ParseX(x)
      case Ok(v) =>
        var rest := if raw in c.polynomials then EvaluateCachedText(c, raw, x, v, c.polynomials[raw].text)
                    else ProcessEvaluation(c, raw, x, v);
        Step(rest.outcome, rest.cache, [ParseXCall(x)] + rest.calls)
      case _ => Step(Fail(UnsupportedXType, []), c, [ParseXCall(x)])
  }

  /** An outcome without the request string attached to its failure: what the
      client is answered. */
  function Observe<T>(o: Outcome<T>): Outcome<T> {
    if o.Raised? then Raised(o.failure, None) else o
  }

  /** Under a consistent cache a simplification request is answered exactly as if
      nothing were cached. */
  lemma SimplifyTransparent(c: Cache, raw: string)
    requires Consistent(c)
    ensures Observe(SimplifyRequest(c, raw).outcome) == Observe(FreshSimplify(raw))
  {
  }

  /** Under a consistent cache an evaluation request with a readable `x` is answered
      exactly as if nothing were cached. */
  lemma EvaluateTransparent(c: Cache, raw: string, x: string)
    requires Consistent(c) && ParseX(x).Ok?
    ensures Observe(EvaluateRequest(c, raw, x).outcome) == Observe(FreshEvaluate(raw, x))
  {
  }

  /** An unreadable `x` never gets a number: the request fails on `x`, unless a
      failure of the polynomial is cached, which is then replayed first. */
  lemma EvaluateInvalidX(c: Cache, raw: string, x: string)
    requires Consistent(c) && !ParseX(x).Ok?
    ensures var r := EvaluateRequestAsWritten(c, raw, x).outcome;
      || r == Fail(UnsupportedXType, [])
      || (raw in c.polynomials && ParsePolynomial(raw).Raised? && r == Raised(ParsePolynomial(raw).failure, None))
  {
  }

  /** The source's cached-text branch agrees with a fresh evaluation whenever every
      coefficient and degree of the simplified polynomial fits in nine digits. */
  lemma CachedTextAgreesWhenBounded(c: Cache, raw: string, x: string)
    requires Consistent(c) && ParseX(x).Ok?
    requires raw in c.polynomials && c.polynomials[raw].Simplified?
    requires ParsePolynomial(raw).Ok? && forall t :: t in Simplify(ParsePolynomial(raw).value) ==> Bounded(t)
    ensures EvaluateRequestAsWritten(c, raw, x).outcome == FreshEvaluate(raw, x)
  {
    var q := Simplify(ParsePolynomial(raw).value);
    assert Format(q).Ok?;
    FormatThenParse(q);
  }

  /** The one case where the source's `evaluate` departs from a fresh evaluation:
      nothing is cached for the request and `x`, the simplified text is, and a
      term of the simplified polynomial is too wide for a literal. */
  predicate StaleText(c: Cache, raw: string, x: string) {
    && (raw, x) !in c.evaluations
    && raw in c.polynomials && c.polynomials[raw].Simplified?
    && ParsePolynomial(raw).Ok?
    && !(forall t :: t in Simplify(ParsePolynomial(raw).value) ==> Bounded(t))
  }

  /** The source's cached-text branch when a simplified term is too wide for a
      literal: re-parsing the cached text fails, and the failure names that text,
      although a fresh evaluation succeeds. */
  lemma CachedTextRejectedWhenUnbounded(c: Cache, raw: string, x: string)
    requires Consistent(c) && ParseX(x).Ok? && StaleText(c, raw, x)
    ensures var text := c.polynomials[raw].text;
      && ParsePolynomial(text).Raised?
      && EvaluateRequestAsWritten(c, raw, x).outcome == Raised(ParsePolynomial(text).failure, Some(text))
    ensures FreshEvaluate(raw, x).Ok?
  {
    var q := Simplify(ParsePolynomial(raw).value);
    assert Format(q).Ok?;
    FormatThenParseRejects(q);
  }

  /** Under a consistent cache the source's `evaluate` with a readable `x` answers
      as a fresh evaluation does, except on a stale text, where it fails although
      the fresh evaluation succeeds. */
  lemma EvaluateAsWrittenTransparent(c: Cache, raw: string, x: string)
    requires Consistent(c) && ParseX(x).Ok?
    ensures !StaleText(c, raw, x) ==>
      Observe(EvaluateRequestAsWritten(c, raw, x).outcome) == Observe(FreshEvaluate(raw, x))
    ensures StaleText(c, raw, x) ==>
      EvaluateRequestAsWritten(c, raw, x).outcome.Raised? && FreshEvaluate(raw, x).Ok?
  {
    if (raw, x) !in c.evaluations && raw in c.polynomials && c.polynomials[raw].Simplified? {
      assert FreshSimplify(raw).Ok?;
      if StaleText(c, raw, x) {
        CachedTextRejectedWhenUnbounded(c, raw, x);
      } else {
        CachedTextAgreesWhenBounded(c, raw, x);
      }
    }
  }
}
