/** The web layer around the pipeline: every typed failure becomes a bad-request
    answer carrying its code, and a failure that names the polynomial it was raised
    on is stored in the cache under that polynomial, as its encoded text. */
module ExceptionHandler {
  import opened ErrorCodes
  import opened Failures
  import opened Parser
  import opened ErrorCodec
  import opened Processor

  /** What the client receives: the value, a 400 answer with the failure's code,
      or the server error of an unchecked runtime exception. */
  datatype Response<T> = Success(body: T) | BadRequest(code: nat, failure: Failure) | ServerError(fault: Fault)

  /** The caches after a request, with the answer to it. */
  datatype Served<T> = Served(response: Response<T>, cache: Cache)

  /** `handlePolynomialBaseException` and `handlePolynomialRelatedException` answer
      every typed failure alike, with its code and message. */
  function Respond<T>(o: Outcome<T>): (r: Response<T>)
    ensures r.Success? <==> o.Ok?
    ensures r.BadRequest? <==> o.Raised?
    ensures r.BadRequest? ==> r.code == Code(r.failure.kind)
  {
    match o
    case Ok(v) => Success(v)
    case Raised(f, _) => BadRequest(Code(f.kind), f)
    case Crash(e) => ServerError(e)
  }

  /** The answer does not depend on the request string a failure carries. */
  lemma RespondObserve<T>(o: Outcome<T>)
    ensures Respond(Observe(o)) == Respond(o)
  {
  }

  /** `savePolynomialExceptionToCache`, reached only for a failure that names its
      polynomial: the encoded failure is stored under that polynomial, without a
      simplified text. */
  function RecordFailure<T>(c: Cache, o: Outcome<T>): (r: Cache)
    ensures r.evaluations == c.evaluations
    ensures forall k :: k in r.polynomials <==> k in c.polynomials || (o.Raised? && o.polynomial == Some(k))
    ensures forall k :: (k in c.polynomials && !(o.Raised? && o.polynomial == Some(k))) ==>
      k in r.polynomials && r.polynomials[k] == c.polynomials[k]
    ensures o.Raised? && o.polynomial.Some? ==> r.polynomials[o.polynomial.value] == Failed(Encode(o.failure))
  {
    if o.Raised? && o.polynomial.Some? then
      c.(polynomials := c.polynomials[o.polynomial.value := Failed(Encode(o.failure))])
    else c
  }

  /** Failures the parser raises survive the cache. */
  lemma WellFormedEncodable(f: Failure)
    requires WellFormedFailure(f)
    ensures Encodable(f)
  {
    forall i | 0 <= i < |f.params| ensures ' ' !in f.params[i] {
      var p := f.params[i];
      assert forall j :: 0 <= j < |p| ==> p[j] != ' ';
    }
  }

  /** Storing a record that agrees with its request keeps the cache consistent. */
  lemma StoreConsistent(c: Cache, k: string, rec: PolynomialRecord)
    requires Consistent(c) && RecordAgrees(k, rec)
    ensures Consistent(c.(polynomials := c.polynomials[k := rec]))
  {
  }

  /** A failure the parser raised on a polynomial is stored so that replaying it
      gives the same failure back: recording keeps the cache consistent. */
  lemma RecordFailureConsistent<T>(c: Cache, o: Outcome<T>)
    requires Consistent(c) && Attributed(o)
    ensures Consistent(RecordFailure(c, o))
  {
    if o.Raised? && o.polynomial.Some? {
      var k := o.polynomial.value;
      WellFormedEncodable(o.failure);
      DecodeEncode(o.failure);
      StoreConsistent(c, k, Failed(Encode(o.failure)));
    }
  }

  /** A simplification request through the web layer: a request the parser rejects
      is answered with the failure's code and, unless a record for it already
      existed, leaves its encoded failure behind in the cache; evaluation results
      are never touched. */
  function ServeSimplify(c: Cache, raw: string): (r: Served<string>)
    ensures raw !in c.polynomials && ParsePolynomial(raw).Raised? ==>
      && r.response == BadRequest(Code(ParsePolynomial(raw).failure.kind), ParsePolynomial(raw).failure)
      && r.cache == c.(polynomials := c.polynomials[raw := Failed(Encode(ParsePolynomial(raw).failure))])
    ensures raw in c.polynomials ==> r.cache == c
    ensures r.cache.evaluations == c.evaluations
    ensures r.response.BadRequest? ==> r.response.code == Code(r.response.failure.kind)
  {
    var step := SimplifyRequest(c, raw);
    Served(Respond(step.outcome), RecordFailure(step.cache, step.outcome))
  }

  /** An evaluation request through the web layer, as the source serves it: an
      unreadable `x` is answered with code 2 and stores nothing, since its failure
      names no polynomial; a request the parser rejects, with nothing cached for
      it, leaves its encoded failure behind; and a cached simplified text the
      parser rejects leaves its failure behind under that text, not the request. */
  function ServeEvaluate(c: Cache, raw: string, x: string): (r: Served<int>)
    ensures ((raw, x) !in c.evaluations && raw !in c.polynomials && !ParseX(x).Ok?) ==>
      r == Served(BadRequest(Code(UnsupportedXType), Failure(UnsupportedXType, [])), c)
    ensures ((raw, x) !in c.evaluations && raw !in c.polynomials && ParseX(x).Ok?
      && ParsePolynomial(raw).Raised?) ==>
      && r.response == BadRequest(Code(ParsePolynomial(raw).failure.kind), ParsePolynomial(raw).failure)
      && r.cache == c.(polynomials := c.polynomials[raw := Failed(Encode(ParsePolynomial(raw).failure))])
    ensures ((raw, x) !in c.evaluations && raw in c.polynomials && c.polynomials[raw].Simplified?
      && ParseX(x).Ok? && ParsePolynomial(c.polynomials[raw].text).Raised?) ==>
      var text := c.polynomials[raw].text;
      var f := ParsePolynomial(text).failure;
      r == Served(BadRequest(Code(f.kind), f), c.(polynomials := c.polynomials[text := Failed(Encode(f))]))
    ensures (raw, x) in c.evaluations ==> r == Served(Success(c.evaluations[(raw, x)]), c)
  {
    var step := EvaluateRequestAsWritten(c, raw, x);
    Served(Respond(step.outcome), RecordFailure(step.cache, step.outcome))
  }

  /** The corrected evaluation through the web layer: the same handling, over the
      evaluation that reads a cached request from the request itself. */
  function ServeEvaluateCorrected(c: Cache, raw: string, x: string): (r: Served<int>)
    ensures ((raw, x) !in c.evaluations && raw !in c.polynomials && !ParseX(x).Ok?) ==>
      r == Served(BadRequest(Code(UnsupportedXType), Failure(UnsupportedXType, [])), c)
    ensures ((raw, x) !in c.evaluations && raw !in c.polynomials && ParseX(x).Ok?
      && ParsePolynomial(raw).Raised?) ==>
      && r.response == BadRequest(Code(ParsePolynomial(raw).failure.kind), ParsePolynomial(raw).failure)
      && r.cache == c.(polynomials := c.polynomials[raw := Failed(Encode(ParsePolynomial(raw).failure))])
    ensures (raw, x) in c.evaluations ==> r == Served(Success(c.evaluations[(raw, x)]), c)
  {
    var step := EvaluateRequest(c, raw, x);
    Served(Respond(step.outcome), RecordFailure(step.cache, step.outcome))
  }

  /** Serving a simplification keeps the caches consistent. */
  lemma ServeSimplifyConsistent(c: Cache, raw: string)
    requires Consistent(c)
    ensures Consistent(ServeSimplify(c, raw).cache)
  {
    var step := SimplifyRequest(c, raw);
    if raw !in c.polynomials && step.outcome.Ok? {
      StoreConsistent(c, raw, Simplified(step.outcome.value));
    }
    RecordFailureConsistent(step.cache, step.outcome);
  }

  /** Serving an evaluation as the source does keeps the caches consistent: a
      cached text that the parser rejects is stored with the failure raised on it,
      and one it accepts evaluates to the fresh value. */
  lemma ServeEvaluateConsistent(c: Cache, raw: string, x: string)
    requires Consistent(c)
    ensures Consistent(ServeEvaluate(c, raw, x).cache)
  {
    var step := EvaluateRequestAsWritten(c, raw, x);
    assert Consistent(step.cache) by {
      if (raw, x) !in c.evaluations && !(raw in c.polynomials && c.polynomials[raw].Failed?) && ParseX(x).Ok? {
        if raw !in c.polynomials {
          if step.outcome.Ok? {
            StoreConsistent(c, raw, Simplified(FreshSimplify(raw).value));
          }
        } else {
          EvaluateAsWrittenTransparent(c, raw, x);
        }
      }
    }
    RecordFailureConsistent(step.cache, step.outcome);
  }

  /** Serving a corrected evaluation keeps the caches consistent. */
  lemma ServeEvaluateCorrectedConsistent(c: Cache, raw: string, x: string)
    requires Consistent(c)
    ensures Consistent(ServeEvaluateCorrected(c, raw, x).cache)
  {
    var step := EvaluateRequest(c, raw, x);
    assert Consistent(step.cache) by {
      if (raw, x) !in c.evaluations && !(raw in c.polynomials && c.polynomials[raw].Failed?)
        && ParseX(x).Ok? && step.outcome.Ok? && raw !in c.polynomials {
        StoreConsistent(c, raw, Simplified(FreshSimplify(raw).value));
      }
    }
    RecordFailureConsistent(step.cache, step.outcome);
  }

  /** Under a consistent cache the client's answer to a simplification is the one a
      fresh computation gives. */
  lemma ServeSimplifyTransparent(c: Cache, raw: string)
    requires Consistent(c)
    ensures ServeSimplify(c, raw).response == Respond(FreshSimplify(raw))
  {
    SimplifyTransparent(c, raw);
    RespondObserve(SimplifyRequest(c, raw).outcome);
    RespondObserve(FreshSimplify(raw));
  }

  /** Under a consistent cache the client's answer to an evaluation with a readable
      `x` is the one a fresh computation gives, unless the cached simplified text
      is stale: then the client gets a bad request where a fresh computation
      would have produced a value. */
  lemma ServeEvaluateTransparent(c: Cache, raw: string, x: string)
    requires Consistent(c) && ParseX(x).Ok?
    ensures !StaleText(c, raw, x) ==> ServeEvaluate(c, raw, x).response == Respond(FreshEvaluate(raw, x))
    ensures StaleText(c, raw, x) ==>
      ServeEvaluate(c, raw, x).response.BadRequest? && FreshEvaluate(raw, x).Ok?
  {
    EvaluateAsWrittenTransparent(c, raw, x);
    RespondObserve(EvaluateRequestAsWritten(c, raw, x).outcome);
    RespondObserve(FreshEvaluate(raw, x));
  }

  /** Under a consistent cache the client's answer to a corrected evaluation with a
      readable `x` is always the one a fresh computation gives. */
  lemma ServeEvaluateCorrectedTransparent(c: Cache, raw: string, x: string)
    requires Consistent(c) && ParseX(x).Ok?
    ensures ServeEvaluateCorrected(c, raw, x).response == Respond(FreshEvaluate(raw, x))
  {
    EvaluateTransparent(c, raw, x);
    RespondObserve(EvaluateRequest(c, raw, x).outcome);
    RespondObserve(FreshEvaluate(raw, x));
  }
}
