/** The text parser: a request string becomes a list of terms (or a product of
    parenthesised factors becomes their canonical product), and an `x` request
    string becomes an integer. Regular expressions of the source are replaced by
    predicates over the characters they accept. */
module Parser {
  import opened Text
  import opened ErrorCodes
  import opened Failures
  import opened Terms
  import opened Polynomials

  /** The factor delimiter `)*(` of a complex polynomial. */
  const Delimiter: string := ")*("

  /** `^[0-9x\-+*^]+$` */
  predicate IsSimple(s: string) {
    |s| > 0 && AllSimpleChars(s)
  }

  /** The pieces between the outer parentheses of `s`, cut at every `)*(`. */
  function RawFactors(s: string): seq<string>
    requires |s| >= 2
  {
    Split(s[1..|s| - 1], Delimiter)
  }

  /** `^\([0-9x\-+*^]*\)(\*\([0-9x\-+*^]*\))*$`: parenthesised groups of simple
      characters (possibly none) joined by `*`. */
  predicate IsComplex(s: string) {
    && |s| >= 2 && s[0] == '(' && s[|s| - 1] == ')'
    && forall f :: f in RawFactors(s) ==> AllSimpleChars(f)
  }

  /** `IsComplex` accepts exactly the texts `(f1)*(f2)*...*(fn)`, n >= 1, whose
      factors are made of simple characters, and recovers those factors. */
  lemma ComplexShape(factors: seq<string>)
    requires |factors| >= 1
    requires forall i :: 0 <= i < |factors| ==> AllSimpleChars(factors[i])
    ensures IsComplex("(" + Join(factors, Delimiter) + ")")
    ensures RawFactors("(" + Join(factors, Delimiter) + ")") == factors
  {
    var inner := Join(factors, Delimiter);
    Enclosed(inner);
    forall i | 0 <= i < |factors| ensures Delimiter[0] !in factors[i] {
      SimpleHasNoParen(factors[i]);
    }
    SplitJoin(factors, Delimiter);
    assert RawFactors("(" + inner + ")") == factors;
  }

  /** The text between added outer parentheses is the text that was enclosed. */
  lemma Enclosed(inner: string)
    ensures var s := "(" + inner + ")"; |s| >= 2 && s[0] == '(' && s[|s| - 1] == ')' && s[1..|s| - 1] == inner
  {
  }

  lemma SimpleHasNoParen(f: string)
    requires AllSimpleChars(f)
    ensures ')' !in f
  {
  }

  lemma ComplexShapeConverse(s: string)
    requires IsComplex(s)
    ensures s == "(" + Join(RawFactors(s), Delimiter) + ")"
    ensures forall i :: 0 <= i < |RawFactors(s)| ==> AllSimpleChars(RawFactors(s)[i])
  {
    assert s == [s[0]] + s[1..|s| - 1] + [s[|s| - 1]];
  }

  /** A term as the matcher yields it: a sign followed by non-sign characters. */
  predicate IsToken(t: string) {
    |t| > 0 && IsSign(t[0]) && forall j :: 1 <= j < |t| ==> !IsSign(t[j])
  }

  function Concat(ts: seq<string>): string {
    if |ts| == 0 then "" else ts[0] + Concat(ts[1..])
  }

  /** The length of the longest prefix of `s` without a sign. */
  function SignFreeLength(s: string): (n: nat)
    ensures n <= |s|
    ensures forall i :: 0 <= i < n ==> !IsSign(s[i])
    ensures n < |s| ==> IsSign(s[n])
  {
    if |s| == 0 || IsSign(s[0]) then 0 else 1 + SignFreeLength(s[1..])
  }

  /** The successive matches of `[+-][^+-]*` in `s`: each is a sign followed by a
      maximal sign-free run. */
  function Tokenize(s: string): (r: seq<string>)
    ensures forall i :: 0 <= i < |r| ==> IsToken(r[i])
    decreases |s|
  {
    if |s| == 0 then []
    else if !IsSign(s[0]) then Tokenize(s[1..])
    else
      var n := 1 + SignFreeLength(s[1..]);
      [s[..n]] + Tokenize(s[n..])
  }

  /** The tokens, put back together, are `s` from its first sign on. */
  lemma {:induction false} TokenizeCovers(s: string)
    ensures Concat(Tokenize(s)) == s[SignFreeLength(s)..]
    decreases |s|
  {
    if |s| == 0 {
    } else if !IsSign(s[0]) {
      TokenizeCovers(s[1..]);
      assert s[SignFreeLength(s)..] == s[1..][SignFreeLength(s[1..])..];
    } else {
      var n := 1 + SignFreeLength(s[1..]);
      var rest := Tokenize(s[n..]);
      TokenizeCovers(s[n..]);
      assert SignFreeLength(s[n..]) == 0;
      var r := [s[..n]] + rest;
      assert r[1..] == rest;
      assert s == s[..n] + s[n..];
    }
  }

  /** Every token is cut out of `s`, so it keeps `s`'s character class. */
  lemma {:induction false} TokenizeSimple(s: string)
    requires AllSimpleChars(s)
    ensures forall i :: 0 <= i < |Tokenize(s)| ==> AllSimpleChars(Tokenize(s)[i])
    decreases |s|
  {
    if |s| == 0 {
    } else if !IsSign(s[0]) {
      TokenizeSimple(s[1..]);
    } else {
      var n := 1 + SignFreeLength(s[1..]);
      TokenizeSimple(s[n..]);
      var r := [s[..n]] + Tokenize(s[n..]);
      assert forall i :: 1 <= i < |r| ==> r[i] == Tokenize(s[n..])[i - 1];
    }
  }

  /** Tokenizing is the inverse of concatenating tokens. */
  lemma {:induction false} TokenizeConcat(ts: seq<string>)
    requires forall i :: 0 <= i < |ts| ==> IsToken(ts[i])
    ensures Tokenize(Concat(ts)) == ts
  {
    if |ts| > 0 {
      var s := Concat(ts);
      var t := ts[0];
      var rest := Concat(ts[1..]);
      assert s == t + rest;
      assert |rest| > 0 ==> IsSign(rest[0]) by {
        if |rest| > 0 {
          assert IsToken(ts[1]);
          assert Concat(ts[1..]) == ts[1] + Concat(ts[2..]);
          assert rest[0] == ts[1][0];
        }
      }
      SignFreeLengthPrefix(t[1..], rest);
      assert s[1..] == t[1..] + rest;
      assert s[..|t|] == t;
      assert s[|t|..] == rest;
      TokenizeConcat(ts[1..]);
    }
  }

  lemma {:induction false} SignFreeLengthPrefix(a: string, b: string)
    requires forall i :: 0 <= i < |a| ==> !IsSign(a[i])
    requires |b| == 0 || IsSign(b[0])
    ensures SignFreeLength(a + b) == |a|
  {
    if |a| > 0 {
      assert (a + b)[1..] == a[1..] + b;
      SignFreeLengthPrefix(a[1..], b);
    } else {
      assert a + b == b;
    }
  }

  /** `addSilentFirstSign`: a leading `+` unless the text already starts with `-`. */
  function AddSilentSign(s: string): (r: string)
    requires |s| > 0
    ensures |r| > 0 && IsSign(r[0])
    ensures r == s <==> s[0] == '-'
    ensures r != s ==> r == "+" + s
  {
    if s[0] != '-' then "+" + s else s
  }

  function SignOf(c: char): int {
    if c == '-' then -1 else 1
  }

  /** `^[+-][1-9][0-9]{0,8}$` */
  predicate IsCoefficientLiteral(s: string) {
    2 <= |s| <= 10 && IsSign(s[0]) && s[1] != '0' && AllDigits(s[1..])
  }

  /** `^[0-9]{0,9}$` */
  predicate IsDegreeLiteral(s: string) {
    |s| <= 9 && AllDigits(s)
  }

  /** What one literal of the term grammar can denote. */
  predicate Bounded(t: Term) {
    t.coefficient != 0 && Abs(t.coefficient) <= MaxLiteral && t.degree <= MaxLiteral
  }

  /** `parseCoefficient(String)`: a signed literal of one to nine digits with no
      leading zero, or a failure naming the text. */
  function ParseCoefficient(s: string): (r: Outcome<int>)
    ensures r.Ok? <==> IsCoefficientLiteral(s)
    ensures r.Ok? ==> r.value != 0 && Abs(r.value) <= MaxLiteral
    ensures r.Ok? ==> Abs(r.value) == DigitsValue(s[1..]) && (r.value < 0 <==> s[0] == '-')
    ensures r.Ok? || r == Fail(ImpossibleToParseCoefficient, [s])
  {
    if IsCoefficientLiteral(s) then
      DigitsValuePositive(s[1..]);
      NineDigitsBound(s[1..]);
      Ok(SignOf(s[0]) * DigitsValue(s[1..]))
    else
      Fail(ImpossibleToParseCoefficient, [s])
  }

  /** `parseCoefficient(term, indexOfX)`: the text before `*x` as a coefficient. */
  function ParseCoefficientBefore(term: string, ix: nat): (r: Outcome<int>)
    requires 2 <= ix < |term|
    ensures r.Ok? ==> r.value != 0 && Abs(r.value) <= MaxLiteral
    ensures r.Ok? ==> (r.value < 0 <==> term[0] == '-')
    ensures term[ix - 1] != '*' ==> r == Fail(IncorrectMultiplySignPosition, [term])
    ensures term[ix - 1] == '*' ==> r.Ok? || r == Fail(ImpossibleToParseCoefficient, [term[..ix - 1]])
  {
    if term[ix - 1] != '*' then Fail(IncorrectMultiplySignPosition, [term])
    else ParseCoefficient(term[..ix - 1])
  }

  /** `parseDegree`: the digits after `x^`. An empty digit run passes the check
      and then fails in `Integer.parseInt`. */
  function ParseDegree(term: string, ix: nat): (r: Outcome<nat>)
    requires ix + 1 < |term|
    ensures r.Ok? ==> r.value <= MaxLiteral
    ensures term[ix + 1] != '^' ==> r == Fail(IncorrectDegreeSignPosition, [term])
    ensures term[ix + 1] == '^' && !IsDegreeLiteral(term[ix + 2..]) ==> r == Fail(ImpossibleToParseDegree, [term])
    ensures r == Crash(EmptyDegree) <==> term[ix + 1] == '^' && ix + 2 == |term|
  {
    if term[ix + 1] != '^' then Fail(IncorrectDegreeSignPosition, [term])
    else
      var digits := term[ix + 2..];
      if !IsDegreeLiteral(digits) then Fail(ImpossibleToParseDegree, [term])
      else if |digits| == 0 then Crash(EmptyDegree)
      else
        NineDigitsBound(digits);
        Ok(DigitsValue(digits))
  }

  /** `parseTerm`: one token to a term, dispatching on where its first `x` is. */
  function ParseTerm(term: string): (r: Outcome<Term>)
    requires IsToken(term)
    ensures r.Ok? ==> Bounded(r.value)
    ensures r.Ok? ==> (r.value.coefficient < 0 <==> term[0] == '-')
    ensures r.Ok? && 'x' !in term ==> r.value.degree == 0
    ensures r.Ok? && |term| > 1 && term[1] == 'x' ==> Abs(r.value.coefficient) == 1
    ensures term == [term[0], 'x'] ==> r == Ok(Term(1, SignOf(term[0])))
    ensures r.Raised? ==> r.polynomial == None && ParameterCount(r.failure.kind) == 1
    ensures r.Raised? ==> |r.failure.params| == 1 && 0 < |r.failure.params[0]| <= |term|
    ensures r.Raised? ==> r.failure.params[0] == term[..|r.failure.params[0]|]
    ensures r.Crash? ==> r == Crash(EmptyDegree)
  {
    var ix := IndexOf(term, 'x');
    if ix == -1 then
      var c :- ParseCoefficient(term);
      Ok(Term(0, c))
    else if ix == 1 then
      var c := SignOf(term[0]);
      if |term| == 2 then Ok(Term(1, c))
      else
        var d :- ParseDegree(term, ix);
        Ok(Term(d, c))
    else if ix == |term| - 1 then
      var c :- ParseCoefficientBefore(term, ix);
      Ok(Term(1, c))
    else
      var d :- ParseDegree(term, ix);
      var c :- ParseCoefficientBefore(term, ix);
      Ok(Term(d, c))
  }

  /** A token without `x` is a constant: the whole token must be a coefficient
      literal, and it is the one parameter of the failure otherwise. */
  lemma ParseTermConstant(term: string)
    requires IsToken(term) && 'x' !in term
    ensures ParseTerm(term).Ok? <==> IsCoefficientLiteral(term)
    ensures !ParseTerm(term).Ok? ==> ParseTerm(term) == Fail(ImpossibleToParseCoefficient, [term])
    ensures ParseTerm(term).Ok? ==>
      ParseTerm(term).value == Term(0, SignOf(term[0]) * DigitsValue(term[1..]))
  {
  }

  /** A token whose `x` follows the sign is a bare power of `x`: after `x` comes
      nothing, or `^` and a degree literal. */
  lemma ParseTermBareX(term: string)
    requires IsToken(term) && |term| > 2 && term[1] == 'x'
    ensures term[2] != '^' ==> ParseTerm(term) == Fail(IncorrectDegreeSignPosition, [term])
    ensures term[2] == '^' && !IsDegreeLiteral(term[3..]) ==> ParseTerm(term) == Fail(ImpossibleToParseDegree, [term])
    ensures term[2] == '^' && |term| == 3 ==> ParseTerm(term) == Crash(EmptyDegree)
    ensures term[2] == '^' && |term| > 3 && IsDegreeLiteral(term[3..]) ==>
      ParseTerm(term) == Ok(Term(DigitsValue(term[3..]), SignOf(term[0])))
  {
  }

  /** A token ending in its first `x`, after a coefficient: `*` must precede the
      `x`, and the text before `*` must be a coefficient literal. */
  lemma ParseTermTrailingX(term: string, ix: nat)
    requires IsToken(term) && ix == IndexOf(term, 'x') && 2 <= ix == |term| - 1
    ensures term[ix - 1] != '*' ==> ParseTerm(term) == Fail(IncorrectMultiplySignPosition, [term])
    ensures term[ix - 1] == '*' ==> (ParseTerm(term).Ok? <==> IsCoefficientLiteral(term[..ix - 1]))
    ensures term[ix - 1] == '*' && !IsCoefficientLiteral(term[..ix - 1]) ==>
      ParseTerm(term) == Fail(ImpossibleToParseCoefficient, [term[..ix - 1]])
    ensures ParseTerm(term).Ok? ==> ParseTerm(term).value.degree == 1
  {
  }

  /** A token with its first `x` after a coefficient and before the end: the
      degree after `x^` is checked first, then the `*`, then the coefficient. */
  lemma ParseTermInteriorX(term: string, ix: nat)
    requires IsToken(term) && ix == IndexOf(term, 'x') && 2 <= ix < |term| - 1
    ensures term[ix + 1] != '^' ==> ParseTerm(term) == Fail(IncorrectDegreeSignPosition, [term])
    ensures term[ix + 1] == '^' && !IsDegreeLiteral(term[ix + 2..]) ==>
      ParseTerm(term) == Fail(ImpossibleToParseDegree, [term])
    ensures term[ix + 1] == '^' && ix + 2 == |term| ==> ParseTerm(term) == Crash(EmptyDegree)
    ensures term[ix + 1] == '^' && ix + 2 < |term| && IsDegreeLiteral(term[ix + 2..]) ==>
      && (term[ix - 1] != '*' ==> ParseTerm(term) == Fail(IncorrectMultiplySignPosition, [term]))
      && (term[ix - 1] == '*' ==> (ParseTerm(term).Ok? <==> IsCoefficientLiteral(term[..ix - 1])))
      && (term[ix - 1] == '*' && !IsCoefficientLiteral(term[..ix - 1]) ==>
            ParseTerm(term) == Fail(ImpossibleToParseCoefficient, [term[..ix - 1]]))
      && (ParseTerm(term).Ok? ==> ParseTerm(term).value.degree == DigitsValue(term[ix + 2..]))
  {
    var d := ParseDegree(term, ix);
    if d.Ok? {
      var c := ParseCoefficientBefore(term, ix);
      assert ParseTerm(term) == if c.Ok? then Ok(Term(d.value, c.value)) else c.PropagateFailure();
    } else {
      assert ParseTerm(term) == d.PropagateFailure();
    }
  }

  /** A failure as the parser raises it: the kind's parameter count is met and every
      parameter is a non-empty run of simple characters. */
  predicate WellFormedFailure(f: Failure) {
    && |f.params| == ParameterCount(f.kind)
    && forall i :: 0 <= i < |f.params| ==> |f.params[i]| > 0 && AllSimpleChars(f.params[i])
  }

  /** The terms of all tokens, in order; the first token that fails decides the
      outcome. */
  function ParseTerms(tokens: seq<string>): (r: Outcome<seq<Term>>)
    requires forall i :: 0 <= i < |tokens| ==> IsToken(tokens[i])
    ensures r.Ok? <==> forall i :: 0 <= i < |tokens| ==> ParseTerm(tokens[i]).Ok?
    ensures r.Ok? ==> |r.value| == |tokens|
    ensures r.Ok? ==> forall i :: 0 <= i < |tokens| ==> r.value[i] == ParseTerm(tokens[i]).value
    ensures r.Raised? ==> ParameterCount(r.failure.kind) == 1
    ensures r.Raised? ==> r.polynomial == None
    ensures r.Raised? && (forall i :: 0 <= i < |tokens| ==> AllSimpleChars(tokens[i]))
      ==> WellFormedFailure(r.failure)
    ensures r.Crash? ==> r == Crash(EmptyDegree)
  {
    if |tokens| == 0 then Ok([])
    else
      var t :- ParseTerm(tokens[0]);
      var rest :- ParseTerms(tokens[1..]);
      Ok([t] + rest)
  }

  /** A list that fails to parse fails exactly as its first unparsable token does. */
  lemma {:induction false} ParseTermsFailure(tokens: seq<string>) returns (k: nat)
    requires forall i :: 0 <= i < |tokens| ==> IsToken(tokens[i])
    requires !ParseTerms(tokens).Ok?
    ensures k < |tokens| && FirstFailing(tokens, k)
    ensures ParseTerms(tokens) == ParseTerm(tokens[k]).PropagateFailure()
  {
    if ParseTerm(tokens[0]).Ok? {
      k := ParseTermsFailure(tokens[1..]);
      k := k + 1;
    } else {
      k := 0;
    }
  }

  /** Token `k` is the first one that does not parse. */
  predicate FirstFailing(tokens: seq<string>, k: nat)
    requires k < |tokens| && forall i :: 0 <= i < |tokens| ==> IsToken(tokens[i])
  {
    !ParseTerm(tokens[k]).Ok? && forall j :: 0 <= j < k ==> ParseTerm(tokens[j]).Ok?
  }

  /** When every token parses, the result is the list of their terms. */
  lemma {:induction false} ParseTermsAllOk(tokens: seq<string>, terms: seq<Term>)
    requires forall i :: 0 <= i < |tokens| ==> IsToken(tokens[i])
    requires |tokens| == |terms|
    requires forall i :: 0 <= i < |tokens| ==> ParseTerm(tokens[i]) == Ok(terms[i])
    ensures ParseTerms(tokens) == Ok(terms)
  {
    if |tokens| > 0 {
      ParseTermsAllOk(tokens[1..], terms[1..]);
      assert [terms[0]] + terms[1..] == terms;
    }
  }

  /** `parseSimplePolynomial`: the terms of a sign-prefixed text, zero terms
      dropped, in the order they were written. */
  function ParseSimple(s: string): (r: Outcome<seq<Term>>)
    ensures r.Ok? ==> NoZeroTerms(r.value) && forall t :: t in r.value ==> Bounded(t)
    ensures r.Raised? ==> ParameterCount(r.failure.kind) == 1
    ensures r.Raised? ==> r.polynomial == None
    ensures r.Raised? && AllSimpleChars(s) ==> WellFormedFailure(r.failure)
    ensures r.Crash? <==> r == Crash(EmptyFactor) || r == Crash(EmptyDegree)
    ensures r == Crash(EmptyFactor) <==> |s| == 0
    ensures |s| > 0 ==> (r.Ok? <==> forall i :: 0 <= i < |SimpleTokens(s)| ==> ParseTerm(SimpleTokens(s)[i]).Ok?)
  {
    if |s| == 0 then Crash(EmptyFactor)
    else
      var signed := AddSilentSign(s);
      var tokens := SimpleTokens(s);
      assert AllSimpleChars(s) ==> forall i :: 0 <= i < |tokens| ==> AllSimpleChars(tokens[i]) by {
        if AllSimpleChars(s) {
          assert AllSimpleChars(signed);
          TokenizeSimple(signed);
        }
      }
      var ts :- ParseTerms(tokens);
      assert forall t :: t in ts ==> Bounded(t) by {
        forall t | t in ts ensures Bounded(t) {
          var i :| 0 <= i < |ts| && ts[i] == t;
          assert ParseTerm(tokens[i]).Ok?;
        }
      }
      Ok(Make(ts))
  }

  /** The value of a factor's parse at `x`, and 0 for a factor that does not parse. */
  function FactorValue(f: string, x: int): int {
    var p := ParseSimple(f);
    if p.Ok? then Evaluate(p.value, x) else 0
  }

  function FactorProduct(factors: seq<string>, x: int): int {
    if |factors| == 0 then 1 else FactorValue(factors[0], x) * FactorProduct(factors[1..], x)
  }

  /** The `reduce` over the factors: each parsed factor multiplied onto `acc`. */
  function FoldFactors(acc: seq<Term>, factors: seq<string>): (r: Outcome<seq<Term>>)
    requires Canonical(acc)
    ensures r.Ok? ==> Canonical(r.value)
    ensures r.Raised? ==> ParameterCount(r.failure.kind) == 1
    ensures r.Raised? ==> r.polynomial == None
    ensures r.Raised? && (forall i :: 0 <= i < |factors| ==> AllSimpleChars(factors[i]))
      ==> WellFormedFailure(r.failure)
    ensures r.Crash? ==> r == Crash(EmptyFactor) || r == Crash(EmptyDegree)
    decreases |factors|
  {
    if |factors| == 0 then Ok(acc)
    else
      var p :- ParseSimple(factors[0]);
      var next := Polynomials.Multiply(acc, p);
      FoldFactors(next, factors[1..])
  }

  function ParseComplex(s: string): (r: Outcome<seq<Term>>)
    requires IsComplex(s)
    ensures r.Ok? ==> Canonical(r.value)
    ensures r.Raised? ==> ParameterCount(r.failure.kind) == 1
    ensures r.Raised? ==> r.polynomial == None && WellFormedFailure(r.failure)
    ensures r.Crash? ==> r == Crash(EmptyFactor) || r == Crash(EmptyDegree)
  {
    var factors := JavaSplit(s[1..|s| - 1], Delimiter);
    assert forall i :: 0 <= i < |factors| ==> AllSimpleChars(factors[i]) by {
      forall i | 0 <= i < |factors| ensures AllSimpleChars(factors[i]) {
        assert factors[i] == RawFactors(s)[i];
        assert factors[i] in RawFactors(s);
      }
    }
    FoldFactors([One], factors)
  }

  /** The fold's result takes, at every `x`, the value of `acc` times the values
      of all factors. */
  lemma {:induction false} FoldFactorsEvaluate(acc: seq<Term>, factors: seq<string>, x: int)
    requires Canonical(acc) && FoldFactors(acc, factors).Ok?
    ensures Evaluate(FoldFactors(acc, factors).value, x) == Evaluate(acc, x) * FactorProduct(factors, x)
    decreases |factors|
  {
    if |factors| > 0 {
      var p := ParseSimple(factors[0]).value;
      var next := Polynomials.Multiply(acc, p);
      assert FoldFactors(acc, factors) == FoldFactors(next, factors[1..]);
      FoldFactorsEvaluate(next, factors[1..], x);
      EvaluateMultiply(acc, p, x);
      var a, b, c := Evaluate(acc, x), Evaluate(p, x), FactorProduct(factors[1..], x);
      assert FactorProduct(factors, x) == b * c;
      assert Evaluate(next, x) == a * b;
      ProductAssociates(a, b, c);
    }
  }

  lemma EvaluateOne(x: int)
    ensures Evaluate([One], x) == 1
  {
    assert [One][1..] == [];
  }

  lemma ProductAssociates(a: int, b: int, c: int)
    ensures (a * b) * c == a * (b * c)
  {
  }

  /** A complex polynomial takes, at every `x`, the product of its factors' values. */
  lemma ParseComplexEvaluate(s: string, x: int)
    requires IsComplex(s) && ParseComplex(s).Ok?
    ensures Evaluate(ParseComplex(s).value, x) == FactorProduct(JavaSplit(s[1..|s| - 1], Delimiter), x)
  {
    var factors := JavaSplit(s[1..|s| - 1], Delimiter);
    assert ParseComplex(s) == FoldFactors([One], factors);
    FoldFactorsEvaluate([One], factors, x);
    EvaluateOne(x);
  }

  /** `parsePolynomial`: spaces removed, then a simple polynomial, a product of
      simple polynomials, or an unsupported shape. Every typed failure leaves with
      the request text it was raised for. */
  function ParsePolynomial(raw: string): (r: Outcome<seq<Term>>)
    ensures r.Raised? ==> r.polynomial == Some(raw) && WellFormedFailure(r.failure)
    ensures r.Raised? ==> r.failure.kind != UnsupportedXType && r.failure.kind != UnknownException
    ensures r.Ok? ==> NoZeroTerms(r.value)
    ensures r.Ok? && IsSimple(StripSpaces(raw)) ==> forall t :: t in r.value ==> Bounded(t)
    ensures r.Ok? && !IsSimple(StripSpaces(raw)) ==> Canonical(r.value)
    ensures !IsSimple(StripSpaces(raw)) && !IsComplex(StripSpaces(raw))
      ==> r == Raised(Failure(UnsupportedPolynomialType, []), Some(raw))
    ensures r.Crash? ==> r == Crash(EmptyFactor) || r == Crash(EmptyDegree)
  {
    var s := StripSpaces(raw);
    if IsSimple(s) then Attach(ParseSimple(s), raw)
    else if IsComplex(s) then Attach(ParseComplex(s), raw)
    else Raised(Failure(UnsupportedPolynomialType, []), Some(raw))
  }

  /** The tokens `parseTerms` finds in a simple text once its silent sign is added. */
  function SimpleTokens(s: string): (r: seq<string>)
    requires |s| > 0
    ensures forall i :: 0 <= i < |r| ==> IsToken(r[i])
  {
    Tokenize(AddSilentSign(s))
  }

  /** A simple request whose tokens all parse gives its terms as written: in
      order, zero terms dropped, equal degrees not merged. */
  lemma ParsePolynomialSimple(raw: string, ts: seq<Term>)
    requires IsSimple(StripSpaces(raw))
    requires |ts| == |SimpleTokens(StripSpaces(raw))|
    requires forall i :: 0 <= i < |ts| ==> ParseTerm(SimpleTokens(StripSpaces(raw))[i]) == Ok(ts[i])
    ensures ParsePolynomial(raw) == Ok(Make(ts))
  {
    ParseTermsAllOk(SimpleTokens(StripSpaces(raw)), ts);
  }

  /** A simple request that does not parse fails as its first unparsable token
      does, and a typed failure carries the request. */
  lemma ParsePolynomialSimpleFailure(raw: string) returns (k: nat)
    requires IsSimple(StripSpaces(raw))
    requires !forall i :: 0 <= i < |SimpleTokens(StripSpaces(raw))| ==> ParseTerm(SimpleTokens(StripSpaces(raw))[i]).Ok?
    ensures !ParsePolynomial(raw).Ok?
    ensures k < |SimpleTokens(StripSpaces(raw))| && FirstFailing(SimpleTokens(StripSpaces(raw)), k)
    ensures var t := ParseTerm(SimpleTokens(StripSpaces(raw))[k]);
      (t.Raised? ==> ParsePolynomial(raw) == Raised(t.failure, Some(raw)))
    ensures var t := ParseTerm(SimpleTokens(StripSpaces(raw))[k]);
      (t.Crash? ==> ParsePolynomial(raw) == t.PropagateFailure())
  {
    var s := StripSpaces(raw);
    var tokens := SimpleTokens(s);
    assert ParsePolynomial(raw) == Attach(ParseSimple(s), raw);
    assert !ParseTerms(tokens).Ok?;
    k := ParseTermsFailure(tokens);
  }

  /** The `catch` of `parsePolynomial`: a typed failure is tagged with the request. */
  function Attach<T>(o: Outcome<T>, raw: string): (r: Outcome<T>)
    ensures r.Raised? <==> o.Raised?
    ensures r.Raised? ==> r.failure == o.failure && r.polynomial == Some(raw)
    ensures !o.Raised? ==> r == o
    ensures r.Ok? <==> o.Ok?
  {
    if o.Raised? then Raised(o.failure, Some(raw)) else o
  }

  /** The digits of an `x` literal, after an optional minus sign. */
  function Unsigned(s: string): string {
    if |s| > 0 && s[0] == '-' then s[1..] else s
  }

  /** `^-?[0-9]{1,9}` */
  predicate IsXLiteral(s: string) {
    1 <= |Unsigned(s)| <= 9 && AllDigits(Unsigned(s))
  }

  /** `parseX`: an optionally negative integer of one to nine digits. */
  function ParseX(s: string): (r: Outcome<int>)
    ensures r.Ok? <==> IsXLiteral(s)
    ensures r.Ok? ==> Abs(r.value) <= MaxLiteral
    ensures r.Ok? ==> Abs(r.value) == DigitsValue(Unsigned(s))
    ensures r.Ok? ==> (r.value < 0 <==> s[0] == '-' && DigitsValue(Unsigned(s)) != 0)
    ensures r.Ok? || r == Fail(UnsupportedXType, [])
  {
    if IsXLiteral(s) then
      var digits := Unsigned(s);
      NineDigitsBound(digits);
      var n: int := DigitsValue(digits);
      Ok(if digits == s then n else -n)
    else
      Fail(UnsupportedXType, [])
  }

  /** Every `x` the parser can produce is read back from its decimal text. */
  lemma ParseXIntString(v: int)
    requires Abs(v) <= MaxLiteral
    ensures ParseX(IntString(v)) == Ok(v)
  {
    var digits := DecimalString(Abs(v));
    DecimalStringLength(Abs(v), 9);
    IntStringDigits(v);
    var r := ParseX(IntString(v));
    assert Abs(r.value) == Abs(v);
  }

  /** The digits of an integer's text follow its optional minus sign. */
  lemma IntStringDigits(v: int)
    ensures Unsigned(IntString(v)) == DecimalString(Abs(v))
    ensures IntString(v)[0] == '-' <==> v < 0
  {
    var digits := DecimalString(Abs(v));
    if v < 0 {
      assert IntString(v) == "-" + digits;
    } else {
      assert IntString(v) == digits;
      assert digits[0] != '-';
    }
  }
}
