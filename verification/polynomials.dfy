/** Polynomials as ordered term lists: the zero-filtering constructor, `simplify`,
    `multiply` and `evaluate`, with the canonical-form invariant they establish. */
module Polynomials {
  import opened Terms

  /** No stored term has coefficient 0. */
  predicate NoZeroTerms(p: seq<Term>) {
    forall i :: 0 <= i < |p| ==> p[i].coefficient != 0
  }

  predicate StrictlyDescending(p: seq<Term>) {
    forall i, j :: 0 <= i < j < |p| ==> p[i].degree > p[j].degree
  }

  /** At most one term per degree, degrees strictly descending, no zero coefficient. */
  predicate Canonical(p: seq<Term>) {
    StrictlyDescending(p) && NoZeroTerms(p)
  }

  /** The sum of the coefficients of all terms of degree `d`, duplicates included. */
  function Coefficient(p: seq<Term>, d: int): int {
    if |p| == 0 then 0
    else (if p[0].degree == d then p[0].coefficient else 0) + Coefficient(p[1..], d)
  }

  lemma {:induction false} CoefficientAppend(a: seq<Term>, b: seq<Term>, d: int)
    ensures Coefficient(a + b, d) == Coefficient(a, d) + Coefficient(b, d)
  {
    if |a| == 0 {
      assert a + b == b;
    } else {
      assert (a + b)[1..] == a[1..] + b;
      CoefficientAppend(a[1..], b, d);
    }
  }

  /** A descending list has nothing above its leading degree. */
  lemma {:induction false} CoefficientAbove(p: seq<Term>, d: int)
    requires StrictlyDescending(p)
    ensures (|p| == 0 || d > p[0].degree) ==> Coefficient(p, d) == 0
  {
    if |p| > 0 {
      CoefficientAbove(p[1..], d);
    }
  }

  /** In a canonical list the leading degree's coefficient is the leading term's. */
  lemma LeadingCoefficient(p: seq<Term>)
    requires Canonical(p) && |p| > 0
    ensures Coefficient(p, p[0].degree) == p[0].coefficient != 0
  {
    CoefficientAbove(p[1..], p[0].degree);
  }

  /** A canonical list is determined by its coefficient at every degree. */
  lemma {:induction false} CanonicalUnique(a: seq<Term>, b: seq<Term>)
    requires Canonical(a) && Canonical(b)
    requires forall d :: Coefficient(a, d) == Coefficient(b, d)
    ensures a == b
    decreases |a| + |b|
  {
    if |a| > 0 {
      LeadingCoefficient(a);
      CoefficientAbove(b, a[0].degree);
      assert |b| > 0 && a[0].degree <= b[0].degree;
    }
    if |b| > 0 {
      LeadingCoefficient(b);
      CoefficientAbove(a, b[0].degree);
      assert |a| > 0 && b[0].degree <= a[0].degree;
    }
    if |a| > 0 {
      var top := a[0].degree;
      assert a[0] == b[0];
      assert |a[1..]| == 0 || a[1..][0].degree < top;
      assert |b[1..]| == 0 || b[1..][0].degree < top;
      forall d ensures Coefficient(a[1..], d) == Coefficient(b[1..], d) {
        assert Coefficient(a, d) == Coefficient(b, d);
        CoefficientAbove(a[1..], d);
        CoefficientAbove(b[1..], d);
      }
      CanonicalUnique(a[1..], b[1..]);
    }
  }

  /** `new PolynomialImpl(terms)`: the terms with a nonzero coefficient, in order. */
  function Make(ts: seq<Term>): (r: seq<Term>)
    ensures NoZeroTerms(r)
    ensures forall t :: t in r <==> t in ts && t.coefficient != 0
    ensures forall d :: Coefficient(r, d) == Coefficient(ts, d)
    ensures StrictlyDescending(ts) ==> StrictlyDescending(r)
  {
    if |ts| == 0 then []
    else if ts[0].coefficient == 0 then Make(ts[1..])
    else
      var rest := Make(ts[1..]);
      assert StrictlyDescending(ts) ==> forall t :: t in rest ==> t.degree < ts[0].degree;
      [ts[0]] + rest
  }

  /** The filter keeps a list without zero terms as it is. */
  lemma {:induction false} MakeNoZero(ts: seq<Term>)
    requires NoZeroTerms(ts)
    ensures Make(ts) == ts
  {
    if |ts| > 0 {
      MakeNoZero(ts[1..]);
      assert [ts[0]] + ts[1..] == ts;
    }
  }

  /** The filter distributes over concatenation, so it keeps the surviving terms in
      their original order. */
  lemma {:induction false} MakeAppend(a: seq<Term>, b: seq<Term>)
    ensures Make(a + b) == Make(a) + Make(b)
  {
    if |a| == 0 {
      assert a + b == b;
    } else {
      assert (a + b)[1..] == a[1..] + b;
      MakeAppend(a[1..], b);
    }
  }

  function Max(a: int, b: int): int { if a < b then b else a }

  /** `termsMap.merge(t.degree, t.coefficient, Integer::sum)` on a reverse-ordered
      `TreeMap`, the map being its entry list: strictly descending degrees, zero sums
      kept. */
  function Merge(m: seq<Term>, t: Term): (r: seq<Term>)
    requires StrictlyDescending(m)
    ensures StrictlyDescending(r)
    ensures |r| > 0 && r[0].degree == (if |m| == 0 then t.degree else Max(m[0].degree, t.degree))
    ensures forall d :: Coefficient(r, d) == Coefficient(m, d) + (if d == t.degree then t.coefficient else 0)
  {
    if |m| == 0 then [t]
    else if m[0].degree == t.degree then [Term(t.degree, m[0].coefficient + t.coefficient)] + m[1..]
    else if m[0].degree < t.degree then [t] + m
    else [m[0]] + Merge(m[1..], t)
  }

  /** Every term of `ts` merged into `m`, first to last. */
  function MergeAll(m: seq<Term>, ts: seq<Term>): (r: seq<Term>)
    requires StrictlyDescending(m)
    ensures StrictlyDescending(r)
    ensures forall d :: Coefficient(r, d) == Coefficient(m, d) + Coefficient(ts, d)
    decreases |ts|
  {
    if |ts| == 0 then m else MergeAll(Merge(m, ts[0]), ts[1..])
  }

  /** `mapToPolynomial` of the map that all of `ts` was merged into. */
  function Reduce(ts: seq<Term>): (r: seq<Term>)
    ensures Canonical(r)
    ensures forall d :: Coefficient(r, d) == Coefficient(ts, d)
  {
    Make(MergeAll([], ts))
  }

  /** `simplify`: one term per degree carrying the sum of that degree's coefficients,
      zero sums dropped, degrees descending. */
  function Simplify(p: seq<Term>): (r: seq<Term>)
    ensures Canonical(r)
    ensures forall d :: Coefficient(r, d) == Coefficient(p, d)
  {
    Reduce(p)
  }

  /** A canonical polynomial is its own simplification. */
  lemma SimplifyCanonical(p: seq<Term>)
    requires Canonical(p)
    ensures Simplify(p) == p
  {
    CanonicalUnique(Simplify(p), p);
  }

  lemma SimplifyIdempotent(p: seq<Term>)
    ensures Simplify(Simplify(p)) == Simplify(p)
    ensures Simplify([]) == []
  {
    SimplifyCanonical(Simplify(p));
    SimplifyCanonical([]);
  }

  /** Two lists simplify alike exactly when they have the same coefficient at every
      degree. */
  lemma SimplifyEqualIff(p: seq<Term>, q: seq<Term>)
    ensures Simplify(p) == Simplify(q) ==> forall d :: Coefficient(p, d) == Coefficient(q, d)
    ensures (forall d :: Coefficient(p, d) == Coefficient(q, d)) ==> Simplify(p) == Simplify(q)
  {
    if Simplify(p) == Simplify(q) {
      forall d ensures Coefficient(p, d) == Coefficient(q, d) {
        assert Coefficient(Simplify(p), d) == Coefficient(Simplify(q), d);
      }
    }
    if forall d :: Coefficient(p, d) == Coefficient(q, d) {
      CanonicalUnique(Simplify(p), Simplify(q));
    }
  }

  /** `t` times every term of `q`, in `q`'s order. */
  function Row(t: Term, q: seq<Term>): (r: seq<Term>)
    ensures |r| == |q|
  {
    if |q| == 0 then [] else [Terms.Multiply(t, q[0])] + Row(t, q[1..])
  }

  /** The products of the nested loops of `multiply`: `p`'s terms outside, `q`'s inside. */
  function Cross(p: seq<Term>, q: seq<Term>): (r: seq<Term>)
    ensures |r| == |p| * |q|
  {
    if |p| == 0 then [] else Row(p[0], q) + Cross(p[1..], q)
  }

  /** Reference definition of a product's coefficient at `d`: the sum of `c1 * c2`
      over all pairs of terms whose degrees add up to `d`. */
  function ProductCoefficient(p: seq<Term>, q: seq<Term>, d: int): int {
    if |p| == 0 then 0
    else p[0].coefficient * Coefficient(q, d - p[0].degree) + ProductCoefficient(p[1..], q, d)
  }

  lemma {:induction false} RowCoefficient(t: Term, q: seq<Term>, d: int)
    ensures Coefficient(Row(t, q), d) == t.coefficient * Coefficient(q, d - t.degree)
  {
    if |q| > 0 {
      RowCoefficient(t, q[1..], d);
      var head := if q[0].degree == d - t.degree then q[0].coefficient else 0;
      assert t.coefficient * (head + Coefficient(q[1..], d - t.degree))
          == t.coefficient * head + t.coefficient * Coefficient(q[1..], d - t.degree);
    }
  }

  lemma {:induction false} CrossCoefficient(p: seq<Term>, q: seq<Term>, d: int)
    ensures Coefficient(Cross(p, q), d) == ProductCoefficient(p, q, d)
  {
    if |p| > 0 {
      CoefficientAppend(Row(p[0], q), Cross(p[1..], q), d);
      RowCoefficient(p[0], q, d);
      CrossCoefficient(p[1..], q, d);
    }
  }

  /** `multiply`: a canonical polynomial whose coefficient at each degree is the sum
      of the pairwise coefficient products landing on that degree. */
  function Multiply(p: seq<Term>, q: seq<Term>): (r: seq<Term>)
    ensures Canonical(r)
    ensures forall d :: Coefficient(r, d) == ProductCoefficient(p, q, d)
  {
    var r := Reduce(Cross(p, q));
    assert forall d :: Coefficient(r, d) == ProductCoefficient(p, q, d) by {
      forall d ensures Coefficient(r, d) == ProductCoefficient(p, q, d) {
        CrossCoefficient(p, q, d);
      }
    }
    r
  }

  lemma {:induction false} ProductWithOne(p: seq<Term>, d: int)
    ensures ProductCoefficient(p, [One], d) == Coefficient(p, d)
    ensures ProductCoefficient([One], p, d) == Coefficient(p, d)
  {
    if |p| > 0 {
      ProductWithOne(p[1..], d);
      assert Coefficient([One], d - p[0].degree) == (if p[0].degree == d then 1 else 0);
    }
    assert ProductCoefficient([One], p, d) == 1 * Coefficient(p, d - 0) + ProductCoefficient([], p, d);
  }

  /** `{(0, 1)}` is a two-sided identity of `multiply`, up to simplification. */
  lemma MultiplyByOne(p: seq<Term>)
    ensures Multiply(p, [One]) == Simplify(p)
    ensures Multiply([One], p) == Simplify(p)
  {
    forall d ensures Coefficient(Multiply(p, [One]), d) == Coefficient(Simplify(p), d)
                  && Coefficient(Multiply([One], p), d) == Coefficient(Simplify(p), d) {
      ProductWithOne(p, d);
    }
    CanonicalUnique(Multiply(p, [One]), Simplify(p));
    CanonicalUnique(Multiply([One], p), Simplify(p));
  }

  /** Exact integer power; `Math.pow(0, 0)` is 1 as well. */
  function Pow(x: int, n: nat): int {
    if n == 0 then 1 else x * Pow(x, n - 1)
  }

  lemma {:induction false} PowAdd(x: int, a: nat, b: nat)
    ensures Pow(x, a + b) == Pow(x, a) * Pow(x, b)
  {
    if a > 0 {
      PowAdd(x, a - 1, b);
      assert x * (Pow(x, a - 1) * Pow(x, b)) == (x * Pow(x, a - 1)) * Pow(x, b);
    }
  }

  /** `evaluate`: the sum of `c * x^d` over every stored term, duplicates included. */
  function Evaluate(p: seq<Term>, x: int): int {
    if |p| == 0 then 0 else p[0].coefficient * Pow(x, p[0].degree) + Evaluate(p[1..], x)
  }

  lemma {:induction false} EvaluateAppend(a: seq<Term>, b: seq<Term>, x: int)
    ensures Evaluate(a + b, x) == Evaluate(a, x) + Evaluate(b, x)
  {
    if |a| == 0 {
      assert a + b == b;
    } else {
      assert (a + b)[1..] == a[1..] + b;
      EvaluateAppend(a[1..], b, x);
    }
  }

  lemma {:induction false} EvaluateMerge(m: seq<Term>, t: Term, x: int)
    requires StrictlyDescending(m)
    ensures Evaluate(Merge(m, t), x) == Evaluate(m, x) + t.coefficient * Pow(x, t.degree)
  {
    if |m| > 0 {
      if m[0].degree == t.degree {
        var p := Pow(x, t.degree);
        assert (m[0].coefficient + t.coefficient) * p == m[0].coefficient * p + t.coefficient * p;
      } else if m[0].degree > t.degree {
        EvaluateMerge(m[1..], t, x);
      }
    }
  }

  lemma {:induction false} EvaluateMergeAll(m: seq<Term>, ts: seq<Term>, x: int)
    requires StrictlyDescending(m)
    ensures Evaluate(MergeAll(m, ts), x) == Evaluate(m, x) + Evaluate(ts, x)
    decreases |ts|
  {
    if |ts| > 0 {
      EvaluateMerge(m, ts[0], x);
      EvaluateMergeAll(Merge(m, ts[0]), ts[1..], x);
    }
  }

  lemma {:induction false} EvaluateMake(ts: seq<Term>, x: int)
    ensures Evaluate(Make(ts), x) == Evaluate(ts, x)
  {
    if |ts| > 0 {
      EvaluateMake(ts[1..], x);
    }
  }

  lemma EvaluateReduce(ts: seq<Term>, x: int)
    ensures Evaluate(Reduce(ts), x) == Evaluate(ts, x)
  {
    EvaluateMergeAll([], ts, x);
    EvaluateMake(MergeAll([], ts), x);
  }

  /** Simplifying does not change the value at any point. */
  lemma EvaluateSimplify(p: seq<Term>, x: int)
    ensures Evaluate(Simplify(p), x) == Evaluate(p, x)
  {
    EvaluateReduce(p, x);
  }

  lemma {:induction false} EvaluateRow(t: Term, q: seq<Term>, x: int)
    ensures Evaluate(Row(t, q), x) == t.coefficient * Pow(x, t.degree) * Evaluate(q, x)
  {
    if |q| > 0 {
      EvaluateRow(t, q[1..], x);
      PowAdd(x, t.degree, q[0].degree);
      var head := Terms.Multiply(t, q[0]);
      var u := t.coefficient * Pow(x, t.degree);
      var v := q[0].coefficient * Pow(x, q[0].degree);
      assert head.coefficient * Pow(x, head.degree) == u * v by {
        ProductRearrange(t.coefficient, Pow(x, t.degree), q[0].coefficient, Pow(x, q[0].degree));
      }
      assert u * (v + Evaluate(q[1..], x)) == u * v + u * Evaluate(q[1..], x);
    }
  }

  lemma ProductRearrange(a: int, pa: int, b: int, pb: int)
    ensures (a * b) * (pa * pb) == (a * pa) * (b * pb)
  {
    assert (a * b) * (pa * pb) == a * (b * (pa * pb));
    assert b * (pa * pb) == pa * (b * pb);
  }

  lemma {:induction false} EvaluateCross(p: seq<Term>, q: seq<Term>, x: int)
    ensures Evaluate(Cross(p, q), x) == Evaluate(p, x) * Evaluate(q, x)
  {
    if |p| > 0 {
      EvaluateAppend(Row(p[0], q), Cross(p[1..], q), x);
      EvaluateRow(p[0], q, x);
      EvaluateCross(p[1..], q, x);
      var head := p[0].coefficient * Pow(x, p[0].degree);
      assert (head + Evaluate(p[1..], x)) * Evaluate(q, x)
          == head * Evaluate(q, x) + Evaluate(p[1..], x) * Evaluate(q, x);
    }
  }

  /** The product polynomial evaluates to the product of the values. */
  lemma EvaluateMultiply(p: seq<Term>, q: seq<Term>, x: int)
    ensures Evaluate(Multiply(p, q), x) == Evaluate(p, x) * Evaluate(q, x)
  {
    EvaluateReduce(Cross(p, q), x);
    EvaluateCross(p, q, x);
  }

  /** The value the processor tests expect for `3*x^2 + 4*x - 5` at 2. */
  lemma EvaluateExample()
    ensures Evaluate([Term(2, 3), Term(1, 4), Term(0, -5)], 2) == 15
  {
  }
}
