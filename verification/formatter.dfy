/** The polynomial-to-text mapper: each term as ` + ` or ` - `, then the magnitude
    and the power of `x`, with the leading sign folded into the first term. */
module Formatter {
  import opened Text
  import opened Failures
  import opened Terms

  /** `mapCoefficientSignToString`: a zero coefficient is written with a minus. */
  function SignText(t: Term): string {
    if t.coefficient > 0 then " + " else " - "
  }

  /** `mapCoefficientToString`: the magnitude, omitted when it is 1 on a power of
      `x`, and followed by `*` when a power of `x` comes after it. */
  function CoefficientText(t: Term): string {
    if t.coefficient != 1 && t.coefficient != -1 then
      DecimalString(Abs(t.coefficient)) + (if t.degree != 0 then "*" else "")
    else if t.degree == 0 then DecimalString(Abs(t.coefficient))
    else ""
  }

  /** `mapDegreeToString`: nothing, `x`, or `x^` and the degree. */
  function DegreeText(t: Term): string {
    if t.degree == 0 then ""
    else if t.degree == 1 then "x"
    else "x^" + DecimalString(t.degree)
  }

  /** The characters a term may use after its sign. */
  predicate IsBodyChar(c: char) {
    IsDigit(c) || c == 'x' || c == '*' || c == '^'
  }

  predicate AllBodyChars(s: string) {
    forall i :: 0 <= i < |s| ==> IsBodyChar(s[i])
  }

  lemma AllBodyCharsAppend(a: string, b: string)
    requires AllBodyChars(a) && AllBodyChars(b)
    ensures AllBodyChars(a + b)
  {
    assert forall i :: 0 <= i < |a + b| ==> (a + b)[i] == if i < |a| then a[i] else b[i - |a|];
  }

  lemma DigitsAreBodyChars(s: string)
    requires AllDigits(s)
    ensures AllBodyChars(s)
  {
  }

  /** The part of a term after its sign: never empty, and made of digits, `x`, `*`
      and `^` only. */
  function Body(t: Term): (r: string)
    ensures |r| > 0 && AllBodyChars(r)
    ensures r[0] == 'x' || IsDigit(r[0])
  {
    var c := CoefficientText(t);
    var d := DegreeText(t);
    assert AllBodyChars(c) by {
      if t.coefficient != 1 && t.coefficient != -1 {
        DigitsAreBodyChars(DecimalString(Abs(t.coefficient)));
        AllBodyCharsAppend(DecimalString(Abs(t.coefficient)), if t.degree != 0 then "*" else "");
      } else if t.degree == 0 {
        DigitsAreBodyChars(DecimalString(Abs(t.coefficient)));
      }
    }
    assert AllBodyChars(d) by {
      if t.degree > 1 {
        DigitsAreBodyChars(DecimalString(t.degree));
        AllBodyCharsAppend("x^", DecimalString(t.degree));
      }
    }
    AllBodyCharsAppend(c, d);
    c + d
  }

  /** `mapTermToString` */
  function TermText(t: Term): string {
    SignText(t) + Body(t)
  }

  /** All terms' texts, in order. */
  function Render(p: seq<Term>): (r: string)
    ensures |p| > 0 ==> |r| >= 3 && r[..3] == SignText(p[0])
  {
    if |p| == 0 then "" else TermText(p[0]) + Render(p[1..])
  }

  /** `mapPolynomialToString`: the rendering with its first sign folded in. The
      rendering of the empty polynomial has no second character to inspect. */
  function Format(p: seq<Term>): (r: Outcome<string>)
    ensures r.Ok? <==> |p| > 0
    ensures r.Crash? ==> r.fault == EmptyRendering
  {
    var s := Render(p);
    if |s| < 2 then Crash(EmptyRendering)
    else if s[1] == '+' then Ok(s[3..])
    else Ok(s[1..2] + s[3..])
  }

  /** The text of a non-empty polynomial: the first term's body, with a leading
      minus only when its coefficient is not positive, then every later term with
      its spaced sign. */
  lemma FormatShape(p: seq<Term>)
    requires |p| > 0
    ensures p[0].coefficient > 0 ==> Format(p).value == Body(p[0]) + Render(p[1..])
    ensures p[0].coefficient <= 0 ==> Format(p).value == "-" + (Body(p[0]) + Render(p[1..]))
  {
    var s := Render(p);
    var b := Body(p[0]);
    var rest := Render(p[1..]);
    var sign := SignText(p[0]);
    Associate(sign, b, rest);
    DropPrefix(sign, b + rest);
    assert s[1] == sign[1];
    if p[0].coefficient <= 0 {
      assert s[1..2] == "-";
    }
  }

  /** The text starts with a minus exactly when the leading coefficient is not
      positive, and never with a space. */
  lemma FormatLeadingSign(p: seq<Term>)
    requires |p| > 0
    ensures |Format(p).value| > 0
    ensures Format(p).value[0] == '-' <==> p[0].coefficient <= 0
    ensures Format(p).value[0] != ' '
  {
    FormatShape(p);
    var b := Body(p[0]);
    var tail := b + Render(p[1..]);
    assert tail[0] == b[0];
  }
}
