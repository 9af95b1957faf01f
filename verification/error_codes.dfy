/** The table of failure kinds with their numeric codes, and the reverse lookup
    used when a cached failure is replayed. */
module ErrorCodes {

  datatype ErrorCode =
    | UnsupportedPolynomialType
    | UnsupportedXType
    | ImpossibleToParseCoefficient
    | IncorrectMultiplySignPosition
    | ImpossibleToParseDegree
    | IncorrectDegreeSignPosition
    | UnknownException

  /** The numeric code each kind is reported and cached under. */
  function Code(k: ErrorCode): nat {
    match k
    case UnsupportedPolynomialType => 1
    case UnsupportedXType => 2
    case ImpossibleToParseCoefficient => 3
    case IncorrectMultiplySignPosition => 4
    case ImpossibleToParseDegree => 5
    case IncorrectDegreeSignPosition => 6
    case UnknownException => 999
  }

  /** How many `%s` slots the kind's message template has. */
  function ParameterCount(k: ErrorCode): nat {
    match k
    case ImpossibleToParseCoefficient | IncorrectMultiplySignPosition
      | ImpossibleToParseDegree | IncorrectDegreeSignPosition => 1
    case _ => 0
  }

  /** `ErrorCode.values()`, in declaration order. */
  const Values: seq<ErrorCode> := [
    UnsupportedPolynomialType, UnsupportedXType,
    ImpossibleToParseCoefficient, IncorrectMultiplySignPosition,
    ImpossibleToParseDegree, IncorrectDegreeSignPosition,
    UnknownException
  ]

  lemma ValuesComplete(k: ErrorCode)
    ensures k in Values
  {
    match k
    case UnsupportedPolynomialType => assert Values[0] == k;
    case UnsupportedXType => assert Values[1] == k;
    case ImpossibleToParseCoefficient => assert Values[2] == k;
    case IncorrectMultiplySignPosition => assert Values[3] == k;
    case ImpossibleToParseDegree => assert Values[4] == k;
    case IncorrectDegreeSignPosition => assert Values[5] == k;
    case UnknownException => assert Values[6] == k;
  }

  /** The first position in `ks` whose code is `n`, or `|ks|` when there is none. */
  function FirstWithCode(ks: seq<ErrorCode>, n: int): (i: nat)
    ensures i <= |ks|
    ensures i < |ks| ==> Code(ks[i]) == n
    ensures forall j :: 0 <= j < i ==> Code(ks[j]) != n
  {
    if |ks| == 0 then 0
    else if Code(ks[0]) == n then 0
    else 1 + FirstWithCode(ks[1..], n)
  }

  /** `getErrorCodeByCode`: the kind whose code is `n`, or `UnknownException` when no
      kind has that code. */
  function FromCode(n: int): (k: ErrorCode)
    ensures Code(k) == n || (k == UnknownException && forall j :: Code(j) != n)
  {
    var i := FirstWithCode(Values, n);
    if i < |Values| then Values[i]
    else
      assert forall j :: Code(j) != n by {
        forall j: ErrorCode ensures Code(j) != n {
          ValuesComplete(j);
        }
      }
      UnknownException
  }

  /** Every kind has its own code. */
  lemma CodesDistinct(a: ErrorCode, b: ErrorCode)
    requires Code(a) == Code(b)
    ensures a == b
  {
  }

  /** Looking a kind up by its own code gives the kind back. */
  lemma FromCodeOfCode(k: ErrorCode)
    ensures FromCode(Code(k)) == k
  {
    CodesDistinct(FromCode(Code(k)), k);
  }
}
