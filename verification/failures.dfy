/** What a parse or a request can end in: a value, a typed user-facing failure, or a
    crash on one of the unchecked runtime exceptions the Java code lets escape. */
module Failures {
  import opened ErrorCodes

  datatype Option<+T> = None | Some(value: T)

  /** A failure signature: its kind and the ordered message parameters. An empty
      parameter list stands for Java's `null` parameter array. */
  datatype Failure = Failure(kind: ErrorCode, params: seq<string>)

  /** Unchecked runtime exceptions the source raises on inputs it does not guard. */
  datatype Fault =
    | EmptyDegree        // Integer.parseInt("") on a term such as "x^"
    | EmptyFactor        // charAt(0) on an empty factor such as the one in "()"
    | EmptyRendering     // charAt(1) on the rendering of the zero polynomial
    | MalformedErrorCode // a cached failure string whose first token is not an int

  /** `Raised` is a thrown `PolynomialBaseException`; `polynomial` is the request string
      a polynomial-related parser exception carries, and `None` for every other one. */
  datatype Outcome<+T> =
    | Ok(value: T)
    | Raised(failure: Failure, polynomial: Option<string>)
    | Crash(fault: Fault)
  {
    predicate IsFailure() { !Ok? }

    function PropagateFailure<U>(): Outcome<U>
      requires !Ok?
    {
      if Raised? then Raised(failure, polynomial) else Crash(fault)
    }

    function Extract(): T
      requires Ok?
    {
      value
    }
  }

  function Fail<T>(kind: ErrorCode, params: seq<string>): Outcome<T> {
    Raised(Failure(kind, params), None)
  }
}
