/** The text a failure is cached as: its numeric code, then its parameters, all
    separated by single spaces; and the reading of that text when the failure is
    replayed from the cache. */
module ErrorCodec {
  import opened Text
  import opened ErrorCodes
  import opened Failures

  const IntMin: int := -0x8000_0000
  const IntMax: int := 0x7fff_ffff

  /** The text after an optional leading sign. */
  function Magnitude(s: string): string {
    if |s| > 0 && IsSign(s[0]) then s[1..] else s
  }

  /** `Integer.parseInt` over ASCII text: an optional sign, at least one digit,
      and a value that fits in 32 bits; anything else is a `NumberFormatException`. */
  function ParseInt(s: string): (r: Option<int>)
    ensures r.Some? ==> IntMin <= r.value <= IntMax
    ensures r.Some? ==> |Magnitude(s)| > 0 && AllDigits(Magnitude(s))
    ensures r.Some? ==> (r.value < 0 ==> s[0] == '-')
    ensures r.Some? ==> (s[0] != '-' ==> r.value == DigitsValue(Magnitude(s)))
    ensures r.Some? ==> Abs(r.value) == DigitsValue(Magnitude(s))
    ensures r.Some? ==> (r.value < 0 <==> s[0] == '-' && DigitsValue(Magnitude(s)) != 0)
    ensures (|Magnitude(s)| > 0 && AllDigits(Magnitude(s))
      && DigitsValue(Magnitude(s)) <= (if s[0] == '-' then -IntMin else IntMax)) ==> r.Some?
  {
    var m := Magnitude(s);
    if |m| == 0 || !AllDigits(m) then None
    else
      var n: int := DigitsValue(m);
      var v := if s[0] == '-' then -n else n;
      if IntMin <= v <= IntMax then Some(v) else None
  }

  /** A decimal text denotes its own value. */
  lemma ParseIntDecimal(n: nat)
    requires n <= IntMax
    ensures ParseInt(DecimalString(n)) == Some(n)
  {
    var digits := DecimalString(n);
    assert !IsSign(digits[0]);
    assert Magnitude(digits) == digits;
  }

  /** Every 32-bit integer is read back from its decimal text. */
  lemma ParseIntString(v: int)
    requires IntMin <= v <= IntMax
    ensures ParseInt(IntString(v)) == Some(v)
  {
    var digits := DecimalString(Abs(v));
    var s := IntString(v);
    if v < 0 {
      assert s == "-" + digits;
      assert Magnitude(s) == digits;
      assert DigitsValue(Magnitude(s)) == -v;
    } else {
      assert s == digits;
      ParseIntDecimal(v);
    }
  }

  /** The error string of `savePolynomialExceptionToCache`: the decimal code
      alone, or the code, a space and the parameters joined by single spaces. */
  function Encode(f: Failure): (e: string)
    ensures e == Join([DecimalString(Code(f.kind))] + f.params, " ")
  {
    var code := DecimalString(Code(f.kind));
    if |f.params| == 0 then code
    else
      assert ([code] + f.params)[1..] == f.params;
      code + " " + Join(f.params, " ")
  }

  /** `rethrowException`'s reading of a cached error string: the first space-separated
      token is the code, the remaining ones are the parameters. `None` stands for
      the runtime exception of a text that has no first token or whose first token
      is not an integer. */
  function Decode(e: string): (r: Option<Failure>)
    ensures r.Some? ==> forall i :: 0 <= i < |r.value.params| ==> ' ' !in r.value.params[i]
    ensures r.None? <==> |JavaSplit(e, " ")| == 0 || ParseInt(JavaSplit(e, " ")[0]).None?
  {
    var tokens := JavaSplit(e, " ");
    SplitPiecesAvoid(e, " ");
    if |tokens| == 0 then None
    else
      match ParseInt(tokens[0])
      case None => None
      case Some(n) => Some(Failure(FromCode(n), tokens[1..]))
  }

  /** A failure whose text survives the trip through the cache: no parameter is
      empty or contains a space. */
  predicate Encodable(f: Failure) {
    forall i :: 0 <= i < |f.params| ==> |f.params[i]| > 0 && ' ' !in f.params[i]
  }

  /** The cached text of an encodable failure splits back into its code and its
      parameters. */
  lemma SplitEncode(f: Failure)
    requires Encodable(f)
    ensures JavaSplit(Encode(f), " ") == [DecimalString(Code(f.kind))] + f.params
  {
    var code := DecimalString(Code(f.kind));
    var parts := [code] + f.params;
    assert ' ' !in code by {
      assert forall i :: 0 <= i < |code| ==> IsDigit(code[i]);
    }
    forall i | 0 <= i < |parts| ensures " "[0] !in parts[i] {
      if i > 0 { assert parts[i] == f.params[i - 1]; }
    }
    SplitJoin(parts, " ");
    assert parts[|parts| - 1] != "";
  }

  /** Decoding undoes encoding for every failure whose parameters are non-empty
      and free of spaces. */
  lemma DecodeEncode(f: Failure)
    requires Encodable(f)
    ensures Decode(Encode(f)) == Some(f)
  {
    var tokens := JavaSplit(Encode(f), " ");
    SplitEncode(f);
    ParseIntDecimal(Code(f.kind));
    FromCodeOfCode(f.kind);
    assert tokens[1..] == f.params;
  }

  /** A decoded failure always encodes to a text that decodes to it again. */
  lemma DecodeStable(e: string)
    requires Decode(e).Some? && forall i :: 0 <= i < |Decode(e).value.params| ==> |Decode(e).value.params[i]| > 0
    ensures Decode(Encode(Decode(e).value)) == Decode(e)
  {
    DecodeEncode(Decode(e).value);
  }
}
