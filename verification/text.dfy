/** Character classes, decimal literals and the few java.lang.String operations the
    parser, the formatter and the failure codec rely on, over `string` = `seq<char>`. */
module Text {

  predicate IsDigit(c: char) { '0' <= c <= '9' }

  predicate IsSign(c: char) { c == '+' || c == '-' }

  /** The character class `[0-9x\-+*^]` of a simple polynomial. */
  predicate IsSimpleChar(c: char) {
    IsDigit(c) || c == 'x' || c == '-' || c == '+' || c == '*' || c == '^'
  }

  predicate AllDigits(s: string) {
    forall i :: 0 <= i < |s| ==> IsDigit(s[i])
  }

  predicate AllSimpleChars(s: string) {
    forall i :: 0 <= i < |s| ==> IsSimpleChar(s[i])
  }

  /** Largest magnitude a 9-digit literal can denote. */
  const MaxLiteral: nat := 999_999_999

  function Abs(n: int): nat { if n < 0 then -n else n }

  function Pow10(n: nat): (r: nat)
    ensures r >= 1
  {
    if n == 0 then 1 else 10 * Pow10(n - 1)
  }

  function DigitValue(c: char): (r: nat)
    requires IsDigit(c)
    ensures r < 10
  {
    (c as int) - ('0' as int)
  }

  function DigitChar(n: nat): (c: char)
    requires n < 10
    ensures IsDigit(c) && DigitValue(c) == n
  {
    (('0' as int) + n) as char
  }

  /** The value of a run of decimal digits, as `Integer.parseInt` reads it. */
  function DigitsValue(s: string): (r: nat)
    requires AllDigits(s)
    ensures r < Pow10(|s|)
  {
    if |s| == 0 then 0 else 10 * DigitsValue(s[..|s| - 1]) + DigitValue(s[|s| - 1])
  }

  /** A digit run without a leading zero denotes a positive number. */
  lemma {:induction false} DigitsValuePositive(s: string)
    requires AllDigits(s) && |s| > 0 && s[0] != '0'
    ensures DigitsValue(s) > 0
  {
    if |s| > 1 {
      assert s[..|s| - 1][0] == s[0];
      DigitsValuePositive(s[..|s| - 1]);
    }
  }

  /** At most nine digits denote at most `MaxLiteral`. */
  lemma NineDigitsBound(s: string)
    requires AllDigits(s) && |s| <= 9
    ensures DigitsValue(s) <= MaxLiteral
  {
    Pow10Monotone(|s|, 9);
  }

  lemma {:induction false} Pow10Monotone(a: nat, b: nat)
    requires a <= b
    ensures Pow10(a) <= Pow10(b)
  {
    if a < b {
      Pow10Monotone(a, b - 1);
    }
  }

  /** Decimal rendering of a non-negative integer, as `StringBuilder.append(int)`
      writes it: digits only, no leading zero. */
  function DecimalString(n: nat): (r: string)
    ensures |r| > 0 && AllDigits(r)
    ensures r[0] == '0' <==> n == 0
    ensures DigitsValue(r) == n
  {
    if n < 10 then [DigitChar(n)]
    else
      var prefix := DecimalString(n / 10);
      var r := prefix + [DigitChar(n % 10)];
      assert r[..|r| - 1] == prefix;
      r
  }

  /** A number below 10^k is written with at most k digits. */
  lemma {:induction false} DecimalStringLength(n: nat, k: nat)
    requires 1 <= k && n < Pow10(k)
    ensures |DecimalString(n)| <= k
  {
    if n >= 10 {
      assert k >= 2;
      assert n / 10 < Pow10(k - 1);
      DecimalStringLength(n / 10, k - 1);
    }
  }

  /** A number beyond `MaxLiteral` needs at least ten digits. */
  lemma DecimalStringLong(n: nat)
    ensures n > MaxLiteral ==> |DecimalString(n)| >= 10
  {
    if |DecimalString(n)| <= 9 {
      NineDigitsBound(DecimalString(n));
    }
  }

  /** The usual decimal text of an integer. */
  function IntString(v: int): string {
    (if v < 0 then "-" else "") + DecimalString(Abs(v))
  }

  lemma DropPrefix(a: string, b: string)
    ensures (a + b)[|a|..] == b
  {
  }

  lemma TakePrefix(a: string, b: string)
    ensures (a + b)[..|a|] == a
  {
  }

  lemma Associate(a: string, b: string, c: string)
    ensures (a + b) + c == a + (b + c)
  {
  }

  /** `s.replace(" ", "")`: every space removed, everything else kept in order. */
  function StripSpaces(s: string): (r: string)
    ensures ' ' !in r
    ensures |r| <= |s|
  {
    if |s| == 0 then ""
    else if s[0] == ' ' then StripSpaces(s[1..])
    else [s[0]] + StripSpaces(s[1..])
  }

  lemma {:induction false} StripSpacesAppend(a: string, b: string)
    ensures StripSpaces(a + b) == StripSpaces(a) + StripSpaces(b)
  {
    if |a| > 0 {
      assert (a + b)[1..] == a[1..] + b;
      StripSpacesAppend(a[1..], b);
    } else {
      assert a + b == b;
    }
  }

  /** A space after a space-free prefix disappears. */
  lemma StripSpacesAfter(a: string, b: string)
    requires ' ' !in a
    ensures StripSpaces(a + " " + b) == a + StripSpaces(b)
  {
    StripSpacesAppend(a + " ", b);
    StripSpacesAppend(a, " ");
    StripSpacesNoSpace(a);
  }

  lemma {:induction false} StripSpacesNoSpace(s: string)
    requires ' ' !in s
    ensures StripSpaces(s) == s
  {
    if |s| > 0 {
      assert s[0] != ' ';
      StripSpacesNoSpace(s[1..]);
    }
  }

  /** `s.indexOf(c)`: the position of the first `c`, or -1. */
  function IndexOf(s: string, c: char): (r: int)
    ensures -1 <= r < |s|
    ensures r == -1 <==> c !in s
    ensures r >= 0 ==> s[r] == c && c !in s[..r]
  {
    if |s| == 0 then -1
    else if s[0] == c then 0
    else
      var k := IndexOf(s[1..], c);
      if k < 0 then -1
      else
        assert s[..k + 1] == [s[0]] + s[1..][..k];
        k + 1
  }

  lemma IndexOfAppend(a: string, b: string, c: char)
    requires c !in a && c in b
    ensures IndexOf(a + b, c) == |a| + IndexOf(b, c)
  {
    var j := IndexOf(b, c);
    assert (a + b)[|a| + j] == c;
    assert (a + b)[..|a| + j] == a + b[..j];
    assert c !in (a + b)[..|a| + j];
  }

  /** All pieces of `s` between occurrences of the delimiter `d`, scanning left to
      right for non-overlapping matches; the empty pieces are kept. */
  function Split(s: string, d: string): (r: seq<string>)
    requires |d| > 0
    ensures |r| >= 1
    ensures Join(r, d) == s
    decreases |s|
  {
    if |s| == 0 then [""]
    else if |d| <= |s| && s[..|d|] == d then
      var rest := Split(s[|d|..], d);
      JoinLeadingEmpty(rest, d);
      TakeDrop(s, |d|);
      [""] + rest
    else
      var rest := Split(s[1..], d);
      JoinPrepend(s[0], rest, d);
      TakeDrop(s, 1);
      [[s[0]] + rest[0]] + rest[1..]
  }

  lemma TakeDrop(s: string, k: nat)
    requires k <= |s|
    ensures s[..k] + s[k..] == s
  {
  }

  lemma JoinLeadingEmpty(rest: seq<string>, d: string)
    requires |rest| >= 1
    ensures Join([""] + rest, d) == d + Join(rest, d)
  {
    assert ([""] + rest)[1..] == rest;
  }

  /** A character put in front of the first piece is in front of the joined text. */
  lemma JoinPrepend(c: char, rest: seq<string>, d: string)
    requires |rest| >= 1
    ensures Join([[c] + rest[0]] + rest[1..], d) == [c] + Join(rest, d)
  {
    var parts := [[c] + rest[0]] + rest[1..];
    if |rest| > 1 {
      assert parts[1..] == rest[1..];
      var tail := Join(rest[1..], d);
      Associate([c] + rest[0], d, tail);
      Associate([c], rest[0], d + tail);
      Associate(rest[0], d, tail);
    }
  }

  /** The pieces glued back together with the delimiter between them. */
  function Join(parts: seq<string>, d: string): string
    requires |parts| >= 1
  {
    if |parts| == 1 then parts[0] else parts[0] + d + Join(parts[1..], d)
  }

  /** A text that does not contain the delimiter's first character is one piece. */
  lemma {:induction false} SplitWithoutDelimiter(a: string, d: string)
    requires |d| > 0 && d[0] !in a
    ensures Split(a, d) == [a]
  {
    if |a| > 0 {
      assert !(|d| <= |a| && a[..|d|] == d) by {
        if |d| <= |a| { assert a[..|d|][0] == a[0]; }
      }
      SplitWithoutDelimiter(a[1..], d);
    }
  }

  /** A leading piece free of the delimiter's first character is split off exactly. */
  lemma {:induction false} SplitLeadingPiece(a: string, d: string, rest: string)
    requires |d| > 0 && d[0] !in a
    ensures Split(a + d + rest, d) == [a] + Split(rest, d)
    decreases |a|
  {
    var s := a + d + rest;
    if |a| == 0 {
      assert s == d + rest;
      assert s[..|d|] == d;
      assert s[|d|..] == rest;
    } else {
      assert !(|d| <= |s| && s[..|d|] == d) by {
        assert s[0] == a[0];
        if |d| <= |s| { assert s[..|d|][0] == s[0]; }
      }
      assert s[1..] == a[1..] + d + rest;
      SplitLeadingPiece(a[1..], d, rest);
      assert [a[0]] + a[1..] == a;
    }
  }

  /** Splitting undoes joining when no piece contains the delimiter's first
      character: the two are inverse on such pieces. */
  lemma {:induction false} SplitJoin(parts: seq<string>, d: string)
    requires |d| > 0 && |parts| >= 1
    requires forall i :: 0 <= i < |parts| ==> d[0] !in parts[i]
    ensures Split(Join(parts, d), d) == parts
  {
    if |parts| == 1 {
      SplitWithoutDelimiter(parts[0], d);
    } else {
      SplitJoin(parts[1..], d);
      SplitLeadingPiece(parts[0], d, Join(parts[1..], d));
    }
  }

  /** Cutting at a one-character delimiter leaves no piece containing it. */
  lemma {:induction false} SplitPiecesAvoid(s: string, d: string)
    requires |d| == 1
    ensures forall i :: 0 <= i < |Split(s, d)| ==> d[0] !in Split(s, d)[i]
    decreases |s|
  {
    if |s| > 0 {
      if s[..1] == d {
        SplitPiecesAvoid(s[1..], d);
      } else {
        assert s[0] != d[0] by { assert s[..1][0] == s[0]; }
        SplitPiecesAvoid(s[1..], d);
      }
    }
  }

  /** Removes the empty strings at the end of a list. */
  function DropTrailingEmpty(parts: seq<string>): (r: seq<string>)
    ensures |r| <= |parts| && r == parts[..|r|]
    ensures |r| > 0 ==> r[|r| - 1] != ""
    ensures forall i :: |r| <= i < |parts| ==> parts[i] == ""
  {
    if |parts| == 0 then []
    else if parts[|parts| - 1] == "" then DropTrailingEmpty(parts[..|parts| - 1])
    else parts
  }

  /** `s.split(regex)` with limit 0 for a literal delimiter: a string without the
      delimiter splits to itself, otherwise trailing empty pieces are removed. */
  function JavaSplit(s: string, d: string): (r: seq<string>)
    requires |d| > 0
    ensures |r| <= |Split(s, d)| && r == Split(s, d)[..|r|]
    ensures forall i :: |r| <= i < |Split(s, d)| ==> Split(s, d)[i] == ""
    ensures |Split(s, d)| > 1 && |r| > 0 ==> r[|r| - 1] != ""
    ensures |Split(s, d)| == 1 ==> r == Split(s, d)
  {
    var parts := Split(s, d);
    if |parts| == 1 then parts else DropTrailingEmpty(parts)
  }
}

