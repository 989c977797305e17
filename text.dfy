/** The .NET string operations the content core relies on: `IndexOf(char)`
    and `int.ToString()`. Culture-aware case-insensitive comparison is
    passed to the lookups that use it as a parameter. */
module Text {

  /** `s.IndexOf(c)`: the first index of `c` in `s`, or -1. */
  function IndexOf(s: string, c: char): (r: int)
    ensures -1 <= r < |s|
    ensures r == -1 <==> c !in s
    ensures r >= 0 ==> s[r] == c && c !in s[..r]
  {
    if |s| == 0 then -1
    else if s[0] == c then 0
    else
      var k := IndexOf(s[1..], c);
      assert k >= 0 ==> s[..k + 1] == [s[0]] + s[1..][..k];
      if k == -1 then -1 else k + 1
  }

  /** Where the first `c` of `x + y` is, when `x` holds no `c` and `y` starts with one. */
  lemma {:induction false} IndexOfAfterPrefix(x: string, y: string, c: char)
    requires c !in x && |y| > 0 && y[0] == c
    ensures IndexOf(x + y, c) == |x|
  {
    var s := x + y;
    assert c in s by { assert s[|x|] == c; }
    var r := IndexOf(s, c);
    assert s[..|x|] == x;
    assert forall i :: 0 <= i < |x| ==> s[i] == x[i];
  }

  function DigitChar(d: nat): char
    requires d < 10
  {
    "0123456789"[d]
  }

  function DigitValue(c: char): nat
  {
    if '0' <= c <= '9' then (c as int - '0' as int) as nat else 0
  }

  predicate IsDigits(s: string)
  {
    forall i :: 0 <= i < |s| ==> '0' <= s[i] <= '9'
  }

  /** The decimal digits of `n`, most significant first, no leading zeros. */
  function NatToString(n: nat): (s: string)
    ensures |s| > 0 && IsDigits(s)
  {
    if n < 10 then [DigitChar(n)] else NatToString(n / 10) + [DigitChar(n % 10)]
  }

  /** `int.ToString()` in the invariant culture. */
  function IntToString(n: int): (s: string)
    ensures |s| > 0
    ensures n >= 0 ==> IsDigits(s)
    ensures n < 0 ==> s[0] == '-' && IsDigits(s[1..])
  {
    if n < 0 then "-" + NatToString(-n) else NatToString(n)
  }

  function ParseDigits(s: string): nat
  {
    if |s| == 0 then 0 else ParseDigits(s[..|s| - 1]) * 10 + DigitValue(s[|s| - 1])
  }

  /** `int.Parse` on the strings `IntToString` produces. */
  function ParseInt(s: string): int
  {
    if |s| > 0 && s[0] == '-' then 0 - ParseDigits(s[1..]) else ParseDigits(s)
  }

  lemma {:induction false} NatToStringRoundTrip(n: nat)
    ensures ParseDigits(NatToString(n)) == n
  {
    if n >= 10 {
      NatToStringRoundTrip(n / 10);
      var s := NatToString(n);
      assert s[..|s| - 1] == NatToString(n / 10);
    }
  }

  /** Decimal rendering of an id can be read back, so it determines the id. */
  lemma {:induction false} IntToStringRoundTrip(n: int)
    ensures ParseInt(IntToString(n)) == n
  {
    if n < 0 {
      NegativeToStringRoundTrip(n);
    } else {
      NatToStringRoundTrip(n);
      var t := NatToString(n);
      assert '0' <= t[0] <= '9';
    }
  }

  lemma {:induction false} NegativeToStringRoundTrip(n: int)
    requires n < 0
    ensures ParseInt(IntToString(n)) == n
  {
    var m: nat := -n;
    NegatedRoundTrip(m);
    assert IntToString(n) == "-" + NatToString(m);
  }

  lemma {:induction false} NegatedRoundTrip(m: nat)
    ensures ParseInt("-" + NatToString(m)) == 0 - m
  {
    NatToStringRoundTrip(m);
    NegativeRoundTrip(NatToString(m));
  }

  lemma NegativeRoundTrip(t: string)
    ensures ParseInt("-" + t) == 0 - ParseDigits(t)
  {
    assert ("-" + t)[1..] == t;
  }

  lemma IntToStringInjective(a: int, b: int)
    requires IntToString(a) == IntToString(b)
    ensures a == b
  {
    IntToStringRoundTrip(a);
    IntToStringRoundTrip(b);
  }

  /** Splitting at the first occurrence of a separator character is unambiguous. */
  lemma {:induction false} SplitAtSeparator(x: string, y: string, x': string, y': string, c: char)
    requires c !in x && c !in x'
    requires x + [c] + y == x' + [c] + y'
    ensures x == x' && y == y'
  {
    assert x + [c] + y == x + ([c] + y);
    assert x' + [c] + y' == x' + ([c] + y');
    IndexOfAfterPrefix(x, [c] + y, c);
    IndexOfAfterPrefix(x', [c] + y', c);
    SameLengthSplit(x, [c] + y, x', [c] + y');
    assert y == ([c] + y)[1..];
  }

  lemma SameLengthSplit(a: string, b: string, a': string, b': string)
    requires a + b == a' + b' && |a| == |a'|
    ensures a == a' && b == b'
  {
    assert a == (a + b)[..|a|];
    assert a' == (a' + b')[..|a'|];
    assert b == (a + b)[|a|..];
    assert b' == (a' + b')[|a'|..];
  }

  /** A decimal number holds only digits and a minus sign. */
  lemma NumberHasOnlyDigits(n: int, c: char)
    requires c != '-' && !('0' <= c <= '9')
    ensures c !in IntToString(n)
  {
    var s := IntToString(n);
    if n < 0 {
      assert forall i :: 1 <= i < |s| ==> s[i] == s[1..][i - 1];
    }
  }
}
