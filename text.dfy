/** Text rendering shared by the harness: the decimal form that `operator<<` of a
    `std::stringstream` gives an integer, and the facts about separator characters
    that let a rendered line be split back into its parts. */
module Text {

  predicate IsDigit(c: char) {
    '0' <= c <= '9'
  }

  predicate AllDigits(s: string) {
    forall k :: 0 <= k < |s| ==> IsDigit(s[k])
  }

  /** `c` does not occur in `s`. */
  predicate Free(s: string, c: char) {
    forall k :: 0 <= k < |s| ==> s[k] != c
  }

  function DigitChar(d: nat): (c: char)
    requires d < 10
    ensures IsDigit(c) && DigitValue(c) == d
  {
    (48 + d) as char
  }

  function DigitValue(c: char): (d: nat)
    requires IsDigit(c)
    ensures d < 10
  {
    (c as int) - 48
  }

  /** Decimal rendering of an unsigned count (`size_t`): digits only, never empty,
      and a leading zero only for zero itself. */
  function NatToString(n: nat): (s: string)
    ensures |s| >= 1 && AllDigits(s)
    ensures s[0] == '0' <==> n == 0
  {
    if n < 10 then [DigitChar(n)] else NatToString(n / 10) + [DigitChar(n % 10)]
  }

  /** Decimal rendering of a signed `int`: a minus sign exactly for negative values,
      then at least one digit, with a leading zero only for zero itself. */
  function IntToString(i: int): (s: string)
    ensures |s| >= 1
    ensures s[0] == '-' <==> i < 0
    ensures AllDigits(if i < 0 then s[1..] else s)
    ensures var digits := if i < 0 then s[1..] else s;
            |digits| >= 1 && (digits[0] == '0' <==> i == 0)
  {
    if i < 0 then "-" + NatToString(-i) else NatToString(i)
  }

  /** The value of a string of decimal digits; the inverse of NatToString. */
  function ParseNat(s: string): nat
    requires AllDigits(s)
  {
    if s == [] then 0 else 10 * ParseNat(s[..|s| - 1]) + DigitValue(s[|s| - 1])
  }

  /** The value of an optionally signed decimal string; the inverse of IntToString. */
  function ParseInt(s: string): (i: int)
    requires |s| >= 1
    requires AllDigits(if s[0] == '-' then s[1..] else s)
  {
    if s[0] == '-' then 0 - ParseNat(s[1..]) as int else ParseNat(s)
  }

  lemma {:induction false} ParseNatToString(n: nat)
    ensures ParseNat(NatToString(n)) == n
  {
    var s := NatToString(n);
    if n >= 10 {
      assert s[..|s| - 1] == NatToString(n / 10);
      ParseNatToString(n / 10);
    }
  }

  lemma ParseIntToString(i: int)
    ensures ParseInt(IntToString(i)) == i
  {
    if i < 0 {
      ParseIntOfSigned(-i);
    } else {
      ParseNatToString(i);
    }
  }

  /** A minus sign before the digits of `n` reads back as `-n`. */
  lemma ParseIntOfSigned(n: nat)
    ensures var s := "-" + NatToString(n); AllDigits(s[1..]) && ParseInt(s) == 0 - n as int
  {
    var s := "-" + NatToString(n);
    assert s[1..] == NatToString(n);
    ParseNatToString(n);
  }

  lemma IntToStringInjective(i: int, j: int)
    ensures IntToString(i) == IntToString(j) <==> i == j
  {
    ParseIntToString(i);
    ParseIntToString(j);
  }

  lemma NatToStringInjective(m: nat, n: nat)
    ensures NatToString(m) == NatToString(n) <==> m == n
  {
    ParseNatToString(m);
    ParseNatToString(n);
  }

  /** A rendered number contains no space, comma or quote, so those characters can
      separate it from the text that follows. */
  lemma NumbersAreFree(i: int, n: nat, c: char)
    requires c == ' ' || c == ',' || c == '\''
    ensures Free(IntToString(i), c) && Free(NatToString(n), c)
  {
  }

  /** The position of the first `c` in `s`, or `|s|` if there is none. */
  function IndexOf(s: string, c: char): (k: nat)
    ensures k <= |s|
    ensures k < |s| ==> s[k] == c
    ensures Free(s[..k], c)
  {
    if s == [] then 0
    else if s[0] == c then 0
    else 1 + IndexOf(s[1..], c)
  }

  lemma {:induction false} IndexOfAfterFree(a: string, x: string, c: char)
    requires Free(a, c) && |x| > 0 && x[0] == c
    ensures IndexOf(a + x, c) == |a|
  {
    if a == [] {
      assert a + x == x;
    } else {
      assert (a + x)[1..] == a[1..] + x;
      IndexOfAfterFree(a[1..], x, c);
    }
  }

  /** Two texts that each consist of a `c`-free part followed by a part starting with
      `c` are equal only when both parts are. */
  lemma SplitAt(a: string, x: string, b: string, y: string, c: char)
    requires Free(a, c) && Free(b, c)
    requires |x| > 0 && x[0] == c && |y| > 0 && y[0] == c
    requires a + x == b + y
    ensures a == b && x == y
  {
    IndexOfAfterFree(a, x, c);
    IndexOfAfterFree(b, y, c);
    assert a == (a + x)[..|a|];
    assert b == (b + y)[..|b|];
    assert x == (a + x)[|a|..];
    assert y == (b + y)[|b|..];
  }

  /** Equal texts that start with the same prefix are equal after it. */
  lemma DropPrefix(p: string, x: string, y: string)
    requires p + x == p + y
    ensures x == y
  {
    assert x == (p + x)[|p|..];
    assert y == (p + y)[|p|..];
  }

  /** Equal texts that end with the same suffix are equal before it. */
  lemma DropSuffix(x: string, y: string, q: string)
    requires x + q == y + q
    ensures x == y
  {
    assert x == (x + q)[..|x|];
    assert y == (y + q)[..|y|];
  }
}
