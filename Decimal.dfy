/**
 * Decimal rendering of non-negative integers, as JavaScript template literals
 * do it (`${n}`) for integers below 10^21, and the two-number keys built from
 * it: innovation keys `i_o` and link ids `a-b`.
 */
module Decimal {

  predicate IsDigit(c: char) {
    '0' <= c <= '9'
  }

  predicate AllDigits(s: string) {
    forall k :: 0 <= k < |s| ==> IsDigit(s[k])
  }

  function DigitChar(d: nat): (c: char)
    requires d < 10
    ensures IsDigit(c) && (c as int) - ('0' as int) == d
  {
    (('0' as int) + d) as char
  }

  function DigitValue(c: char): (d: nat)
    requires IsDigit(c)
    ensures d < 10
  {
    (c as int) - ('0' as int)
  }

  /** The decimal text of `n`, without leading zeros. */
  function NatToString(n: nat): (s: string)
    ensures |s| > 0 && AllDigits(s)
    ensures n >= 10 ==> |s| >= 2
    ensures s[0] == '0' <==> n == 0
    decreases n
  {
    if n < 10 then [DigitChar(n)] else NatToString(n / 10) + [DigitChar(n % 10)]
  }

  /** Reads a string of digits back as a number. */
  function ParseNat(s: string): nat
    requires AllDigits(s)
    decreases |s|
  {
    if s == [] then 0 else 10 * ParseNat(s[..|s| - 1]) + DigitValue(s[|s| - 1])
  }

  /** Parsing undoes rendering. */
  lemma {:induction false} ParseNatToString(n: nat)
    ensures ParseNat(NatToString(n)) == n
    decreases n
  {
    if n >= 10 {
      var s := NatToString(n);
      assert s[..|s| - 1] == NatToString(n / 10);
      ParseNatToString(n / 10);
    }
  }

  /** Different numbers render differently. */
  lemma NatToStringInjective(a: nat, b: nat)
    ensures NatToString(a) == NatToString(b) ==> a == b
  {
    ParseNatToString(a);
    ParseNatToString(b);
  }

  /** The key `${a}${sep}${b}`. */
  function Join(a: nat, sep: char, b: nat): string {
    NatToString(a) + [sep] + NatToString(b)
  }

  /** Length of the longest all-digit prefix of `s`. */
  function DigitRun(s: string): (n: nat)
    ensures n <= |s|
  {
    if s != [] && IsDigit(s[0]) then 1 + DigitRun(s[1..]) else 0
  }

  /** In `x + [sep] + t` with `x` all digits and `sep` not a digit, the digit run ends at the separator. */
  lemma {:induction false} DigitRunStopsAtSeparator(x: string, sep: char, t: string)
    requires AllDigits(x) && !IsDigit(sep)
    ensures DigitRun(x + [sep] + t) == |x|
    decreases |x|
  {
    if x != [] {
      assert (x + [sep] + t)[1..] == x[1..] + [sep] + t;
      DigitRunStopsAtSeparator(x[1..], sep, t);
    }
  }

  /** With a separator that is not a digit, the two numbers can be read back from a key. */
  lemma JoinInjective(a: nat, b: nat, c: nat, d: nat, sep: char)
    requires !IsDigit(sep)
    ensures Join(a, sep, b) == Join(c, sep, d) ==> a == c && b == d
  {
    if Join(a, sep, b) == Join(c, sep, d) {
      var x, y := NatToString(a), NatToString(c);
      var s := Join(a, sep, b);
      DigitRunStopsAtSeparator(x, sep, NatToString(b));
      DigitRunStopsAtSeparator(y, sep, NatToString(d));
      assert x == s[..|x|] == y;
      assert NatToString(b) == s[|x| + 1..] == NatToString(d);
      NatToStringInjective(a, c);
      NatToStringInjective(b, d);
    }
  }
}
