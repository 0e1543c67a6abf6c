// Character-string helpers shared by the modules below: Python's "%d"
// rendering of integers, its inverse on digit strings, "sep".join(...) and
// str.endswith.  Strings are sequences of Unicode characters, as in Python 3.

module Text {

  datatype Option<+T> = None | Some(value: T)

  /** The value of a call, or the exception it raises. */
  datatype Result<+T> = Ok(value: T) | Failure(error: string)

  predicate IsDigit(c: char) {
    '0' <= c <= '9'
  }

  predicate AllDigits(s: string) {
    forall i :: 0 <= i < |s| ==> IsDigit(s[i])
  }

  function DigitChar(d: nat): (c: char)
    requires d < 10
    ensures IsDigit(c) && c as int - '0' as int == d
  {
    (d + '0' as int) as char
  }

  function DigitValue(c: char): (d: nat)
    requires IsDigit(c)
    ensures d < 10 && DigitChar(d) == c
  {
    c as int - '0' as int
  }

  /** "%d" % n for a non-negative n: the shortest decimal numeral of n. */
  function NatToString(n: nat): (s: string)
    ensures 0 < |s| && AllDigits(s)
    ensures s[0] == '0' ==> n == 0
  {
    if n < 10 then [DigitChar(n)] else NatToString(n / 10) + [DigitChar(n % 10)]
  }

  /** "%d" % i: a minus sign in front of the numeral of -i when i is negative. */
  function IntToString(i: int): (s: string)
    ensures 0 < |s|
    ensures forall k :: 0 <= k < |s| ==> IsDigit(s[k]) || (k == 0 && s[k] == '-')
    ensures s[0] == '-' <==> i < 0
  {
    if i < 0 then "-" + NatToString(-i) else NatToString(i)
  }

  /** The value of a string of decimal digits, most significant first. */
  function DigitsToNat(s: string): nat
    requires AllDigits(s)
  {
    if s == [] then 0 else DigitsToNat(s[..|s| - 1]) * 10 + DigitValue(s[|s| - 1])
  }

  lemma {:induction false} NatToStringRoundTrip(n: nat)
    ensures DigitsToNat(NatToString(n)) == n
  {
    if n >= 10 {
      var s := NatToString(n);
      assert s[..|s| - 1] == NatToString(n / 10);
      NatToStringRoundTrip(n / 10);
    }
  }

  function Pow10(n: nat): (p: nat)
    ensures p >= 1
  {
    if n == 0 then 1 else 10 * Pow10(n - 1)
  }

  /** "%0*d" % (w, n): n in exactly w decimal digits, zero-padded on the left. */
  function PaddedDigits(n: nat, w: nat): (s: string)
    ensures |s| == w && AllDigits(s)
  {
    if w == 0 then "" else PaddedDigits(n / 10, w - 1) + [DigitChar(n % 10)]
  }

  /** A digit string of length n stands for a number below 10^n. */
  lemma {:induction false} DigitsToNatBound(s: string)
    requires AllDigits(s)
    ensures DigitsToNat(s) < Pow10(|s|)
  {
    if s != [] {
      DigitsToNatBound(s[..|s| - 1]);
    }
  }

  /** Reading a + b: the digits of a are worth 10^|b| times their face value. */
  lemma {:induction false} DigitsToNatAppend(a: string, b: string)
    requires AllDigits(a) && AllDigits(b)
    ensures AllDigits(a + b)
    ensures DigitsToNat(a + b) == DigitsToNat(a) * Pow10(|b|) + DigitsToNat(b)
  {
    if b != [] {
      var b' := b[..|b| - 1];
      assert (a + b)[..|a + b| - 1] == a + b';
      DigitsToNatAppend(a, b');
      assert DigitsToNat(a + b) == DigitsToNat(a + b') * 10 + DigitValue(b[|b| - 1]);
      assert DigitsToNat(b) == DigitsToNat(b') * 10 + DigitValue(b[|b| - 1]);
      assert Pow10(|b|) == 10 * Pow10(|b'|);
      ShiftDigit(DigitsToNat(a), Pow10(|b'|), DigitsToNat(b'), DigitValue(b[|b| - 1]));
    } else {
      assert a + b == a;
    }
  }

  lemma ShiftDigit(x: int, p: int, y: int, d: int)
    ensures (x * p + y) * 10 + d == x * (10 * p) + (y * 10 + d)
  {
    assert (x * p) * 10 == x * (p * 10);
  }

  /** Padding a number below 10^w to w digits and reading it back gives the number. */
  lemma {:induction false} PaddedDigitsRoundTrip(n: nat, w: nat)
    requires n < Pow10(w)
    ensures DigitsToNat(PaddedDigits(n, w)) == n
  {
    if w > 0 {
      var s := PaddedDigits(n, w);
      assert s[..|s| - 1] == PaddedDigits(n / 10, w - 1);
      PaddedDigitsRoundTrip(n / 10, w - 1);
    }
  }

  /** A digit string is the padded rendering of its own value. */
  lemma {:induction false} PaddedDigitsOfValue(s: string)
    requires AllDigits(s)
    ensures PaddedDigits(DigitsToNat(s), |s|) == s
  {
    if s != [] {
      var p := s[..|s| - 1];
      var n := DigitsToNat(s);
      assert n / 10 == DigitsToNat(p) && n % 10 == DigitValue(s[|s| - 1]);
      PaddedDigitsOfValue(p);
      assert s == p + [s[|s| - 1]];
    }
  }

  /** Distinct integers are rendered as distinct strings. */
  lemma IntToStringInjective(a: int, b: int)
    requires IntToString(a) == IntToString(b)
    ensures a == b
  {
    if a < 0 && b < 0 {
      assert NatToString(-a) == IntToString(a)[1..] == IntToString(b)[1..] == NatToString(-b);
      NatToStringRoundTrip(-a);
      NatToStringRoundTrip(-b);
    } else if a >= 0 && b >= 0 {
      NatToStringRoundTrip(a);
      NatToStringRoundTrip(b);
    }
  }

  /** sep.join(parts) */
  function Join(parts: seq<string>, sep: string): (r: string)
    ensures parts == [] ==> r == ""
    ensures |parts| == 1 ==> r == parts[0]
  {
    if parts == [] then ""
    else if |parts| == 1 then parts[0]
    else parts[0] + sep + Join(parts[1..], sep)
  }

  predicate EndsWith(s: string, suffix: string) {
    |suffix| <= |s| && s[|s| - |suffix|..] == suffix
  }

  predicate StartsWith(s: string, prefix: string) {
    |prefix| <= |s| && s[..|prefix|] == prefix
  }
}
