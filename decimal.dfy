/**
 * Decimal text of whole numbers, as JavaScript template literals print them
 * (`${n}` for a non-negative integer `n` below 10^21, which JavaScript prints
 * in full), and the reading that undoes it.
 */
module Decimal {
  import opened Wrappers

  predicate IsDigit(c: char) {
    '0' <= c <= '9'
  }

  predicate AllDigits(s: string) {
    forall i :: 0 <= i < |s| ==> IsDigit(s[i])
  }

  function DigitChar(d: nat): (c: char)
    requires d < 10
    ensures IsDigit(c) && DigitValue(c) == d
  {
    ('0' as int + d) as char
  }

  function DigitValue(c: char): nat
    requires IsDigit(c)
  {
    c as int - '0' as int
  }

  /** The shortest decimal text of `n`: no sign, no leading zero (except for `0` itself). */
  function NatToString(n: nat): (s: string)
    ensures |s| > 0 && AllDigits(s)
    ensures s[0] == '0' ==> n == 0
    decreases n
  {
    if n < 10 then [DigitChar(n)] else NatToString(n / 10) + [DigitChar(n % 10)]
  }

  /** The number a string of digits denotes. */
  function Value(s: string): nat
    requires AllDigits(s)
    decreases |s|
  {
    if s == [] then 0 else Value(s[..|s| - 1]) * 10 + DigitValue(s[|s| - 1])
  }

  /** How many digits `s` starts with. */
  function LeadingDigits(s: string): (k: nat)
    ensures k <= |s| && AllDigits(s[..k])
    ensures k < |s| ==> !IsDigit(s[k])
  {
    if s == [] || !IsDigit(s[0]) then 0
    else
      var k := 1 + LeadingDigits(s[1..]);
      assert s[..k] == [s[0]] + s[1..][..k - 1];
      k
  }

  /** A digit run as `NatToString` prints it: non-empty, no leading zero unless it is `0` itself. */
  predicate Canonical(ds: string) {
    |ds| > 0 && AllDigits(ds) && (|ds| > 1 ==> ds[0] != '0')
  }

  /**
   * Reads the number at the front of `s` and returns it with the rest of `s`;
   * a run of digits with a leading zero is not read.
   */
  function ParseNat(s: string): Option<(nat, string)> {
    var k := LeadingDigits(s);
    if k == 0 || (k > 1 && s[0] == '0') then None else Some((Value(s[..k]), s[k..]))
  }

  lemma {:induction false} ValueOfNatToString(n: nat)
    ensures Value(NatToString(n)) == n
    decreases n
  {
    if n >= 10 {
      var s := NatToString(n);
      ValueOfNatToString(n / 10);
      assert s[..|s| - 1] == NatToString(n / 10);
    }
  }

  lemma {:induction false} LeadingDigitsOfDigits(s: string, rest: string)
    requires AllDigits(s)
    requires rest == [] || !IsDigit(rest[0])
    ensures LeadingDigits(s + rest) == |s|
    decreases |s|
  {
    if s != [] {
      assert (s + rest)[1..] == s[1..] + rest;
      LeadingDigitsOfDigits(s[1..], rest);
    }
  }

  /** Reading back the decimal text of `n`, followed by a non-digit, yields `n` and that remainder. */
  lemma ParseNatToString(n: nat, rest: string)
    requires rest == [] || !IsDigit(rest[0])
    ensures ParseNat(NatToString(n) + rest) == Some((n, rest))
  {
    var s := NatToString(n);
    LeadingDigitsOfDigits(s, rest);
    assert (s + rest)[..|s|] == s;
    assert |s| > 1 ==> s[0] != '0';
    assert (s + rest)[|s|..] == rest;
    ValueOfNatToString(n);
  }

  /** The only canonical digit run with value `n` is the decimal text of `n`. */
  lemma {:induction false} CanonicalIsNatToString(ds: string)
    requires Canonical(ds)
    ensures ds == NatToString(Value(ds))
    decreases |ds|
  {
    if |ds| == 1 {
      assert DigitChar(DigitValue(ds[0])) == ds[0];
    } else {
      var front := ds[..|ds| - 1];
      assert front[0] == ds[0];
      CanonicalIsNatToString(front);
      var n := Value(ds);
      var d := DigitValue(ds[|ds| - 1]);
      assert n == Value(front) * 10 + d;
      assert n / 10 == Value(front) && n % 10 == d;
      assert DigitChar(d) == ds[|ds| - 1];
      assert ds == front + [ds[|ds| - 1]];
    }
  }

  /** Whatever `ParseNat` reads is the decimal text of the number it returns. */
  lemma ParseNatExact(s: string, n: nat, rest: string)
    requires ParseNat(s) == Some((n, rest))
    ensures s == NatToString(n) + rest
    ensures rest == [] || !IsDigit(rest[0])
  {
    var k := LeadingDigits(s);
    CanonicalIsNatToString(s[..k]);
    assert s == s[..k] + s[k..];
  }

  /** Distinct numbers print as distinct texts. */
  lemma NatToStringInjective(a: nat, b: nat)
    ensures NatToString(a) == NatToString(b) ==> a == b
  {
    ValueOfNatToString(a);
    ValueOfNatToString(b);
  }
}
