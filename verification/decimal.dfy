/**
 Decimal rendering of unsigned integers, as the `itoa` crate writes them:
 base ten, no sign, no leading zeros, "0" for zero.
 */
module Decimal {

  predicate IsDigit(c: char) {
    '0' <= c <= '9'
  }

  predicate AllDigits(s: string) {
    forall i :: 0 <= i < |s| ==> IsDigit(s[i])
  }

  /** A canonical numeral: non-empty, digits only, no leading zero unless it is "0". */
  predicate Canonical(s: string) {
    && 1 <= |s|
    && AllDigits(s)
    && (s[0] == '0' ==> |s| == 1)
  }

  function DigitChar(d: nat): (c: char)
    requires d < 10
    ensures IsDigit(c)
  {
    ('0' as int + d) as char
  }

  function DigitValue(c: char): (d: nat)
    requires IsDigit(c)
    ensures d < 10
    ensures DigitChar(d) == c
  {
    c as int - '0' as int
  }

  /** The text `itoa::Buffer::format(n)` produces. */
  function Format(n: nat): (s: string)
    ensures Canonical(s)
    ensures s[0] == '0' <==> n == 0
  {
    if n < 10 then [DigitChar(n)] else Format(n / 10) + [DigitChar(n % 10)]
  }

  /** The number a string of digits denotes (the reading direction of `Format`). */
  function Value(s: string): nat
    requires AllDigits(s)
  {
    if |s| == 0 then 0 else 10 * Value(s[..|s| - 1]) + DigitValue(s[|s| - 1])
  }

  /** Reading back a rendered number gives the number. */
  lemma {:induction false} ValueOfFormat(n: nat)
    ensures Value(Format(n)) == n
  {
    if n >= 10 {
      var s := Format(n);
      assert s[..|s| - 1] == Format(n / 10);
      ValueOfFormat(n / 10);
    }
  }

  /** A numeral whose first digit is not '0' denotes a positive number. */
  lemma {:induction false} ValuePositive(s: string)
    requires 1 <= |s| && AllDigits(s) && s[0] != '0'
    ensures Value(s) >= 1
  {
    if |s| > 1 {
      ValuePositive(s[..|s| - 1]);
    }
  }

  /** Rendering the value of a canonical numeral gives the numeral back. */
  lemma {:induction false} FormatOfValue(s: string)
    requires Canonical(s)
    ensures Format(Value(s)) == s
  {
    if |s| > 1 {
      var p := s[..|s| - 1];
      assert Canonical(p);
      ValuePositive(p);
      FormatOfValue(p);
      var d := DigitValue(s[|s| - 1]);
      assert Value(s) / 10 == Value(p) && Value(s) % 10 == d;
      assert s == p + [s[|s| - 1]];
    }
  }

  /** Distinct numbers render to distinct text. */
  lemma FormatInjective(a: nat, b: nat)
    ensures Format(a) == Format(b) <==> a == b
  {
    if Format(a) == Format(b) {
      ValueOfFormat(a);
      ValueOfFormat(b);
    }
  }

  /**
   A rendered number followed by text that does not start with a digit can
   be split in only one way: the number and the rest are both determined.
   */
  lemma FormatPrefixUnique(a: nat, restA: string, b: nat, restB: string)
    requires restA == [] || !IsDigit(restA[0])
    requires restB == [] || !IsDigit(restB[0])
    requires Format(a) + restA == Format(b) + restB
    ensures a == b && restA == restB
  {
    var fa, fb := Format(a), Format(b);
    var s := fa + restA;
    // Both renderings are exactly the maximal run of digits at the front of s.
    assert forall i :: 0 <= i < |fa| ==> IsDigit(s[i]);
    assert forall i :: 0 <= i < |fb| ==> IsDigit(s[i]);
    assert |fa| == |s| || !IsDigit(s[|fa|]);
    assert |fb| == |s| || !IsDigit(s[|fb|]);
    assert fa == s[..|fa|] == fb;
    FormatInjective(a, b);
    assert restA == s[|fa|..] == restB;
  }
}
