/**
 Base-10 digit strings: the value of a run of ASCII digits, and the shortest
 digit string of a natural number (what `std::to_string` prints for it).
 */
module Decimal {

  predicate IsDigit(c: char) {
    '0' <= c <= '9'
  }

  /** The digit a character stands for; the parser's `c -= '0'`. */
  function DigitValue(c: char): (d: nat)
    requires IsDigit(c)
    ensures d <= 9
  {
    (c as int) - ('0' as int)
  }

  /** The character of a single digit. */
  function DigitChar(d: nat): (c: char)
    requires d <= 9
    ensures IsDigit(c) && DigitValue(c) == d
  {
    (('0' as int) + d) as char
  }

  predicate AllDigits(s: seq<char>) {
    forall i :: 0 <= i < |s| ==> IsDigit(s[i])
  }

  predicate AllZeros(s: seq<char>) {
    forall i :: 0 <= i < |s| ==> s[i] == '0'
  }

  /** A digit string without superfluous leading zeros ("0" itself is fine). */
  predicate NoLeadingZero(s: seq<char>) {
    |s| >= 1 && (|s| == 1 || s[0] != '0')
  }

  /** The mathematical value of a digit string, most significant digit first; "" denotes 0. */
  function Value(s: seq<char>): nat
    requires AllDigits(s)
  {
    if |s| == 0 then 0 else Value(s[..|s| - 1]) * 10 + DigitValue(s[|s| - 1])
  }

  /** The shortest decimal representation of `n`. */
  function Digits(n: nat): (s: seq<char>)
    ensures AllDigits(s) && NoLeadingZero(s)
  {
    if n < 10 then [DigitChar(n)] else Digits(n / 10) + [DigitChar(n % 10)]
  }

  /** Appending a digit multiplies the value by ten and adds the digit. */
  lemma ValueSnoc(s: seq<char>, c: char)
    requires AllDigits(s) && IsDigit(c)
    ensures AllDigits(s + [c]) && Value(s + [c]) == Value(s) * 10 + DigitValue(c)
  {
    assert (s + [c])[..|s|] == s;
  }

  /** The value of a prefix one digit longer. */
  lemma ValuePrefixStep(s: seq<char>, k: nat)
    requires 1 <= k <= |s| && AllDigits(s[..k])
    ensures Value(s[..k]) == Value(s[..k - 1]) * 10 + DigitValue(s[k - 1])
  {
    assert s[..k][..k - 1] == s[..k - 1];
  }

  /** Reading back the printed digits of `n` gives `n`. */
  lemma {:induction false} ValueOfDigits(n: nat)
    ensures Value(Digits(n)) == n
  {
    if n >= 10 {
      ValueOfDigits(n / 10);
      ValueSnoc(Digits(n / 10), DigitChar(n % 10));
    }
  }

  /** A digit string with a non-zero first digit has a positive value. */
  lemma {:induction false} ValuePositive(s: seq<char>)
    requires AllDigits(s) && |s| >= 1 && s[0] != '0'
    ensures Value(s) >= 1
  {
    if |s| > 1 {
      ValuePositive(s[..|s| - 1]);
    }
  }

  /** Printing the value of a digit string without leading zeros gives the string back. */
  lemma {:induction false} DigitsOfValue(s: seq<char>)
    requires AllDigits(s) && NoLeadingZero(s)
    ensures Digits(Value(s)) == s
  {
    var last := s[|s| - 1];
    assert DigitChar(DigitValue(last)) == last;
    if |s| > 1 {
      var p := s[..|s| - 1];
      ValuePositive(p);
      DigitsOfValue(p);
      assert Value(s) / 10 == Value(p) && Value(s) % 10 == DigitValue(last);
      assert p + [last] == s;
    }
  }

  /** A prefix of a digit string never has a larger value than the whole string. */
  lemma {:induction false} ValuePrefixLe(s: seq<char>, k: nat)
    requires AllDigits(s) && k <= |s|
    ensures Value(s[..k]) <= Value(s)
    decreases |s| - k
  {
    if k < |s| {
      var p := s[..|s| - 1];
      assert p[..k] == s[..k];
      ValuePrefixLe(p, k);
      assert Value(p) <= Value(p) * 10 + DigitValue(s[|s| - 1]) == Value(s);
    } else {
      assert s[..k] == s;
    }
  }

  /** A run of zeros has value zero, whatever its length. */
  lemma {:induction false} ValueOfZeros(z: seq<char>)
    requires AllZeros(z)
    ensures AllDigits(z) && Value(z) == 0
  {
    if |z| > 0 {
      ValueOfZeros(z[..|z| - 1]);
    }
  }

  /** Leading zeros do not change the value of a digit string. */
  lemma {:induction false} ValueLeadingZeros(z: seq<char>, s: seq<char>)
    requires AllZeros(z) && AllDigits(s)
    ensures AllDigits(z + s) && Value(z + s) == Value(s)
  {
    ValueOfZeros(z);
    if |s| == 0 {
      assert z + s == z;
    } else {
      var p := s[..|s| - 1];
      ValueLeadingZeros(z, p);
      assert z + s == (z + p) + [s[|s| - 1]];
      ValueSnoc(z + p, s[|s| - 1]);
    }
  }
}
