/**
 The parser itself: the two digit-accumulation loops and the sign dispatch in
 front of them. The input span `[p, e)` is a character sequence; the result is
 the pair (value, valid). Values are mathematical integers, and every loop
 proves that the accumulator stays within the target type's bounds, so the
 fixed-width arithmetic of `atoi.h` never wraps.
 */
module Atoi {
  import opened Decimal
  import opened IntTypes
  import opened Cutoff
  import opened Numerals

  /**
   The downward accumulation has to stop at position `k` with accumulator
   `value`: the digits before `k` add up to `-value`, and `s[k]` is either not
   a digit or would take the next fold below `min`.
   */
  predicate NegativeStop(t: IntType, s: seq<char>, k: int, value: int) {
    && 0 <= k < |s|
    && AllDigits(s[..k])
    && value == -(Value(s[..k]) as int)
    && (!IsDigit(s[k]) || value * 10 - DigitValue(s[k]) < t.min)
  }

  /**
   The upward accumulation has to stop at position `k` with accumulator
   `value`: the digits before `k` add up to `value`, and `s[k]` is either not
   a digit or would take the next fold above `max`.
   */
  predicate PositiveStop(t: IntType, s: seq<char>, k: int, value: int) {
    && 0 <= k < |s|
    && AllDigits(s[..k])
    && value == Value(s[..k])
    && (!IsDigit(s[k]) || value * 10 + DigitValue(s[k]) > t.max)
  }

  /**
   Accumulates the digit run `s` downward (`result * 10 - digit`) toward the
   type's minimum. Fails on the first non-digit, and fails before the fold that
   would go below `min`, returning the accumulator as it stands.
   */
  method AtoiNegative(t: IntType, s: seq<char>) returns (value: int, valid: bool)
    requires WellFormed(t)
    requires |s| > 0
    ensures valid <==> AllDigits(s) && -(Value(s) as int) >= t.min
    ensures valid ==> value == -(Value(s) as int)
    ensures t.min <= value <= 0
    ensures !valid ==> exists k :: NegativeStop(t, s, k, value)
  {
    var cutoff := NegativeCutoff(t);
    var cutlim := NegativeCutlim(t);
    value := 0;
    var i := 0;
    while i < |s|
      invariant 0 <= i <= |s|
      invariant AllDigits(s[..i]) && value == -(Value(s[..i]) as int)
      invariant t.min <= value <= 0
    {
      var c := s[i];
      if !IsDigit(c) {
        assert NegativeStop(t, s, i, value);
        return value, false;
      }
      var d := DigitValue(c);
      assert AllDigits(s[..i + 1]) by { assert s[..i + 1] == s[..i] + [c]; }
      ValuePrefixStep(s, i + 1);
      if value < cutoff || (value == cutoff && d > cutlim) {
        NegativeCutoffExact(t, value, d);
        if AllDigits(s) {
          ValuePrefixLe(s, i + 1);
        }
        assert NegativeStop(t, s, i, value);
        return value, false;
      }
      NegativeFoldInRange(t, value, d);
      value := value * 10 - d;
      i := i + 1;
    }
    assert s[..i] == s;
    valid := true;
  }

  /**
   Accumulates the digit run `s` upward (`result * 10 + digit`) toward the
   type's maximum. Fails on the first non-digit, and fails before the fold that
   would exceed `max`, returning the accumulator as it stands.
   */
  method AtoiPositive(t: IntType, s: seq<char>) returns (value: int, valid: bool)
    requires WellFormed(t)
    requires |s| > 0
    ensures valid <==> AllDigits(s) && Value(s) <= t.max
    ensures valid ==> value == Value(s)
    ensures 0 <= value <= t.max
    ensures !valid ==> exists k :: PositiveStop(t, s, k, value)
  {
    var cutoff := PositiveCutoff(t);
    var cutlim := PositiveCutlim(t);
    value := 0;
    var i := 0;
    while i < |s|
      invariant 0 <= i <= |s|
      invariant AllDigits(s[..i]) && value == Value(s[..i])
      invariant 0 <= value <= t.max
    {
      var c := s[i];
      if !IsDigit(c) {
        assert PositiveStop(t, s, i, value);
        return value, false;
      }
      var d := DigitValue(c);
      assert AllDigits(s[..i + 1]) by { assert s[..i + 1] == s[..i] + [c]; }
      ValuePrefixStep(s, i + 1);
      if value > cutoff || (value == cutoff && d > cutlim) {
        PositiveCutoffExact(t, value, d);
        if AllDigits(s) {
          ValuePrefixLe(s, i + 1);
        }
        assert PositiveStop(t, s, i, value);
        return value, false;
      }
      PositiveFoldInRange(t, value, d);
      value := value * 10 + d;
      i := i + 1;
    }
    assert s[..i] == s;
    valid := true;
  }

  /**
   The entry point: rejects the empty input, handles one optional leading sign
   and hands the digit run to the matching accumulation loop. The outcome is
   exactly the reference meaning `Denote`; on the early rejections the value is
   `T()`, that is zero.
   */
  method Parse(t: IntType, s: seq<char>) returns (value: int, valid: bool)
    requires WellFormed(t)
    ensures valid <==> Denote(t, s).Some?
    ensures valid ==> value == Denote(t, s).value
    ensures InRange(t, value)
    ensures |s| == 0 || s == "+" || s == "-" || (s[0] == '-' && !t.signed) ==> value == 0
  {
    if |s| == 0 {
      return 0, false;
    }
    var p := 0;
    if s[0] == '-' {
      if !t.signed {
        return 0, false;
      }
      p := p + 1;
      if p == |s| {
        return 0, false;
      }
      value, valid := AtoiNegative(t, s[p..]);
      return;
    } else if s[0] == '+' {
      p := p + 1;
      if p == |s| {
        return 0, false;
      }
    }
    value, valid := AtoiPositive(t, s[p..]);
  }
}
