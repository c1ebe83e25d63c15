/**
 The reference meaning of a numeral for a target integer type, independent of
 how the parser computes it: an optional `+` or `-` followed by one or more
 decimal digits, whose mathematical value lies within the type's bounds. A
 leading `-` is refused outright for unsigned types, even in front of zero.
 Also the printing direction (`std::to_string`) the round trips are stated with.
 */
module Numerals {
  import opened Decimal
  import opened IntTypes

  datatype Option<T> = None | Some(value: T)

  predicate IsSign(c: char) {
    c == '+' || c == '-'
  }

  /** What follows an optional leading sign. */
  function DigitRun(s: seq<char>): seq<char>
    requires |s| > 0
  {
    if IsSign(s[0]) then s[1..] else s
  }

  /** `s` matches `[+-]?[0-9]+`. */
  predicate IsNumeral(s: seq<char>) {
    |s| > 0 && |DigitRun(s)| > 0 && AllDigits(DigitRun(s))
  }

  predicate IsNegative(s: seq<char>) {
    |s| > 0 && s[0] == '-'
  }

  /** The signed mathematical value of a numeral. */
  function MathValue(s: seq<char>): int
    requires IsNumeral(s)
  {
    var v: int := Value(DigitRun(s));
    if IsNegative(s) then -v else v
  }

  /** The value `s` denotes in type `t`, or `None` when the parse must fail. */
  function Denote(t: IntType, s: seq<char>): Option<int> {
    if IsNumeral(s) && !(IsNegative(s) && !t.signed) && InRange(t, MathValue(s))
    then Some(MathValue(s))
    else None
  }

  /** `std::to_string` of an integer. */
  function Format(n: int): (s: seq<char>)
    ensures IsNumeral(s) && MathValue(s) == n
  {
    ValueOfDigits(if n < 0 then -n else n);
    if n < 0 then ['-'] + Digits(-n) else Digits(n)
  }

  /** The shape `std::to_string` produces: no `+`, no leading zeros, no `-0`. */
  predicate IsCanonical(s: seq<char>) {
    |s| > 0 && s[0] != '+' && NoLeadingZero(DigitRun(s)) && s != "-0"
  }

  /** Round trip, print then parse: every in-range integer is read back exactly, nothing else is accepted. */
  lemma ParseFormat(t: IntType, n: int)
    requires WellFormed(t)
    ensures Denote(t, Format(n)) == if InRange(t, n) then Some(n) else None
  {
  }

  /** Round trip, parse then print: a canonical numeral that parses prints back as itself. */
  lemma FormatParse(t: IntType, s: seq<char>)
    requires IsCanonical(s) && Denote(t, s).Some?
    ensures Format(Denote(t, s).value) == s
  {
    var d := DigitRun(s);
    DigitsOfValue(d);
    if IsNegative(s) {
      assert d != "0";
      assert Value(d) != 0 by {
        if |d| == 1 {
          assert d[0] != '0';
        } else {
          ValuePositive(d);
        }
      }
      assert ['-'] + d == s;
    }
  }

  /** Any character other than a digit in the digit run, wherever it stands, makes the parse fail. */
  lemma NonDigitRejects(t: IntType, s: seq<char>, i: nat)
    requires 0 < |s| && i < |s| && !IsDigit(s[i])
    requires !(i == 0 && IsSign(s[0]))
    ensures Denote(t, s) == None
  {
    if IsSign(s[0]) {
      assert DigitRun(s)[i - 1] == s[i];
    } else {
      assert DigitRun(s)[i] == s[i];
    }
  }

  /** The empty input, a lone sign, and for unsigned types any leading `-`, fail. */
  lemma DegenerateInputsReject(t: IntType, s: seq<char>)
    requires |s| == 0 || s == "+" || s == "-" || (IsNegative(s) && !t.signed)
    ensures Denote(t, s) == None
  {
  }

  /** For a signed type, "-0" is a valid spelling of zero; for an unsigned type it is not. */
  lemma NegativeZero(t: IntType)
    requires WellFormed(t)
    ensures Denote(t, "-0") == if t.signed then Some(0) else None
  {
    assert DigitRun("-0") == "0";
  }

  /** Prefixing an optional sign to a string that does not start with one. */
  lemma SignedSplit(sign: seq<char>, x: seq<char>)
    requires sign == "" || sign == "+" || sign == "-"
    requires |x| > 0 && !IsSign(x[0])
    ensures |sign + x| > 0 && DigitRun(sign + x) == x
    ensures IsNegative(sign + x) <==> sign == "-"
  {
    if sign != "" {
      assert (sign + x)[1..] == x;
    }
  }

  /** Leading zeros of any length, after an optional sign, do not change the outcome. */
  lemma LeadingZerosIgnored(t: IntType, sign: seq<char>, z: seq<char>, d: seq<char>)
    requires sign == "" || sign == "+" || sign == "-"
    requires AllZeros(z) && |d| > 0 && AllDigits(d)
    ensures Denote(t, sign + z + d) == Denote(t, sign + d)
  {
    ValueLeadingZeros(z, d);
    var zd := z + d;
    assert zd[0] == (if |z| > 0 then z[0] else d[0]);
    assert sign + z + d == sign + zd;
    SignedSplit(sign, zd);
    SignedSplit(sign, d);
  }

  /** A run of zeros of any length parses as zero, in every type. */
  lemma ZerosAreZero(t: IntType, z: seq<char>)
    requires WellFormed(t) && |z| > 0 && AllZeros(z)
    ensures Denote(t, z) == Some(0)
  {
    ValueOfZeros(z);
    assert DigitRun(z) == z;
  }

  /** Both bounds of every type are accepted, and one unit beyond either bound is refused. */
  lemma Boundaries(t: IntType)
    requires WellFormed(t)
    ensures Denote(t, Format(t.max)) == Some(t.max)
    ensures Denote(t, Format(t.max + 1)) == None
    ensures Denote(t, Format(t.min)) == Some(t.min)
    ensures Denote(t, Format(t.min - 1)) == None
  {
    ParseFormat(t, t.max);
    ParseFormat(t, t.max + 1);
    ParseFormat(t, t.min);
    ParseFormat(t, t.min - 1);
  }
}
