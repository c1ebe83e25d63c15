/**
 The decimal digits of the magnitude of the most negative 64-bit value and of
 the integer one beyond it, read as numbers. Both share their first eighteen
 digits, which are read once.
 */
module Int64Digits {
  import opened Decimal

  /** The eighteen digits both magnitudes start with, character by character. */
  lemma SharedPrefixChars0(p: seq<char>)
    requires p == "922337203685477580"
    ensures |p| == 18 && AllDigits(p)
    ensures p[0] == '9' && p[1] == '2' && p[2] == '2' && p[3] == '3' && p[4] == '3'
  {
  }

  lemma SharedPrefixChars5(p: seq<char>)
    requires p == "922337203685477580"
    ensures p[5] == '7' && p[6] == '2' && p[7] == '0' && p[8] == '3' && p[9] == '6'
  {
  }

  lemma SharedPrefixChars10(p: seq<char>)
    requires p == "922337203685477580"
    ensures p[10] == '8' && p[11] == '5' && p[12] == '4' && p[13] == '7'
  {
  }

  lemma SharedPrefixChars14(p: seq<char>)
    requires p == "922337203685477580"
    ensures p[14] == '7' && p[15] == '5' && p[16] == '8' && p[17] == '0'
  {
  }

  /** The eighteen digits both magnitudes start with, read digit by digit. */
  lemma ValueOfSharedPrefix(p: seq<char>)
    requires p == "922337203685477580"
    ensures AllDigits(p) && Value(p) == 922337203685477580
  {
    SharedPrefixChars0(p);
    SharedPrefixChars5(p);
    SharedPrefixChars10(p);
    SharedPrefixChars14(p);
    SharedPrefixValue(p);
  }

  lemma SharedPrefixValue(p: seq<char>)
    requires |p| == 18 && AllDigits(p)
    requires p[0] == '9' && p[1] == '2' && p[2] == '2' && p[3] == '3' && p[4] == '3' && p[5] == '7' && p[6] == '2' && p[7] == '0' && p[8] == '3' && p[9] == '6' && p[10] == '8' && p[11] == '5' && p[12] == '4' && p[13] == '7' && p[14] == '7' && p[15] == '5' && p[16] == '8' && p[17] == '0'
    ensures Value(p) == 922337203685477580
  {
    assert Value(p[..1]) == 9;
    assert Value(p[..2]) == 92 by { ValuePrefixStep(p, 2); }
    assert Value(p[..3]) == 922 by { ValuePrefixStep(p, 3); }
    assert Value(p[..4]) == 9223 by { ValuePrefixStep(p, 4); }
    assert Value(p[..5]) == 92233 by { ValuePrefixStep(p, 5); }
    assert Value(p[..6]) == 922337 by { ValuePrefixStep(p, 6); }
    assert Value(p[..7]) == 9223372 by { ValuePrefixStep(p, 7); }
    assert Value(p[..8]) == 92233720 by { ValuePrefixStep(p, 8); }
    assert Value(p[..9]) == 922337203 by { ValuePrefixStep(p, 9); }
    assert Value(p[..10]) == 9223372036 by { ValuePrefixStep(p, 10); }
    assert Value(p[..11]) == 92233720368 by { ValuePrefixStep(p, 11); }
    assert Value(p[..12]) == 922337203685 by { ValuePrefixStep(p, 12); }
    assert Value(p[..13]) == 9223372036854 by { ValuePrefixStep(p, 13); }
    assert Value(p[..14]) == 92233720368547 by { ValuePrefixStep(p, 14); }
    assert Value(p[..15]) == 922337203685477 by { ValuePrefixStep(p, 15); }
    assert Value(p[..16]) == 9223372036854775 by { ValuePrefixStep(p, 16); }
    assert Value(p[..17]) == 92233720368547758 by { ValuePrefixStep(p, 17); }
    assert Value(p[..18]) == 922337203685477580 by { ValuePrefixStep(p, 18); }
    assert p[..18] == p;
  }

  /** The magnitude of the most negative 64-bit value, read digit by digit. */
  lemma ValueOfInt64MinMagnitude(d: seq<char>)
    requires d == "9223372036854775808"
    ensures AllDigits(d) && Value(d) == 9223372036854775808
  {
    var p := d[..18];
    assert p == "922337203685477580" && d == p + [d[18]] && d[18] == '8';
    ValueOfSharedPrefix(p);
    ValueSnoc(p, d[18]);
  }

  /** One more than that magnitude, read digit by digit. */
  lemma ValueBeyondInt64MinMagnitude(d: seq<char>)
    requires d == "9223372036854775809"
    ensures AllDigits(d) && Value(d) == 9223372036854775809
  {
    var p := d[..18];
    assert p == "922337203685477580" && d == p + [d[18]] && d[18] == '9';
    ValueOfSharedPrefix(p);
    ValueSnoc(p, d[18]);
  }
}

/**
 The 64-bit signed boundary the negative accumulation path exists for: the most
 negative value has no positive counterpart in the same width, yet its numeral
 is accepted, and the numeral one below it is refused.
 */
module Int64Boundary {
  import opened Decimal
  import opened IntTypes
  import opened Numerals
  import opened Int64Digits

  /** The most negative 64-bit value is reachable: "-9223372036854775808" is accepted with exactly that value. */
  lemma Int64MinimumAccepted(s: seq<char>)
    requires s == "-9223372036854775808"
    ensures Denote(Int64, s) == Some(-9223372036854775808)
  {
    assert DigitRun(s) == s[1..];
    ValueOfInt64MinMagnitude(s[1..]);
  }

  /** One below the most negative 64-bit value is refused: "-9223372036854775809" fails. */
  lemma Int64BelowMinimumRefused(s: seq<char>)
    requires s == "-9223372036854775809"
    ensures Denote(Int64, s) == None
  {
    assert DigitRun(s) == s[1..];
    ValueBeyondInt64MinMagnitude(s[1..]);
  }
}
