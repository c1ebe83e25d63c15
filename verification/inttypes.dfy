/**
 The target integer types of the parser. A C++ integer type `T` is described by
 its bounds `std::numeric_limits<T>::min()` / `max()` and by
 `std::is_signed<T>`. The widths below are the ones the tests instantiate
 (`int16_t` to `int64_t`, `uint8_t` to `uint64_t`, `std::size_t`), plus `Int8`
 as an extra signed width no caller uses.
 */
module IntTypes {

  datatype IntType = IntType(min: int, max: int, signed: bool)

  /** The shape of a two's-complement signed type or of an unsigned type. */
  predicate WellFormed(t: IntType) {
    && 0 <= t.max
    && (if t.signed then t.min == -(t.max + 1) else t.min == 0)
  }

  predicate InRange(t: IntType, n: int) {
    t.min <= n <= t.max
  }

  const Int8: IntType := IntType(-0x80, 0x7F, true)
  const Int16: IntType := IntType(-0x8000, 0x7FFF, true)
  const Int32: IntType := IntType(-0x8000_0000, 0x7FFF_FFFF, true)
  const Int64: IntType := IntType(-0x8000_0000_0000_0000, 0x7FFF_FFFF_FFFF_FFFF, true)
  const UInt8: IntType := IntType(0, 0xFF, false)
  const UInt16: IntType := IntType(0, 0xFFFF, false)
  const UInt32: IntType := IntType(0, 0xFFFF_FFFF, false)
  const UInt64: IntType := IntType(0, 0xFFFF_FFFF_FFFF_FFFF, false)
  /** `std::size_t` on a platform with 64-bit pointers. */
  const SizeT: IntType := UInt64

  /** C++ integer division by ten: the quotient is rounded toward zero. */
  function TruncDiv10(a: int): (q: int)
    ensures a >= 0 ==> 10 * q <= a < 10 * q + 10
    ensures a < 0 ==> 10 * q - 10 < a <= 10 * q
  {
    if a >= 0 then a / 10 else -((-a) / 10)
  }

  /** C++ remainder of division by ten: it takes the sign of the dividend. */
  function TruncRem10(a: int): (r: int)
    ensures a == 10 * TruncDiv10(a) + r
    ensures a >= 0 ==> 0 <= r <= 9
    ensures a < 0 ==> -9 <= r <= 0
  {
    if a >= 0 then a % 10 else -((-a) % 10)
  }
}

/**
 The constants the two accumulation loops compare against before every fold:
 `cutoff` is the largest (smallest) accumulator that can take another digit,
 `cutlim` the largest digit that may still follow an accumulator equal to it.
 */
module Cutoff {
  import opened IntTypes

  /** `max / 10` in C++ arithmetic. */
  function PositiveCutoff(t: IntType): (c: int)
    requires WellFormed(t)
    ensures 0 <= c && 10 * c <= t.max < 10 * c + 10
  {
    TruncDiv10(t.max)
  }

  /** `max % 10` in C++ arithmetic; it always fits in a `char`. */
  function PositiveCutlim(t: IntType): (l: int)
    requires WellFormed(t)
    ensures 0 <= l <= 9
    ensures 10 * PositiveCutoff(t) + l == t.max
  {
    TruncRem10(t.max)
  }

  /** `min / 10` in C++ arithmetic (rounded toward zero). */
  function NegativeCutoff(t: IntType): (c: int)
    requires WellFormed(t)
    ensures c <= 0 && 10 * c - 10 < t.min <= 10 * c
  {
    TruncDiv10(t.min)
  }

  /** `-(min % 10)` in C++ arithmetic; it always fits in a `char`. */
  function NegativeCutlim(t: IntType): (l: int)
    requires WellFormed(t)
    ensures 0 <= l <= 9
    ensures 10 * NegativeCutoff(t) - l == t.min
  {
    -TruncRem10(t.min)
  }

  /** Exactly when the next fold `r * 10 + d` would exceed `max`, the positive overflow test fires. */
  lemma PositiveCutoffExact(t: IntType, r: int, d: int)
    requires WellFormed(t) && 0 <= d <= 9
    ensures (r > PositiveCutoff(t) || (r == PositiveCutoff(t) && d > PositiveCutlim(t)))
            <==> r * 10 + d > t.max
  {
    var q, m := PositiveCutoff(t), PositiveCutlim(t);
    if r > q {
      assert r * 10 >= (q + 1) * 10;
    } else if r < q {
      assert r * 10 <= (q - 1) * 10;
    }
  }

  /** Exactly when the next fold `r * 10 - d` would go below `min`, the negative overflow test fires. */
  lemma NegativeCutoffExact(t: IntType, r: int, d: int)
    requires WellFormed(t) && 0 <= d <= 9
    ensures (r < NegativeCutoff(t) || (r == NegativeCutoff(t) && d > NegativeCutlim(t)))
            <==> r * 10 - d < t.min
  {
    var q, m := NegativeCutoff(t), NegativeCutlim(t);
    if r < q {
      assert r * 10 <= (q - 1) * 10;
    } else if r > q {
      assert r * 10 >= (q + 1) * 10;
    }
  }

  /**
   When the positive test lets a digit through, neither `result *= 10` nor
   `result += c` leaves `[0, max]`: the fold cannot overflow `T`.
   */
  lemma PositiveFoldInRange(t: IntType, r: int, d: int)
    requires WellFormed(t) && 0 <= r <= t.max && 0 <= d <= 9
    requires !(r > PositiveCutoff(t) || (r == PositiveCutoff(t) && d > PositiveCutlim(t)))
    ensures 0 <= r * 10 <= r * 10 + d <= t.max
  {
    PositiveCutoffExact(t, r, d);
  }

  /**
   When the negative test lets a digit through, neither `result *= 10` nor
   `result -= c` leaves `[min, 0]`: the fold cannot overflow `T`.
   */
  lemma NegativeFoldInRange(t: IntType, r: int, d: int)
    requires WellFormed(t) && t.min <= r <= 0 && 0 <= d <= 9
    requires !(r < NegativeCutoff(t) || (r == NegativeCutoff(t) && d > NegativeCutlim(t)))
    ensures t.min <= r * 10 - d <= r * 10 <= 0
  {
    NegativeCutoffExact(t, r, d);
  }

  /** The limits each modelled width compares against (`Int8` is an extra width no caller uses). */
  lemma CutoffsPerWidth()
    ensures PositiveCutoff(Int8) == 12 && PositiveCutlim(Int8) == 7
    ensures NegativeCutoff(Int8) == -12 && NegativeCutlim(Int8) == 8
    ensures PositiveCutoff(Int16) == 3276 && PositiveCutlim(Int16) == 7
    ensures NegativeCutoff(Int16) == -3276 && NegativeCutlim(Int16) == 8
    ensures PositiveCutoff(Int32) == 214748364 && PositiveCutlim(Int32) == 7
    ensures NegativeCutoff(Int32) == -214748364 && NegativeCutlim(Int32) == 8
    ensures PositiveCutoff(Int64) == 922337203685477580 && PositiveCutlim(Int64) == 7
    ensures NegativeCutoff(Int64) == -922337203685477580 && NegativeCutlim(Int64) == 8
    ensures PositiveCutoff(UInt8) == 25 && PositiveCutlim(UInt8) == 5
    ensures PositiveCutoff(UInt16) == 6553 && PositiveCutlim(UInt16) == 5
    ensures PositiveCutoff(UInt32) == 429496729 && PositiveCutlim(UInt32) == 5
    ensures PositiveCutoff(UInt64) == 1844674407370955161 && PositiveCutlim(UInt64) == 5
    ensures NegativeCutoff(UInt64) == 0 && NegativeCutlim(UInt64) == 0
  {
  }
}
