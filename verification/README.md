# Bounded base-10 integer parsing (jsteemann/atoi) in Dafny

This project models the header-only parser `jsteemann::atoi<T>` and its two
workers `atoi_negative<T>` and `atoi_positive<T>`. The parser turns a span of
ASCII characters into an integer of type `T`. It reports success through a
`valid` flag. It detects malformed input and overflow in one pass, before any
overflow can happen.

How the model is laid out:

- `decimal.dfy`, module `Decimal`: digits and the value of a digit string
  (`Value`). It also holds the shortest digit string of a natural number
  (`Digits`, what `std::to_string` prints).
- `inttypes.dfy`, module `IntTypes`: the template parameter `T` as
  `IntType(min, max, signed)`. It has constants for the widths the tests use
  (`Int16` … `Int64`, `UInt8` … `UInt64`, and `SizeT` as 64-bit), plus `Int8`
  as an extra signed width that no caller instantiates. It also has
  C++'s truncating `/ 10` and `% 10` (`TruncDiv10`, `TruncRem10`). Dafny's own
  operators are Euclidean and would give wrong cut-offs for negative `min`.
- `inttypes.dfy`, module `Cutoff`: the constants `cutoff` and `cutlim` of both
  loops, and the lemmas that make the overflow test exact.
- `numerals.dfy`, module `Numerals`: the reference meaning `Denote(t, s)` of a
  numeral. It is written independently of the loops: `s` matches
  `[+-]?[0-9]+`, a leading `-` is only allowed for signed types, and the
  mathematical value lies in `[min, max]`. The module also holds the printing
  function `Format` and the properties of `Denote`.
- `int64_boundary.dfy`, modules `Int64Digits` and `Int64Boundary`: the
  concrete 64-bit minimum boundary.
- `atoi.dfy`, module `Atoi`: the two accumulation loops and the dispatch
  `Parse`. Their contracts are stated against `Value` and `Denote`.

The input pair `(p, length)` or `[p, e)` becomes a `seq<char>`. The result is
the pair `(value, valid)`. Values are unbounded integers. The loop invariants
prove that the accumulator never leaves `[min, max]`, including after the
intermediate `result *= 10`. So the fixed-width arithmetic of the C++ code
never wraps, and wrap-around does not need to be modelled.

For an unsigned `T`, the code rejects every input that starts with `-`, even
`"-0"`, whose value would be in range. A plain "matches `[+-]?[0-9]+` and is in
range" description would accept `"-0"` there. `Denote` follows the code: the
tests expect `"-0"` to fail for `uint64_t`.

The way the negative loop derives its last-digit limit is `-(min % 10)`, with
C++ truncating remainder. `Cutoff.NegativeCutoffExact` proves this is exact for
every two's-complement width, not only the ones the tests use.

## Model

| member | source | states |
|---|---|---|
| Atoi.AtoiNegative | include/jsteemann/atoi.h:30-58 | on a non-empty span: valid iff every character is a digit and the negated decimal value is at least `min`; when valid the value is exactly that negated value; the accumulator returned always lies in `[min, 0]`; on failure it is the negated value of the digit prefix read before the first character that is not a digit or whose fold would go below `min` |
| Atoi.AtoiPositive | include/jsteemann/atoi.h:70-98 | on a non-empty span: valid iff every character is a digit and the decimal value is at most `max`; when valid the value is exactly that decimal value; the accumulator returned always lies in `[0, max]`; on failure it is the value of the digit prefix read before the first character that is not a digit or whose fold would exceed `max` |
| Atoi.Parse | include/jsteemann/atoi.h:112-139 | for every input: valid iff the input is an optionally signed digit run whose value fits the type, a `-` being refused for unsigned types; when valid the value is that number; empty input, a lone sign and `-` on an unsigned type yield `T()` = 0; the value is always within the type's bounds |
| Cutoff.PositiveCutoffExact | include/jsteemann/atoi.h:72-73 | the positive overflow test (`result` above `cutoff`, or equal to it with `c` above `cutlim`) holds exactly when `result * 10 + c` exceeds `max` |
| Cutoff.NegativeCutoffExact | include/jsteemann/atoi.h:32-33 | the negative overflow test (`result` below `cutoff`, or equal to it with `c` above `cutlim`) holds exactly when `result * 10 - c` is below `min`, with C++ truncating `/` and `%` on the negative `min` |
| Cutoff.PositiveFoldInRange | include/jsteemann/atoi.h:86-91 | when the positive test passes, both `result *= 10` and `result += c` stay within `[0, max]`, so the fold cannot overflow `T` |
| Cutoff.NegativeFoldInRange | include/jsteemann/atoi.h:46-51 | when the negative test passes, both `result *= 10` and `result -= c` stay within `[min, 0]`, so the fold cannot overflow `T` |
| Cutoff.PositiveCutlim | include/jsteemann/atoi.h:73 | `max % 10` lies in 0..9, so it fits the `char` it is stored in, and `10 * cutoff + cutlim == max` |
| Cutoff.NegativeCutlim | include/jsteemann/atoi.h:33 | `-(min % 10)` lies in 0..9, so it fits the `char` it is stored in, and `10 * cutoff - cutlim == min` |
| Cutoff.CutoffsPerWidth | include/jsteemann/atoi.h:32-33 | the concrete cut-off and last-digit limits of every modelled width (the tested ones plus the extra `Int8`), e.g. `-922337203685477580` and 8 for the negative 64-bit path |
| Cutoff.PositiveCutoff | include/jsteemann/atoi.h:72 | `max / 10` is the non-negative `c` with `10 * c <= max < 10 * c + 10`: the largest accumulator that may still take a digit without exceeding `max` |
| Cutoff.NegativeCutoff | include/jsteemann/atoi.h:32 | `min / 10`, rounded toward zero, is the non-positive `c` with `10 * c - 10 < min <= 10 * c`: the smallest accumulator that may still take a digit without going below `min` |
| Decimal.DigitValue | include/jsteemann/atoi.h:44 | `c -= '0'` turns a character in `'0'`..`'9'` into a digit between 0 and 9 |
| IntTypes.TruncDiv10 | include/jsteemann/atoi.h:32 | division by ten rounds toward zero, as C++ integer division does |
| IntTypes.TruncRem10 | include/jsteemann/atoi.h:33 | the remainder by ten takes the sign of the dividend and completes the truncating quotient |
| Numerals.Format | tests/tests.cpp:14 | the printed form of any integer is a well-formed numeral whose value is that integer |
| Numerals.ParseFormat | tests/tests.cpp:44-60 | print then parse: every integer in the type's range parses back to itself, and every integer outside it is refused |
| Numerals.FormatParse | tests/tests.cpp:8-16 | parse then print: a valid numeral without `+`, leading zeros or `-0` prints back as the same string |
| Numerals.NonDigitRejects | include/jsteemann/atoi.h:38-42 | any non-digit at any position after the optional sign makes the parse fail; there is no partial success |
| Numerals.DegenerateInputsReject | include/jsteemann/atoi.h:114-134 | the empty input, a lone `+` or `-`, and any input starting with `-` for an unsigned type are refused |
| Numerals.NegativeZero | include/jsteemann/atoi.h:120-130 | `"-0"` is a valid zero for signed types and refused for unsigned types |
| Numerals.LeadingZerosIgnored | tests/tests.cpp:26-42 | leading zeros of any length after an optional sign do not change the outcome |
| Numerals.ZerosAreZero | tests/tests.cpp:27-28 | a run of zeros of any length parses to 0 in every type |
| Numerals.Boundaries | tests/tests.cpp:83-131 | for every type, `min` and `max` are accepted and one unit beyond either is refused |
| Int64Boundary.Int64MinimumAccepted | tests/tests.cpp:94 | `"-9223372036854775808"` is valid for `int64_t`, with exactly the minimum value |
| Int64Boundary.Int64BelowMinimumRefused | tests/tests.cpp:89 | `"-9223372036854775809"` is refused for `int64_t` |

## Left out

- `atoi_positive_unchecked` and the pointer-pair overload `atoi(p, e, valid)`: the benchmark calls them, but they are not defined in `atoi.h`, so they are not part of this model.
- The benchmark driver `benchmark/bench.cpp`: timing, console output and comparisons with `std::stoull` and `strtoull`. None of it is parsing logic.
- The test driver `tests/tests.cpp`: gtest registration and `main`. Its expectations are stated as the `Numerals` and `Int64Boundary` lemmas instead.
- The `ATOI_LIKELY` and `ATOI_UNLIKELY` macros: they are branch-prediction hints and do not change behaviour.
- The read `c = *p` after the last increment, which touches `*e`: the loops index the sequence only below its length. The value read there is never used.
- Fixed-width wrap-around of `T` and of `char`: the invariants prove it never happens, so values are plain integers.
- The signedness of `char`: any character outside `'0'`..`'9'` is refused, which covers every byte value the source can see.
- `errno`: the source never touches it, so there is nothing to model.
- `std::size_t` is taken to be 64 bits wide (`SizeT`). Other platforms would need another constant.
- Atoi.Parse: when a parse fails inside an accumulation loop, the contract only says the value lies within the type's bounds. The partial value is stated exactly by `AtoiNegative` and `AtoiPositive`.
