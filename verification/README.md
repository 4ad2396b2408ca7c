# BigInteger in Dafny

A model of the `BigInteger` class of `BigInt/Main.cpp`: an arbitrary-precision
signed decimal integer stored as a vector of base-10 digits, least significant
first, plus an `isNegative` flag. The model covers the following, with proofs
of what each computes:

- the trimming step `removeLeadingZeros`;
- the constructor from `int`;
- the magnitude kernels `compare_digits`, `inner_add`, `inner_sub`,
  `inner_mul` and `inner_div`, including the power-of-ten fast paths of
  `inner_mul` and `inner_div`;
- the operators `<=>`, `==`, `+`, `-`, `*`, `/`, `%` and `<<`;
- the two recurrences built on them, `fibonacci` and `factorial`.

Modules:

- `Digits` (`digits.dfy`) covers the digit vector. It defines:
  - `Val`, the number a digit vector denotes;
  - `Canonical`, the representation invariant: non-empty, every entry in
    0..9, and no most-significant zero except in `[0]`;
  - `ToDigits(n)`, the unique canonical vector of `n`;
  - `Trim`, which is `removeLeadingZeros`.

  It also holds the positional-arithmetic lemmas the kernels rest on.
- `Magnitude` (`magnitude.dfy`) holds the sign-agnostic kernels. They are
  methods with loops, written as the C++ loops are. Each kernel's contract
  says its result is canonical and denotes the exact magnitude:
  `Canonical(r) && Val(r) == Val(a) + Val(b)`, and so on. A canonical vector
  is fixed by its value (`CanonicalUnique`), so a fast path and the general
  path it short-cuts provably return the same digits.
- `BigInt` (`biginteger.dfy`) defines the value type `BigInteger(digits,
  negative)`, the constructor, the comparison and the operators, and the long
  division loop. The long division lives here because it calls `operator-`,
  as the C++ code does.
  - Each operator's result is described by a reference value: `Sum`,
    `Difference`, `Product`, `Quotient` or `Remainder`. Each is built with
    `FromValue(v, zeroNegative)`: the canonical digits of |v|, with the sign
    flag `v < 0`. When v is 0, the flag is the one the operator gives a zero
    result.
  - `Quotient` and `Remainder` use the C++ truncating division, `TruncDiv`
    and `TruncMod`.
- `Laws` (`laws.dfy`) states algebraic laws of these reference values, so
  they hold of the operators: addition and subtraction undo each other,
  addition is associative, and the division identity holds.
- `Recurrences` (`recurrences.dfy`) models `fibonacci` and `factorial`
  against the reference functions `Fib` and `Fact`.

The model follows the code in these places:

- A negative zero (sign set, digits `[0]`) is a reachable value, so the
  representation invariant is canonical digits only. It is produced by:
  - `*` on operands of different signs whose product is zero (line 246);
  - same-sign `-` with equal magnitudes of negative operands (lines 224-225);
  - `/` with a zero quotient (line 259);
  - `%` with a zero remainder (line 272).
- A negative zero prints as `0`.
- `<=>` ranks a negative zero below zero. `Compare` is specified through
  `Rank(x) = 2 * SignedVal(x) - [x is a negative zero]`, which orders values
  by their integers and puts a negative zero just below 0.
- `==` compares the digit vectors only (see Findings).
- The long-division quotient and remainder both start as `BigInteger()`,
  that is `[0]`, not as empty vectors. The quotient is trimmed at the end.
- `+` and `-` call each other on mixed signs. Each call lands in the
  same-sign branch of the other operator, so the recursion is one hop. The
  `decreases` clause "the signs differ" (0 or 1) records this.

## Model

| member | source | states |
|---|---|---|
| Digits.Trim | BigInt/Main.cpp:13-17 | the trimmed vector is a prefix of the input that denotes the same number, is non-empty when the input is, and is canonical when the input holds digits |
| Digits.TrimIdempotent | BigInt/Main.cpp:13-17 | trimming twice is trimming once |
| Digits.CanonicalUnique | BigInt/Main.cpp:10-17 | a canonical vector is the only canonical vector of its number, so canonical results are fully determined by their value |
| Magnitude.CompareDigits | BigInt/Main.cpp:19-35 | for canonical vectors the outcome is less, equal or greater exactly as the numbers compare |
| Magnitude.LengthOrders | BigInt/Main.cpp:21-24 | a canonical vector with fewer digits denotes a smaller number, which justifies deciding on length first |
| Magnitude.FirstDifferenceOrders | BigInt/Main.cpp:26-32 | equal-length vectors agreeing above position i are ordered by their digits at i |
| Magnitude.InnerAdd | BigInt/Main.cpp:37-50 | the result is the canonical vector of the sum of the magnitudes and has at most one digit more than the longer operand |
| Magnitude.AddColumn | BigInt/Main.cpp:42-47 | one column keeps the loop state: the carry stays 0 or 1 and the written digits plus carry equal the low columns of both operands |
| Magnitude.InnerSub | BigInt/Main.cpp:52-75 | the result is the canonical vector of the absolute difference of the magnitudes, whichever operand is larger (the swap) |
| Magnitude.BorrowColumn | BigInt/Main.cpp:59-70 | one column keeps the borrow loop state: the borrow stays 0 or 1 and the written digits less the borrow equal the low columns of a minus those of b |
| Magnitude.NoFinalBorrow | BigInt/Main.cpp:59-71 | with the larger magnitude on top the loop ends with borrow 0 and the digits written denote the difference |
| Magnitude.IsPowerOfTen | BigInt/Main.cpp:78-86 | the test holds exactly when the vector is k >= 1 zeros followed by a 1, that is, for canonical input, exactly when it denotes 10^k with k >= 1 |
| Magnitude.ShiftLeft | BigInt/Main.cpp:86-93 | prepending k zeros and trimming gives the canonical vector of the value times 10^k |
| Magnitude.LongMul | BigInt/Main.cpp:96-110 | long multiplication in a buffer of len(a)+len(b) digits gives the canonical vector of the product |
| Magnitude.CellInBuffer | BigInt/Main.cpp:102-106 | every index i+j the inner loop writes lies below len(a)+len(b), including the cells visited only to place a carry |
| Magnitude.MulCell | BigInt/Main.cpp:103-106 | one cell keeps the inner loop state: digits stay in 0..9, the carry stays at most 9, and buffer plus carry equal the earlier rows plus a[i] times the low digits of b |
| Magnitude.InnerMul | BigInt/Main.cpp:77-111 | both the 10^k fast path and long multiplication give the canonical vector of the product, so the two paths agree |
| Magnitude.ShiftRight | BigInt/Main.cpp:122-143 | for a divisor 10^k the high and low digit slices, trimmed, are the canonical quotient and remainder |
| Magnitude.ShortDividend | BigInt/Main.cpp:128-131 | a dividend of at most k digits has quotient 0 and is its own remainder modulo 10^k |
| Magnitude.SplitDigits | BigInt/Main.cpp:132-141 | the digits from position k up denote the quotient by 10^k and the digits below k the remainder |
| BigInt.Representation | BigInt/Main.cpp:10-11 | a valid value is determined by the integer it denotes and its sign flag |
| BigInt.FromInt | BigInt/Main.cpp:166-173 | for num > INT_MIN the value is valid, denotes num, is negative exactly when num < 0, and has the canonical digits of abs(num) |
| BigInt.Compare | BigInt/Main.cpp:175-191 | the outcome is less, equal or greater exactly as the ranks compare: integer order, with a negative zero just below zero |
| BigInt.RankOrder | BigInt/Main.cpp:175-191 | when neither operand is a negative zero, <=> agrees with the order of the denoted integers, and equal ranks mean identical values |
| BigInt.Equals | BigInt/Main.cpp:193-195 | operator== holds exactly when the magnitudes are equal, whatever the signs |
| BigInt.EqualsIgnoresSign | BigInt/Main.cpp:193-195 | operator== holds between 5 and -5, which denote different integers |
| BigInt.SameValue | BigInt/Main.cpp:193-195 | the corrected equality holds exactly when the two values denote the same integer |
| BigInt.Add | BigInt/Main.cpp:197-215 | the result denotes the sum of the operands; a zero sum is negative only when both operands are |
| BigInt.Sub | BigInt/Main.cpp:217-242 | the result denotes the difference of the operands; a zero difference keeps the minuend's sign flag |
| BigInt.Mul | BigInt/Main.cpp:244-248 | the result denotes the product, with the sign flag the exclusive or of the operand flags even for a zero product |
| BigInt.SignedProduct | BigInt/Main.cpp:244-248 | the product of signed magnitudes is the product of the magnitudes, negated when exactly one sign is set |
| BigInt.InnerDiv | BigInt/Main.cpp:113-162 | both the 10^k fast path and long division give the canonical quotient and remainder of the magnitudes, so the two paths agree |
| BigInt.LongDiv | BigInt/Main.cpp:146-161 | long division by repeated subtraction gives the canonical quotient and remainder |
| BigInt.SubtractWhileNotLess | BigInt/Main.cpp:153-157 | the inner loop leaves a non-negative remainder below the divisor, with remainder + count * divisor equal to the remainder it started from |
| BigInt.DivStep | BigInt/Main.cpp:150-159 | each per-position count is a digit 0..9, and prepending it keeps the identity prefix = quotient * divisor + remainder with remainder < divisor |
| BigInt.CountBound | BigInt/Main.cpp:153-157 | the number of subtractions at one position is at most 9 because the remainder was below the divisor before the digit came down |
| BigInt.SubtractDivisor | BigInt/Main.cpp:154-156 | operator- on the non-negative remainder and divisor yields a non-negative remainder lowered by exactly the divisor |
| BigInt.Div | BigInt/Main.cpp:250-261 | fails with "Division by zero" exactly when the divisor's digits are [0]; otherwise the result denotes the truncated quotient, with the sign flag the exclusive or of the operand flags |
| BigInt.Mod | BigInt/Main.cpp:263-274 | fails with "Modulo by zero" exactly when the divisor's digits are [0]; otherwise the result denotes the truncated remainder, has magnitude below the divisor's, and keeps the dividend's sign flag |
| BigInt.ToString | BigInt/Main.cpp:276-284 | the rendering is the decimal numeral of the denoted integer: '-' exactly when it is negative, no leading zeros, and a negative zero prints as "0" |
| BigInt.RenderCanonical | BigInt/Main.cpp:280-282 | printing the canonical digits from the most significant gives the numeral of the number |
| Laws.SubtractUndoesAdd | BigInt/Main.cpp:197-242 | (a + b) - b equals a under operator== and denotes the same integer |
| Laws.AddUndoesSubtract | BigInt/Main.cpp:197-242 | (a - b) + b equals a under operator== and denotes the same integer |
| Laws.SumAssociative | BigInt/Main.cpp:197-215 | (a + b) + c and a + (b + c) are identical values, the sign flag of a zero total included |
| Laws.ZeroSumSign | BigInt/Main.cpp:198-201 | a zero (a + b) + c is negative exactly when all three operands are |
| Laws.DivisionIdentity | BigInt/Main.cpp:250-274 | (a / b) * b + a % b equals a under operator== and denotes the same integer, and abs(a % b) < abs(b) |
| Laws.TruncIdentity | BigInt/Main.cpp:258-272 | truncating quotient times divisor plus truncating remainder is the dividend, and the remainder is smaller than the divisor in magnitude |
| Recurrences.Fibonacci | BigInt/Main.cpp:287-299 | the result is the non-negative value F(n) for n >= 0 and zero for negative n |
| Recurrences.Factorial | BigInt/Main.cpp:301-310 | fails with "Factorial is not defined for negative numbers." exactly when n < 0; otherwise the result is the non-negative value n! |

## Left out

- `main` (lines 313-344) is a console demonstration. It prints values and checks nothing.
- `operator<<` writes to a `std::ostream`. It is modelled as `ToString`, a function returning the characters written.
- `std::strong_ordering` is modelled as the three-valued datatype `Ordering`.
- `std::invalid_argument` is modelled as the `Failure(InvalidArgument(message))` alternative of a `Result`. It carries the source's message strings.
- Machine integer widths are not modelled. Digits, carries, `cur` and loop counters are unbounded integers, and the bounds the code relies on (carry at most 9, index inside the buffer) are proved instead.
- BigInt.FromInt: requires num > INT_MIN, because `std::abs(INT_MIN)` overflows in C++.
- Recurrences.Fibonacci: requires n < INT_MAX, because the loop counter `++i` would overflow once i passes n = INT_MAX.
- Recurrences.Factorial: requires n < INT_MAX, because the loop counter `++i` would overflow once i passes n = INT_MAX.
- The kernels are modelled on digit vectors. In C++ they return `BigInteger`s whose sign flag every caller overwrites, or which are always non-negative, as in `inner_div`.
- Commutativity of `+` and `*` has no lemma of its own. It can be read directly off the symmetric reference values `Sum` and `Product`.
- Performance (insertions at the front of a vector, repeated subtraction) is not modelled.

## Findings

| source | as written | input that shows it | evidently intended | confidence | as-written member | corrected member |
|---|---|---|---|---|---|---|
| BigInt/Main.cpp:193-195 | `operator==` compares the digit vectors only and ignores `isNegative` | `BigInteger(5) == BigInteger(-5)` is true, although `<=>` ranks them apart | equal exactly when both denote the same integer (the two zeros equal) | medium, not executed | BigInt.EqualsIgnoresSign | BigInt.SameValue |
