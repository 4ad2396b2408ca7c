/**
 The BigInteger value type: a canonical digit vector plus a sign flag, its
 constructor from a 32-bit int, the comparison and equality operators, the
 four arithmetic operators with the division-by-zero failures, and the
 decimal rendering of operator<<.

 A negative zero (sign set, digits [0]) is a reachable value: the
 representation invariant is canonical digits only.
 */
module BigInt {
  import opened Digits
  import opened Magnitude

  /** The range of the C++ `int` the constructor takes. */
  const Int32Min: int := -0x8000_0000
  const Int32Max: int := 0x7FFF_FFFF

  /** digits least-significant first; negative is the isNegative flag. */
  datatype BigInteger = BigInteger(digits: seq<int>, negative: bool)

  /** The representation invariant every constructed or computed value keeps. */
  predicate Valid(x: BigInteger)
  {
    Canonical(x.digits)
  }

  /** The integer a value denotes; a negative zero denotes 0. */
  ghost function SignedVal(x: BigInteger): int
  {
    if x.negative then -Val(x.digits) else Val(x.digits)
  }

  /** The divisor test of operator/ and operator%: a single zero digit. */
  predicate IsZero(x: BigInteger)
  {
    |x.digits| == 1 && x.digits[0] == 0
  }

  predicate IsNegativeZero(x: BigInteger)
  {
    x.negative && IsZero(x)
  }

  function Abs(v: int): nat
  {
    if v < 0 then -v else v
  }

  /** The value denoting v; when v is 0 the sign flag is zeroNegative, so
      both zeros are reachable. Every operator's result is described by
      naming v and the sign it gives a zero result. */
  ghost function FromValue(v: int, zeroNegative: bool): (x: BigInteger)
    ensures Valid(x) && SignedVal(x) == v && Val(x.digits) == Abs(v)
    ensures IsZero(x) <==> v == 0
    ensures x.negative == (if v == 0 then zeroNegative else v < 0)
  {
    BigInteger(ToDigits(Abs(v)), if v == 0 then zeroNegative else v < 0)
  }

  /** Every valid value is determined by the integer it denotes and its
      sign flag. */
  lemma Representation(x: BigInteger)
    requires Valid(x)
    ensures x == FromValue(SignedVal(x), x.negative)
  {
    CanonicalUnique(x.digits);
    CanonicalZero(x.digits);
  }

  /** A valid value denoting v, whose sign flag is the one FromValue gives,
      is FromValue(v, zeroNegative). */
  lemma Denotes(x: BigInteger, v: int, zeroNegative: bool)
    requires Valid(x) && SignedVal(x) == v
    requires x.negative == (if v == 0 then zeroNegative else v < 0)
    ensures x == FromValue(v, zeroNegative)
  {
    Representation(x);
  }

  // ---------------------------------------------------------------------
  // Construction

  /** BigInteger(int num): the digits of |num| by repeated division by 10
      (at least one digit, so 0 gives [0]), then trimmed. */
  method FromInt(num: int) returns (x: BigInteger)
    requires Int32Min < num <= Int32Max
    ensures Valid(x) && x.negative == (num < 0) && SignedVal(x) == num
    ensures x == FromValue(num, false)
  {
    var m := Abs(num);
    var n := m;
    var ds: seq<int> := [n % 10];
    n := n / 10;
    DigitLoopStart(m);
    while n > 0
      invariant DigitLoop(m, ds, n)
      decreases n
    {
      DigitLoopStep(m, ds, n);
      ds := ds + [n % 10];
      n := n / 10;
    }
    x := BigInteger(Trim(ds), num < 0);
    DigitLoopDone(m, ds);
  }

  /** The state of the constructor's loop: the digits pushed so far plus the
      part of m still to convert at place 10^|ds| make up m. */
  ghost predicate DigitLoop(m: nat, ds: seq<int>, n: int)
  {
    && |ds| >= 1 && IsDigits(ds) && 0 <= n
    && Val(ds) + Pow10(|ds|) * n == m
  }

  lemma DigitLoopStart(m: nat)
    ensures DigitLoop(m, [m % 10], m / 10)
  {
    assert Val([m % 10]) == m % 10 + 10 * Val([]);
  }

  lemma DigitLoopStep(m: nat, ds: seq<int>, n: int)
    requires DigitLoop(m, ds, n) && n > 0
    ensures DigitLoop(m, ds + [n % 10], n / 10)
  {
    ValSnoc(ds, n % 10);
    CarrySplit(n, Pow10(|ds|), Pow10(|ds| + 1));
  }

  lemma DigitLoopDone(m: nat, ds: seq<int>)
    requires DigitLoop(m, ds, 0)
    ensures Trim(ds) == ToDigits(m)
  {
    CanonicalUnique(Trim(ds));
  }

  // ---------------------------------------------------------------------
  // Ordering and equality

  /** The total order operator<=> realises: integer order of the denoted
      values, with a negative zero placed just below zero. */
  ghost function Rank(x: BigInteger): int
  {
    2 * SignedVal(x) - (if IsNegativeZero(x) then 1 else 0)
  }

  /** operator<=>: differing signs decide (the negative one is less, even
      when it is a negative zero); equal signs compare the magnitudes, with
      the outcome reversed when both are negative. */
  method Compare(a: BigInteger, b: BigInteger) returns (o: Ordering)
    requires Valid(a) && Valid(b)
    ensures o == Less <==> Rank(a) < Rank(b)
    ensures o == Equal <==> Rank(a) == Rank(b)
    ensures o == Greater <==> Rank(a) > Rank(b)
  {
    CanonicalZero(a.digits);
    CanonicalZero(b.digits);
    if a.negative != b.negative {
      o := if a.negative then Less else Greater;
      return;
    }
    o := CompareDigits(a.digits, b.digits);
    if a.negative && o != Equal {
      o := if o == Less then Greater else Less;
    }
  }

  /** Rank orders values exactly as the integers they denote whenever
      neither is a negative zero, and tells apart every two distinct valid
      values. */
  lemma RankOrder(a: BigInteger, b: BigInteger)
    requires Valid(a) && Valid(b)
    ensures !IsNegativeZero(a) && !IsNegativeZero(b) ==>
              (Rank(a) < Rank(b) <==> SignedVal(a) < SignedVal(b))
    ensures Rank(a) == Rank(b) <==> a == b
  {
    Representation(a);
    Representation(b);
    CanonicalZero(a.digits);
    CanonicalZero(b.digits);
  }

  /** operator==: equality of the digit vectors only; the sign is not
      looked at, so a value equals its negation. */
  function Equals(a: BigInteger, b: BigInteger): (r: bool)
    requires Valid(a) && Valid(b)
    ensures r <==> Abs(SignedVal(a)) == Abs(SignedVal(b))
  {
    CanonicalUnique(a.digits);
    CanonicalUnique(b.digits);
    a.digits == b.digits
  }

  /** operator== as written holds between 5 and -5. */
  lemma EqualsIgnoresSign()
    ensures Equals(BigInteger([5], false), BigInteger([5], true))
    ensures SignedVal(BigInteger([5], false)) != SignedVal(BigInteger([5], true))
  {
    assert Val([5]) == 5 + 10 * Val([]);
  }

  /** Equality as evidently intended: same digits and same sign, with the
      two zeros equal to each other. */
  function SameValue(a: BigInteger, b: BigInteger): (r: bool)
    requires Valid(a) && Valid(b)
    ensures r <==> SignedVal(a) == SignedVal(b)
  {
    Representation(a);
    Representation(b);
    CanonicalZero(a.digits);
    a.digits == b.digits && (a.negative == b.negative || IsZero(a))
  }

  // ---------------------------------------------------------------------
  // Arithmetic

  /** std::invalid_argument and its message. */
  datatype Error = InvalidArgument(message: string)

  /** The outcome of an operator that can throw. */
  datatype Result<T> = Success(value: T) | Failure(error: Error)

  /** The value operator+ denotes: the sum, where a zero sum is negative
      only when both operands are. */
  ghost function Sum(a: BigInteger, b: BigInteger): BigInteger
  {
    FromValue(SignedVal(a) + SignedVal(b), a.negative && b.negative)
  }

  /** The value operator- denotes: the difference, where a zero difference
      keeps the sign of the minuend. */
  ghost function Difference(a: BigInteger, b: BigInteger): BigInteger
  {
    FromValue(SignedVal(a) - SignedVal(b), a.negative)
  }

  /** The value operator* denotes: the product, where a zero product is
      negative when the operand signs differ. */
  ghost function Product(a: BigInteger, b: BigInteger): BigInteger
  {
    FromValue(SignedVal(a) * SignedVal(b), a.negative != b.negative)
  }

  /** C++ integer division: the quotient truncated toward zero. */
  function TruncDiv(x: int, y: int): int
    requires y != 0
  {
    var q: int := Quot(Abs(x), Abs(y));
    if (x < 0) != (y < 0) then -q else q
  }

  /** C++ integer remainder: it takes the sign of the dividend. */
  function TruncMod(x: int, y: int): int
    requires y != 0
  {
    var m: int := Abs(x) % Abs(y);
    if x < 0 then -m else m
  }

  /** The value operator/ denotes: the truncated quotient, where a zero
      quotient is negative when the operand signs differ. */
  ghost function Quotient(a: BigInteger, b: BigInteger): BigInteger
    requires Val(b.digits) != 0
  {
    FromValue(TruncDiv(SignedVal(a), SignedVal(b)), a.negative != b.negative)
  }

  /** The value operator% denotes: the truncated remainder, where a zero
      remainder keeps the sign of the dividend. */
  ghost function Remainder(a: BigInteger, b: BigInteger): BigInteger
    requires Val(b.digits) != 0
  {
    FromValue(TruncMod(SignedVal(a), SignedVal(b)), a.negative)
  }

  /** operator+: equal signs add the magnitudes under the common sign;
      mixed signs subtract the negative operand's magnitude from the other
      operand (one hop into the equal-sign branch of operator-). */
  method Add(a: BigInteger, b: BigInteger) returns (r: BigInteger)
    requires Valid(a) && Valid(b)
    ensures SignedVal(r) == SignedVal(a) + SignedVal(b)
    ensures r == Sum(a, b)
    decreases if a.negative == b.negative then 0 else 1
  {
    if a.negative == b.negative {
      var ds := InnerAdd(a.digits, b.digits);
      r := BigInteger(ds, a.negative);
      Denotes(r, SignedVal(a) + SignedVal(b), a.negative && b.negative);
    } else if a.negative {
      r := Sub(b, BigInteger(a.digits, false));
    } else {
      r := Sub(a, BigInteger(b.digits, false));
    }
  }

  /** operator-: equal signs subtract the smaller magnitude from the larger,
      the result negative exactly when the minuend's magnitude is smaller
      (for non-negative operands) or not smaller (for negative ones); mixed
      signs add the magnitudes (one hop into operator+) under the minuend's
      sign. */
  method Sub(a: BigInteger, b: BigInteger) returns (r: BigInteger)
    requires Valid(a) && Valid(b)
    ensures SignedVal(r) == SignedVal(a) - SignedVal(b)
    ensures r == Difference(a, b)
    decreases if a.negative == b.negative then 0 else 1
  {
    if a.negative == b.negative {
      var ord := CompareDigits(a.digits, b.digits);
      if ord == Less {
        var ds := InnerSub(b.digits, a.digits);
        r := BigInteger(ds, !a.negative);
        Denotes(r, SignedVal(a) - SignedVal(b), a.negative);
      } else {
        var ds := InnerSub(a.digits, b.digits);
        r := BigInteger(ds, a.negative);
        Denotes(r, SignedVal(a) - SignedVal(b), a.negative);
      }
    } else if a.negative {
      var t := Add(BigInteger(a.digits, false), b);
      r := BigInteger(t.digits, true);
    } else {
      r := Add(a, BigInteger(b.digits, false));
    }
  }

  /** operator*: the product of the magnitudes, signed by the exclusive or
      of the operand signs even when the product is zero. */
  method Mul(a: BigInteger, b: BigInteger) returns (r: BigInteger)
    requires Valid(a) && Valid(b)
    ensures SignedVal(r) == SignedVal(a) * SignedVal(b)
    ensures r == Product(a, b)
  {
    var ds := InnerMul(a.digits, b.digits);
    r := BigInteger(ds, a.negative != b.negative);
    SignedProduct(Val(a.digits), Val(b.digits), a.negative, b.negative);
    Denotes(r, SignedVal(a) * SignedVal(b), a.negative != b.negative);
  }

  /** The sign rule of a product of signed magnitudes. */
  lemma SignedProduct(x: int, y: int, nx: bool, ny: bool)
    requires 0 <= x && 0 <= y
    ensures 0 <= x * y
    ensures (if nx then -x else x) * (if ny then -y else y) == (if nx != ny then -(x * y) else x * y)
  {
    MulMonotone(0, x, y);
  }

  /** inner_div on magnitudes: the shift fast path when the divisor is 10^k
      with k >= 1, long division otherwise. Both paths return the canonical
      quotient and remainder, so they agree digit for digit. */
  method InnerDiv(a: seq<int>, d: seq<int>) returns (q: seq<int>, r: seq<int>)
    requires Canonical(a) && Canonical(d) && Val(d) > 0
    ensures Canonical(q) && Val(q) == Quot(Val(a), Val(d))
    ensures Canonical(r) && Val(r) == Val(a) % Val(d)
  {
    var shift := IsPowerOfTen(d);
    if shift {
      q, r := ShiftRight(a, |d| - 1);
    } else {
      q, r := LongDiv(a, d);
    }
  }

  /** The general path of inner_div: bring down one digit of a at a time,
      from the most significant, onto the running remainder (which starts as
      zero) and subtract the divisor with operator- until the remainder is
      below it; the number of subtractions is the next quotient digit, at
      most 9 because the remainder was below the divisor before the digit
      came down. The quotient starts as [0] and is trimmed at the end. */
  method LongDiv(a: seq<int>, d: seq<int>) returns (q: seq<int>, r: seq<int>)
    requires Canonical(a) && Canonical(d) && Val(d) > 0
    ensures Canonical(q) && Val(q) == Quot(Val(a), Val(d))
    ensures Canonical(r) && Val(r) == Val(a) % Val(d)
  {
    var quotient: seq<int> := [0];
    var remainder := BigInteger([0], false);
    var i := |a| - 1;
    DivStart(a, d);
    while i >= 0
      invariant DivState(a, d, i, quotient, remainder)
      decreases i
    {
      ghost var before := remainder;
      BringDown(a[i], remainder.digits);
      remainder := remainder.(digits := Trim([a[i]] + remainder.digits));
      var count;
      remainder, count := SubtractWhileNotLess(remainder, d);
      DivStep(a, d, i, quotient, before, count, remainder);
      quotient := [count] + quotient;
      i := i - 1;
    }
    q := Trim(quotient);
    r := remainder.digits;
    DivDone(a, d, quotient, remainder);
  }

  /** The inner-loop state of long division: count subtractions of the
      divisor have taken total down to the non-negative remainder. */
  ghost predicate CountState(d: seq<int>, remainder: BigInteger, count: int, total: int)
  {
    && Valid(remainder) && !remainder.negative && 0 <= count
    && Val(remainder.digits) + count * Val(d) == total
  }

  /** One subtraction of the divisor (through operator-, on two
      non-negative values with the remainder not below the divisor) keeps
      the inner-loop state and lowers the remainder. */
  lemma SubtractDivisor(d: seq<int>, previous: BigInteger, remainder: BigInteger, count: int, total: int)
    requires Canonical(d) && Val(d) > 0 && Val(d) <= Val(previous.digits)
    requires CountState(d, previous, count, total)
    requires remainder == Difference(previous, BigInteger(d, false))
    ensures CountState(d, remainder, count + 1, total)
    ensures Val(remainder.digits) < Val(previous.digits)
  {
  }

  /** The inner loop of long division: subtract the divisor with operator-
      while the remainder is not below it, counting the subtractions. */
  method SubtractWhileNotLess(remainder: BigInteger, d: seq<int>) returns (rest: BigInteger, count: int)
    requires Valid(remainder) && !remainder.negative && Canonical(d) && Val(d) > 0
    ensures CountState(d, rest, count, Val(remainder.digits)) && Val(rest.digits) < Val(d)
  {
    var divisor := BigInteger(d, false);
    rest := remainder;
    count := 0;
    var ord := CompareDigits(rest.digits, d);
    while ord != Less
      invariant CountState(d, rest, count, Val(remainder.digits))
      invariant ord == Less <==> Val(rest.digits) < Val(d)
      decreases Val(rest.digits)
    {
      ghost var previous := rest;
      rest := Sub(rest, divisor);
      SubtractDivisor(d, previous, rest, count, Val(remainder.digits));
      count := count + 1;
      ord := CompareDigits(rest.digits, d);
    }
  }

  /** The outer-loop state of long division once the digits above position
      i have come down: quotient digits (not yet trimmed) and a non-negative
      remainder below the divisor that together account for them. */
  ghost predicate DivState(a: seq<int>, d: seq<int>, i: int, quotient: seq<int>, remainder: BigInteger)
  {
    && -1 <= i < |a|
    && |quotient| >= 1 && IsDigits(quotient)
    && Valid(remainder) && !remainder.negative && Val(remainder.digits) < Val(d)
    && Val(a[i + 1..]) == Val(quotient) * Val(d) + Val(remainder.digits)
  }

  lemma DivStart(a: seq<int>, d: seq<int>)
    requires Canonical(a) && Canonical(d) && Val(d) > 0
    ensures DivState(a, d, |a| - 1, [0], BigInteger([0], false))
  {
    assert Val([0]) == 0 + 10 * Val([]);
    assert a[|a|..] == [];
  }

  /** Bringing digit x down onto the remainder digits ds. */
  lemma BringDown(x: int, ds: seq<int>)
    requires 0 <= x <= 9 && Canonical(ds)
    ensures Canonical(Trim([x] + ds)) && Val(Trim([x] + ds)) == x + 10 * Val(ds)
  {
    assert ([x] + ds)[1..] == ds;
  }

  /** The step of the outer loop: the count is a digit, and prepending it
      to the quotient keeps the state one position lower. */
  lemma DivStep(a: seq<int>, d: seq<int>, i: int, quotient: seq<int>, before: BigInteger, count: int, remainder: BigInteger)
    requires 0 <= i && IsDigits(a) && Val(d) > 0 && DivState(a, d, i, quotient, before)
    requires CountState(d, remainder, count, a[i] + 10 * Val(before.digits))
    requires Val(remainder.digits) < Val(d)
    ensures 0 <= count <= 9
    ensures DivState(a, d, i - 1, [count] + quotient, remainder)
  {
    var r0 := Val(before.digits);
    CountBound(r0, Val(d), a[i], count, Val(remainder.digits));
    SuffixVal(a, i);
    assert ([count] + quotient)[1..] == quotient;
    DivArith(a[i], Val(quotient), Val(d), r0, count, Val(remainder.digits));
  }

  /** The count of subtractions at one position is at most 9. */
  lemma CountBound(r0: int, dv: int, x: int, count: int, rem: int)
    requires 0 <= r0 < dv && 0 <= x <= 9 && 0 <= count && 0 <= rem
    requires rem + count * dv == x + 10 * r0
    ensures count <= 9
  {
    if count >= 10 {
      MulMonotone(10, count, dv);
      assert false;
    }
  }

  /** x + 10 * (q * d + r0) == (count + 10 * q) * d + rem, given that the
      count subtractions took x + 10 * r0 down to rem. */
  lemma DivArith(x: int, q: int, dv: int, r0: int, count: int, rem: int)
    requires rem + count * dv == x + 10 * r0
    ensures x + 10 * (q * dv + r0) == (count + 10 * q) * dv + rem
  {
  }

  /** Once every digit has come down, the trimmed quotient and the remainder
      are the canonical quotient and remainder. */
  lemma DivDone(a: seq<int>, d: seq<int>, quotient: seq<int>, remainder: BigInteger)
    requires Canonical(a) && Val(d) > 0 && DivState(a, d, -1, quotient, remainder)
    ensures Canonical(Trim(quotient)) && Val(Trim(quotient)) == Quot(Val(a), Val(d))
    ensures Val(remainder.digits) == Val(a) % Val(d)
  {
    assert a[0..] == a;
    MulComm(Val(quotient), Val(d));
    DivModUnique(Val(a), Val(d), Val(quotient), Val(remainder.digits));
  }

  /** operator/: fails on a zero divisor; otherwise the quotient of the
      magnitudes, signed by the exclusive or of the operand signs even when
      it is zero. */
  method Div(a: BigInteger, b: BigInteger) returns (r: Result<BigInteger>)
    requires Valid(a) && Valid(b)
    ensures r.Failure? <==> IsZero(b)
    ensures r.Failure? ==> r.error == InvalidArgument("Division by zero")
    ensures Val(b.digits) != 0 ==> r.Success? && SignedVal(r.value) == TruncDiv(SignedVal(a), SignedVal(b))
    ensures Val(b.digits) != 0 ==> r.Success? && r.value == Quotient(a, b)
  {
    if |b.digits| == 1 && b.digits[0] == 0 {
      return Failure(InvalidArgument("Division by zero"));
    }
    CanonicalZero(b.digits);
    var q, _ := InnerDiv(a.digits, b.digits);
    r := Success(BigInteger(q, a.negative != b.negative));
    QuotientSign(Val(a.digits), Val(b.digits));
    Denotes(r.value, TruncDiv(SignedVal(a), SignedVal(b)), a.negative != b.negative);
  }

  /** A non-zero quotient of naturals has a non-zero dividend. */
  lemma QuotientSign(x: nat, y: nat)
    requires y > 0
    ensures x == 0 ==> Quot(x, y) == 0 && x % y == 0
  {
    if x == 0 {
      DivModUnique(x, y, 0, 0);
    }
  }

  /** operator%: fails on a zero divisor; otherwise the remainder of the
      magnitudes, below the divisor's magnitude and signed like the dividend
      even when it is zero. */
  method Mod(a: BigInteger, b: BigInteger) returns (r: Result<BigInteger>)
    requires Valid(a) && Valid(b)
    ensures r.Failure? <==> IsZero(b)
    ensures r.Failure? ==> r.error == InvalidArgument("Modulo by zero")
    ensures r.Success? ==> Val(r.value.digits) < Val(b.digits)
    ensures Val(b.digits) != 0 ==> r.Success? && SignedVal(r.value) == TruncMod(SignedVal(a), SignedVal(b))
    ensures Val(b.digits) != 0 ==> r.Success? && r.value == Remainder(a, b)
  {
    if |b.digits| == 1 && b.digits[0] == 0 {
      return Failure(InvalidArgument("Modulo by zero"));
    }
    CanonicalZero(b.digits);
    var _, m := InnerDiv(a.digits, b.digits);
    r := Success(BigInteger(m, a.negative));
    QuotientSign(Val(a.digits), Val(b.digits));
    Denotes(r.value, TruncMod(SignedVal(a), SignedVal(b)), a.negative);
  }

  // ---------------------------------------------------------------------
  // Rendering (operator<<)

  function DigitChar(d: int): char
    requires 0 <= d <= 9
  {
    "0123456789"[d]
  }

  /** The digits most-significant first. */
  function RenderDigits(ds: seq<int>): string
    requires IsDigits(ds)
  {
    if |ds| == 0 then "" else RenderDigits(ds[1..]) + [DigitChar(ds[0])]
  }

  /** The decimal numeral of n without leading zeros. */
  function NatString(n: nat): string
  {
    if n < 10 then [DigitChar(n)] else NatString(n / 10) + [DigitChar(n % 10)]
  }

  /** The decimal numeral of v: a '-' exactly when v < 0. */
  function DecimalString(v: int): string
  {
    if v < 0 then "-" + NatString(-v) else NatString(v)
  }

  /** operator<<: a '-' unless the value is non-negative or the digits are
      [0], then the digits from the most significant. A negative zero prints
      as "0". */
  function ToString(x: BigInteger): (s: string)
    requires Valid(x)
    ensures s == DecimalString(SignedVal(x))
  {
    CanonicalUnique(x.digits);
    RenderCanonical(Val(x.digits));
    CanonicalZero(x.digits);
    (if x.negative && !IsZero(x) then "-" else "") + RenderDigits(x.digits)
  }

  /** Rendering the canonical digits of n gives n's numeral. */
  lemma {:induction false} RenderCanonical(n: nat)
    ensures RenderDigits(ToDigits(n)) == NatString(n)
    decreases n
  {
    if n >= 10 {
      var ds := ToDigits(n);
      assert ds[1..] == ToDigits(n / 10);
      RenderCanonical(n / 10);
    }
  }
}
