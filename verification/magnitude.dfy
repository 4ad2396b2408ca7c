/**
 The sign-agnostic kernels of BigInteger: they read and build digit vectors
 only (the sign of a kernel's result is always overwritten by the operator
 that calls it).
 */
module Magnitude {
  import opened Digits

  /** The three outcomes of a comparison (std::strong_ordering). */
  datatype Ordering = Less | Equal | Greater

  /** compare_digits: the longer canonical vector is larger; equal lengths
      are decided by the most-significant differing digit. */
  method CompareDigits(a: seq<int>, b: seq<int>) returns (o: Ordering)
    requires Canonical(a) && Canonical(b)
    ensures o == Less <==> Val(a) < Val(b)
    ensures o == Equal <==> Val(a) == Val(b)
    ensures o == Greater <==> Val(a) > Val(b)
  {
    LengthOrders(a, b);
    LengthOrders(b, a);
    if |a| < |b| {
      return Less;
    } else if |a| > |b| {
      return Greater;
    }
    var i := |a| - 1;
    while i >= 0
      invariant -1 <= i < |a|
      invariant forall k :: i < k < |a| ==> a[k] == b[k]
    {
      if a[i] < b[i] {
        FirstDifferenceOrders(a, b, i);
        return Less;
      } else if a[i] > b[i] {
        FirstDifferenceOrders(b, a, i);
        return Greater;
      }
      i := i - 1;
    }
    assert a == b;
    return Equal;
  }

  /** A canonical vector with fewer digits denotes a smaller number. */
  lemma LengthOrders(a: seq<int>, b: seq<int>)
    requires Canonical(a) && Canonical(b)
    ensures |a| < |b| ==> Val(a) < Val(b)
  {
    if |a| < |b| {
      ValBounds(a);
      ValLeading(b);
      if |a| < |b| - 1 {
        Pow10Monotone(|a|, |b| - 1);
      }
    }
  }

  /** Equal-length vectors that agree above position i and differ at i are
      ordered by that digit. */
  lemma FirstDifferenceOrders(a: seq<int>, b: seq<int>, i: nat)
    requires IsDigits(a) && IsDigits(b) && |a| == |b| && i < |a|
    requires a[i] < b[i]
    requires forall k :: i < k < |a| ==> a[k] == b[k]
    ensures Val(a) < Val(b)
  {
    ValSplit(a, i);
    ValSplit(b, i);
    ValBounds(a[..i]);
    SuffixVal(a, i);
    SuffixVal(b, i);
    assert a[i + 1..] == b[i + 1..];
    PlaceOrder(Val(a[..i]), Val(b[..i]), Pow10(i), Val(a[i..]), Val(b[i..]), a[i], b[i], Val(a[i + 1..]));
  }

  /** A lower digit at the first differing place outweighs everything below
      that place. */
  lemma PlaceOrder(lowA: int, lowB: int, p: int, highA: int, highB: int, x: int, y: int, s: int)
    requires 0 <= lowA < p && 0 <= lowB && x < y
    requires highA == x + 10 * s && highB == y + 10 * s
    ensures lowA + p * highA < lowB + p * highB
  {
    MulMonotone(x + 1 + 10 * s, y + 10 * s, p);
  }

  /** inner_add: schoolbook addition with a carry that never exceeds 1. */
  method InnerAdd(a: seq<int>, b: seq<int>) returns (r: seq<int>)
    requires Canonical(a) && Canonical(b)
    ensures Canonical(r) && Val(r) == Val(a) + Val(b)
    ensures |r| <= (if |a| < |b| then |b| else |a|) + 1
  {
    var res: seq<int> := [];
    var carry := 0;
    var maxSize := if |a| < |b| then |b| else |a|;
    var i := 0;
    while i < maxSize || carry != 0
      invariant AddState(a, b, i, res, carry)
      invariant i <= maxSize + 1 - carry
      decreases maxSize + 1 - i
    {
      ghost var carry0 := carry;
      if i < |a| {
        carry := carry + a[i];
      }
      if i < |b| {
        carry := carry + b[i];
      }
      AddColumn(a, b, i, res, carry0, carry);
      res := res + [carry % 10];
      carry := carry / 10;
      i := i + 1;
    }
    r := Trim(res);
    AddDone(a, b, res);
  }

  /** The loop state of inner_add after i columns: the digits written plus
      the pending carry account for the low i digits of both operands. */
  ghost predicate AddState(a: seq<int>, b: seq<int>, i: nat, res: seq<int>, carry: int)
  {
    && 0 <= carry <= 1
    && |res| == i && IsDigits(res)
    && Val(res) + Pow10(i) * carry == Val(Prefix(a, i)) + Val(Prefix(b, i))
  }

  /** One column of inner_add: the column total s is split into the digit
      written at place i and the carry into place i + 1. */
  lemma AddColumn(a: seq<int>, b: seq<int>, i: nat, res: seq<int>, carry0: int, s: int)
    requires IsDigits(a) && IsDigits(b) && AddState(a, b, i, res, carry0)
    requires s == carry0 + Dig(a, i) + Dig(b, i)
    ensures AddState(a, b, i + 1, res + [s % 10], s / 10)
  {
    PrefixStep(a, i);
    PrefixStep(b, i);
    ValSnoc(res, s % 10);
    CarrySplit(s, Pow10(i), Pow10(i + 1));
    Distrib3(Pow10(i), carry0, Dig(a, i), Dig(b, i));
  }

  /** With both operands consumed and no carry left, trimming the digits
      written gives the canonical sum. */
  lemma AddDone(a: seq<int>, b: seq<int>, res: seq<int>)
    requires Canonical(a) && Canonical(b)
    requires AddState(a, b, |res|, res, 0) && |a| <= |res| && |b| <= |res|
    ensures Canonical(Trim(res)) && Val(Trim(res)) == Val(a) + Val(b)
  {
    PrefixAll(a, |res|);
    PrefixAll(b, |res|);
  }

  /** inner_sub: the distance between the two magnitudes. When the first is
      smaller the operands are swapped (one hop), so the borrow loop always
      runs with the larger magnitude on top and ends without a borrow. */
  method InnerSub(a: seq<int>, b: seq<int>) returns (r: seq<int>)
    requires Canonical(a) && Canonical(b)
    ensures Canonical(r) && Val(r) == (if Val(a) < Val(b) then Val(b) - Val(a) else Val(a) - Val(b))
    decreases if Val(a) < Val(b) then 1 else 0
  {
    var ord := CompareDigits(a, b);
    if ord == Less {
      r := InnerSub(b, a);
      return;
    }
    var res: seq<int> := [];
    var borrow := 0;
    var i := 0;
    while i < |a|
      invariant i <= |a| && SubState(a, b, i, res, borrow)
    {
      var digit1 := a[i];
      var digit2 := if i < |b| then b[i] else 0;
      var diff := digit1 - digit2 - borrow;
      ghost var borrow0 := borrow;
      if diff < 0 {
        diff := diff + 10;
        borrow := 1;
      } else {
        borrow := 0;
      }
      BorrowColumn(a, b, i, res, borrow0, diff, borrow);
      res := res + [diff];
      i := i + 1;
    }
    NoFinalBorrow(a, b, res, borrow);
    r := Trim(res);
    SubDone(a, b, res);
  }

  /** The loop state of inner_sub after i columns: the digits written, less
      the pending borrow, account for the low i digits of a minus those of b. */
  ghost predicate SubState(a: seq<int>, b: seq<int>, i: nat, res: seq<int>, borrow: int)
  {
    && (borrow == 0 || borrow == 1)
    && |res| == i && IsDigits(res)
    && Val(res) - Pow10(i) * borrow == Val(Prefix(a, i)) - Val(Prefix(b, i))
  }

  /** One column of the borrow loop of inner_sub. */
  lemma BorrowColumn(a: seq<int>, b: seq<int>, i: nat, res: seq<int>, borrow0: int, diff: int, borrow: int)
    requires IsDigits(a) && IsDigits(b) && i < |a| && SubState(a, b, i, res, borrow0)
    requires diff - 10 * borrow == a[i] - Dig(b, i) - borrow0
    requires (borrow == 0 && 0 <= diff) || (borrow == 1 && diff < 10)
    ensures SubState(a, b, i + 1, res + [diff], borrow)
  {
    PrefixStep(a, i);
    PrefixStep(b, i);
    ValSnoc(res, diff);
    BorrowStep(Pow10(i), Pow10(i + 1), diff, borrow, a[i], Dig(b, i), borrow0);
  }

  /** Trimming digits that denote a - b gives the canonical difference. */
  lemma SubDone(a: seq<int>, b: seq<int>, res: seq<int>)
    requires Val(b) <= Val(a) && |res| >= 1 && IsDigits(res)
    requires Val(res) == Val(a) - Val(b)
    ensures Canonical(Trim(res)) && Val(Trim(res)) == Val(a) - Val(b)
  {
  }

  /** The final borrow is 0: otherwise the difference of the operands would
      be negative. */
  lemma NoFinalBorrow(a: seq<int>, b: seq<int>, res: seq<int>, borrow: int)
    requires Canonical(a) && Canonical(b) && Val(b) <= Val(a)
    requires |res| == |a| && SubState(a, b, |a|, res, borrow)
    ensures borrow == 0 && Val(res) == Val(a) - Val(b)
  {
    LengthOrders(a, b);
    PrefixAll(a, |a|);
    PrefixAll(b, |a|);
    ValBounds(res);
    NoBorrowOut(Val(res), Pow10(|a|), borrow, Val(a) - Val(b));
  }

  /** A borrow out of the top place would make v - p negative. */
  lemma NoBorrowOut(v: int, p: int, borrow: int, diff: int)
    requires 0 <= v < p && (borrow == 0 || borrow == 1)
    requires v - p * borrow == diff && 0 <= diff
    ensures borrow == 0 && v == diff
  {
  }

  /** One column of the borrow loop, at place value p. */
  lemma BorrowStep(p: int, next: int, diff: int, borrow: int, d1: int, d2: int, borrow0: int)
    requires next == 10 * p && diff - 10 * borrow == d1 - d2 - borrow0
    ensures p * diff - next * borrow == p * d1 - p * d2 - p * borrow0
  {
    assert p * (diff - 10 * borrow) == p * (d1 - d2 - borrow0);
  }

  /** The power-of-ten test shared by inner_mul and inner_div: more than one
      digit, all below the top zero, and a top digit of 1. */
  method IsPowerOfTen(ds: seq<int>) returns (p: bool)
    requires |ds| >= 1
    ensures p <==> |ds| > 1 && ds == Zeros(|ds| - 1) + [1]
    ensures Canonical(ds) ==> (p <==> |ds| > 1 && Val(ds) == Pow10(|ds| - 1))
  {
    if |ds| <= 1 {
      return false;
    }
    var lowZero := true;
    var i := 0;
    while i < |ds| - 1
      invariant 0 <= i <= |ds| - 1
      invariant lowZero && forall k :: 0 <= k < i ==> ds[k] == 0
    {
      if ds[i] != 0 {
        lowZero := false;
        break;
      }
      i := i + 1;
    }
    p := lowZero && ds[|ds| - 1] == 1;
    var unit := Zeros(|ds| - 1) + [1];
    ShiftVal(|ds| - 1, [1]);
    assert Val([1]) == 1 + 10 * Val([]);
    assert Canonical(unit);
    if p {
      assert ds == unit;
    } else {
      assert ds != unit by {
        if lowZero {
          assert ds[|ds| - 1] != unit[|ds| - 1];
        } else {
          assert ds[i] != unit[i];
        }
      }
      if Canonical(ds) && Val(ds) == Val(unit) {
        CanonicalInjective(ds, unit);
      }
    }
  }

  /** The multiplication fast path: prepend k zero digits. */
  method ShiftLeft(a: seq<int>, k: nat) returns (r: seq<int>)
    requires Canonical(a)
    ensures Canonical(r) && Val(r) == Val(a) * Pow10(k)
  {
    var res := a;
    var j := 0;
    while j < k
      invariant 0 <= j <= k
      invariant res == Zeros(j) + a
    {
      ZerosCons(j);
      res := [0] + res;
      j := j + 1;
    }
    r := Trim(res);
    ShiftedTrim(a, k);
  }

  /** Trimming a with k zeros prepended gives the canonical vector of
      a * 10^k. */
  lemma ShiftedTrim(a: seq<int>, k: nat)
    requires Canonical(a)
    ensures Canonical(Trim(Zeros(k) + a)) && Val(Trim(Zeros(k) + a)) == Val(a) * Pow10(k)
  {
    ShiftVal(k, a);
    MulComm(Pow10(k), Val(a));
    assert IsDigits(Zeros(k) + a);
  }
  /** The general multiplication path: long multiplication into a buffer of
      |a| + |b| digits. Every write index stays inside the buffer and every
      carry stays at most 9. */
  method LongMul(a: seq<int>, b: seq<int>) returns (r: seq<int>)
    requires Canonical(a) && Canonical(b)
    ensures Canonical(r) && Val(r) == Val(a) * Val(b)
  {
    var n := |a| + |b|;
    var res := Zeros(n);
    MulStart(a, b);
    var i := 0;
    while i < |a|
      invariant i <= |a| && RowState(a, b, i, res)
    {
      var carry := 0;
      var j := 0;
      RowStart(a, b, i, res);
      while j < |b| || carry != 0
        invariant CellState(a, b, i, j, res, carry)
        decreases n - (i + j)
      {
        CellInBuffer(a, b, i, j, res, carry);
        var d := if j < |b| then b[j] else 0;
        var cur := res[i + j] + a[i] * d + carry;
        MulCell(a, b, i, j, res, carry, cur);
        res := res[i + j := cur % 10];
        carry := cur / 10;
        j := j + 1;
      }
      RowDone(a, b, i, j, res);
      i := i + 1;
    }
    r := Trim(res);
    MulDone(a, b, res);
  }

  /** The outer-loop state of long multiplication: after i rows the buffer
      holds the product of the low i digits of a with b. */
  ghost predicate RowState(a: seq<int>, b: seq<int>, i: nat, res: seq<int>)
  {
    && |res| == |a| + |b| && IsDigits(res)
    && Val(res) == Val(Prefix(a, i)) * Val(b)
  }

  /** The inner-loop state of row i after j cells: the buffer plus the
      pending carry at place i + j hold the earlier rows plus a[i] times the
      low j digits of b, at place 10^i. */
  ghost predicate CellState(a: seq<int>, b: seq<int>, i: nat, j: nat, res: seq<int>, carry: int)
  {
    && i < |a| && i + j <= |a| + |b|
    && 0 <= carry <= 9
    && |res| == |a| + |b| && IsDigits(res)
    && Val(res) + Pow10(i + j) * carry == Val(Prefix(a, i)) * Val(b) + Pow10(i) * (a[i] * Val(Prefix(b, j)))
  }

  /** The zero buffer is the product of no rows. */
  lemma MulStart(a: seq<int>, b: seq<int>)
    ensures RowState(a, b, 0, Zeros(|a| + |b|))
  {
    ZerosVal(|a| + |b|);
    assert Prefix(a, 0) == [];
  }

  /** A row starts with no carry and no cell done. */
  lemma RowStart(a: seq<int>, b: seq<int>, i: nat, res: seq<int>)
    requires i < |a| && RowState(a, b, i, res)
    ensures CellState(a, b, i, 0, res, 0)
  {
    assert Prefix(b, 0) == [];
  }

  /** Every cell the inner loop visits lies inside the buffer. */
  lemma CellInBuffer(a: seq<int>, b: seq<int>, i: nat, j: nat, res: seq<int>, carry: int)
    requires Canonical(a) && Canonical(b)
    requires CellState(a, b, i, j, res, carry) && (j < |b| || carry != 0)
    ensures i + j < |a| + |b|
  {
    if |b| <= j {
      CarryFits(a, b, i, j, res, carry);
    }
  }

  /** While the carry loop runs past the end of b, the partial product is
      below 10^(i+1+|b|), so a non-zero carry sits below position |a|+|b|. */
  lemma CarryFits(a: seq<int>, b: seq<int>, i: nat, j: nat, res: seq<int>, carry: int)
    requires Canonical(a) && Canonical(b)
    requires CellState(a, b, i, j, res, carry) && |b| <= j && 1 <= carry
    ensures i + j < |a| + |b|
  {
    PrefixAll(b, j);
    RowSum(a, b, i);
    PartialBound(a, b, i);
    MulMonotone(1, carry, Pow10(i + j));
    Pow10Strict(i + j, i + 1 + |b|);
  }

  /** The product of the low i + 1 digits of a with b is below 10^(i+1+|b|). */
  lemma PartialBound(a: seq<int>, b: seq<int>, i: nat)
    requires IsDigits(a) && IsDigits(b) && i < |a|
    ensures Val(Prefix(a, i + 1)) * Val(b) < Pow10(i + 1 + |b|)
  {
    assert IsDigits(Prefix(a, i + 1));
    ValBounds(Prefix(a, i + 1));
    ValBounds(b);
    MulStrict(Val(Prefix(a, i + 1)), Val(b), Pow10(i + 1), Pow10(|b|));
    Pow10Add(i + 1, |b|);
  }

  /** One cell of long multiplication keeps the inner-loop state. */
  lemma MulCell(a: seq<int>, b: seq<int>, i: nat, j: nat, res: seq<int>, carry: int, cur: int)
    requires IsDigits(a) && IsDigits(b)
    requires CellState(a, b, i, j, res, carry) && i + j < |res|
    requires cur == res[i + j] + a[i] * Dig(b, j) + carry
    ensures CellState(a, b, i, j + 1, res[i + j := cur % 10], cur / 10)
  {
    DigitProduct(a[i], Dig(b, j));
    MulColumn(a, b, i, j, res, carry, cur, Val(Prefix(a, i)) * Val(b));
  }

  /** A digit times a digit is at most 81. */
  lemma DigitProduct(x: int, y: int)
    requires 0 <= x <= 9 && 0 <= y <= 9
    ensures 0 <= x * y <= 81
  {
    MulMonotone(x, 9, y);
    MulMonotone(y, 9, 9);
  }

  /** One cell of the long-multiplication loop keeps the running total. */
  lemma MulColumn(a: seq<int>, b: seq<int>, i: nat, j: nat, res: seq<int>, carry: int, cur: int, base: int)
    requires i < |a| && i + j < |res|
    requires cur == res[i + j] + a[i] * Dig(b, j) + carry
    requires Val(res) + Pow10(i + j) * carry == base + Pow10(i) * (a[i] * Val(Prefix(b, j)))
    ensures Val(res[i + j := cur % 10]) + Pow10(i + j + 1) * (cur / 10)
            == base + Pow10(i) * (a[i] * Val(Prefix(b, j + 1)))
  {
    var k := i + j;
    ValUpdate(res, k, cur % 10);
    CarrySplit(cur, Pow10(k), Pow10(k + 1));
    PrefixStep(b, j);
    Pow10Add(i, j);
    CellArith(Pow10(k), Pow10(k + 1), Pow10(i), Pow10(j), a[i], Val(Prefix(b, j)), Val(Prefix(b, j + 1)), Dig(b, j),
              cur, res[k], carry, Val(res), Val(res[k := cur % 10]), base);
  }

  /** The arithmetic of one long-multiplication cell: writing cur % 10 over
      the digit rk at place p = 10^(i+j) and carrying cur / 10 to place
      next = 10^(i+j+1) adds a[i] * d at place 10^i * 10^j to the row. */
  lemma CellArith(p: int, next: int, pi: int, pj: int, ai: int, v: int, v1: int, d: int,
                  cur: int, rk: int, carry: int, before: int, after: int, base: int)
    requires p == pi * pj && cur == rk + ai * d + carry
    requires after == before + p * (cur % 10 - rk)
    requires p * (cur % 10) + next * (cur / 10) == p * cur
    requires v1 == v + pj * d
    requires before + p * carry == base + pi * (ai * v)
    ensures after + next * (cur / 10) == base + pi * (ai * v1)
  {
    assert p * (cur % 10 - rk) == p * (cur % 10) - p * rk;
    assert pi * (ai * (v + pj * d)) == pi * (ai * v) + (pi * pj) * (ai * d);
    assert p * cur == p * rk + p * (ai * d) + p * carry;
  }

  /** A row that has consumed all of b with no carry left completes the
      product of the low i + 1 digits of a. */
  lemma RowDone(a: seq<int>, b: seq<int>, i: nat, j: nat, res: seq<int>)
    requires CellState(a, b, i, j, res, 0) && |b| <= j
    ensures RowState(a, b, i + 1, res)
  {
    PrefixAll(b, j);
    RowSum(a, b, i);
  }

  /** Closing row i adds a[i] * b * 10^i to the accumulated product. */
  lemma RowSum(a: seq<int>, b: seq<int>, i: nat)
    requires i < |a|
    ensures Val(Prefix(a, i)) * Val(b) + Pow10(i) * (a[i] * Val(b)) == Val(Prefix(a, i + 1)) * Val(b)
  {
    PrefixStep(a, i);
    RowArith(Val(Prefix(a, i)), Pow10(i), a[i], Val(b));
  }

  /** (v + p*x) * w == v*w + p*(x*w). */
  lemma RowArith(v: int, p: int, x: int, w: int)
    ensures (v + p * x) * w == v * w + p * (x * w)
  {
  }

  /** After every row, trimming the buffer gives the canonical product. */
  lemma MulDone(a: seq<int>, b: seq<int>, res: seq<int>)
    requires Canonical(a) && Canonical(b) && RowState(a, b, |a|, res)
    ensures Canonical(Trim(res)) && Val(Trim(res)) == Val(a) * Val(b)
  {
    PrefixAll(a, |a|);
  }

  /** inner_mul: the shift fast path when b is 10^k with k >= 1, long
      multiplication otherwise. Both paths return the canonical vector of
      the product, so they agree digit for digit. */
  method InnerMul(a: seq<int>, b: seq<int>) returns (r: seq<int>)
    requires Canonical(a) && Canonical(b)
    ensures Canonical(r) && Val(r) == Val(a) * Val(b)
  {
    var shift := IsPowerOfTen(b);
    if shift {
      r := ShiftLeft(a, |b| - 1);
    } else {
      r := LongMul(a, b);
    }
  }

  /** The division fast path for a divisor 10^k with k >= 1: the quotient is
      the digits from position k up, the remainder the digits below k. */
  method ShiftRight(a: seq<int>, k: nat) returns (q: seq<int>, r: seq<int>)
    requires Canonical(a) && k >= 1
    ensures Canonical(q) && Val(q) == Quot(Val(a), Pow10(k))
    ensures Canonical(r) && Val(r) == Val(a) % Pow10(k)
  {
    if k >= |a| {
      q := [0];
      r := a;
      ShortDividend(a, k);
    } else {
      var high: seq<int> := [];
      var i := k;
      while i < |a|
        invariant k <= i <= |a|
        invariant high == a[k..i]
      {
        high := high + [a[i]];
        i := i + 1;
      }
      q := Trim(high);
      var low: seq<int> := [];
      i := 0;
      while i < k
        invariant 0 <= i <= k
        invariant low == a[..i]
      {
        low := low + [a[i]];
        i := i + 1;
      }
      r := Trim(low);
      assert high == a[k..];
      SplitDigits(a, k);
    }
  }

  /** A dividend with at most k digits is below 10^k: quotient 0, remainder
      the dividend itself. */
  lemma ShortDividend(a: seq<int>, k: nat)
    requires Canonical(a) && |a| <= k
    ensures Quot(Val(a), Pow10(k)) == 0
    ensures Val(a) % Pow10(k) == Val(a)
  {
    ValBounds(a);
    if |a| < k {
      Pow10Monotone(|a|, k);
    }
    DivModUnique(Val(a), Pow10(k), 0, Val(a));
  }

  /** Splitting a at position k divides it by 10^k: the high digits are the
      quotient and the low digits the remainder, once trimmed. */
  lemma SplitDigits(a: seq<int>, k: nat)
    requires Canonical(a) && 1 <= k < |a|
    ensures Canonical(Trim(a[k..])) && Val(Trim(a[k..])) == Quot(Val(a), Pow10(k))
    ensures Canonical(Trim(a[..k])) && Val(Trim(a[..k])) == Val(a) % Pow10(k)
  {
    ValSplit(a, k);
    ValBounds(a[..k]);
    DivModUnique(Val(a), Pow10(k), Val(a[k..]), Val(a[..k]));
    assert IsDigits(a[k..]) && IsDigits(a[..k]);
  }
}
