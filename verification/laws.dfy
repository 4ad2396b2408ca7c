/**
 Algebraic laws of the BigInteger operators, stated over the values the
 operators' contracts pin down (Sum, Difference, Product, Quotient,
 Remainder), so each law holds of the operators themselves.
 */
module Laws {
  import opened Digits
  import opened BigInt

  /** Subtracting b from a + b gives back a: the same digits (operator==)
      and the same number. The sign flag may differ only for a zero. */
  lemma SubtractUndoesAdd(a: BigInteger, b: BigInteger)
    requires Valid(a) && Valid(b)
    ensures Equals(Difference(Sum(a, b), b), a)
    ensures SameValue(Difference(Sum(a, b), b), a)
  {
    Representation(a);
  }

  /** Adding b back to a - b gives back a. */
  lemma AddUndoesSubtract(a: BigInteger, b: BigInteger)
    requires Valid(a) && Valid(b)
    ensures Equals(Sum(Difference(a, b), b), a)
    ensures SameValue(Sum(Difference(a, b), b), a)
  {
    Representation(a);
  }

  /** operator+ is associative, sign flag of a zero result included: a zero
      total is negative exactly when all three operands are. */
  lemma SumAssociative(a: BigInteger, b: BigInteger, c: BigInteger)
    requires Valid(a) && Valid(b) && Valid(c)
    ensures Sum(Sum(a, b), c) == Sum(a, Sum(b, c))
  {
    var total := SignedVal(a) + SignedVal(b) + SignedVal(c);
    if total == 0 {
      ZeroSumSign(a, b, c);
      ZeroSumSign(c, b, a);
    }
  }

  /** The sign flag of a zero (a + b) + c is the conjunction of the three
      sign flags. */
  lemma ZeroSumSign(a: BigInteger, b: BigInteger, c: BigInteger)
    requires Valid(a) && Valid(b) && Valid(c)
    requires SignedVal(a) + SignedVal(b) + SignedVal(c) == 0
    ensures Sum(Sum(a, b), c).negative == (a.negative && b.negative && c.negative)
  {
    var ab := Sum(a, b);
    if SignedVal(ab) != 0 {
      if SignedVal(ab) < 0 {
        assert 0 < SignedVal(c) && !c.negative;
      } else {
        assert SignedVal(a) > 0 || SignedVal(b) > 0;
      }
    }
  }

  /** The division identity of operator/ and operator%: the quotient times
      the divisor plus the remainder is the dividend, and the remainder's
      magnitude is below the divisor's. */
  lemma DivisionIdentity(a: BigInteger, b: BigInteger)
    requires Valid(a) && Valid(b) && Val(b.digits) != 0
    ensures Equals(Sum(Product(Quotient(a, b), b), Remainder(a, b)), a)
    ensures SameValue(Sum(Product(Quotient(a, b), b), Remainder(a, b)), a)
    ensures Val(Remainder(a, b).digits) < Val(b.digits)
  {
    Representation(a);
    TruncIdentity(SignedVal(a), SignedVal(b));
  }

  /** Truncating division and remainder recombine to the dividend, and the
      remainder is smaller than the divisor in magnitude. */
  lemma TruncIdentity(x: int, y: int)
    requires y != 0
    ensures TruncDiv(x, y) * y + TruncMod(x, y) == x
    ensures Abs(TruncMod(x, y)) < Abs(y)
  {
    var ax, ay := Abs(x), Abs(y);
    var q, m := Quot(ax, ay), ax % ay;
    assert ax == ay * q + m;
    if y < 0 {
      assert ay * q == -(y * q);
      assert (-q) * y == ay * q;
    }
  }
}
