/**
 The digit vector of a BigInteger: base-10 digits stored least-significant
 first, the number it denotes, its canonical form and the trimming step
 (removeLeadingZeros) that every kernel ends with.
 */
module Digits {

  /** 10^k. */
  function Pow10(k: nat): (p: nat)
    ensures p >= 1
  {
    if k == 0 then 1 else 10 * Pow10(k - 1)
  }

  /** Every entry is a decimal digit. */
  predicate IsDigits(ds: seq<int>)
  {
    forall i :: 0 <= i < |ds| ==> 0 <= ds[i] <= 9
  }

  /** The representation invariant of the digit vector: non-empty, decimal
      digits only, and no most-significant zero except in the single-digit
      zero `[0]`. */
  predicate Canonical(ds: seq<int>)
  {
    |ds| >= 1 && IsDigits(ds) && (|ds| == 1 || ds[|ds| - 1] != 0)
  }

  /** The number denoted by a least-significant-first digit vector. */
  ghost function Val(ds: seq<int>): (v: int)
    ensures IsDigits(ds) ==> 0 <= v
  {
    if |ds| == 0 then 0 else ds[0] + 10 * Val(ds[1..])
  }

  /** The canonical digit vector of n: the reference the kernels are
      measured against. */
  ghost function ToDigits(n: nat): (ds: seq<int>)
    ensures Canonical(ds) && Val(ds) == n
    decreases n
  {
    if n < 10 then [n] else [n % 10] + ToDigits(n / 10)
  }

  /** Digit i of ds, reading positions past the end as 0. */
  function Dig(ds: seq<int>, i: nat): int
  {
    if i < |ds| then ds[i] else 0
  }

  /** The lowest i digits of ds (all of ds when it is shorter). */
  function Prefix(ds: seq<int>, i: nat): seq<int>
  {
    if i <= |ds| then ds[..i] else ds
  }

  /** A run of k zero digits. */
  function Zeros(k: nat): (z: seq<int>)
    ensures |z| == k && forall i :: 0 <= i < k ==> z[i] == 0
  {
    seq(k, _ => 0)
  }

  /** removeLeadingZeros: drop most-significant zeros while more than one
      digit remains. */
  function Trim(ds: seq<int>): (r: seq<int>)
    ensures |r| <= |ds| && r == ds[..|r|]
    ensures Val(r) == Val(ds)
    ensures |ds| >= 1 ==> |r| >= 1
    ensures |ds| >= 1 && IsDigits(ds) ==> Canonical(r)
    decreases |ds|
  {
    if |ds| > 1 && ds[|ds| - 1] == 0 then
      assert ds == ds[..|ds| - 1] + [0];
      ValConcat(ds[..|ds| - 1], [0]);
      Trim(ds[..|ds| - 1])
    else
      ds
  }

  /** Trimming twice is trimming once. */
  lemma {:induction false} TrimIdempotent(ds: seq<int>)
    ensures Trim(Trim(ds)) == Trim(ds)
    decreases |ds|
  {
    if |ds| > 1 && ds[|ds| - 1] == 0 {
      TrimIdempotent(ds[..|ds| - 1]);
    }
  }

  /** A canonical vector is left alone by trimming. */
  lemma TrimCanonical(ds: seq<int>)
    requires Canonical(ds)
    ensures Trim(ds) == ds
  {
  }

  /** Splitting a vector splits its value. */
  lemma {:induction false} ValConcat(x: seq<int>, y: seq<int>)
    ensures Val(x + y) == Val(x) + Pow10(|x|) * Val(y)
    decreases |x|
  {
    if |x| == 0 {
      assert x + y == y;
    } else {
      assert (x + y)[1..] == x[1..] + y;
      ValConcat(x[1..], y);
      var p, w := Pow10(|x| - 1), Val(y);
      assert Val(x + y) == x[0] + 10 * (Val(x[1..]) + p * w);
      ScaleBy(Pow10(|x|), p, w);
    }
  }

  /** Appending a digit adds it at the next place value. */
  lemma ValSnoc(ds: seq<int>, x: int)
    ensures Val(ds + [x]) == Val(ds) + Pow10(|ds|) * x
  {
    assert [x][1..] == [];
    assert Val([x]) == x;
    ValConcat(ds, [x]);
  }

  /** Cutting a vector at position i splits its value at 10^i. */
  lemma ValSplit(ds: seq<int>, i: nat)
    requires i <= |ds|
    ensures Val(ds) == Val(ds[..i]) + Pow10(i) * Val(ds[i..])
  {
    assert ds == ds[..i] + ds[i..];
    ValConcat(ds[..i], ds[i..]);
  }

  /** The suffix from position i is digit i followed by the suffix from
      position i + 1. */
  lemma SuffixVal(ds: seq<int>, i: nat)
    requires i < |ds|
    ensures Val(ds[i..]) == ds[i] + 10 * Val(ds[i + 1..])
  {
    assert ds[i..][1..] == ds[i + 1..];
  }

  /** A vector of n digits denotes a number below 10^n. */
  lemma {:induction false} ValBounds(ds: seq<int>)
    requires IsDigits(ds)
    ensures Val(ds) < Pow10(|ds|)
    decreases |ds|
  {
    if |ds| > 0 {
      ValBounds(ds[1..]);
    }
  }

  /** The most-significant digit of a canonical multi-digit vector is at
      least 1, so the value is at least 10^(n-1). */
  lemma ValLeading(ds: seq<int>)
    requires Canonical(ds) && |ds| > 1
    ensures Pow10(|ds| - 1) <= Val(ds)
  {
    var n := |ds|;
    assert ds == ds[..n - 1] + [ds[n - 1]];
    ValConcat(ds[..n - 1], [ds[n - 1]]);
    assert Val([ds[n - 1]]) == ds[n - 1] + 10 * Val([]);
    MulMonotone(1, ds[n - 1], Pow10(n - 1));
  }

  /** A canonical vector denotes zero exactly when it is `[0]`. */
  lemma CanonicalZero(ds: seq<int>)
    requires Canonical(ds)
    ensures Val(ds) == 0 <==> ds == [0]
  {
    if |ds| > 1 {
      ValLeading(ds);
    } else {
      assert Val(ds) == ds[0] + 10 * Val(ds[1..]);
    }
  }

  /** 10^k grows strictly with k. */
  lemma {:induction false} Pow10Monotone(j: nat, k: nat)
    requires j < k
    ensures Pow10(j) < Pow10(k)
    decreases k
  {
    if j < k - 1 {
      Pow10Monotone(j, k - 1);
    }
  }

  /** Comparing powers of ten compares their exponents. */
  lemma Pow10Strict(j: nat, k: nat)
    ensures j < k <==> Pow10(j) < Pow10(k)
  {
    if j < k {
      Pow10Monotone(j, k);
    } else if k < j {
      Pow10Monotone(k, j);
    }
  }

  /** 10^(j+k) == 10^j * 10^k. */
  lemma {:induction false} Pow10Add(j: nat, k: nat)
    ensures Pow10(j + k) == Pow10(j) * Pow10(k)
    decreases j
  {
    if j > 0 {
      Pow10Add(j - 1, k);
      assert Pow10(j + k) == 10 * Pow10(j - 1 + k);
      ScaleBy(Pow10(j), Pow10(j - 1), Pow10(k));
    }
  }

  /** A canonical vector is the canonical vector of its own value, so
      canonical vectors with the same value are identical. */
  lemma {:induction false} CanonicalUnique(ds: seq<int>)
    requires Canonical(ds)
    ensures ds == ToDigits(Val(ds))
    decreases |ds|
  {
    var v := Val(ds);
    if |ds| == 1 {
      assert Val(ds) == ds[0] + 10 * Val(ds[1..]);
    } else {
      var t := ds[1..];
      assert Canonical(t);
      CanonicalUnique(t);
      if |t| > 1 {
        ValLeading(t);
      } else {
        assert Val(t) == t[0] + 10 * Val(t[1..]);
      }
      assert v == ds[0] + 10 * Val(t);
      assert v % 10 == ds[0] && v / 10 == Val(t);
      assert ds == [ds[0]] + t;
    }
  }

  /** Two canonical vectors with equal values are equal. */
  lemma CanonicalInjective(x: seq<int>, y: seq<int>)
    requires Canonical(x) && Canonical(y) && Val(x) == Val(y)
    ensures x == y
  {
    CanonicalUnique(x);
    CanonicalUnique(y);
  }

  /** Extending a prefix by one position adds that position's digit. */
  lemma PrefixStep(ds: seq<int>, i: nat)
    ensures Val(Prefix(ds, i + 1)) == Val(Prefix(ds, i)) + Pow10(i) * Dig(ds, i)
  {
    if i < |ds| {
      assert ds[..i + 1] == ds[..i] + [ds[i]];
      ValSnoc(ds[..i], ds[i]);
    } else {
      assert ds[..|ds|] == ds;
    }
  }

  /** Once i reaches the length, the prefix is the whole vector. */
  lemma PrefixAll(ds: seq<int>, i: nat)
    requires |ds| <= i
    ensures Prefix(ds, i) == ds
  {
    assert ds[..|ds|] == ds;
  }

  /** Overwriting position k changes the value by the difference at 10^k. */
  lemma {:induction false} ValUpdate(ds: seq<int>, k: nat, v: int)
    requires k < |ds|
    ensures Val(ds[k := v]) == Val(ds) + Pow10(k) * (v - ds[k])
    decreases k
  {
    if k > 0 {
      assert ds[k := v][1..] == ds[1..][k - 1 := v];
      ValUpdate(ds[1..], k - 1, v);
      ScaleBy(Pow10(k), Pow10(k - 1), v - ds[k]);
    }
  }

  /** k zero digits denote zero. */
  lemma {:induction false} ZerosVal(k: nat)
    ensures Val(Zeros(k)) == 0
    decreases k
  {
    if k > 0 {
      assert Zeros(k)[1..] == Zeros(k - 1);
      ZerosVal(k - 1);
    }
  }

  /** One more zero in front. */
  lemma ZerosCons(k: nat)
    ensures [0] + Zeros(k) == Zeros(k + 1)
  {
  }

  /** Prepending k zeros multiplies by 10^k. */
  lemma ShiftVal(k: nat, ds: seq<int>)
    ensures Val(Zeros(k) + ds) == Pow10(k) * Val(ds)
  {
    ValConcat(Zeros(k), ds);
    ZerosVal(k);
  }

  /** Euclidean division of a non-negative number is pinned down by its
      defining equation. */
  /** The quotient of naturals as a natural (Euclidean and truncating
      division agree here). */
  function Quot(x: nat, d: nat): nat
    requires d > 0
  {
    QuotBounds(x, d);
    x / d
  }

  /** The quotient of naturals is a natural no larger than the dividend. */
  lemma QuotBounds(x: int, d: int)
    requires 0 <= x && 0 < d
    ensures 0 <= x / d <= x
  {
    var q, r := x / d, x % d;
    assert x == d * q + r && 0 <= r < d;
    if q < 0 {
      MulMonotone(q, -1, d);
      assert false;
    } else if q > x {
      MulMonotone(1, d, q);
      assert false;
    }
  }

  lemma DivModUnique(x: int, d: int, q: int, r: int)
    requires d > 0 && 0 <= r < d && x == d * q + r
    ensures x / d == q && x % d == r
  {
    var q', r' := x / d, x % d;
    assert x == d * q' + r' && 0 <= r' < d;
    if q' > q {
      MulMonotone(q + 1, q', d);
      assert false;
    } else if q' < q {
      MulMonotone(q' + 1, q, d);
      assert false;
    }
  }

  // Integer facts used by the proofs above and by the kernels. Each is
  // stated over plain integers so that callers only reason linearly.

  /** Multiplying by a non-negative factor preserves order. */
  lemma MulMonotone(a: int, b: int, d: int)
    requires a <= b && 0 <= d
    ensures a * d <= b * d && d * a <= d * b
  {
  }

  /** The product of two bounded non-negative numbers is bounded by the
      product of the bounds. */
  lemma MulStrict(x: int, y: int, xBound: int, yBound: int)
    requires 0 <= x < xBound && 0 <= y < yBound
    ensures x * y < xBound * yBound
  {
    MulMonotone(x, xBound, y);
    MulMonotone(y, yBound - 1, xBound);
  }

  /** Scaling the first factor by ten scales the product by ten. */
  lemma ScaleBy(big: int, p: int, w: int)
    requires big == 10 * p
    ensures big * w == 10 * (p * w)
  {
  }

  /** Multiplication commutes. */
  lemma MulComm(x: int, y: int)
    ensures x * y == y * x
  {
  }

  /** A column total s split into the digit kept at place value p and the
      carry sent to place value 10p. */
  lemma CarrySplit(s: int, p: int, next: int)
    requires next == 10 * p
    ensures p * (s % 10) + next * (s / 10) == p * s
  {
    assert s == 10 * (s / 10) + s % 10;
    assert p * s == p * (10 * (s / 10)) + p * (s % 10);
  }

  /** Distributing a place value over a three-term column total. */
  lemma Distrib3(p: int, x: int, y: int, z: int)
    ensures p * (x + y + z) == p * x + p * y + p * z
  {
  }
}
