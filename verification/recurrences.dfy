/**
 The two recurrences built on the BigInteger operators: Fibonacci numbers by
 repeated operator+, factorials by repeated operator*.
 */
module Recurrences {
  import opened BigInt

  /** The Fibonacci numbers, F(0) = 0 and F(1) = 1. */
  ghost function Fib(n: nat): nat
  {
    if n < 2 then n else Fib(n - 1) + Fib(n - 2)
  }

  /** n factorial. */
  ghost function Fact(n: nat): nat
  {
    if n == 0 then 1 else n * Fact(n - 1)
  }

  /** fibonacci(n): F(n) for n >= 0. A negative n skips the loop and returns
      the default-constructed zero. */
  method Fibonacci(n: int) returns (r: BigInteger)
    requires n < Int32Max
    ensures Valid(r) && !r.negative
    ensures n >= 0 ==> SignedVal(r) == Fib(n)
    ensures n < 0 ==> r == FromValue(0, false)
  {
    if n == 0 {
      r := FromInt(0);
      return;
    }
    if n == 1 {
      r := FromInt(1);
      return;
    }
    var a := FromInt(0);
    var b := FromInt(1);
    var result := FromInt(0);
    var i := 2;
    while i <= n
      invariant 2 <= i <= (if n < 2 then 2 else n + 1)
      invariant a == FromValue(Fib(i - 2), false) && b == FromValue(Fib(i - 1), false)
      invariant if i == 2 then result == FromValue(0, false) else result == b
    {
      result := Add(a, b);
      FibStep(a, b, i);
      a := b;
      b := result;
      i := i + 1;
    }
    r := result;
  }

  /** factorial(n): n! for n >= 0; a negative n is rejected. */
  method Factorial(n: int) returns (r: Result<BigInteger>)
    requires n < Int32Max
    ensures r.Failure? <==> n < 0
    ensures r.Failure? ==> r.error == InvalidArgument("Factorial is not defined for negative numbers.")
    ensures n >= 0 ==> r.Success? && r.value == FromValue(Fact(n), false)
  {
    if n < 0 {
      return Failure(InvalidArgument("Factorial is not defined for negative numbers."));
    }
    var result := FromInt(1);
    var i := 2;
    while i <= n
      invariant 2 <= i <= (if n < 2 then 2 else n + 1)
      invariant result == FromValue(Fact(i - 1), false)
    {
      var factor := FromInt(i);
      ghost var previous := result;
      result := Mul(result, factor);
      FactStep(previous, factor, i);
      i := i + 1;
    }
    r := Success(result);
  }

  /** One step of fibonacci's loop: F(i-2) + F(i-1) is F(i). */
  lemma FibStep(a: BigInteger, b: BigInteger, i: int)
    requires 2 <= i && a == FromValue(Fib(i - 2), false) && b == FromValue(Fib(i - 1), false)
    ensures Sum(a, b) == FromValue(Fib(i), false)
  {
  }

  /** One step of factorial's loop: (i-1)! * i is i!. */
  lemma FactStep(result: BigInteger, factor: BigInteger, i: int)
    requires 2 <= i && result == FromValue(Fact(i - 1), false) && factor == FromValue(i, false)
    ensures Product(result, factor) == FromValue(Fact(i), false)
  {
    assert Fact(i) == i * Fact(i - 1);
  }
}
