/**
  Trial-division primality test of practice_project/is_prime.py.

  The specification is the mathematical one (`IsPrime`: greater than one and
  no divisor strictly between one and itself). The implementation method
  `IsPrimeImpl` keeps the source's shape: guard clauses for numbers up to 3,
  then a counter `i` that runs from 2 while `i * i <= number`. Python's `int`
  is unbounded, so Dafny's `int` models it without wrap-around; all the
  remainders taken are of a positive number by a positive divisor, where
  Python's floored `%` and Dafny's Euclidean `%` agree.
*/
module Primality {

  /** `d` is a positive divisor of `n`. */
  ghost predicate Divides(d: int, n: int) {
    d > 0 && n % d == 0
  }

  /** `n` is prime: greater than one and no divisor strictly between 1 and `n`. */
  ghost predicate IsPrime(n: int) {
    n > 1 && forall d :: 1 < d < n ==> !Divides(d, n)
  }

  /** No divisor `d >= 2` with `d * d <= n`: what the loop's exit establishes. */
  ghost predicate NoDivisorUpToRoot(n: int) {
    forall d :: 2 <= d && d * d <= n ==> !Divides(d, n)
  }

  /** No divisor in the half-open range [2, i): the loop invariant. */
  ghost predicate NoDivisorBelow(n: int, i: int) {
    forall d :: 2 <= d < i ==> !Divides(d, n)
  }

  /** Squaring is monotone on the non-negative integers. */
  lemma SquareMonotone(a: int, b: int)
    requires 0 <= a <= b
    ensures a * a <= b * b
  {
    calc {
      a * a;
    <= { assert a * a <= a * b; }
      a * b;
    <= { assert a * b <= b * b; }
      b * b;
    }
  }

  /** A divisor `d >= 2` with `d * d <= n` is a proper divisor, so `n` is not prime. */
  lemma SmallDivisorRefutes(n: int, d: int)
    requires 2 <= d && d * d <= n && Divides(d, n)
    ensures 1 < d < n && !IsPrime(n)
  {
    assert d * 2 <= d * d;
  }

  /** A multiple of a positive number leaves no remainder. */
  lemma MultipleHasNoRemainder(a: int, b: int)
    requires a > 0
    ensures (a * b) % a == 0
  {
    var q, r := (a * b) / a, (a * b) % a;
    assert a * b == a * q + r && 0 <= r < a;
    assert a * (b - q) == r;
    assert b - q >= 1 ==> a * (b - q) >= a * 1;
    assert b - q <= -1 ==> a * (b - q) <= a * -1;
  }

  /** A factor of at least 2 makes a product larger than the other, positive, factor. */
  lemma ProductExceedsFactor(a: int, b: int)
    requires a >= 2 && b >= 1
    ensures a * b > b
  {
    assert a * b == (a - 1) * b + b;
  }

  /**
    Divisors come in pairs: a proper divisor `d` of `n` has a cofactor `e`,
    itself a proper divisor, with `d * e == n`.
  */
  lemma Cofactor(n: int, d: int) returns (e: int)
    requires 1 < d < n && Divides(d, n)
    ensures 1 < e < n && Divides(e, n) && d * e == n
  {
    e := n / d;
    assert n == d * e + n % d;
    assert d * e == n;
    assert e <= 1 ==> d * e <= d * 1;
    assert e > 1;
    ProductExceedsFactor(d, e);
    MultipleHasNoRemainder(e, d);
    assert e * d == n;
  }

  /** Of a pair of divisors `d * e == n`, the smaller one is at most the square root. */
  lemma SmallerOfPair(n: int, d: int, e: int)
    requires 0 <= d && 0 <= e && d * e == n
    ensures d * d <= n || e * e <= n
  {
    if d <= e {
      assert d * d <= d * e;
    } else {
      assert e * e <= e * d;
    }
  }

  /**
    The square-root cutoff: for `n > 1`, having no divisor up to the square
    root is the same as being prime.
  */
  lemma SquareRootCutoff(n: int)
    requires n > 1
    ensures IsPrime(n) <==> NoDivisorUpToRoot(n)
  {
    if NoDivisorUpToRoot(n) {
      forall d | 1 < d < n
        ensures !Divides(d, n)
      {
        if Divides(d, n) {
          var e := Cofactor(n, d);
          SmallerOfPair(n, d, e);
          assert false;
        }
      }
    } else {
      var d :| 2 <= d && d * d <= n && Divides(d, n);
      SmallDivisorRefutes(n, d);
    }
  }

  /**
    When the loop stops because `i * i > n`, the invariant "no divisor in
    [2, i)" already rules out every divisor up to the square root.
  */
  lemma ExitImpliesNoDivisorUpToRoot(n: int, i: int)
    requires 2 <= i && n < i * i && NoDivisorBelow(n, i)
    ensures NoDivisorUpToRoot(n)
  {
    forall d | 2 <= d && d * d <= n
      ensures !Divides(d, n)
    {
      if d >= i {
        SquareMonotone(i, d);
        assert false;
      }
    }
  }

  /**
    The source's `is_prime`: numbers up to 1 are not prime, 2 and 3 are,
    and otherwise trial division by 2, 3, ... while `i * i <= number`.
  */
  method IsPrimeImpl(number: int) returns (b: bool)
    ensures b <==> IsPrime(number)
    ensures number <= 1 ==> !b
    ensures 2 <= number <= 3 ==> b
  {
    if number <= 1 {
      return false;
    } else if number <= 3 {
      assert NoDivisorBelow(number, number);
      return true;
    }
    var i := 2;
    while i * i <= number
      invariant 2 <= i <= number
      invariant NoDivisorBelow(number, i)
      decreases number - i
    {
      if number % i == 0 {
        SmallDivisorRefutes(number, i);
        return false;
      }
      assert i + 1 <= number by { assert i * 2 <= i * i; }
      i := i + 1;
    }
    ExitImpliesNoDivisorUpToRoot(number, i);
    SquareRootCutoff(number);
    return true;
  }

  /** The three calls the source file makes on 1, 3 and 7, and their expected values. */
  lemma SourceExamplesSpec()
    ensures !IsPrime(1) && IsPrime(3) && IsPrime(7)
  {
    forall d | 2 <= d && d * d <= 7
      ensures !Divides(d, 7)
    {
      if d >= 3 {
        SquareMonotone(3, d);
        assert false;
      }
    }
    SquareRootCutoff(7);
  }

  /** The same three calls, through the implementation. */
  method SourceExamples() returns (one: bool, three: bool, seven: bool)
    ensures !one && three && seven
  {
    one := IsPrimeImpl(1);
    three := IsPrimeImpl(3);
    seven := IsPrimeImpl(7);
    SourceExamplesSpec();
  }
}
