/** The number theory behind the resizable inventory table: primality by trial
    division (`DynamicInventoryTable::nextPrime`), Euclid's lemma, and the
    existence of a prime above every bound, which is what makes the
    `while (true)` search of `nextPrime` stop. */
module Primes {

  /** d divides n. */
  ghost predicate Divides(d: int, n: int)
  {
    exists k :: n == d * k
  }

  /** n is at least 2 and has no divisor strictly between 1 and n. */
  ghost predicate IsPrime(n: int)
  {
    n >= 2 && forall d :: 2 <= d < n ==> !Divides(d, n)
  }

  /** Multiplying by a non-negative number preserves order. */
  lemma MulLe(a: int, b: int, c: int)
    requires a >= 0
    ensures b <= c ==> a * b <= a * c
  {
  }

  /** The C++ test `n % i == 0` is divisibility. */
  lemma {:induction false} ModZeroIsDivides(i: int, n: int)
    requires i > 0
    ensures n % i == 0 <==> Divides(i, n)
  {
    if n % i == 0 {
      assert n == i * (n / i);
    }
    if Divides(i, n) {
      var k :| n == i * k;
      var q, r := n / i, n % i;
      assert n == i * q + r && 0 <= r < i;
      assert i * (k - q) == r;
      MulLe(i, 1, k - q);
      MulLe(i, k - q, -1);
    }
  }

  lemma DividesLinear(d: int, a: int, b: int, q: int)
    requires Divides(d, a) && Divides(d, b)
    ensures Divides(d, a - q * b)
  {
    var x :| a == d * x;
    var y :| b == d * y;
    assert a - q * b == d * (x - q * y);
  }

  lemma DividesMul(d: int, a: int, b: int)
    requires Divides(d, a)
    ensures Divides(d, a * b)
  {
    var x :| a == d * x;
    assert a * b == d * (x * b);
  }

  lemma DividesTrans(d: int, e: int, n: int)
    requires Divides(d, e) && Divides(e, n)
    ensures Divides(d, n)
  {
    var x :| e == d * x;
    var y :| n == e * y;
    assert n == d * (x * y);
  }

  lemma CofactorDivides(d: int, e: int, n: int)
    requires n == d * e
    ensures Divides(e, n)
  {
    assert n == e * d;
  }

  /** A divisor of a positive number is at most that number. */
  lemma DivisorBound(d: int, n: int)
    requires d > 0 && n > 0 && Divides(d, n)
    ensures d <= n
  {
    var k :| n == d * k;
    if k > 0 {
      assert d * k >= d * 1;
    }
  }

  /** Euclid's lemma: a prime dividing a product divides one of the factors.
      Stated for the first factor strictly between 0 and p; the proof divides
      p by a and descends to the remainder. */
  lemma {:induction false} EuclidLemma(p: int, a: int, b: int)
    requires IsPrime(p) && 0 < a < p && Divides(p, a * b)
    ensures Divides(p, b)
    decreases a
  {
    if a == 1 {
      assert a * b == b;
    } else {
      var q, r := p / a, p % a;
      assert p == a * q + r && 0 <= r < a;
      assert !Divides(a, p);
      ModZeroIsDivides(a, p);
      assert Divides(p, p) by { assert p == p * 1; }
      DividesMul(p, p, b);
      DividesLinear(p, p * b, a * b, q);
      assert p * b - q * (a * b) == r * b;
      EuclidLemma(p, r, b);
    }
  }

  /** No number strictly between 0 and p is a multiple of p. */
  lemma NotMultiple(p: int, x: int)
    requires p > 0 && 0 < x < p
    ensures !Divides(p, x)
  {
    if Divides(p, x) {
      DivisorBound(p, x);
    }
  }

  /** A prime dividing a product of two numbers in (0, p) is impossible. */
  lemma PrimeProduct(p: int, a: int, b: int)
    requires IsPrime(p) && 0 < a < p && 0 < b < p
    ensures !Divides(p, a * b)
  {
    if Divides(p, a * b) {
      EuclidLemma(p, a, b);
      NotMultiple(p, b);
    }
  }

  /** The smallest divisor of n that is at least k. */
  function LeastDivisorFrom(n: int, k: int): (r: int)
    requires 2 <= k <= n
    requires forall d :: 2 <= d < k ==> !Divides(d, n)
    ensures k <= r <= n && Divides(r, n)
    ensures forall d :: 2 <= d < r ==> !Divides(d, n)
    decreases n - k
  {
    ModZeroIsDivides(k, n);
    if n % k == 0 then k
    else LeastDivisorFrom(n, k + 1)
  }

  /** The least divisor of n above 1 is prime. */
  lemma LeastDivisorIsPrime(n: int)
    requires n >= 2
    ensures IsPrime(LeastDivisorFrom(n, 2))
  {
    var r := LeastDivisorFrom(n, 2);
    forall e | 2 <= e < r
      ensures !Divides(e, r)
    {
      if Divides(e, r) {
        DividesTrans(e, r, n);
      }
    }
  }

  function Factorial(n: nat): (r: nat)
    ensures r >= 1
  {
    if n == 0 then 1 else n * Factorial(n - 1)
  }

  lemma {:induction false} FactorialDivisible(n: nat, d: int)
    requires 1 <= d <= n
    ensures Divides(d, Factorial(n))
  {
    if d == n {
      assert Factorial(n) == d * Factorial(n - 1);
    } else {
      FactorialDivisible(n - 1, d);
      DividesMul(d, Factorial(n - 1), n);
      assert Factorial(n - 1) * n == Factorial(n);
    }
  }

  /** Euclid's theorem in the form the search needs: above every bound there
      is a prime (the least divisor of n! + 1). */
  lemma PrimeAtLeast(n: int) returns (q: int)
    ensures q >= n && IsPrime(q)
  {
    var m: nat := if n < 1 then 1 else n;
    var big := Factorial(m) + 1;
    q := LeastDivisorFrom(big, 2);
    LeastDivisorIsPrime(big);
    if q <= m {
      FactorialDivisible(m, q);
      DividesLinear(q, big, Factorial(m), 1);
      assert big - 1 * Factorial(m) == 1;
      DivisorBound(q, 1);
    }
  }

  /** No divisor below i with i * i > n: n is prime (the exit condition of the
      trial-division loop). */
  lemma TrialDivisionSuffices(n: int, i: int)
    requires n >= 2 && i >= 2 && i * i > n
    requires forall d :: 2 <= d < i ==> !Divides(d, n)
    ensures IsPrime(n)
  {
    forall d | 2 <= d < n
      ensures !Divides(d, n)
    {
      if Divides(d, n) {
        var e :| n == d * e;
        MulLe(d, e, 1);
        if d >= i && e >= i {
          MulLe(i, i, e);
          MulLe(e, i, d);
        } else {
          CofactorDivides(d, e, n);
        }
      }
    }
  }

  /** `nextPrime(n)`: the trial-division search upwards from n. For n below 2
      the C++ loop finds no divisor and returns n itself. */
  method NextPrime(n: int) returns (r: int)
    ensures n < 2 ==> r == n
    ensures n >= 2 ==> r >= n && IsPrime(r)
    ensures forall m :: n <= m < r ==> !IsPrime(m)
  {
    ghost var bound := PrimeAtLeast(n);
    r := n;
    while true
      invariant n <= r
      invariant n >= 2 ==> r <= bound
      invariant forall m :: n <= m < r ==> !IsPrime(m)
      invariant n < 2 ==> r == n
      decreases bound - r
    {
      var isPrime := true;
      var i := 2;
      while i * i <= r
        invariant 2 <= i
        invariant isPrime ==> forall d :: 2 <= d < i ==> !Divides(d, r)
        invariant !isPrime ==> r >= 2 && !IsPrime(r)
        decreases r - i, if isPrime then 1 else 0
      {
        ModZeroIsDivides(i, r);
        if r % i == 0 {
          assert i * i >= 2 * i;
          isPrime := false;
          break;
        }
        i := i + 1;
      }
      if isPrime {
        if r >= 2 {
          TrialDivisionSuffices(r, i);
        }
        return;
      }
      r := r + 1;
    }
  }
}
