/** The table's capacity policy: GetPrime's trial-division test, the least
    candidate that passes it, why that candidate is a prime, and why the
    search for it always stops (there is a prime beyond every bound). */
module Primes {

  /** d divides n. */
  ghost predicate Divides(d: nat, n: nat)
    requires d > 0
  {
    n % d == 0
  }

  ghost predicate IsPrime(n: nat)
  {
    n >= 2 && forall d :: 2 <= d < n ==> !Divides(d, n)
  }

  /** The test of GetPrime's isPrime lambda: n is odd, and no odd i >= 3 with
      i * i <= n divides it. */
  ghost predicate PassesTrialDivision(n: nat)
  {
    !Divides(2, n) && forall i :: 3 <= i && i % 2 == 1 && i * i <= n ==> !Divides(i, n)
  }

  /** p is the first number from n on that passes the trial-division test:
      the value GetPrime(n) returns. */
  ghost predicate IsLeastPassing(n: nat, p: nat)
  {
    n <= p && PassesTrialDivision(p) && forall m :: n <= m < p ==> !PassesTrialDivision(m)
  }

  // ---------------------------------------------------------------------
  // Arithmetic helpers

  lemma MulMonotone(a: nat, b: nat, c: nat)
    requires b <= c
    ensures a * b <= a * c
  {
  }

  /** Euclidean division is unique: a quotient and a remainder in range fix x % m. */
  lemma ModUnique(x: int, m: int, q: int, r: int)
    requires m > 0 && 0 <= r < m && x == q * m + r
    ensures x % m == r
  {
    var q0, r0 := x / m, x % m;
    assert x == q0 * m + r0;
    assert (q - q0) * m == r0 - r;
    if q - q0 >= 1 {
      MulMonotone(m, 1, q - q0);
      assert false;
    } else if q - q0 <= -1 {
      MulMonotone(m, 1, q0 - q);
      assert false;
    }
  }

  lemma MultipleDivisible(a: nat, b: nat)
    requires b > 0
    ensures Divides(b, a * b)
  {
    ModUnique(a * b, b, a, 0);
  }

  lemma DividesTransitive(a: nat, b: nat, c: nat)
    requires a > 0 && b > 0 && Divides(a, b) && Divides(b, c)
    ensures Divides(a, c)
  {
    var s, t := b / a, c / b;
    assert b == s * a;
    assert c == t * b;
    assert c == (t * s) * a;
    ModUnique(c, a, t * s, 0);
  }

  // ---------------------------------------------------------------------
  // The trial-division test decides primality from 3 on

  /** A composite n has a divisor e >= 2 with e * e <= n. */
  lemma SmallDivisor(n: nat, d: nat) returns (e: nat)
    requires 2 <= d < n && Divides(d, n)
    ensures 2 <= e && e * e <= n && Divides(e, n)
  {
    var q := n / d;
    assert n == q * d;
    assert q >= 2;
    if d <= q {
      e := d;
      MulMonotone(d, d, q);
    } else {
      e := q;
      MulMonotone(q, q, d);
      MultipleDivisible(d, q);
      assert n == d * q;
    }
  }

  lemma PrimePassesTrialDivision(n: nat)
    requires n >= 3 && IsPrime(n)
    ensures PassesTrialDivision(n)
  {
    forall i | 3 <= i && i % 2 == 1 && i * i <= n
      ensures !Divides(i, n)
    {
      MulMonotone(i, 3, i);
      assert i < n;
    }
  }

  lemma TrialDivisionPassIsPrime(n: nat)
    requires n >= 3 && PassesTrialDivision(n)
    ensures IsPrime(n)
  {
    if !IsPrime(n) {
      var d :| 2 <= d < n && Divides(d, n);
      var e := SmallDivisor(n, d);
      if e % 2 == 0 {
        DividesTransitive(2, e, n);
      }
      assert false;
    }
  }

  /** For n >= 3 the test of GetPrime is exactly primality. */
  lemma TrialDivisionIsPrimality(n: nat)
    requires n >= 3
    ensures PassesTrialDivision(n) <==> IsPrime(n)
  {
    if IsPrime(n) {
      PrimePassesTrialDivision(n);
    }
    if PassesTrialDivision(n) {
      TrialDivisionPassIsPrime(n);
    }
  }

  // ---------------------------------------------------------------------
  // There is a prime beyond every bound (so GetPrime's search terminates)

  function Factorial(n: nat): (f: nat)
    ensures f >= 1
  {
    if n == 0 then 1 else n * Factorial(n - 1)
  }

  lemma {:induction false} FactorialDivisible(n: nat, k: nat)
    requires 1 <= k <= n
    ensures Divides(k, Factorial(n))
  {
    assert Factorial(n) == Factorial(n - 1) * n;
    if k == n {
      MultipleDivisible(Factorial(n - 1), n);
    } else {
      FactorialDivisible(n - 1, k);
      MultipleDivisible(n, Factorial(n - 1));
      DividesTransitive(k, Factorial(n - 1), Factorial(n));
    }
  }

  /** Every m >= 2 has a prime divisor. */
  lemma {:induction false} PrimeDivisor(m: nat) returns (p: nat)
    requires m >= 2
    ensures p >= 2 && IsPrime(p) && Divides(p, m)
    decreases m
  {
    if IsPrime(m) {
      p := m;
      ModUnique(m, m, 1, 0);
    } else {
      var d :| 2 <= d < m && Divides(d, m);
      p := PrimeDivisor(d);
      DividesTransitive(p, d, m);
    }
  }

  /** Euclid: a prime divisor of n! + 1 is larger than n. */
  lemma PrimeAbove(n: nat) returns (p: nat)
    ensures IsPrime(p) && p > n
  {
    var f := Factorial(n);
    p := PrimeDivisor(f + 1);
    if p <= n {
      FactorialDivisible(n, p);
      var a := f / p;
      assert f == a * p;
      ModUnique(f + 1, p, a, 1);
      assert false;
    }
  }

  /** From every n on some number passes the trial-division test. */
  lemma PassingAbove(n: nat) returns (p: nat)
    ensures p >= n && PassesTrialDivision(p)
  {
    p := PrimeAbove(if n < 2 then 2 else n);
    TrialDivisionIsPrimality(p);
  }

  // ---------------------------------------------------------------------
  // GetPrime (Common/HashMap.h:164-182)

  /** The isPrime lambda: reject even n, then try odd divisors i = 3, 5, ...
      while i * i <= n. */
  method IsPrimeByTrial(n: nat) returns (r: bool)
    ensures r == PassesTrialDivision(n)
  {
    if n % 2 == 0 {
      return false;
    }
    var i := 3;
    while i * i <= n
      invariant i >= 3 && i % 2 == 1
      invariant forall j :: 3 <= j < i && j % 2 == 1 ==> !Divides(j, n)
      decreases n + 2 - i
    {
      MulMonotone(i, 1, i);
      if n % i == 0 {
        assert Divides(i, n);
        return false;
      }
      i := i + 2;
    }
    forall j | 3 <= j && j % 2 == 1 && j * j <= n
      ensures !Divides(j, n)
    {
      if j >= i {
        MulMonotone(i, i, j);
        MulMonotone(j, i, j);
      }
    }
    return true;
  }

  /** The first number from n on that passes the trial-division test; for
      n >= 3 that is the least prime >= n (LeastPassingIsLeastPrime). */
  method GetPrime(n: nat) returns (p: nat)
    ensures IsLeastPassing(n, p)
  {
    ghost var bound := PassingAbove(n);
    p := n;
    var ok := IsPrimeByTrial(p);
    while !ok
      invariant n <= p <= bound
      invariant ok == PassesTrialDivision(p)
      invariant forall m :: n <= m < p ==> !PassesTrialDivision(m)
      decreases bound - p
    {
      p := p + 1;
      ok := IsPrimeByTrial(p);
    }
  }

  /** From 3 on, the number GetPrime returns is the least prime at or above
      its argument. */
  lemma LeastPassingIsLeastPrime(n: nat, p: nat)
    requires n >= 3 && IsLeastPassing(n, p)
    ensures IsPrime(p)
    ensures forall m :: n <= m < p ==> !IsPrime(m)
  {
    TrialDivisionIsPrimality(p);
    forall m | n <= m < p
      ensures !IsPrime(m)
    {
      TrialDivisionIsPrimality(m);
    }
  }

  /** The default table (Common/HashMap.h:234) asks for 17 buckets and gets 17. */
  lemma DefaultCapacity()
    ensures IsLeastPassing(17, 17)
  {
    forall i: nat | i >= 5
      ensures i * i >= 25
    {
      MulMonotone(i, 5, i);
      MulMonotone(5, 5, i);
    }
    forall i | 3 <= i && i % 2 == 1 && i * i <= 17
      ensures !Divides(i, 17)
    {
      assert i == 3;
    }
  }

  /** A hint below 3 is raised to 3, which is its own least passing number. */
  lemma SmallestCapacity()
    ensures IsLeastPassing(3, 3)
  {
  }
}
