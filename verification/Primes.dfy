/** The next prime, by trial division. */
module Primes {
  import opened Arithmetic

  ghost predicate IsPrime(x: nat) {
    x >= 2 && forall d | 2 <= d < x :: x % d != 0
  }

  /** A divisor up to the square root, the only ones trial division looks for. */
  ghost predicate SmallDivisor(x: nat, d: nat) {
    d >= 2 && d * d <= x && x % d == 0
  }

  lemma DivisorQuotient(x: nat, d: nat)
    requires 2 <= d < x && x % d == 0
    ensures x == d * (x / d) && 2 <= x / d < x && x % (x / d) == 0
  {
    var q := x / d;
    assert x == q * d;
    if q <= 1 {
      Scale(q, 1, d);
    }
    Scale(2, d, q);
    DivModUnique(x, d, q, 0);
  }

  /** The square-root bound: without a small divisor there is none. */
  lemma SquareRoot(x: nat)
    requires x >= 2 && forall d: nat :: !SmallDivisor(x, d)
    ensures IsPrime(x)
  {
    forall d | 2 <= d < x ensures x % d != 0 {
      if x % d == 0 {
        DivisorQuotient(x, d);
        var q := x / d;
        if d <= q {
          Scale(d, q, d);
          assert SmallDivisor(x, d);
        } else {
          Scale(q, d, q);
          assert SmallDivisor(x, q);
        }
      }
    }
  }

  // ---- there is always another prime ----

  function Factorial(n: nat): (f: nat)
    ensures f >= 1
  {
    if n == 0 then 1 else
      Positive(n, Factorial(n - 1));
      n * Factorial(n - 1)
  }

  lemma Positive(a: nat, b: nat)
    requires a >= 1 && b >= 1
    ensures a * b >= 1
  {
    Scale(1, a, b);
  }

  lemma {:induction false} FactorialDivides(n: nat, d: nat)
    requires 1 <= d <= n
    ensures Factorial(n) % d == 0
  {
    if d == n {
      DivModUnique(Factorial(n), Factorial(n - 1), n, 0);
    } else {
      FactorialDivides(n - 1, d);
      var k := Factorial(n - 1) / d;
      assert Factorial(n) == n * (k * d) == (n * k) * d;
      DivModUnique(Factorial(n), n * k, d, 0);
    }
  }

  lemma {:induction false} PrimeDivisor(m: nat) returns (p: nat)
    requires m >= 2
    ensures IsPrime(p) && p <= m && m % p == 0
    decreases m
  {
    if d :| 2 <= d < m && m % d == 0 {
      p := PrimeDivisor(d);
      var a, b := m / d, d / p;
      assert m == a * d == a * (b * p) == (a * b) * p;
      DivModUnique(m, a * b, p, 0);
    } else {
      p := m;
      DivModUnique(m, 1, m, 0);
    }
  }

  /** Euclid: some prime is greater than `n`. */
  lemma PrimeAbove(n: nat) returns (p: nat)
    ensures IsPrime(p) && p > n
  {
    var m := Factorial(n) + 1;
    p := PrimeDivisor(m);
    if p <= n {
      FactorialDivides(n, p);
      var k := Factorial(n) / p;
      assert m == k * p + 1;
      DivModUnique(m, k, p, 1);
    }
  }

  // ---- the search ----

  /** The inner loop: is there a divisor? */
  method IsCandidate(x: nat) returns (flag: bool)
    requires x >= 1
    ensures x >= 2 ==> (flag <==> IsPrime(x))
    ensures x == 1 ==> flag
  {
    var i := 2;
    flag := true;
    while i * i <= x && flag
      invariant i >= 2
      invariant flag ==> forall d: nat | d < i :: !SmallDivisor(x, d)
      invariant !flag ==> exists d :: SmallDivisor(x, d)
      decreases x + 2 - i, flag
    {
      if x % i == 0 {
        flag := false;
        assert SmallDivisor(x, i);
      }
      NotBeyond(i, x);
      i := i + 1;
    }
    if flag {
      forall d: nat ensures !SmallDivisor(x, d) {
        if d >= i {
          Square(i, d);
        }
      }
      if x >= 2 {
        SquareRoot(x);
      }
    } else {
      ghost var d: nat :| SmallDivisor(x, d);
      NotBeyond(d, x);
      if d == x {
        Scale(2, d, d);
      }
    }
  }

  lemma NotBeyond(i: nat, x: nat)
    requires i >= 2 && i * i <= x
    ensures i <= x
  {
    Scale(1, i, i);
  }

  lemma Square(i: nat, d: nat)
    requires i <= d
    ensures i * i <= d * d
  {
    Scale(i, d, i);
    Scale(i, d, d);
  }

  /** The least prime greater than `n`; for zero the search stops at once, at one. */
  method NextPrime(n: nat) returns (x: nat)
    ensures n >= 1 ==> IsPrime(x) && x > n && forall y | n < y < x :: !IsPrime(y)
    ensures n == 0 ==> x == 1
  {
    ghost var p := PrimeAbove(n);
    x := n;
    while true
      invariant n <= x < p && (n == 0 ==> x == 0)
      invariant forall y | n < y <= x :: !IsPrime(y)
      decreases p - x
    {
      x := x + 1;
      var flag := IsCandidate(x);
      if flag {
        return;
      }
    }
  }
}
