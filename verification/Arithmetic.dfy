/** Division, powers of two and counting facts shared by the models. */
module Arithmetic {

  lemma DivModUnique(x: int, q: int, m: int, r: int)
    requires m > 0 && x == q * m + r && 0 <= r < m
    ensures x / m == q && x % m == r
  {
    var k := x / m;
    assert x == k * m + x % m;
    assert (q - k) * m == x % m - r;
    if q > k {
      Scale(1, q - k, m);
    } else if q < k {
      Scale(1, k - q, m);
    }
  }

  lemma Scale(a: int, b: int, m: int)
    requires a <= b && m >= 0
    ensures a * m <= b * m
  {}

  lemma ModAdd(x: int, q: int, m: int)
    requires m > 0
    ensures (x + q * m) % m == x % m
    ensures (x + q * m) / m == x / m + q
  {
    var k := x / m;
    assert x == k * m + x % m;
    assert x + q * m == (k + q) * m + x % m;
    DivModUnique(x + q * m, k + q, m, x % m);
  }

  lemma Multiple(q: int, m: int)
    requires m > 0
    ensures (q * m) % m == 0 && (q * m) / m == q
  {
    DivModUnique(q * m, q, m, 0);
  }

  /** Adding before or after taking the remainder is the same. */
  lemma ModSum(x: int, y: int, m: int)
    requires m > 0
    ensures (x % m + y) % m == (x + y) % m
  {
    assert x + y == (x % m + y) + (x / m) * m;
    ModAdd(x % m + y, x / m, m);
  }

  ghost predicate IsPow2(n: int) {
    n == 1 || (n > 1 && n % 2 == 0 && IsPow2(n / 2))
  }

  lemma Pow2Double(n: int)
    requires IsPow2(n)
    ensures IsPow2(2 * n)
  {
    assert (2 * n) / 2 == n;
  }

  /** The integers from zero up to `m`. */
  ghost function Range(m: nat): (s: set<int>)
    ensures forall x :: x in s <==> 0 <= x < m
    ensures |s| == m
  {
    if m == 0 then {} else Range(m - 1) + {m - 1}
  }

  lemma {:induction false} SubsetSize<T>(s: set<T>, t: set<T>)
    requires s <= t
    ensures |s| <= |t|
    ensures |s| == |t| ==> s == t
  {
    if s != {} {
      var x :| x in s;
      SubsetSize(s - {x}, t - {x});
    }
  }

  /** A set of `m` numbers below `m` holds all of them. */
  lemma Pigeonhole(s: set<int>, m: nat)
    requires forall x | x in s :: 0 <= x < m
    requires |s| == m
    ensures s == Range(m)
  {
    assert s <= Range(m);
    SubsetSize(s, Range(m));
  }
}
