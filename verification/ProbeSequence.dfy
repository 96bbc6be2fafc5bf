/** The probe sequence: quadratic probing by whole groups over a table whose number of control
    positions is a power of two. */
module ProbeSequence {
  import opened Arithmetic

  // ---- capacities ----

  /** Capacities are one less than a power of two, so that `capacity` is the offset mask. */
  ghost predicate IsValidCapacity(capacity: int) {
    capacity > 0 && IsPow2(capacity + 1)
  }

  /** All ones up to the highest bit of `n`. */
  function NormalizeCapacity(n: nat): (c: nat)
    ensures IsValidCapacity(c)
    ensures n <= c
    ensures n > 0 ==> c < 2 * n
  {
    if n <= 1 then 1 else
      var c := NormalizeCapacity(n / 2);
      assert (2 * c + 2) / 2 == c + 1;
      2 * c + 1
  }

  /** At most this many slots are used before the table grows. */
  function CapacityToGrowth(capacity: nat): nat {
    if capacity == 7 then 6 else capacity - capacity / 8
  }

  function GrowthToLowerboundCapacity(growth: nat): nat {
    if growth == 7 then 8
    else if growth == 0 then 0
    else growth + (growth - 1) / 7
  }

  /** A valid capacity is 1, 3, 7 or eight times a whole number of groups, less one. */
  lemma {:induction false} CapacityGroups(capacity: int)
    requires IsValidCapacity(capacity)
    ensures capacity in {1, 3} || (capacity + 1) % 8 == 0
    ensures (capacity + 1) % 8 == 0 ==> IsPow2((capacity + 1) / 8)
  {
    var n := capacity + 1;
    if n >= 8 {
      var h := n / 2;
      var q := h / 2;
      var e := q / 2;
      assert n == 2 * h && IsPow2(h);
      assert h == 2 * q && IsPow2(q);
      assert q == 2 * e && IsPow2(e);
      assert n == 8 * e;
    } else {
      SmallPow2(n);
    }
  }

  lemma SmallPow2(n: int)
    requires IsPow2(n) && 2 <= n < 8
    ensures n == 2 || n == 4
  {
    assert !IsPow2(3);
  }

  /** In tables of more than one group exactly seven of eight positions may be used, and in smaller
      ones all slots, or all but one of seven. */
  lemma SevenEighths(capacity: nat)
    requires IsValidCapacity(capacity)
    ensures capacity > 7 ==> 8 * CapacityToGrowth(capacity) == 7 * (capacity + 1)
    ensures capacity <= 7 ==> CapacityToGrowth(capacity) == if capacity < 7 then capacity else 6
  {
    CapacityGroups(capacity);
    if capacity > 7 {
      var m := (capacity + 1) / 8;
      DivModUnique(capacity, m - 1, 8, 7);
    }
  }

  /** Asking for enough growth gets it. */
  lemma GrowthSuffices(growth: nat)
    ensures CapacityToGrowth(NormalizeCapacity(GrowthToLowerboundCapacity(growth))) >= growth
  {
    var c := NormalizeCapacity(GrowthToLowerboundCapacity(growth));
    CapacityGroups(c);
  }

  // ---- triangular numbers modulo a power of two ----

  function Triangular(p: nat): nat {
    if p == 0 then 0 else Triangular(p - 1) + p
  }

  lemma {:induction false} TwiceTriangular(p: nat)
    ensures 2 * Triangular(p) == p * (p + 1)
  {
    if p > 0 {
      TwiceTriangular(p - 1);
    }
  }

  lemma OddTimesOdd(a: int, b: int)
    requires a % 2 == 1 && b % 2 == 1
    ensures (a * b) % 2 == 1
  {
    var x, y := a / 2, b / 2;
    assert a * b == (2 * x + 1) * (2 * y + 1) == 2 * (2 * x * y + x + y) + 1;
  }

  lemma {:induction false} OddFactor(m: int, a: int, b: int)
    requires IsPow2(m) && a % 2 == 1 && (a * b) % m == 0
    ensures b % m == 0
    decreases m
  {
    if m > 1 {
      var q := (a * b) / m;
      var h := m / 2;
      assert a * b == q * m == 2 * (q * h);
      assert b % 2 == 0 by {
        if b % 2 == 1 {
          OddTimesOdd(a, b);
        }
      }
      var c := b / 2;
      assert a * b == 2 * (a * c);
      assert a * c == q * h;
      Multiple(q, h);
      OddFactor(h, a, c);
      var d := c / h;
      assert b == 2 * (d * h) == d * m;
      Multiple(d, m);
    }
  }

  /** The difference of two triangular numbers, doubled, is a product of factors of which
      exactly one is odd. */
  lemma TriangularDifference(p: nat, q: nat)
    requires p < q
    ensures 2 * (Triangular(q) - Triangular(p)) == (q - p) * (q + p + 1)
  {
    TwiceTriangular(p);
    TwiceTriangular(q);
    assert (q - p) * (q + p + 1) == q * (q + 1) - p * (p + 1);
  }

  lemma Commute(a: int, b: int)
    ensures a * b == b * a
  {}

  lemma OneIsOdd(d: int, e: int)
    requires (d + e) % 2 == 1
    ensures d % 2 == 1 || e % 2 == 1
  {}

  lemma OddNoMultiple(n: int, a: int, b: int)
    requires IsPow2(n) && a % 2 == 1 && 0 < b < n
    ensures (a * b) % n != 0 && (b * a) % n != 0
  {
    Commute(a, b);
    if (a * b) % n == 0 {
      OddFactor(n, a, b);
      DivModUnique(b, 0, n, b);
    }
  }

  lemma NoMultiple(n: int, d: int, e: int)
    requires IsPow2(n) && 0 < d < n && 0 < e < n && (d + e) % 2 == 1
    ensures (d * e) % n != 0
  {
    OneIsOdd(d, e);
    if d % 2 == 1 {
      OddNoMultiple(n, d, e);
    } else {
      OddNoMultiple(n, e, d);
    }
  }

  lemma SameRemainder(x: int, y: int, m: int)
    requires m > 0 && x % m == y % m
    ensures (2 * (x - y)) % (2 * m) == 0
  {
    var k := x / m - y / m;
    assert x - y == k * m;
    assert 2 * (x - y) == k * (2 * m);
    Multiple(k, 2 * m);
  }

  /** The group that probe `p` reads, counted from the group of the home offset, in a table of
      `m` groups. */
  function GroupOf(m: int, p: nat): (b: int)
    requires m > 0
    ensures 0 <= b < m
  {
    Triangular(p) % m
  }

  /** Two different probes of one round never land on the same group. */
  lemma TriangularInjective(m: int, p: nat, q: nat)
    requires IsPow2(m) && p < q < m
    ensures GroupOf(m, p) != GroupOf(m, q)
  {
    if GroupOf(m, p) == GroupOf(m, q) {
      SameRemainder(Triangular(q), Triangular(p), m);
      TriangularDifference(p, q);
      Pow2Double(m);
      NoMultiple(2 * m, q - p, q + p + 1);
    }
  }

  lemma {:induction false} TriangularImages(m: int, n: nat) returns (s: set<int>)
    requires IsPow2(m) && n <= m
    ensures forall b :: b in s <==> exists p: nat :: p < n && GroupOf(m, p) == b
    ensures |s| == n
  {
    s := {};
    if n > 0 {
      var t := TriangularImages(m, n - 1);
      var y := GroupOf(m, n - 1);
      if y in t {
        var p: nat :| p < n - 1 && GroupOf(m, p) == y;
        TriangularInjective(m, p, n - 1);
      }
      s := t + {y};
    }
  }

  /** Every group is reached by exactly one probe of a round. */
  lemma TriangularSurjective(m: int, b: int) returns (p: nat)
    requires IsPow2(m) && 0 <= b < m
    ensures p < m && GroupOf(m, p) == b
    ensures forall q: nat | q < m && GroupOf(m, q) == b :: q == p
  {
    var s := TriangularImages(m, m);
    Pigeonhole(s, m);
    assert b in s;
    p :| p < m && GroupOf(m, p) == b;
    forall q: nat | q < m && GroupOf(m, q) == b ensures q == p {
      if q < p {
        TriangularInjective(m, q, p);
      } else if p < q {
        TriangularInjective(m, p, q);
      }
    }
  }
}
