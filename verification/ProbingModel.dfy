/** The bounded linear-probing set as values: where every key may be, and how far the probe limit
    has to grow. */
module ProbingModel {
  import opened Arithmetic
  import opened Primes

  // ---- capacities ----

  datatype Policy = Power2 | Prime

  /** Capacities a policy hands out. */
  ghost predicate Legal(policy: Policy, cap: nat) {
    cap >= 1 && (policy.Power2? ==> IsPow2(cap))
  }

  /** What a policy grants when asked for a capacity: more, and with primes more than twice as
      much unless the capacity was predicted. */
  ghost predicate Granted(policy: Policy, predicted: bool, requested: nat, cap: nat) {
    && Legal(policy, cap)
    && (requested > 0 ==> cap > requested)
    && (policy.Prime? && !predicted && requested > 0 ==> cap > 2 * requested)
    && (policy.Power2? && requested > 0 ==> cap <= 2 * requested)
  }

  /** The least power of two greater than `n`, except that zero gives one. */
  method NextPower2(n: nat) returns (x: nat)
    ensures IsPow2(x) && (n > 0 ==> n < x <= 2 * n) && (n == 0 ==> x == 1)
  {
    if n == 0 {
      return 1;
    }
    x := 1;
    while x <= n
      invariant IsPow2(x) && 1 <= x <= 2 * n
      decreases n - x
    {
      Pow2Double(x);
      x := x * 2;
    }
  }

  /** What a policy makes of a request: the least power of two above it, or the least prime above it
      or, if it is no prediction, above its double. Nothing asked for gives one. */
  method Capacity(policy: Policy, predicted: bool, requested: nat) returns (cap: nat)
    ensures Granted(policy, predicted, requested, cap) && (requested == 0 ==> cap == 1)
    ensures policy.Prime? && requested > 0 ==>
              var above := if predicted then requested else 2 * requested;
              IsPrime(cap) && above < cap && forall y | above < y < cap :: !IsPrime(y)
  {
    if policy.Power2? {
      cap := NextPower2(requested);
    } else if predicted {
      cap := NextPrime(requested);
    } else {
      cap := NextPrime(requested * 2);
    }
  }

  // ---- the probe limit ----

  /** The logarithm of `n` to the base two, rounded up. */
  function CeilLog2(n: nat): nat {
    if n <= 1 then 0 else 1 + CeilLog2((n + 1) / 2)
  }

  /** The logarithm is the least exponent whose power of two is enough. */
  lemma {:induction false} LogIs(n: nat, k: nat)
    requires n >= 1
    ensures CeilLog2(n) <= k <==> n <= Two(k)
    decreases n
  {
    if n > 1 && k > 0 {
      LogIs((n + 1) / 2, k - 1);
    } else if n == 1 {
      TwoPositive(k);
    }
  }

  function Two(k: nat): nat {
    if k == 0 then 1 else 2 * Two(k - 1)
  }

  lemma {:induction false} TwoPositive(k: nat)
    ensures Two(k) >= 1
  {
    if k > 0 {
      TwoPositive(k - 1);
    }
  }

  function Scale(n: nat, factor: real): nat
    requires factor > 0.0
  {
    (n as real * factor).Floor
  }

  /** The scaled logarithm of the capacity, or all of it. */
  function ProbeLimit(cap: nat, factor: real, log2: bool): (limit: nat)
    requires factor > 0.0
  {
    if log2 then Scale(CeilLog2(cap), factor) else cap
  }

  /** A capacity beyond which the probe limit exceeds `n`. */
  ghost function Reach(n: nat, factor: real): nat
    requires factor > 0.0
  {
    Two(((n + 1) as real / factor).Floor + 1) + n
  }

  /** Whatever the factor, the probe limit exceeds any given number in all large tables. */
  lemma LimitGrows(cap: nat, factor: real, log2: bool, n: nat)
    requires factor > 0.0 && cap >= 1 && ProbeLimit(cap, factor, log2) <= n
    ensures cap <= Reach(n, factor)
  {
    if log2 {
      var k := ((n + 1) as real / factor).Floor + 1;
      assert CeilLog2(cap) as real * factor < (n + 1) as real;
      Quotient(CeilLog2(cap) as real, (n + 1) as real, factor);
      LogIs(cap, k);
    }
  }

  lemma Quotient(x: real, y: real, z: real)
    requires z > 0.0 && x * z < y
    ensures x < y / z
  {
    assert (y / z) * z == y;
  }

  /** The probe limits a set may meet: its first table may have been made without its factor. */
  ghost predicate Limited(cap: nat, factor: real, limit: nat)
    requires factor > 0.0
  {
    limit == cap || limit == ProbeLimit(cap, factor, true) || limit == ProbeLimit(cap, 1.0, true)
  }

  /** How much larger a table must be for the probe limit to exceed the number of keys. */
  ghost function Shortfall(n: nat, cap: nat, factor: real): nat
    requires factor > 0.0
  {
    var goal := Reach(n, factor) + Reach(n, 1.0);
    if cap > goal then 0 else goal + 1 - cap
  }

  lemma ShortfallFalls(n: nat, cap: nat, next: nat, factor: real, limit: nat)
    requires factor > 0.0 && cap >= 1 && Limited(cap, factor, limit) && limit <= n && next > cap
    ensures Shortfall(n, next, factor) < Shortfall(n, cap, factor)
  {
    if limit == ProbeLimit(cap, 1.0, true) {
      LimitGrows(cap, 1.0, true, n);
    } else {
      LimitGrows(cap, factor, limit != cap, n);
    }
  }

  // ---- the size of a larger table ----

  lemma {:induction false} AtLeastTwice(a: nat, b: nat)
    requires IsPow2(a) && IsPow2(b) && a < b
    ensures 2 * a <= b
    decreases b
  {
    if a > 1 {
      AtLeastTwice(a / 2, b / 2);
    }
  }

  lemma {:induction false} LogMono(m: nat, n: nat)
    requires m <= n
    ensures CeilLog2(m) <= CeilLog2(n)
    decreases n
  {
    if m > 1 {
      LogMono((m + 1) / 2, (n + 1) / 2);
    }
  }

  lemma {:induction false} LogSmaller(n: nat)
    requires n >= 1
    ensures CeilLog2(n) < n
    decreases n
  {
    if n > 1 {
      LogSmaller((n + 1) / 2);
    }
  }

  lemma LimitMono(m: nat, n: nat, factor: real)
    requires m <= n && factor > 0.0
    ensures ProbeLimit(m, factor, true) <= ProbeLimit(n, factor, true)
  {
    LogMono(m, n);
    ScaleMono(CeilLog2(m), CeilLog2(n), factor);
  }

  lemma ScaleMono(m: nat, n: nat, factor: real)
    requires m <= n && factor > 0.0
    ensures Scale(m, factor) <= Scale(n, factor)
  {
    TimesMono(m as real, n as real, factor);
    FloorMono(m as real * factor, n as real * factor);
  }

  lemma FloorMono(x: real, y: real)
    requires x <= y
    ensures x.Floor <= y.Floor
  {}

  lemma TimesMono(x: real, y: real, z: real)
    requires x <= y && z > 0.0
    ensures x * z <= y * z
  {}

  /** More than a tenth of the capacity is used. */
  predicate Loaded(size: nat, cap: nat)
    requires cap >= 1
  {
    size as real / cap as real > 0.1
  }

  lemma LoadedIs(size: nat, cap: nat)
    requires cap >= 1
    ensures Loaded(size, cap) <==> 10 * size > cap
  {
    var x, c := size as real / cap as real, cap as real;
    assert x * c == size as real;
    if x > 0.1 {
      TimesLess(0.1, x, c);
    } else {
      TimesMono(x, 0.1, c);
    }
  }

  lemma TimesLess(x: real, y: real, z: real)
    requires x < y && z > 0.0
    ensures x * z < y * z
  {}

  /** The slots of a table, those beyond its capacity included. */
  function Slotted(cap: nat, limit: nat): nat {
    cap + limit
  }

  /** A table that has just refused a key, and the one that is made next. */
  ghost predicate Succeeds(policy: Policy, predicted: bool, cap: nat, limit: nat, size: nat, factor: real,
                           requested: nat, next: nat, log2: bool)
    requires factor > 0.0 && cap >= 1
  {
    && Legal(policy, cap) && Granted(policy, predicted, requested, next) && requested > cap
    && Limited(cap, factor, limit) && limit <= size && log2 == Loaded(size, cap)
    && (limit in {cap, ProbeLimit(cap, factor, true)} || !predicted)
  }

  /** The next table has more slots, except perhaps after one whose probe limit is its whole
      capacity and which is more than a tenth full. */
  lemma MoreSlots(policy: Policy, predicted: bool, cap: nat, limit: nat, size: nat, factor: real,
                  requested: nat, next: nat, log2: bool)
    requires factor > 0.0 && cap >= 1
    requires Succeeds(policy, predicted, cap, limit, size, factor, requested, next, log2)
    ensures var limit' := ProbeLimit(next, factor, log2);
            Slotted(cap, limit) < Slotted(next, limit') <==> limit != cap || !log2 || 2 * cap < next + limit'
  {
    if !log2 {
      LoadedIs(size, cap);
    } else if limit == ProbeLimit(cap, factor, true) {
      LimitMono(cap, next, factor);
    } else if limit != cap {
      LogSmaller(cap);
      Doubles(policy, predicted, cap, requested, next);
    }
  }

  /** Without a prediction, and with powers of two always, the capacity at least doubles. */
  lemma Doubles(policy: Policy, predicted: bool, cap: nat, requested: nat, next: nat)
    requires Legal(policy, cap) && Granted(policy, predicted, requested, next) && requested > cap
    requires !predicted || policy.Power2?
    ensures 2 * cap <= next && (policy.Prime? ==> 2 * cap < next)
  {
    if policy.Power2? {
      AtLeastTwice(cap, next);
    }
  }

  lemma ScaleOne(n: nat, factor: real)
    requires factor > 0.0
    ensures Scale(n, factor) >= 1 <==> n as real * factor >= 1.0
    ensures factor >= 1.0 && n >= 1 ==> Scale(n, factor) >= 1
  {
    if factor >= 1.0 && n >= 1 {
      TimesMono(1.0, n as real, factor);
    }
  }

  /** After such a table: a prime that was not predicted is enough, and of powers of two every one
      but the double, and that too unless its probe limit is zero. */
  lemma MoreSlotsThen(policy: Policy, predicted: bool, cap: nat, size: nat, factor: real,
                      requested: nat, next: nat)
    requires factor > 0.0 && cap >= 1 && Succeeds(policy, predicted, cap, cap, size, factor, requested, next, true)
    ensures var more := Slotted(cap, cap) < Slotted(next, ProbeLimit(next, factor, true));
            && (policy.Prime? && !predicted ==> more)
            && (policy.Power2? ==> (more <==> next > 2 * cap || CeilLog2(next) as real * factor >= 1.0))
            && (factor >= 1.0 && (policy.Power2? || !predicted) ==> more)
  {
    if policy.Power2? || !predicted {
      Doubles(policy, predicted, cap, requested, next);
      LogIs(next, 0);
      ScaleOne(CeilLog2(next), factor);
    }
  }

  // ---- the slots ----

  datatype Slots<!K(!new)> = Slots(present: seq<bool>, keys: seq<K>, cap: nat, limit: nat, spot: map<K, nat>,
    home: K -> nat)
  {
    /** Every stored key is within the probe limit of its home, and in one slot. */
    ghost predicate Valid() {
      && cap >= 1 && |present| == |keys| == cap + limit
      && (forall k :: home(k) < cap)
      && (forall k | k in spot :: spot[k] < |keys| && present[spot[k]] && keys[spot[k]] == k
                                  && home(k) <= spot[k] < home(k) + limit)
      && (forall i: nat | i < |keys| && present[i] :: keys[i] in spot && spot[keys[i]] == i)
    }

    /** No free slot lies between the home of a key and its slot. */
    ghost predicate NoHoles()
      requires Valid()
    {
      forall k, j: nat | k in spot && home(k) <= j < spot[k] :: present[j]
    }

    /** No slot is free where the key may be. */
    ghost predicate WindowFull(k: K)
      requires Valid()
    {
      forall j: nat | home(k) <= j < home(k) + limit :: present[j]
    }

    ghost function Contents(): set<K> {
      spot.Keys
    }
  }

  lemma KeyNeedsSlot<K(!new)>(t: Slots<K>)
    requires t.Valid() && |t.Contents()| > 0
    ensures t.limit > 0
  {
    var k :| k in t.spot;
  }

  /** When all keys share one home, they share one window. */
  lemma OneWindow<K(!new)>(t: Slots<K>, home: nat)
    requires t.Valid() && forall k :: t.home(k) == home
    ensures |t.Contents()| <= t.limit
  {
    WindowSize(t, home, t.limit);
    assert t.Contents() == set k | k in t.spot && home <= t.spot[k] < home + t.limit;
  }

  lemma {:induction false} WindowSize<K(!new)>(t: Slots<K>, lo: nat, n: nat)
    requires t.Valid()
    ensures |set k | k in t.spot && lo <= t.spot[k] < lo + n| <= n
  {
    var s := set k | k in t.spot && lo <= t.spot[k] < lo + n;
    if n > 0 {
      WindowSize(t, lo, n - 1);
      var s' := set k | k in t.spot && lo <= t.spot[k] < lo + (n - 1);
      if lo + n - 1 < |t.keys| && t.present[lo + n - 1] {
        assert s == s' + {t.keys[lo + n - 1]};
      } else {
        assert s == s';
      }
    }
  }

  /** A window of present slots holds as many keys as slots: when there are fewer keys than the
      probe limit, every window has a vacancy. */
  lemma FullWindow<K(!new)>(t: Slots<K>, lo: nat)
    requires t.Valid() && lo <= t.cap && forall i: nat | lo <= i < lo + t.limit :: t.present[i]
    ensures t.limit <= |t.Contents()|
  {
    WindowKeys(t, lo, t.limit);
  }

  lemma {:induction false} WindowKeys<K(!new)>(t: Slots<K>, lo: nat, n: nat)
    requires t.Valid() && lo <= t.cap && n <= t.limit && forall i: nat | lo <= i < lo + n :: t.present[i]
    ensures n <= |set k | k in t.spot && lo <= t.spot[k] < lo + n| <= |t.Contents()|
  {
    var s := set k | k in t.spot && lo <= t.spot[k] < lo + n;
    if n > 0 {
      WindowKeys(t, lo, n - 1);
      var last := t.keys[lo + n - 1];
      var s' := set k | k in t.spot && lo <= t.spot[k] < lo + (n - 1);
      assert t.present[lo + n - 1] && last in s && last !in s';
      assert s' <= s - {last};
      SubsetSize(s', s - {last});
    }
    SubsetSize(s, t.spot.Keys);
  }

  // ---- storing and erasing ----

  ghost function Store<K(!new)>(t: Slots<K>, k: K, i: nat): Slots<K>
    requires i < |t.keys| == |t.present|
  {
    t.(present := t.present[i := true], keys := t.keys[i := k], spot := t.spot[k := i])
  }

  lemma StoreValid<K(!new)>(t: Slots<K>, k: K, i: nat)
    requires t.Valid() && k !in t.spot && i < |t.keys| && !t.present[i] && t.home(k) <= i < t.home(k) + t.limit
    ensures Store(t, k, i).Valid()
  {
    var d := Store(t, k, i);
    forall j: nat | j < |d.keys| && d.present[j] ensures d.keys[j] in d.spot && d.spot[d.keys[j]] == j {
      if j != i {
        assert t.present[j];
      }
    }
  }

  lemma StoreHoles<K(!new)>(t: Slots<K>, k: K, i: nat)
    requires t.Valid() && k !in t.spot && i < |t.keys| && !t.present[i] && t.home(k) <= i < t.home(k) + t.limit
    requires t.NoHoles() && forall j: nat | t.home(k) <= j < i :: t.present[j]
    ensures Store(t, k, i).Valid() && Store(t, k, i).NoHoles()
  {
    StoreValid(t, k, i);
  }

  lemma Stored<K(!new)>(t: Slots<K>, k: K, i: nat) returns (d: Slots<K>)
    requires t.Valid() && k !in t.spot && i < |t.keys| && !t.present[i] && t.home(k) <= i < t.home(k) + t.limit
    ensures d == t.(present := t.present[i := true], keys := t.keys[i := k], spot := d.spot)
    ensures d.Valid() && d.Contents() == t.Contents() + {k} && |d.Contents()| == |t.Contents()| + 1
    ensures t.NoHoles() && (forall j: nat | t.home(k) <= j < i :: t.present[j]) ==> d.NoHoles()
  {
    d := Store(t, k, i);
    StoreValid(t, k, i);
    assert d.Contents() == t.Contents() + {k};
    if t.NoHoles() && forall j: nat | t.home(k) <= j < i :: t.present[j] {
      StoreHoles(t, k, i);
    }
  }

  lemma Erased<K(!new)>(t: Slots<K>, k: K) returns (d: Slots<K>)
    requires t.Valid() && k in t.spot
    ensures d == t.(present := t.present[t.spot[k] := false], spot := d.spot)
    ensures d.Valid() && d.Contents() == t.Contents() - {k} && |d.Contents()| == |t.Contents()| - 1
  {
    d := t.(present := t.present[t.spot[k] := false], spot := t.spot - {k});
    assert d.Contents() == t.Contents() - {k};
    forall j: nat | j < |d.keys| && d.present[j] ensures d.keys[j] in d.spot && d.spot[d.keys[j]] == j {
      assert t.present[j];
    }
  }

  /** The keys in the first `n` slots. */
  ghost function Prefix<K(!new)>(t: Slots<K>, n: nat): set<K> {
    set k | k in t.spot && t.spot[k] < n
  }

  lemma PrefixStep<K(!new)>(t: Slots<K>, n: nat)
    requires t.Valid() && n < |t.keys|
    ensures !t.present[n] ==> Prefix(t, n + 1) == Prefix(t, n)
    ensures t.present[n] ==> t.keys[n] !in Prefix(t, n) && Prefix(t, n + 1) == Prefix(t, n) + {t.keys[n]}
  {}

  lemma PrefixSize<K(!new)>(t: Slots<K>, n: nat)
    requires t.Valid() && n < |t.keys| && t.present[n]
    ensures |Prefix(t, n)| < |t.Contents()|
  {
    PrefixStep(t, n);
    assert Prefix(t, n) <= t.Contents() - {t.keys[n]};
    SubsetSize(Prefix(t, n), t.Contents() - {t.keys[n]});
  }

  lemma PrefixEnds<K(!new)>(t: Slots<K>)
    requires t.Valid()
    ensures Prefix(t, 0) == {} && Prefix(t, t.cap + t.limit) == t.Contents()
  {
    assert Prefix(t, t.cap + t.limit) == t.Contents();
  }
}
