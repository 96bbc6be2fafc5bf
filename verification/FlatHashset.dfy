/** The sets built on bounded linear probing, and the loop that grows them. */
module FlatHashset {
  import opened Arithmetic
  import opened ProbingModel
  import opened HashsetTable

  // ---- growing ----

  ghost predicate Apart<K(0, !new)>(from: FlatHashsetImpl<K>, to: FlatHashsetImpl<K>) {
    && from != to && from.present != to.present && from.keys != to.keys
    && from.present as object != to.keys && from.keys as object != to.present
  }

  /** Insert the key in slot `i` of one table, if there is one, into another. */
  method RehashSlot<K(==, 0, !new)>(from: FlatHashsetImpl<K>, to: FlatHashsetImpl<K>, i: nat, noErase: bool)
      returns (good: bool)
    requires from.Valid() && to.Valid() && i < |from.view.keys|
    requires to.view.Contents() == Prefix(from.view, i) && (noErase ==> to.view.NoHoles())
    requires Apart(from, to)
    modifies to, to.present, to.keys
    ensures from.Valid() && from.view == old(from.view) && to.Valid()
    ensures good ==> to.view.Contents() == Prefix(from.view, i + 1) && (noErase ==> to.view.NoHoles())
    ensures !good ==> to.limit < |from.view.Contents()|
  {
    PrefixStep(from.view, i);
    if !from.present[i] {
      return true;
    }
    PrefixSize(from.view, i);
    var r;
    if noErase {
      r := to.InsertNoErase(from.keys[i]);
    } else {
      r := to.Insert(from.keys[i]);
    }
    assert r != KeyExists;
    good := r == Good;
  }

  /** Insert every key of one table into another. It fails only if the other has a probe limit
      below the number of keys. */
  method Rehash<K(==, 0, !new)>(from: FlatHashsetImpl<K>, to: FlatHashsetImpl<K>, noErase: bool) returns (good: bool)
    requires from.Valid() && to.Valid() && to.view.Contents() == {} && to.view.NoHoles()
    requires Apart(from, to)
    modifies to, to.present, to.keys
    ensures from.Valid() && from.view == old(from.view) && to.Valid()
    ensures good ==> to.view.Contents() == from.view.Contents() && (noErase ==> to.view.NoHoles())
    ensures !good ==> to.limit < |from.view.Contents()|
  {
    PrefixEnds(from.view);
    for i := 0 to from.cap + from.limit
      invariant from.Valid() && from.view == old(from.view) && to.Valid()
      invariant to.view.Contents() == Prefix(from.view, i) && (noErase ==> to.view.NoHoles())
    {
      good := RehashSlot(from, to, i, noErase);
      if !good {
        return;
      }
    }
    good := true;
  }

  /** One try: a larger table, and all keys inserted into it. */
  method Try<K(==, 0, !new)>(from: FlatHashsetImpl<K>, newCap: nat, factor: real, predicted: bool, log2: bool,
                             noErase: bool)
      returns (to: FlatHashsetImpl<K>, good: bool)
    requires from.Valid() && newCap > from.cap && factor > 0.0
    ensures from.Valid() && from.view == old(from.view)
    ensures fresh(to) && fresh(to.present) && fresh(to.keys)
    ensures good ==> to.Holds(from.view.Contents(), noErase)
    ensures to.hasher == from.hasher && to.policy == from.policy && Granted(from.policy, predicted, newCap, to.cap)
    ensures to.cap > newCap && to.limit == ProbeLimit(to.cap, factor, log2)
    ensures !good ==> from.view.Contents() != {} && to.cap <= Reach(|from.view.Contents()|, factor)
  {
    to := new FlatHashsetImpl(from.hasher, from.policy, newCap, factor, predicted, log2);
    good := Rehash(from, to, noErase);
    if !good {
      LimitGrows(to.cap, factor, log2, |from.view.Contents()|);
    }
  }

  /** The capacity to ask for first: one more than there is, or what the insertions so far predict
      for `hint` of them. */
  method FirstCapacity(size: nat, oldCap: nat, hint: nat, inserts: nat) returns (newCap: nat, predicted: bool)
    requires oldCap >= 1 && (hint > 0 && inserts >= 50000 ==> size > 0)
    ensures newCap > oldCap && (predicted <==> hint > 0 && inserts >= 50000)
    ensures !predicted ==> newCap == oldCap + 1
    ensures predicted && (oldCap + 1) * inserts >= hint * oldCap ==> newCap == oldCap + 1
    ensures predicted && (oldCap + 1) * inserts < hint * oldCap ==>
              newCap * inserts <= hint * oldCap < (newCap + 1) * inserts
  {
    newCap, predicted := oldCap + 1, false;
    if hint > 0 && inserts >= 50000 {
      var uniqueKeys := size as real / inserts as real;
      var expected := (uniqueKeys * hint as real) / (size as real / oldCap as real);
      Expected(size, oldCap, hint, inserts);
      WholePart(expected, inserts, hint * oldCap, newCap);
      predicted := true;
      if expected > newCap as real {
        newCap := expected.Floor;
      }
    }
  }

  /** The whole part of the fraction `p / n`, and when the fraction exceeds a number. */
  lemma WholePart(e: real, n: nat, p: nat, m: nat)
    requires n > 0 && e * n as real == p as real
    ensures e > m as real <==> m * n < p
    ensures e.Floor * n <= p < (e.Floor + 1) * n
  {
    Compare(e, n, p, m);
    Compare(e, n, p, e.Floor);
    Compare(e, n, p, e.Floor + 1);
  }

  lemma Compare(e: real, n: nat, p: nat, m: int)
    requires n > 0 && e * n as real == p as real
    ensures e > m as real <==> m * n < p
    ensures e >= m as real <==> m * n <= p
  {
    Scaled(e - m as real, n as real);
    assert (e - m as real) * n as real == p as real - (m * n) as real;
  }

  lemma Scaled(a: real, x: real)
    requires x > 0.0
    ensures a > 0.0 <==> a * x > 0.0
    ensures a >= 0.0 <==> a * x >= 0.0
  {}

  lemma Expected(size: nat, oldCap: nat, hint: nat, inserts: nat)
    requires size > 0 && oldCap >= 1 && inserts > 0
    ensures size as real / oldCap as real != 0.0
    ensures (size as real / inserts as real * hint as real) / (size as real / oldCap as real) * inserts as real
            == (hint * oldCap) as real
  {
    var s, o, h, n := size as real, oldCap as real, hint as real, inserts as real;
    var u, l := s / n, s / o;
    assert u * n == s && l * o == s;
    assert (u * h) / l * l == u * h;
    var e := (u * h) / l;
    assert e * s == e * l * o == u * h * o;
    assert e * s * n == s * h * o;
    assert e * n == h * o;
  }

  /** Try larger and larger tables. The probe limit grows with them, and no try fails once it
      exceeds the number of keys. */
  method GrowFrom<K(==, 0, !new)>(from: FlatHashsetImpl<K>, noErase: bool, factor: real, hint: nat, inserts: nat)
      returns (to: FlatHashsetImpl<K>, ghost requested: nat)
    requires from.Valid() && factor > 0.0 && (hint > 0 && inserts >= 50000 ==> from.view.Contents() != {})
    ensures fresh(to) && fresh(to.present) && fresh(to.keys)
    ensures to.Holds(old(from.view.Contents()), noErase)
    ensures to.cap > from.cap && to.policy == from.policy && to.hasher == from.hasher
    ensures to.limit == ProbeLimit(to.cap, factor, 10 * old(|from.view.Contents()|) > from.cap)
    ensures requested > from.cap && Granted(from.policy, hint > 0 && inserts >= 50000, requested, to.cap)
    ensures old(from.view.Contents()) == {} && hint == 0 ==> requested == from.cap + 1
  {
    ghost var n := |from.view.Contents()|;
    var newCap, predicted := FirstCapacity(from.count, from.cap, hint, inserts);
    var log2 := Loaded(from.count, from.cap);
    LoadedIs(from.count, from.cap);
    while true
      invariant from.Valid() && from.view == old(from.view) && newCap > from.cap
      invariant n == 0 && hint == 0 ==> newCap == from.cap + 1
      decreases Reach(n, factor) - newCap
    {
      var good;
      requested := newCap;
      to, good := Try(from, newCap, factor, predicted, log2, noErase);
      if good {
        return;
      }
      newCap := to.cap + 1;
    }
  }

  // ---- the sets ----

  const DEFAULT_HM_CAPACITY: nat := 2

  class FlatHashset<K(==, 0, !new)> {
    const factor: real
    var impl: FlatHashsetImpl<K>

    ghost predicate Valid()
      reads this, impl, impl.present, impl.keys
    {
      impl.Valid() && factor > 0.0 && Limited(impl.cap, factor, impl.limit)
    }

    ghost function Contents(): set<K>
      reads this, impl
    {
      impl.view.Contents()
    }

    /** The first table does not use the factor. */
    constructor (hasher: K -> nat, policy: Policy, initialCap: nat, factor: real)
      requires factor > 0.0
      ensures Valid() && fresh(impl) && fresh(impl.present) && fresh(impl.keys) && Contents() == {}
      ensures this.factor == factor && impl.hasher == hasher && Granted(policy, false, initialCap, impl.cap)
      ensures impl.limit == ProbeLimit(impl.cap, 1.0, true)
    {
      this.factor := factor;
      impl := new FlatHashsetImpl(hasher, policy, initialCap, 1.0, false, true);
    }

    constructor Scaled(hasher: K -> nat, policy: Policy, factor: real)
      requires factor > 0.0
      ensures Valid() && fresh(impl) && fresh(impl.present) && fresh(impl.keys) && Contents() == {}
      ensures this.factor == factor && impl.hasher == hasher
      ensures Granted(policy, false, DEFAULT_HM_CAPACITY, impl.cap)
      ensures impl.limit == ProbeLimit(impl.cap, factor, true)
    {
      this.factor := factor;
      impl := new FlatHashsetImpl(hasher, policy, DEFAULT_HM_CAPACITY, factor, false, true);
    }

    method Grow()
      requires Valid() && impl.limit <= |Contents()|
      modifies `impl
      ensures Valid() && fresh(impl) && fresh(impl.present) && fresh(impl.keys) && Contents() == old(Contents())
      ensures Shortfall(|Contents()|, impl.cap, factor) < old(Shortfall(|Contents()|, impl.cap, factor))
    {
      ghost var n, cap, limit := |Contents()|, impl.cap, impl.limit;
      var larger, requested := GrowFrom(impl, false, factor, 0, 0);
      impl := larger;
      ShortfallFalls(n, cap, impl.cap, factor, limit);
    }

    method Find(key: K) returns (found: bool)
      requires Valid()
      ensures found <==> key in Contents()
    {
      found := impl.Find(key);
    }

    /** Insert, growing as long as there is no vacancy. This ends for every hash function. */
    method Insert(key: K) returns (added: bool)
      requires Valid()
      modifies `impl, impl, impl.present, impl.keys
      ensures Valid() && (impl != old(impl) ==> fresh(impl) && fresh(impl.present) && fresh(impl.keys))
      ensures added <==> key !in old(Contents())
      ensures Contents() == old(Contents()) + {key}
      decreases Shortfall(|Contents()|, impl.cap, factor)
    {
      var r := impl.Insert(key);
      if r.NoVacancy? {
        ghost var before := Contents();
        Grow();
        assert Contents() == before;
        added := Insert(key);
      } else {
        added := r.Good?;
      }
    }

    method Erase(key: K) returns (erased: bool)
      requires Valid()
      modifies impl, impl.present
      ensures Valid() && impl == old(impl)
      ensures erased <==> key in old(Contents())
      ensures Contents() == old(Contents()) - {key}
    {
      erased := impl.Erase(key);
    }

    method Size() returns (n: nat)
      requires Valid()
      ensures n == |Contents()|
    {
      n := impl.count;
    }
  }

  /** The variant without erasure: lookups and insertions stop at the first free slot. It counts
      its insertions to predict how large it will get. */
  class IrremovableFlatHashset<K(==, 0, !new)> {
    const factor: real
    const maxItemsHint: nat
    var impl: FlatHashsetImpl<K>
    var inserts: nat

    ghost predicate Sound()
      reads this, impl, impl.present, impl.keys
    {
      && impl.Valid() && impl.view.NoHoles() && factor > 0.0 && Limited(impl.cap, factor, impl.limit)
      && |Contents()| <= inserts
    }

    /** Once something was inserted, some slot can be probed. */
    ghost predicate Valid()
      reads this, impl, impl.present, impl.keys
    {
      Sound() && (inserts > 0 ==> impl.limit > 0)
    }

    ghost function Contents(): set<K>
      reads this, impl
    {
      impl.view.Contents()
    }

    constructor (hasher: K -> nat, policy: Policy)
      ensures Valid() && fresh(impl) && fresh(impl.present) && fresh(impl.keys) && Contents() == {} && inserts == 0
      ensures factor == 1.0 && maxItemsHint == 0 && impl.hasher == hasher
      ensures Granted(policy, false, DEFAULT_HM_CAPACITY, impl.cap) && impl.limit == ProbeLimit(impl.cap, 1.0, true)
    {
      factor, maxItemsHint, inserts := 1.0, 0, 0;
      impl := new FlatHashsetImpl(hasher, policy, DEFAULT_HM_CAPACITY, 1.0, false, true);
    }

    constructor Hinted(hasher: K -> nat, policy: Policy, maxItemsHint: nat, factor: real)
      requires factor > 0.0
      ensures Valid() && fresh(impl) && fresh(impl.present) && fresh(impl.keys) && Contents() == {} && inserts == 0
      ensures this.factor == factor && this.maxItemsHint == maxItemsHint && impl.hasher == hasher
      ensures Granted(policy, false, DEFAULT_HM_CAPACITY, impl.cap)
      ensures impl.limit == ProbeLimit(impl.cap, factor, true)
    {
      this.factor, this.maxItemsHint, inserts := factor, maxItemsHint, 0;
      impl := new FlatHashsetImpl(hasher, policy, DEFAULT_HM_CAPACITY, factor, false, true);
    }

    /** Grow in the middle of an insertion that is already counted. */
    method Grow()
      requires Sound() && impl.limit <= |Contents()| < inserts && (inserts > 1 ==> impl.limit > 0)
      modifies `impl
      ensures Sound() && fresh(impl) && fresh(impl.present) && fresh(impl.keys) && Contents() == old(Contents())
      ensures inserts > 1 ==> impl.limit > 0
      ensures Shortfall(|Contents()|, impl.cap, factor) < old(Shortfall(|Contents()|, impl.cap, factor))
    {
      ghost var n, cap, limit := |Contents()|, impl.cap, impl.limit;
      var larger, requested := GrowFrom(impl, true, factor, maxItemsHint, inserts);
      impl := larger;
      ShortfallFalls(n, cap, impl.cap, factor, limit);
      if inserts > 1 {
        KeyNeedsSlot(impl.view);
      }
    }

    method Find(key: K) returns (found: bool)
      requires Valid()
      ensures found <==> key in Contents()
    {
      found := impl.FindNoErase(key);
    }

    /** Insert if there is a vacancy, and count the insertion. */
    method Attempt(key: K) returns (r: InsertResult)
      requires Valid()
      modifies `inserts, impl, impl.present, impl.keys
      ensures Sound() && inserts == old(inserts) + 1
      ensures r.KeyExists? <==> key in old(Contents())
      ensures Contents() == if r.NoVacancy? then old(Contents()) else old(Contents()) + {key}
      ensures if r.NoVacancy? then impl.limit <= |Contents()| < inserts && (inserts > 1 ==> impl.limit > 0)
              else Valid()
    {
      r := impl.InsertNoErase(key);
      inserts := inserts + 1;
      if !r.NoVacancy? {
        KeyNeedsSlot(impl.view);
      }
    }

    method Insert(key: K) returns (added: bool)
      requires Valid()
      modifies `impl, `inserts, impl, impl.present, impl.keys
      ensures Valid() && (impl != old(impl) ==> fresh(impl) && fresh(impl.present) && fresh(impl.keys))
      ensures added <==> key !in old(Contents())
      ensures Contents() == old(Contents()) + {key} && inserts == old(inserts) + 1
      decreases Shortfall(|Contents()|, impl.cap, factor)
    {
      var r := Attempt(key);
      if r.NoVacancy? {
        ghost var before := Contents();
        Grow();
        assert Contents() == before;
        inserts := inserts - 1;
        added := Insert(key);
      } else {
        added := r.Good?;
      }
    }

    method Clear()
      requires Valid()
      modifies impl, impl.present
      ensures Valid() && impl == old(impl) && Contents() == {} && inserts == old(inserts)
    {
      impl.Clear();
    }
  }

  // ---- a table with no more slots than the one before ----

  /** All keys collide. */
  lemma Colliding(t: FlatHashsetImpl<int>)
    requires t.Valid() && forall k :: t.hasher(k) == 0
    ensures |t.view.Contents()| <= t.limit
  {
    forall k ensures t.view.home(k) == 0 {
      assert HomeOf(t.hasher(k), t.cap) == 0;
    }
    OneWindow(t.view, 0);
  }

  lemma SmallPowers(n: nat)
    requires IsPow2(n)
    ensures 2 < n <= 4 ==> n == 4
    ensures 5 < n <= 10 ==> n == 8
    ensures 9 < n <= 18 ==> n == 16
  {
    if n > 1 && n / 2 > 1 && n / 2 / 2 > 1 {
      assert IsPow2(n / 2) && IsPow2(n / 2 / 2) && IsPow2(n / 2 / 2 / 2);
    }
  }

  /** The first tables of a set whose keys all collide, with factor one tenth: an empty one without
      probe limit, and the one that it grows to. */
  method Grown() returns (t: FlatHashsetImpl<int>)
    ensures fresh(t) && fresh(t.present) && fresh(t.keys) && t.Valid() && t.view.Contents() == {}
    ensures t.policy == Power2 && t.cap == t.limit == 8 && forall k :: t.hasher(k) == 0
  {
    var first := new FlatHashsetImpl((k: int) => 0, Power2, DEFAULT_HM_CAPACITY, 0.1, false, true);
    SmallPowers(first.cap);
    assert CeilLog2(4) == 2;
    var r := first.Insert(0);
    Colliding(first);
    assert r.NoVacancy?;
    var larger, requested := GrowFrom(first, false, 0.1, 0, 0);
    t := larger;
    SmallPowers(t.cap);
  }

  ghost function FirstKeys(n: nat): (s: set<int>)
    ensures |s| == n && forall k | k in s :: k < n
  {
    if n == 0 then {} else FirstKeys(n - 1) + {n - 1}
  }

  /** As long as there are fewer keys than the probe limit, another one finds a slot. */
  method Next(t: FlatHashsetImpl<int>, n: nat)
    requires t.Valid() && t.view.Contents() == FirstKeys(n) && n < t.limit
    modifies t, t.present, t.keys
    ensures t.Valid() && t.view.Contents() == FirstKeys(n + 1)
  {
    assert n !in FirstKeys(n);
    var r := t.Insert(n);
    assert r == Good;
  }

  /** As many keys as the probe limit, and one more that is refused. */
  method Filled() returns (t: FlatHashsetImpl<int>)
    ensures t.Valid() && t.policy == Power2 && t.cap == t.limit == t.count == 8
  {
    t := Grown();
    for i := 0 to t.limit
      invariant t.Valid() && t.view.Contents() == FirstKeys(i)
    {
      Next(t, i);
    }
    assert t.limit !in FirstKeys(t.limit);
    Refused(t, t.limit);
  }

  /** When all keys collide, there is no room beyond the probe limit. */
  method Refused(t: FlatHashsetImpl<int>, key: int)
    requires t.Valid() && forall k :: t.hasher(k) == 0
    requires key !in t.view.Contents() && |t.view.Contents()| == t.limit
    modifies t, t.present, t.keys
    ensures t.Valid() && t.view.Contents() == old(t.view.Contents())
  {
    ghost var before := t.view.Contents();
    OneMore(before, key);
    var r := t.Insert(key);
    Colliding(t);
    assert r.NoVacancy?;
  }

  lemma OneMore(s: set<int>, k: int)
    requires k !in s
    ensures |s + {k}| == |s| + 1
  {}

  /** The table made to grow that one has the same number of slots, where the code asserts more. */
  method NoMoreSlots() returns (from: FlatHashsetImpl<int>, to: FlatHashsetImpl<int>)
    ensures from.Valid() && to.Valid() && from.cap + from.limit == to.cap + to.limit == 16
  {
    from := Filled();
    var newCap, predicted := FirstCapacity(from.count, from.cap, 0, 0);
    var log2 := Loaded(from.count, from.cap);
    LoadedIs(from.count, from.cap);
    to := new FlatHashsetImpl(from.hasher, from.policy, newCap, 0.1, predicted, log2);
    SmallPowers(to.cap);
    assert CeilLog2(16) == 4;
  }
}
