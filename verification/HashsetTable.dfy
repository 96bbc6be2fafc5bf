/** A table with bounded linear probing, changed in place. */
module HashsetTable {
  import opened Arithmetic
  import opened ProbingModel

  datatype InsertResult = Good | NoVacancy | KeyExists

  /** The home slot of a hash: its remainder by the capacity. */
  ghost function HomeOf(hash: nat, cap: nat): (h: nat)
    requires cap > 0
    ensures h < cap
  {
    if hash < cap then hash else HomeOf(hash - cap, cap)
  }

  lemma {:induction false} HomeIsMod(hash: nat, cap: nat)
    requires cap > 0
    ensures HomeOf(hash, cap) == hash % cap
  {
    if hash < cap {
      DivModUnique(hash, 0, cap, hash);
    } else {
      HomeIsMod(hash - cap, cap);
      ModAdd(hash - cap, 1, cap);
    }
  }

  // ---- the probing loops ----

  /** Look for the key in its whole window. */
  method ScanWindow<K(==, !new)>(present: array<bool>, keys: array<K>, key: K, idx: nat, limit: nat, ghost t: Slots<K>)
      returns (found: bool, index: nat)
    requires t.Valid() && present[..] == t.present && keys[..] == t.keys && idx == t.home(key) && limit == t.limit
    ensures found <==> key in t.spot
    ensures found ==> index == t.spot[key]
  {
    found, index := false, 0;
    for i := idx to idx + limit
      invariant key in t.spot ==> i <= t.spot[key]
    {
      if present[i] && keys[i] == key {
        assert t.present[i];
        return true, i;
      }
    }
  }

  /** Look for the key up to the first free slot: enough when no slot was ever freed. */
  method ScanToHole<K(==, !new)>(present: array<bool>, keys: array<K>, key: K, idx: nat, limit: nat, ghost t: Slots<K>)
      returns (found: bool)
    requires t.Valid() && present[..] == t.present && keys[..] == t.keys && idx == t.home(key) && limit == t.limit
    requires t.NoHoles()
    ensures found <==> key in t.spot
  {
    var i := idx;
    while i < idx + limit && present[i]
      invariant idx <= i <= idx + limit
      invariant key in t.spot ==> i <= t.spot[key]
    {
      if keys[i] == key {
        assert t.present[i];
        return true;
      }
      i := i + 1;
    }
    return false;
  }

  /** Look through the whole window, remembering its first free slot. */
  method ScanForSlot<K(==, !new)>(present: array<bool>, keys: array<K>, key: K, idx: nat, limit: nat, ghost t: Slots<K>)
      returns (found: bool, slot: int)
    requires t.Valid() && present[..] == t.present && keys[..] == t.keys && idx == t.home(key) && limit == t.limit
    ensures found <==> key in t.spot
    ensures !found && slot == -1 ==> limit <= |t.Contents()|
    ensures !found ==> (slot == -1 <==> t.WindowFull(key))
    ensures !found && slot != -1 ==> idx <= slot < idx + limit && !t.present[slot]
    ensures !found && slot != -1 ==> forall j: nat | idx <= j < slot :: t.present[j]
  {
    found, slot := false, -1;
    for i := idx to idx + limit
      invariant key in t.spot ==> i <= t.spot[key]
      invariant slot == -1 ==> forall j: nat | idx <= j < i :: t.present[j]
      invariant slot != -1 ==> idx <= slot < i && !t.present[slot] && forall j: nat | idx <= j < slot :: t.present[j]
    {
      if present[i] {
        if keys[i] == key {
          assert t.present[i];
          return true, slot;
        }
      } else if slot == -1 {
        slot := i;
      }
    }
    if slot == -1 {
      FullWindow(t, idx);
    }
  }

  /** Stop at the key or at the first free slot. */
  method ScanForHole<K(==, !new)>(present: array<bool>, keys: array<K>, key: K, idx: nat, limit: nat, ghost t: Slots<K>)
      returns (found: bool, slot: int)
    requires t.Valid() && present[..] == t.present && keys[..] == t.keys && idx == t.home(key) && limit == t.limit
    requires t.NoHoles()
    ensures found <==> key in t.spot
    ensures !found && slot == -1 ==> limit <= |t.Contents()|
    ensures !found ==> (slot == -1 <==> t.WindowFull(key))
    ensures !found && slot != -1 ==> idx <= slot < idx + limit && !t.present[slot]
    ensures !found && slot != -1 ==> forall j: nat | idx <= j < slot :: t.present[j]
  {
    for i := idx to idx + limit
      invariant key in t.spot ==> i <= t.spot[key]
      invariant forall j: nat | idx <= j < i :: t.present[j]
    {
      if present[i] {
        if keys[i] == key {
          assert t.present[i];
          return true, -1;
        }
      } else {
        return false, i;
      }
    }
    FullWindow(t, idx);
    return false, -1;
  }

  lemma AddedAgain<K>(s: set<K>, k: K)
    requires k in s
    ensures s + {k} == s
  {}

  class FlatHashsetImpl<K(==, 0, !new)> {
    const hasher: K -> nat
    const policy: Policy
    const cap: nat
    const limit: nat
    const present: array<bool>
    const keys: array<K>
    var count: nat

    ghost var view: Slots<K>

    ghost predicate Valid()
      reads `count, `view, present, keys
    {
      && present as object != keys && cap >= 1 && Legal(policy, cap)
      && present[..] == view.present && keys[..] == view.keys && cap == view.cap && limit == view.limit
      && (forall k {:trigger view.home(k)} :: view.home(k) == HomeOf(hasher(k), cap))
      && view.Valid() && count == |view.Contents()|
    }

    ghost predicate Holds(s: set<K>, noErase: bool)
      reads `count, `view, present, keys
    {
      Valid() && view.Contents() == s && (noErase ==> view.NoHoles())
    }

    /** Room for a capacity the policy chooses, and the probe limit of that capacity. */
    constructor (hasher: K -> nat, policy: Policy, requested: nat, factor: real, predicted: bool, log2: bool)
      requires factor > 0.0
      ensures Valid() && fresh(present) && fresh(keys) && view.Contents() == {} && view.NoHoles()
      ensures this.hasher == hasher && this.policy == policy && Granted(policy, predicted, requested, cap)
      ensures limit == ProbeLimit(cap, factor, log2)
    {
      var c := Capacity(policy, predicted, requested);
      var l := ProbeLimit(c, factor, log2);
      this.hasher, this.policy, cap, limit, count := hasher, policy, c, l, 0;
      var p, ks := new bool[c + l](i => false), new K[c + l];
      present, keys := p, ks;
      view := Slots(p[..], ks[..], c, l, map[], k => HomeOf(hasher(k), c));
    }

    method Home(key: K) returns (idx: nat)
      requires Valid()
      ensures idx == view.home(key)
    {
      HomeIsMod(hasher(key), cap);
      idx := hasher(key) % cap;
    }

    method Find(key: K) returns (found: bool)
      requires Valid()
      ensures found <==> key in view.Contents()
    {
      var idx := Home(key);
      var index;
      found, index := ScanWindow(present, keys, key, idx, limit, view);
    }

    method FindNoErase(key: K) returns (found: bool)
      requires Valid() && view.NoHoles()
      ensures found <==> key in view.Contents()
    {
      var idx := Home(key);
      found := ScanToHole(present, keys, key, idx, limit, view);
    }

    /** Write a new key into a free slot of its window. */
    method Store(key: K, i: nat)
      requires Valid() && key !in view.spot && i < |view.keys| && !view.present[i]
      requires view.home(key) <= i < view.home(key) + limit
      modifies this, present, keys
      ensures Valid() && view.Contents() == old(view.Contents()) + {key}
      ensures old(view.NoHoles()) && (forall j: nat | old(view.home(key)) <= j < i :: old(view.present)[j]) ==>
        view.NoHoles()
    {
      ghost var d := Stored(view, key, i);
      present[i] := true;
      keys[i] := key;
      count := count + 1;
      view := d;
    }

    method Insert(key: K) returns (r: InsertResult)
      requires Valid()
      modifies this, present, keys
      ensures Valid()
      ensures r.KeyExists? <==> key in old(view.Contents())
      ensures view.Contents() == if r.NoVacancy? then old(view.Contents()) else old(view.Contents()) + {key}
      ensures r.NoVacancy? ==> limit <= |view.Contents()| && key !in old(view.Contents())
      ensures key !in old(view.Contents()) ==> (r.NoVacancy? <==> old(view).WindowFull(key))
    {
      var idx := Home(key);
      var found, slot := ScanForSlot(present, keys, key, idx, limit, view);
      if found {
        AddedAgain(view.Contents(), key);
        return KeyExists;
      }
      if slot == -1 {
        return NoVacancy;
      }
      Store(key, slot);
      return Good;
    }

    method InsertNoErase(key: K) returns (r: InsertResult)
      requires Valid() && view.NoHoles()
      modifies this, present, keys
      ensures Valid() && view.NoHoles()
      ensures r.KeyExists? <==> key in old(view.Contents())
      ensures view.Contents() == if r.NoVacancy? then old(view.Contents()) else old(view.Contents()) + {key}
      ensures r.NoVacancy? ==> limit <= |view.Contents()| && key !in old(view.Contents())
      ensures key !in old(view.Contents()) ==> (r.NoVacancy? <==> old(view).WindowFull(key))
    {
      var idx := Home(key);
      var found, slot := ScanForHole(present, keys, key, idx, limit, view);
      if found {
        AddedAgain(view.Contents(), key);
        return KeyExists;
      }
      if slot == -1 {
        return NoVacancy;
      }
      Store(key, slot);
      return Good;
    }

    method Erase(key: K) returns (erased: bool)
      requires Valid()
      modifies this, present
      ensures Valid()
      ensures erased <==> key in old(view.Contents())
      ensures view.Contents() == old(view.Contents()) - {key}
    {
      var idx := Home(key);
      var i;
      erased, i := ScanWindow(present, keys, key, idx, limit, view);
      if erased {
        ghost var d := Erased(view, key);
        present[i] := false;
        count := count - 1;
        view := d;
      }
    }

    method Clear()
      requires Valid()
      modifies this, present
      ensures Valid() && view.Contents() == {} && view.NoHoles()
    {
      for i := 0 to cap + limit
        invariant view == old(view) && keys[..] == view.keys
        invariant forall j | 0 <= j < i :: !present[j]
      {
        present[i] := false;
      }
      count := 0;
      view := view.(present := present[..], spot := map[]);
    }
  }
}
