/** What the arrays of a Swiss table mean: where every key is stored, that every lookup reaches
    it, and how many more slots may be used. */
module SwissModel {
  import opened Arithmetic
  import opened GroupBits
  import opened ProbeSequence
  import opened Windows
  import opened ProbeChains

  /** The contents of the arrays. `slots` records where each key is stored, `home` and `tag` are
      the first probe offset and the control byte of each key under the current allocation. */
  datatype Table<!K(!new), V> = Table(ctrl: seq<bv8>, capacity: nat, keys: seq<K>, values: seq<V>,
                                slots: map<K, nat>, home: K -> nat, tag: K -> bv8)
  {
    ghost predicate Shape() {
      && Layout(ctrl, capacity)
      && |keys| >= capacity && |values| >= capacity
      && (forall k :: home(k) <= capacity)
      && (forall k :: IsFull(tag(k)))
    }

    /** While tombstones are squeezed out, a deleted mark stands for an entry not yet placed. */
    predicate Occupied(i: nat, squeezing: bool)
      requires i < |ctrl|
    {
      IsFull(ctrl[i]) || (squeezing && ctrl[i] == DELETED)
    }

    /** The occupied slots and the stored keys correspond one to one. */
    ghost predicate Stored(squeezing: bool)
      requires Shape()
    {
      && (forall k | k in slots ::
            slots[k] < capacity && Occupied(slots[k], squeezing) && keys[slots[k]] == k)
      && (forall i: nat | i < capacity && Occupied(i, squeezing) ::
            keys[i] in slots && slots[keys[i]] == i)
    }

    /** Every key is stored under its own tag where a lookup finds it. */
    ghost predicate Reachable()
      requires Shape() && Stored(false)
    {
      forall k | k in slots :: ctrl[slots[k]] == tag(k) && Findable(ctrl, capacity, home(k), slots[k])
    }

    ghost predicate NoTombstones()
      requires Shape()
    {
      forall i | 0 <= i < capacity :: ctrl[i] != DELETED
    }

    ghost predicate Valid() {
      && Shape() && Stored(false) && Reachable()
      && |Used()| <= CapacityToGrowth(capacity)
      && (capacity <= 7 ==> NoTombstones())
    }

    /** The slots that are full or hold a tombstone. */
    ghost function Used(): set<int>
      requires Shape()
    {
      set i | 0 <= i < capacity && ctrl[i] != EMPTY
    }

    /** The number of empty slots that may still be filled before the table grows. */
    ghost function GrowthLeft(): int
      requires Shape()
    {
      CapacityToGrowth(capacity) - |Used()|
    }

    /** The map the table stands for. */
    ghost function Contents(): map<K, V>
      requires Shape() && forall k | k in slots :: slots[k] < capacity
    {
      map k | k in slots :: values[slots[k]]
    }
  }

  /** The number of entries and the growth the table still allows. */
  ghost predicate Counts<K(!new), V>(t: Table<K, V>, size: int, growLeft: int) {
    t.Shape() && size == |t.slots| && growLeft == t.GrowthLeft()
  }

  lemma AllUsed<K(!new), V>(t: Table<K, V>)
    requires t.Shape() && forall i: nat | i < t.capacity :: t.ctrl[i] != EMPTY
    ensures |t.Used()| == t.capacity
  {
    assert t.Used() == Range(t.capacity);
  }

  lemma UsedSize<K(!new), V>(t: Table<K, V>)
    requires t.Shape()
    ensures |t.Used()| <= t.capacity
    ensures |t.Used()| == t.capacity ==> forall i | 0 <= i < t.capacity :: t.ctrl[i] != EMPTY
    ensures |t.Used()| < t.capacity ==> exists i: nat :: i < t.capacity && t.ctrl[i] == EMPTY
  {
    assert t.Used() <= Range(t.capacity);
    SubsetSize(t.Used(), Range(t.capacity));
    if |t.Used()| == t.capacity {
      forall i | 0 <= i < t.capacity ensures t.ctrl[i] != EMPTY {
        assert i in t.Used();
      }
    } else if forall i: nat | i < t.capacity :: t.ctrl[i] != EMPTY {
      AllUsed(t);
    }
  }

  /** Within the growth bound a lookup always meets an empty byte. */
  lemma GrowthLeavesEmpty<K(!new), V>(t: Table<K, V>)
    requires t.Shape() && |t.Used()| <= CapacityToGrowth(t.capacity)
    ensures SomeEmpty(t.ctrl, t.capacity)
  {
    UsedSize(t);
  }

  /** With no tombstones the used slots are the stored keys. */
  lemma UsedIsSlots<K(!new), V>(t: Table<K, V>, squeezing: bool)
    requires t.Shape() && t.Stored(squeezing) && (squeezing || t.NoTombstones())
    ensures |t.Used()| == |t.slots|
  {
    var image := set k | k in t.slots :: t.slots[k];
    forall i | i in t.Used() ensures i in image {
      assert IsCtrl(t.ctrl[i]) && t.Occupied(i, squeezing);
      assert t.slots[t.keys[i]] in image;
    }
    assert t.Used() == image;
    ImageSize(t.slots, t.slots.Keys);
  }

  /** An injective map sends its keys to a set of the same size. */
  lemma {:induction false} ImageSize<K>(m: map<K, nat>, ks: set<K>)
    requires ks <= m.Keys
    requires forall k, l | k in ks && l in ks && m[k] == m[l] :: k == l
    ensures |set k | k in ks :: m[k]| == |ks|
  {
    if ks != {} {
      var k :| k in ks;
      ImageSize(m, ks - {k});
      assert (set l | l in ks :: m[l]) == (set l | l in ks - {k} :: m[l]) + {m[k]};
    }
  }

  // ---- storing an entry ----

  ghost function Put<K(!new), V>(t: Table<K, V>, i: nat, k: K, v: V): Table<K, V>
    requires t.Shape() && i < t.capacity
  {
    t.(ctrl := SetCtrl(t.ctrl, t.capacity, i, t.tag(k)),
       keys := t.keys[i := k], values := t.values[i := v], slots := t.slots[k := i])
  }

  /** A free slot reached by the insertion probe, for a key that is not stored. */
  ghost predicate IsTarget<K(!new), V>(t: Table<K, V>, k: K, i: nat, p: nat)
    requires t.Shape()
  {
    && i < t.capacity && IsFree(t.ctrl[i])
    && p < Groups(t.capacity) && InProbe(t.capacity, t.home(k), p, i)
    && Crowded(t.ctrl, t.capacity, t.home(k), p)
  }

  lemma PutStored<K(!new), V>(t: Table<K, V>, i: nat, k: K, v: V)
    requires t.Shape() && t.Stored(false) && k !in t.slots && i < t.capacity && IsFree(t.ctrl[i])
    ensures Put(t, i, k, v).Shape() && Put(t, i, k, v).Stored(false)
    ensures Put(t, i, k, v).Contents() == t.Contents()[k := v]
  {
    var d := Put(t, i, k, v);
    forall j: nat | j < d.capacity && d.Occupied(j, false)
      ensures d.keys[j] in d.slots && d.slots[d.keys[j]] == j
    {
      if j != i {
        assert t.Occupied(j, false);
      }
    }
  }

  lemma PutReachable<K(!new), V>(t: Table<K, V>, i: nat, k: K, v: V, p: nat)
    requires t.Shape() && t.Stored(false) && t.Reachable() && k !in t.slots && IsTarget(t, k, i, p)
    ensures var d := Put(t, i, k, v); d.Shape() && d.Stored(false) && d.Reachable()
  {
    PutStored(t, i, k, v);
    var d := Put(t, i, k, v);
    forall x | x in d.slots
      ensures d.ctrl[d.slots[x]] == d.tag(x) && Findable(d.ctrl, d.capacity, d.home(x), d.slots[x])
    {
      if x == k {
        CrowdedUnbroken(t.ctrl, t.capacity, t.home(k), p);
        FillKeeps(t.ctrl, t.capacity, i, t.tag(k), t.home(k), p);
      } else {
        var q: nat :| q < Groups(t.capacity) && InProbe(t.capacity, t.home(x), q, t.slots[x])
                      && Unbroken(t.ctrl, t.capacity, t.home(x), q);
        FillKeeps(t.ctrl, t.capacity, i, t.tag(k), t.home(x), q);
      }
    }
  }

  lemma PutUsed<K(!new), V>(t: Table<K, V>, i: nat, k: K, v: V)
    requires t.Shape() && i < t.capacity
    ensures Put(t, i, k, v).Shape()
    ensures |Put(t, i, k, v).Used()| == |t.Used()| + (if t.ctrl[i] == EMPTY then 1 else 0)
  {
    var d := Put(t, i, k, v);
    assert d.Used() == t.Used() + {i};
  }

  lemma PutCount<K(!new), V>(t: Table<K, V>, i: nat, k: K, v: V)
    requires t.Shape() && i < t.capacity && k !in t.slots
    ensures Put(t, i, k, v).Shape()
    ensures |Put(t, i, k, v).slots| == |t.slots| + 1
    ensures t.NoTombstones() ==> Put(t, i, k, v).NoTombstones()
  {
    assert Put(t, i, k, v).slots.Keys == t.slots.Keys + {k};
    if t.NoTombstones() {
      forall j | 0 <= j < t.capacity ensures Put(t, i, k, v).ctrl[j] != DELETED {
        assert IsFull(t.tag(k)) && t.ctrl[j] != DELETED;
      }
    }
  }

  /** Inserting a new key into a slot the insertion probe found keeps the table valid and adds
      the entry to the map. */
  lemma PutValid<K(!new), V>(t: Table<K, V>, i: nat, k: K, v: V, p: nat)
    requires t.Valid() && k !in t.slots && IsTarget(t, k, i, p)
    requires t.ctrl[i] == DELETED || t.GrowthLeft() > 0
    ensures Put(t, i, k, v).Valid()
    ensures Put(t, i, k, v).Contents() == t.Contents()[k := v]
    ensures |Put(t, i, k, v).slots| == |t.slots| + 1
    ensures Put(t, i, k, v).GrowthLeft() == t.GrowthLeft() - (if t.ctrl[i] == EMPTY then 1 else 0)
  {
    PutStored(t, i, k, v);
    PutReachable(t, i, k, v, p);
    PutUsed(t, i, k, v);
    PutCount(t, i, k, v);
  }

  /** The same, as what a caller needs of the outcome. */
  lemma Inserted<K(!new), V>(t: Table<K, V>, i: nat, k: K, v: V, p: nat, size: int, growLeft: int, left: int)
      returns (d: Table<K, V>)
    requires t.Valid() && k !in t.slots && IsTarget(t, k, i, p) && Counts(t, size, growLeft)
    requires t.ctrl[i] == DELETED || growLeft > 0
    requires left == growLeft - if t.ctrl[i] == EMPTY then 1 else 0
    ensures d == t.(ctrl := SetCtrl(t.ctrl, t.capacity, i, t.tag(k)),
                    keys := t.keys[i := k], values := t.values[i := v], slots := t.slots[k := i])
    ensures d.Valid() && d.Contents() == t.Contents()[k := v]
    ensures Counts(d, size + 1, left)
    ensures t.NoTombstones() ==> d.NoTombstones()
  {
    d := Put(t, i, k, v);
    PutValid(t, i, k, v, p);
    PutCount(t, i, k, v);
  }

  // ---- looking up and removing an entry ----

  /** None of the first `p` windows of the key's probe holds its slot. */
  ghost predicate Unseen<K(!new), V>(t: Table<K, V>, k: K, p: nat)
    requires t.Shape() && t.Stored(false)
  {
    k in t.slots ==> forall q: nat | q < p :: !InProbe(t.capacity, t.home(k), q, t.slots[k])
  }

  /** A lookup that has passed an empty byte without seeing the key may give up. */
  lemma LookupComplete<K(!new), V>(t: Table<K, V>, k: K, p: nat)
    requires t.Valid() && HasEmpty(t.ctrl, t.capacity, t.home(k), p) && Unseen(t, k, p + 1)
    ensures k !in t.slots
  {}

  ghost function Remove<K(!new), V>(t: Table<K, V>, k: K, mark: bv8): Table<K, V>
    requires t.Shape() && t.Stored(false) && k in t.slots && IsFree(mark)
  {
    t.(ctrl := SetCtrl(t.ctrl, t.capacity, t.slots[k], mark), slots := t.slots - {k})
  }

  /** A slot may be marked empty when the test of `erase` holds, and deleted in a table large
      enough to hold tombstones. */
  ghost predicate MayMark<K(!new), V>(t: Table<K, V>, i: nat, mark: bv8)
    requires t.Shape() && i < t.capacity
  {
    || (mark == EMPTY && exists lo, hi :: WasNeverFull(t.ctrl, t.capacity, i, lo, hi))
    || (mark == DELETED && t.capacity > 7)
  }

  lemma RemoveStored<K(!new), V>(t: Table<K, V>, k: K, mark: bv8)
    requires t.Shape() && t.Stored(false) && k in t.slots && IsFree(mark)
    ensures Remove(t, k, mark).Shape() && Remove(t, k, mark).Stored(false)
    ensures Remove(t, k, mark).Contents() == t.Contents() - {k}
  {
    var d := Remove(t, k, mark);
    forall j: nat | j < d.capacity && d.Occupied(j, false)
      ensures d.keys[j] in d.slots && d.slots[d.keys[j]] == j
    {
      assert t.Occupied(j, false);
    }
  }

  lemma RemoveReachable<K(!new), V>(t: Table<K, V>, k: K, mark: bv8)
    requires t.Shape() && t.Stored(false) && t.Reachable() && k in t.slots && MayMark(t, t.slots[k], mark)
    ensures var d := Remove(t, k, mark); d.Shape() && d.Stored(false) && d.Reachable()
  {
    RemoveStored(t, k, mark);
    var d, i := Remove(t, k, mark), t.slots[k];
    forall x | x in d.slots
      ensures d.ctrl[d.slots[x]] == d.tag(x) && Findable(d.ctrl, d.capacity, d.home(x), d.slots[x])
    {
      var q: nat :| q < Groups(t.capacity) && InProbe(t.capacity, t.home(x), q, t.slots[x])
                    && Unbroken(t.ctrl, t.capacity, t.home(x), q);
      if mark == EMPTY {
        var lo, hi :| WasNeverFull(t.ctrl, t.capacity, i, lo, hi);
        EraseKeeps(t.ctrl, t.capacity, i, lo, hi, t.home(x), q);
      } else {
        FillKeeps(t.ctrl, t.capacity, i, mark, t.home(x), q);
      }
    }
  }

  lemma RemoveUsed<K(!new), V>(t: Table<K, V>, k: K, mark: bv8)
    requires t.Shape() && t.Stored(false) && k in t.slots && IsFree(mark)
    ensures Remove(t, k, mark).Shape()
    ensures |Remove(t, k, mark).Used()| == |t.Used()| - (if mark == EMPTY then 1 else 0)
    ensures |Remove(t, k, mark).slots| == |t.slots| - 1
    ensures mark == EMPTY && t.NoTombstones() ==> Remove(t, k, mark).NoTombstones()
  {
    var d, i: int := Remove(t, k, mark), t.slots[k];
    assert t.Occupied(i, false) && i in t.Used();
    assert d.Used() == if mark == EMPTY then t.Used() - {i} else t.Used();
    assert t.slots.Keys == d.slots.Keys + {k};
  }

  /** Erasing keeps the table valid and drops exactly that entry from the map. */
  lemma RemoveValid<K(!new), V>(t: Table<K, V>, k: K, mark: bv8)
    requires t.Valid() && k in t.slots && MayMark(t, t.slots[k], mark)
    ensures Remove(t, k, mark).Valid()
    ensures Remove(t, k, mark).Contents() == t.Contents() - {k}
    ensures |Remove(t, k, mark).slots| == |t.slots| - 1
    ensures Remove(t, k, mark).GrowthLeft() == t.GrowthLeft() + (if mark == EMPTY then 1 else 0)
  {
    RemoveStored(t, k, mark);
    RemoveReachable(t, k, mark);
    RemoveUsed(t, k, mark);
  }

  /** What `erase` writes into the slot. */
  function FreeMark(neverFull: bool): (mark: bv8)
    ensures IsFree(mark) && IsCtrl(mark) && mark != SENTINEL
  {
    if neverFull then EMPTY else DELETED
  }

  /** The same, as what a caller needs of the outcome. */
  lemma Removed<K(!new), V>(t: Table<K, V>, k: K, neverFull: bool, size: int, growLeft: int, left: int)
      returns (d: Table<K, V>)
    requires t.Valid() && k in t.slots && Counts(t, size, growLeft)
    requires neverFull ==> exists lo, hi :: WasNeverFull(t.ctrl, t.capacity, t.slots[k], lo, hi)
    requires !neverFull ==> t.capacity > 7
    requires left == growLeft + if neverFull then 1 else 0
    ensures d == t.(ctrl := SetCtrl(t.ctrl, t.capacity, t.slots[k], FreeMark(neverFull)), slots := d.slots)
    ensures d.Valid() && d.Contents() == t.Contents() - {k} && Counts(d, size - 1, left)
  {
    d := Remove(t, k, FreeMark(neverFull));
    RemoveValid(t, k, FreeMark(neverFull));
  }

  lemma RemoveAbsent<K(!new), V>(t: Table<K, V>, k: K)
    requires t.Valid() && k !in t.slots
    ensures t.Contents() - {k} == t.Contents()
  {}

  ghost function SetValue<K(!new), V>(t: Table<K, V>, i: nat, v: V): Table<K, V>
    requires i < |t.values|
  {
    t.(values := t.values[i := v])
  }

  /** Writing through a pointer to a stored value replaces that value and nothing else. */
  lemma SetValueValid<K(!new), V>(t: Table<K, V>, k: K, v: V)
    requires t.Valid() && k in t.slots
    ensures SetValue(t, t.slots[k], v).Valid()
    ensures SetValue(t, t.slots[k], v).Contents() == t.Contents()[k := v]
  {
    var d := SetValue(t, t.slots[k], v);
    assert d.Shape() && d.Used() == t.Used();
    assert d.Stored(false) by {
      forall i: nat | i < d.capacity && d.Occupied(i, false) ensures d.keys[i] in d.slots && d.slots[d.keys[i]] == i {
        assert t.Occupied(i, false);
      }
    }
    forall x | x in t.slots ensures d.Contents()[x] == t.Contents()[k := v][x] {
      assert t.keys[t.slots[x]] == x;
    }
  }

  /** A pointer to the value stored for `k`. */
  ghost predicate Points<K(!new), V>(t: Table<K, V>, k: K, index: nat) {
    k in t.slots && index == t.slots[k]
  }

  lemma Written<K(!new), V>(t: Table<K, V>, k: K, v: V, size: int, growLeft: int) returns (d: Table<K, V>)
    requires t.Valid() && k in t.slots && Counts(t, size, growLeft)
    ensures d == t.(values := t.values[t.slots[k] := v])
    ensures d.Valid() && d.Contents() == t.Contents()[k := v] && Counts(d, size, growLeft)
  {
    d := SetValue(t, t.slots[k], v);
    SetValueValid(t, k, v);
    assert d.Used() == t.Used();
  }

  // ---- a new allocation, and moving entries into it ----

  /** A control array with nothing in it. */
  ghost predicate Blank(c: seq<bv8>, capacity: nat) {
    && |c| == (if capacity == 0 then 2 * WIDTH else capacity + WIDTH)
    && forall i | 0 <= i < |c| :: c[i] == if i == capacity then SENTINEL else EMPTY
  }

  lemma BlankValid<K(!new), V>(t: Table<K, V>)
    requires Blank(t.ctrl, t.capacity) && LegalCapacity(t.capacity) && t.slots == map[]
    requires |t.keys| >= t.capacity && |t.values| >= t.capacity
    requires (forall k :: t.home(k) <= t.capacity) && (forall k :: IsFull(t.tag(k)))
    ensures t.Valid() && t.NoTombstones() && t.Contents() == map[]
    ensures t.GrowthLeft() == CapacityToGrowth(t.capacity)
  {
    assert t.Used() == {};
  }

  lemma NewTable<K(!new), V>(ctrl: seq<bv8>, keys: seq<K>, values: seq<V>, capacity: nat,
                             hasher: K -> bv64, seed: bv64) returns (t: Table<K, V>)
    requires LegalCapacity(capacity) && Blank(ctrl, capacity) && |keys| >= capacity && |values| >= capacity
    ensures t.ctrl == ctrl && t.keys == keys && t.values == values && t.capacity == capacity
    ensures forall k {:trigger t.home(k)} :: t.home(k) == HomeOf(hasher(k), seed, capacity)
    ensures forall k {:trigger t.tag(k)} :: t.tag(k) == H2(hasher(k))
    ensures t.Valid() && t.NoTombstones() && t.Contents() == map[] && Counts(t, 0, CapacityToGrowth(capacity))
  {
    t := Table(ctrl, capacity, keys, values, map[], k => HomeOf(hasher(k), seed, capacity), k => H2(hasher(k)));
    BlankValid(t);
  }

  /** The entries in the first `n` slots. */
  ghost function Prefix<K(!new), V>(t: Table<K, V>, n: nat): map<K, V>
    requires t.Shape() && t.Stored(false)
  {
    map k | k in t.slots && t.slots[k] < n :: t.values[t.slots[k]]
  }

  lemma PrefixStep<K(!new), V>(t: Table<K, V>, n: nat)
    requires t.Shape() && t.Stored(false) && n < t.capacity
    ensures !IsFull(t.ctrl[n]) ==> Prefix(t, n + 1) == Prefix(t, n)
    ensures IsFull(t.ctrl[n]) ==> t.keys[n] !in Prefix(t, n)
    ensures IsFull(t.ctrl[n]) ==> Prefix(t, n + 1) == Prefix(t, n)[t.keys[n] := t.values[n]]
  {
    assert IsFull(t.ctrl[n]) ==> t.Occupied(n, false);
  }

  lemma PrefixSize<K(!new), V>(t: Table<K, V>, n: nat)
    requires t.Shape() && t.Stored(false) && n < t.capacity
    ensures IsFull(t.ctrl[n]) ==> |Prefix(t, n)| < |t.slots|
  {
    if IsFull(t.ctrl[n]) {
      assert t.Occupied(n, false);
      assert Prefix(t, n).Keys <= t.slots.Keys - {t.keys[n]};
      SubsetSize(Prefix(t, n).Keys, t.slots.Keys - {t.keys[n]});
    }
  }

  /** A sequence of entries that lists a map: every entry once. */
  ghost predicate Enumerates<K, V>(entries: seq<(K, V)>, m: map<K, V>) {
    && (forall j | 0 <= j < |entries| :: entries[j].0 in m && m[entries[j].0] == entries[j].1)
    && (forall j, l | 0 <= j < l < |entries| :: entries[j].0 != entries[l].0)
    && (forall k | k in m :: exists j | 0 <= j < |entries| :: entries[j].0 == k)
  }

  lemma EnumeratesMore<K, V>(entries: seq<(K, V)>, m: map<K, V>, k: K, v: V)
    requires Enumerates(entries, m) && k !in m
    ensures Enumerates(entries + [(k, v)], m[k := v])
  {
    var more := entries + [(k, v)];
    assert more[|entries|] == (k, v);
    forall x | x in m ensures exists j | 0 <= j < |more| :: more[j].0 == x {
      var j :| 0 <= j < |entries| && entries[j].0 == x;
      assert more[j].0 == x;
    }
  }

  /** A stretch of slots without entries adds nothing. */
  lemma {:induction false} PrefixSkip<K(!new), V>(t: Table<K, V>, lo: nat, hi: nat)
    requires t.Shape() && t.Stored(false) && lo <= hi <= t.capacity
    requires forall i | lo <= i < hi :: !IsFull(t.ctrl[i])
    ensures Prefix(t, lo) == Prefix(t, hi)
    decreases hi - lo
  {
    if lo < hi {
      PrefixStep(t, lo);
      PrefixSkip(t, lo + 1, hi);
    }
  }

  /** Where an iterator may stand: on a full slot or at the end. */
  ghost predicate AtEntry<K(!new), V>(t: Table<K, V>, i: int) {
    t.Shape() && 0 <= i <= t.capacity && (i < t.capacity ==> IsFull(t.ctrl[i]))
  }

  ghost predicate NothingBetween<K(!new), V>(t: Table<K, V>, i: int, j: int) {
    -1 <= i && j <= |t.ctrl| && forall l | i < l < j :: !IsFull(t.ctrl[l])
  }

  lemma EntriesFirst<K(!new), V>(t: Table<K, V>, next: nat)
    requires t.Valid() && AtEntry(t, next) && NothingBetween(t, -1, next)
    ensures Enumerates([], Prefix(t, next))
  {
    PrefixAll(t);
    PrefixSkip(t, 0, next);
  }

  lemma EntriesNext<K(!new), V>(t: Table<K, V>, entries: seq<(K, V)>, i: nat, next: nat)
    requires t.Valid() && i < t.capacity && AtEntry(t, i) && AtEntry(t, next) && i < next && NothingBetween(t, i, next)
    requires Enumerates(entries, Prefix(t, i))
    ensures Enumerates(entries + [(t.keys[i], t.values[i])], Prefix(t, next))
  {
    PrefixStep(t, i);
    EnumeratesMore(entries, Prefix(t, i), t.keys[i], t.values[i]);
    PrefixSkip(t, i + 1, next);
  }

  lemma PrefixAll<K(!new), V>(t: Table<K, V>)
    requires t.Shape() && t.Stored(false)
    ensures Prefix(t, t.capacity) == t.Contents()
    ensures Prefix(t, 0) == map[]
  {}

  lemma ContentsSize<K(!new), V>(t: Table<K, V>)
    requires t.Shape() && t.Stored(false)
    ensures |t.Contents()| == |t.slots| && t.Contents().Keys == t.slots.Keys
  {
    assert t.Contents().Keys == t.slots.Keys;
  }

  /** While growth is left some slot is empty. */
  lemma RoomToPut<K(!new), V>(t: Table<K, V>)
    requires t.Valid() && t.GrowthLeft() > 0
    ensures exists i: nat :: i < t.capacity && t.ctrl[i] == EMPTY
  {
    UsedSize(t);
  }

  lemma Transferred<K(!new), V>(t: Table<K, V>, i: nat, k: K, v: V, p: nat) returns (d: Table<K, V>)
    requires t.Valid() && t.NoTombstones() && k !in t.slots && |t.slots| < CapacityToGrowth(t.capacity)
    requires IsSpot(t.ctrl, t.capacity, t.home(k), p, i)
    ensures i < t.capacity
    ensures d == t.(ctrl := SetCtrl(t.ctrl, t.capacity, i, t.tag(k)),
                    keys := t.keys[i := k], values := t.values[i := v], slots := t.slots[k := i])
    ensures d.Valid() && d.NoTombstones() && d.Contents() == t.Contents()[k := v]
  {
    UsedIsSlots(t, false);
    RoomToPut(t);
    d := Inserted(t, i, k, v, p, |t.slots|, t.GrowthLeft(), t.GrowthLeft() - 1);
  }

  lemma ResizeDone<K(!new), V>(t: Table<K, V>, d: Table<K, V>, size: int, growLeft: int)
    requires t.Valid() && |t.slots| == size
    requires d.Valid() && d.NoTombstones() && d.Contents() == Prefix(t, t.capacity)
    requires growLeft == CapacityToGrowth(d.capacity) - size
    ensures Counts(d, size, growLeft) && d.Contents() == t.Contents()
  {
    PrefixAll(t);
    ContentsSize(t);
    ContentsSize(d);
    UsedIsSlots(d, false);
  }

  /** Arrays of a capacity have room for more than `size` entries. */
  ghost predicate HasRoom(capacity: nat, size: int) {
    IsValidCapacity(capacity) && size < CapacityToGrowth(capacity)
  }

  /** A table that may not use another slot: small ones are full of entries, so only tables with
      more than seven slots can be at most half full, and doubling always leaves room. */
  lemma FullTable<K(!new), V>(t: Table<K, V>, capacity: nat, doubled: nat, size: int)
    requires t.Valid() && Counts(t, size, 0) && capacity == t.capacity && doubled == capacity * 2 + 1
    ensures capacity > 0 && size <= CapacityToGrowth(capacity) / 2 ==> capacity > 7 && size < CapacityToGrowth(capacity)
    ensures HasRoom(doubled, size) && (capacity == 0 ==> doubled == 1)
  {
    UsedCovers(t);
    Pow2Double(t.capacity + 1);
    if 0 < t.capacity <= 7 {
      UsedIsSlots(t, false);
    }
  }

  /** Unless growth is exhausted and the answer is no tombstone, it is a slot to write to. */
  lemma SpotIsTarget<K(!new), V>(t: Table<K, V>, k: K, i: nat, p: nat, growLeft: int)
    requires t.Valid() && IsSpot(t.ctrl, t.capacity, t.home(k), p, i)
    requires t.ctrl[i] == DELETED || growLeft != 0
    requires growLeft == t.GrowthLeft()
    ensures IsTarget(t, k, i, p)
    ensures t.ctrl[i] == DELETED || growLeft > 0
  {
    if growLeft > 0 {
      RoomToPut(t);
    }
  }

  lemma UsedCovers<K(!new), V>(t: Table<K, V>)
    requires t.Valid()
    ensures |t.slots| <= |t.Used()|
  {
    var image: set<int> := set k | k in t.slots :: t.slots[k];
    ImageSize(t.slots, t.slots.Keys);
    forall i | i in image ensures i in t.Used() {
      var k :| k in t.slots && t.slots[k] == i;
      assert t.Occupied(i, false);
    }
    assert (set k | k in t.slots.Keys :: t.slots[k] as int) == image;
    SubsetSize(image, t.Used());
  }
}
