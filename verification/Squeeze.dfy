/** Squeezing tombstones out in place: deleted marks become empty, full ones are marked deleted
    until they are placed again. */
module Squeeze {
  import opened GroupBits
  import opened ProbeSequence
  import opened Windows
  import opened ProbeChains
  import opened SwissModel

  /** Slot `i` of key `k` is where an insertion would put it: no window before its own has room. */
  ghost predicate Placed<K(!new), V>(t: Table<K, V>, k: K, i: nat)
    requires t.Shape() && i < t.capacity
  {
    exists p: nat :: p < Groups(t.capacity) && InProbe(t.capacity, t.home(k), p, i)
                     && Crowded(t.ctrl, t.capacity, t.home(k), p)
  }

  /** Every entry already placed is under its own tag and well placed. */
  ghost predicate PlacedAll<K(!new), V>(t: Table<K, V>)
    requires t.Shape() && t.Stored(true)
  {
    forall k | k in t.slots && IsFull(t.ctrl[t.slots[k]]) ::
      t.ctrl[t.slots[k]] == t.tag(k) && Placed(t, k, t.slots[k])
  }

  /** What every turn of the squeezing loop keeps, when the slots below `i` are done. */
  ghost predicate Squeezing<K(!new), V>(t: Table<K, V>, i: nat) {
    && t.Shape() && t.Stored(true) && PlacedAll(t)
    && i <= t.capacity && t.capacity >= 7
    && (forall j | 0 <= j < i :: t.ctrl[j] != DELETED)
    && |t.slots| <= CapacityToGrowth(t.capacity)
  }

  /** The entries still to be placed. */
  ghost function Pending<K(!new), V>(t: Table<K, V>): set<int>
    requires t.Shape()
  {
    set i | 0 <= i < t.capacity && t.ctrl[i] == DELETED
  }

  /** The conversion starts the loop off. */
  lemma StartSqueeze<K(!new), V>(t: Table<K, V>, d: seq<bv8>)
    requires t.Valid() && t.capacity >= 7 && Marked(t.ctrl, t.capacity, d)
    ensures Squeezing(t.(ctrl := d), 0)
    ensures t.(ctrl := d).Contents() == t.Contents()
  {
    var u := t.(ctrl := d);
    forall i: nat | i < u.capacity && u.Occupied(i, true)
      ensures u.keys[i] in u.slots && u.slots[u.keys[i]] == i
    {
      assert t.Occupied(i, false);
    }
    UsedCovers(t);
  }

  /** While entries are pending an insertion probe still meets a free slot. */
  lemma SqueezingHasEmpty<K(!new), V>(t: Table<K, V>, i: nat)
    requires Squeezing(t, i)
    ensures SomeEmpty(t.ctrl, t.capacity)
  {
    UsedIsSlots(t, true);
    UsedSize(t);
  }

  // ---- one turn of the loop, for the pending entry at slot i ----

  /** The entry stays: it is already in the first group with room. */
  ghost function Keep<K(!new), V>(t: Table<K, V>, i: nat): Table<K, V>
    requires t.Shape() && i < t.capacity
  {
    t.(ctrl := SetCtrl(t.ctrl, t.capacity, i, t.tag(t.keys[i])))
  }

  /** The entry moves to an empty slot `j`. */
  ghost function Move<K(!new), V>(t: Table<K, V>, i: nat, j: nat): Table<K, V>
    requires t.Shape() && i < t.capacity && j < t.capacity
  {
    var k := t.keys[i];
    t.(ctrl := SetCtrl(SetCtrl(t.ctrl, t.capacity, j, t.tag(k)), t.capacity, i, EMPTY),
       keys := t.keys[j := k], values := t.values[j := t.values[i]], slots := t.slots[k := j])
  }

  /** The entry changes places with the pending entry at slot `j`. */
  ghost function Swap<K(!new), V>(t: Table<K, V>, i: nat, j: nat): Table<K, V>
    requires t.Shape() && i < t.capacity && j < t.capacity
  {
    var k, l := t.keys[i], t.keys[j];
    t.(ctrl := SetCtrl(t.ctrl, t.capacity, j, t.tag(k)),
       keys := t.keys[i := l][j := k],
       values := t.values[i := t.values[j]][j := t.values[i]],
       slots := t.slots[k := j][l := i])
  }

  lemma CrowdedFill<K(!new), V>(t: Table<K, V>, j: nat, h: bv8, k: K, i: nat)
    requires t.Shape() && i < t.capacity && j < t.capacity && IsFull(h) && Placed(t, k, i)
    ensures t.(ctrl := SetCtrl(t.ctrl, t.capacity, j, h)).Shape()
    ensures Placed(t.(ctrl := SetCtrl(t.ctrl, t.capacity, j, h)), k, i)
  {
    var p: nat :| p < Groups(t.capacity) && InProbe(t.capacity, t.home(k), p, i)
                  && Crowded(t.ctrl, t.capacity, t.home(k), p);
    FillKeeps(t.ctrl, t.capacity, j, h, t.home(k), p);
  }

  lemma CrowdedRemark<K(!new), V>(t: Table<K, V>, j: nat, k: K, i: nat)
    requires t.Shape() && i < t.capacity && j < t.capacity && IsFree(t.ctrl[j]) && Placed(t, k, i)
    ensures t.(ctrl := SetCtrl(t.ctrl, t.capacity, j, EMPTY)).Shape()
    ensures Placed(t.(ctrl := SetCtrl(t.ctrl, t.capacity, j, EMPTY)), k, i)
  {
    var p: nat :| p < Groups(t.capacity) && InProbe(t.capacity, t.home(k), p, i)
                  && Crowded(t.ctrl, t.capacity, t.home(k), p);
    RemarkKeeps(t.ctrl, t.capacity, j, EMPTY, t.home(k), p);
  }

  /** The slot the probe found shares its group with slot `i`, so `i` is as good. */
  lemma SameGroup<K(!new), V>(t: Table<K, V>, k: K, i: nat, j: nat, p: nat)
    requires t.Shape() && i < t.capacity && IsTarget(t, k, j, p)
    requires ProbeIndex(t.capacity, t.home(k), i) == ProbeIndex(t.capacity, t.home(k), j)
    ensures Placed(t, k, i)
  {
    ProbeIsGroup(t.capacity, t.home(k), p, i);
    ProbeIsGroup(t.capacity, t.home(k), p, j);
  }

  lemma KeepStep<K(!new), V>(t: Table<K, V>, i: nat)
    requires Squeezing(t, i) && i < t.capacity && t.ctrl[i] == DELETED
    requires Placed(t, t.keys[i], i)
    ensures Squeezing(Keep(t, i), i + 1)
    ensures Keep(t, i).Contents() == t.Contents()
    ensures Pending(Keep(t, i)) == Pending(t) - {i as int}
  {
    KeepPlaced(t, i);
    assert IsFull(t.tag(t.keys[i]));
    TurnDone(t, i, Keep(t, i), i + 1);
  }

  lemma KeepPlaced<K(!new), V>(t: Table<K, V>, i: nat)
    requires t.Shape() && t.Stored(true) && PlacedAll(t)
    requires i < t.capacity && t.ctrl[i] == DELETED && Placed(t, t.keys[i], i)
    ensures Keep(t, i).Shape() && Keep(t, i).Stored(true) && PlacedAll(Keep(t, i))
  {
    var d, k := Keep(t, i), t.keys[i];
    assert t.Occupied(i, true);
    forall j: nat | j < d.capacity && d.Occupied(j, true)
      ensures d.keys[j] in d.slots && d.slots[d.keys[j]] == j
    {
      assert t.Occupied(j, true);
    }
    forall x | x in d.slots && IsFull(d.ctrl[d.slots[x]])
      ensures d.ctrl[d.slots[x]] == d.tag(x) && Placed(d, x, d.slots[x])
    {
      CrowdedFill(t, i, t.tag(k), x, t.slots[x]);
    }
  }

  lemma SameContents<K(!new), V>(t: Table<K, V>, d: Table<K, V>)
    requires t.Shape() && t.Stored(true) && d.Shape() && d.Stored(true)
    requires d.slots.Keys == t.slots.Keys
    requires forall x | x in t.slots :: d.values[d.slots[x]] == t.values[t.slots[x]]
    ensures d.Contents() == t.Contents()
  {}

  lemma KeysSize<K, V>(m: map<K, V>, n: map<K, V>)
    requires m.Keys == n.Keys
    ensures |m| == |n|
  {}

  lemma MoveMarks<K(!new), V>(t: Table<K, V>, i: nat, j: nat)
    requires t.Shape() && i < t.capacity && j < t.capacity
    requires t.ctrl[i] == DELETED && t.ctrl[j] == EMPTY
    ensures Move(t, i, j).Shape()
    ensures forall l | 0 <= l < t.capacity ::
              Move(t, i, j).ctrl[l] == if l == i then EMPTY else if l == j then t.tag(t.keys[i]) else t.ctrl[l]
  {}

  lemma MovePending<K(!new), V>(t: Table<K, V>, i: nat, j: nat)
    requires t.Shape() && i < t.capacity && j < t.capacity
    requires t.ctrl[i] == DELETED && t.ctrl[j] == EMPTY
    requires forall l | 0 <= l < i :: t.ctrl[l] != DELETED
    ensures Move(t, i, j).Shape()
    ensures Pending(Move(t, i, j)) == Pending(t) - {i as int}
    ensures forall l | 0 <= l < i + 1 :: Move(t, i, j).ctrl[l] != DELETED
  {
    MoveMarks(t, i, j);
    assert IsFull(t.tag(t.keys[i]));
  }

  lemma MoveStored<K(!new), V>(t: Table<K, V>, i: nat, j: nat)
    requires t.Shape() && t.Stored(true) && i < t.capacity && j < t.capacity
    requires t.ctrl[i] == DELETED && t.ctrl[j] == EMPTY
    ensures Move(t, i, j).Shape() && Move(t, i, j).Stored(true)
  {
    var d := Move(t, i, j);
    MoveMarks(t, i, j);
    assert t.Occupied(i, true) && d.Occupied(j, true);
    forall l: nat | l < d.capacity && d.Occupied(l, true)
      ensures d.keys[l] in d.slots && d.slots[d.keys[l]] == l
    {
      assert l == j || t.Occupied(l, true);
    }
    forall x | x in d.slots
      ensures d.slots[x] < d.capacity && d.Occupied(d.slots[x], true) && d.keys[d.slots[x]] == x
    {
      assert t.Occupied(t.slots[x], true);
    }
  }

  lemma MoveContents<K(!new), V>(t: Table<K, V>, i: nat, j: nat)
    requires t.Shape() && t.Stored(true) && i < t.capacity && j < t.capacity
    requires t.ctrl[i] == DELETED && t.ctrl[j] == EMPTY
    ensures Move(t, i, j).Shape() && Move(t, i, j).Stored(true)
    ensures Move(t, i, j).Contents() == t.Contents()
    ensures Move(t, i, j).slots.Keys == t.slots.Keys
  {
    var d := Move(t, i, j);
    MoveStored(t, i, j);
    assert t.Occupied(i, true);
    assert d.slots.Keys == t.slots.Keys;
    forall x | x in t.slots ensures d.values[d.slots[x]] == t.values[t.slots[x]] {
      assert t.keys[t.slots[x]] == x;
    }
    SameContents(t, d);
  }

  lemma MovePlaced<K(!new), V>(t: Table<K, V>, i: nat, j: nat)
    requires t.Shape() && t.Stored(true) && PlacedAll(t) && i < t.capacity && j < t.capacity
    requires t.ctrl[i] == DELETED && t.ctrl[j] == EMPTY && Placed(t, t.keys[i], j)
    ensures var d := Move(t, i, j); d.Shape() && d.Stored(true) && PlacedAll(d)
  {
    MoveStored(t, i, j);
    var d, k := Move(t, i, j), t.keys[i];
    assert t.Occupied(i, true);
    var mid := t.(ctrl := SetCtrl(t.ctrl, t.capacity, j, t.tag(k)));
    forall x | x in d.slots && IsFull(d.ctrl[d.slots[x]])
      ensures d.ctrl[d.slots[x]] == d.tag(x) && Placed(d, x, d.slots[x])
    {
      CrowdedFill(t, j, t.tag(k), x, d.slots[x]);
      CrowdedRemark(mid, i, x, d.slots[x]);
      assert Placed(mid.(ctrl := d.ctrl), x, d.slots[x]);
    }
  }

  /** What is left of a turn once the entries and their places are known to be kept. */
  lemma TurnDone<K(!new), V>(t: Table<K, V>, i: nat, d: Table<K, V>, next: nat)
    requires Squeezing(t, i) && d.Shape() && d.Stored(true) && PlacedAll(d)
    requires d.capacity == t.capacity && d.slots.Keys == t.slots.Keys && next <= d.capacity
    requires forall j | 0 <= j < next :: d.ctrl[j] != DELETED
    ensures Squeezing(d, next)
  {
    KeysSize(t.slots, d.slots);
  }

  lemma MoveStep<K(!new), V>(t: Table<K, V>, i: nat, j: nat)
    requires Squeezing(t, i) && i < t.capacity && j < t.capacity
    requires t.ctrl[i] == DELETED && t.ctrl[j] == EMPTY && Placed(t, t.keys[i], j)
    ensures Squeezing(Move(t, i, j), i + 1)
    ensures Move(t, i, j).Contents() == t.Contents()
    ensures Pending(Move(t, i, j)) == Pending(t) - {i as int}
  {
    MoveContents(t, i, j);
    MovePlaced(t, i, j);
    MovePending(t, i, j);
    TurnDone(t, i, Move(t, i, j), i + 1);
  }

  lemma SwapMarks<K(!new), V>(t: Table<K, V>, i: nat, j: nat)
    requires t.Shape() && i < t.capacity && j < t.capacity && i != j
    requires t.ctrl[i] == DELETED && t.ctrl[j] == DELETED
    ensures Swap(t, i, j).Shape()
    ensures forall l | 0 <= l < t.capacity ::
              Swap(t, i, j).ctrl[l] == if l == j then t.tag(t.keys[i]) else t.ctrl[l]
    ensures Pending(Swap(t, i, j)) == Pending(t) - {j as int}
    ensures forall l | 0 <= l < i && t.ctrl[l] != DELETED :: Swap(t, i, j).ctrl[l] != DELETED
  {
    assert IsFull(t.tag(t.keys[i]));
  }

  lemma SwapStored<K(!new), V>(t: Table<K, V>, i: nat, j: nat)
    requires t.Shape() && t.Stored(true) && i < t.capacity && j < t.capacity && i != j
    requires t.ctrl[i] == DELETED && t.ctrl[j] == DELETED
    ensures Swap(t, i, j).Shape() && Swap(t, i, j).Stored(true)
  {
    var d := Swap(t, i, j);
    SwapMarks(t, i, j);
    assert t.Occupied(i, true) && d.Occupied(j, true);
    forall l: nat | l < d.capacity && d.Occupied(l, true)
      ensures d.keys[l] in d.slots && d.slots[d.keys[l]] == l
    {
      assert l == j || t.Occupied(l, true);
    }
    forall x | x in d.slots
      ensures d.slots[x] < d.capacity && d.Occupied(d.slots[x], true) && d.keys[d.slots[x]] == x
    {
      assert t.Occupied(t.slots[x], true);
    }
  }

  lemma SwapContents<K(!new), V>(t: Table<K, V>, i: nat, j: nat)
    requires t.Shape() && t.Stored(true) && i < t.capacity && j < t.capacity && i != j
    requires t.ctrl[i] == DELETED && t.ctrl[j] == DELETED
    ensures Swap(t, i, j).Shape() && Swap(t, i, j).Stored(true)
    ensures Swap(t, i, j).Contents() == t.Contents()
    ensures Swap(t, i, j).slots.Keys == t.slots.Keys
  {
    var d := Swap(t, i, j);
    SwapStored(t, i, j);
    assert t.Occupied(i, true);
    assert d.slots.Keys == t.slots.Keys;
    forall x | x in t.slots ensures d.values[d.slots[x]] == t.values[t.slots[x]] {
      assert t.keys[t.slots[x]] == x;
    }
    SameContents(t, d);
  }

  lemma SwapPlaced<K(!new), V>(t: Table<K, V>, i: nat, j: nat)
    requires t.Shape() && t.Stored(true) && PlacedAll(t) && i < t.capacity && j < t.capacity && i != j
    requires t.ctrl[i] == DELETED && t.ctrl[j] == DELETED && Placed(t, t.keys[i], j)
    ensures var d := Swap(t, i, j); d.Shape() && d.Stored(true) && PlacedAll(d)
  {
    SwapStored(t, i, j);
    var d, k := Swap(t, i, j), t.keys[i];
    assert t.Occupied(i, true) && t.Occupied(j, true);
    forall x | x in d.slots && IsFull(d.ctrl[d.slots[x]])
      ensures d.ctrl[d.slots[x]] == d.tag(x) && Placed(d, x, d.slots[x])
    {
      CrowdedFill(t, j, t.tag(k), x, d.slots[x]);
      assert Placed(t.(ctrl := d.ctrl), x, d.slots[x]);
    }
  }

  lemma SwapStep<K(!new), V>(t: Table<K, V>, i: nat, j: nat)
    requires Squeezing(t, i) && i < t.capacity && j < t.capacity && i != j
    requires t.ctrl[i] == DELETED && t.ctrl[j] == DELETED && Placed(t, t.keys[i], j)
    ensures Squeezing(Swap(t, i, j), i)
    ensures Swap(t, i, j).Contents() == t.Contents()
    ensures Pending(Swap(t, i, j)) == Pending(t) - {j as int}
  {
    SwapContents(t, i, j);
    SwapPlaced(t, i, j);
    SwapMarks(t, i, j);
    TurnDone(t, i, Swap(t, i, j), i);
  }

  /** When every slot is done the table is valid, holds no tombstone, and its growth is what the
      number of entries leaves. */
  lemma EndSqueeze<K(!new), V>(t: Table<K, V>)
    requires Squeezing(t, t.capacity)
    ensures t.Valid() && t.NoTombstones()
    ensures t.GrowthLeft() == CapacityToGrowth(t.capacity) - |t.slots|
  {
    forall i: nat | i < t.capacity ensures t.Occupied(i, false) == t.Occupied(i, true) {}
    forall k | k in t.slots
      ensures t.ctrl[t.slots[k]] == t.tag(k) && Findable(t.ctrl, t.capacity, t.home(k), t.slots[k])
    {
      var p: nat :| p < Groups(t.capacity) && InProbe(t.capacity, t.home(k), p, t.slots[k])
                    && Crowded(t.ctrl, t.capacity, t.home(k), p);
      CrowdedUnbroken(t.ctrl, t.capacity, t.home(k), p);
    }
    UsedIsSlots(t, false);
  }

  // ---- the three outcomes of a turn, as what the loop needs of them ----

  lemma PassStep<K(!new), V>(t: Table<K, V>, i: nat)
    requires Squeezing(t, i) && i < t.capacity && t.ctrl[i] != DELETED
    ensures Squeezing(t, i + 1)
  {}

  /** The answer of the insertion probe for the pending entry in slot `i`. */
  ghost predicate Answer<K(!new), V>(t: Table<K, V>, i: nat, j: nat, p: nat) {
    && Squeezing(t, i) && i < t.capacity && t.ctrl[i] == DELETED
    && IsSpot(t.ctrl, t.capacity, t.home(t.keys[i]), p, j)
  }

  ghost predicate SameProbeIndex<K(!new), V>(t: Table<K, V>, i: nat, j: nat)
    requires i < |t.keys|
  {
    ProbeIndex(t.capacity, t.home(t.keys[i]), j) == ProbeIndex(t.capacity, t.home(t.keys[i]), i)
  }

  lemma Kept<K(!new), V>(t: Table<K, V>, i: nat, j: nat, p: nat) returns (d: Table<K, V>)
    requires Answer(t, i, j, p) && SameProbeIndex(t, i, j)
    ensures d == t.(ctrl := SetCtrl(t.ctrl, t.capacity, i, t.tag(t.keys[i])), slots := d.slots)
    ensures Squeezing(d, i + 1) && d.Contents() == t.Contents() && |Pending(d)| < |Pending(t)|
  {
    SameGroup(t, t.keys[i], i, j, p);
    d := Keep(t, i);
    KeepStep(t, i);
    assert i as int in Pending(t);
  }

  lemma Moved<K(!new), V>(t: Table<K, V>, i: nat, j: nat, p: nat) returns (d: Table<K, V>)
    requires Answer(t, i, j, p) && t.ctrl[j] == EMPTY
    ensures d == t.(ctrl := SetCtrl(SetCtrl(t.ctrl, t.capacity, j, t.tag(t.keys[i])), t.capacity, i, EMPTY),
                    keys := t.keys[j := t.keys[i]], values := t.values[j := t.values[i]], slots := d.slots)
    ensures Squeezing(d, i + 1) && d.Contents() == t.Contents() && |Pending(d)| < |Pending(t)|
  {
    assert Placed(t, t.keys[i], j);
    d := Move(t, i, j);
    MoveStep(t, i, j);
    assert i as int in Pending(t);
  }

  lemma Swapped<K(!new), V>(t: Table<K, V>, i: nat, j: nat, p: nat) returns (d: Table<K, V>)
    requires Answer(t, i, j, p) && t.ctrl[j] != EMPTY && !SameProbeIndex(t, i, j)
    ensures d == t.(ctrl := SetCtrl(t.ctrl, t.capacity, j, t.tag(t.keys[i])),
                    keys := t.keys[i := t.keys[j]][j := t.keys[i]],
                    values := t.values[i := t.values[j]][j := t.values[i]], slots := d.slots)
    ensures Squeezing(d, i) && d.Contents() == t.Contents() && |Pending(d)| < |Pending(t)|
  {
    assert Placed(t, t.keys[i], j);
    d := Swap(t, i, j);
    SwapStep(t, i, j);
    assert j as int in Pending(t);
  }

  /** The end of the loop, with the counts of the table it started from. */
  lemma SqueezeDone<K(!new), V>(t: Table<K, V>, d: Table<K, V>, size: int, growLeft: int)
    requires t.Valid() && Counts(t, size, growLeft)
    requires Squeezing(d, d.capacity) && d.Contents() == t.Contents()
    ensures d.Valid() && d.NoTombstones() && Counts(d, size, CapacityToGrowth(d.capacity) - size)
  {
    EndSqueeze(d);
    ContentsSize(t);
    ContentsSize(d);
  }
}
