/** The Swiss table itself: open addressing over an array of control bytes, changed in place. */
module SwissTable {
  import opened GroupBits
  import opened Probing
  import opened ProbeSequence
  import opened Windows
  import opened ProbeChains
  import opened SwissModel
  import opened Squeeze

  datatype InsertResult = Inserted | KeyExists

  class SwissTable<K(==, 0, !new), V(0)> {
    const hasher: K -> bv64

    var ctrl: array<bv8>
    var keys: array<K>
    var values: array<V>
    var size: nat
    var capacity: nat
    var growLeft: int
    var seed: bv64
    var endIdx: int

    /** The arrays as one value, with where each key is and how it is hashed. */
    ghost var view: Table<K, V>
    ghost var Repr: set<object>

    /** The arrays are different objects and hold what the view says, and the view's hash
        functions are those of this allocation. */
    ghost predicate InSync()
      reads `ctrl, `keys, `values, `view, `capacity, `seed, `Repr, ctrl, keys, values
    {
      && Repr == {ctrl as object, keys, values}
      && ctrl as object != keys && ctrl as object != values && keys as object != values
      && ctrl[..] == view.ctrl && keys[..] == view.keys && values[..] == view.values
      && capacity == view.capacity
      && (forall k {:trigger view.home(k)} :: view.home(k) == HomeOf(hasher(k), seed, capacity))
      && (forall k {:trigger view.tag(k)} :: view.tag(k) == H2(hasher(k)))
    }

    ghost predicate Counted()
      reads `size, `view, `growLeft, `endIdx, `capacity
    {
      Counts(view, size, growLeft) && endIdx == capacity
    }

    ghost predicate Valid()
      reads this, ctrl, keys, values
    {
      InSync() && view.Valid() && Counted()
    }

    /** The map the table stands for. */
    ghost function Contents(): map<K, V>
      requires view.Valid()
      reads `view
    {
      view.Contents()
    }

    method Hash(key: K) returns (h: nat, mark: bv8)
      requires InSync()
      ensures h == view.home(key) && mark == view.tag(key)
    {
      h := HomeOf(hasher(key), seed, capacity);
      mark := H2(hasher(key));
    }

    /** Compare the key with the reported slots of a group, in order. */
    method Compare(key: K, hits: seq<nat>) returns (found: bool, index: nat)
      requires forall k | 0 <= k < |hits| :: hits[k] < keys.Length
      ensures found ==> index in hits && keys[index] == key
      ensures !found ==> forall i | i in hits :: keys[i] != key
    {
      found, index := false, 0;
      for k := 0 to |hits|
        invariant forall l | 0 <= l < k :: keys[hits[l]] != key
      {
        index := hits[k];
        if keys[index] == key {
          return true, index;
        }
      }
    }

    /** The part of a lookup that happens in one group. */
    method SearchGroup(key: K, offset: nat, mark: bv8, ghost p: nat) returns (found: bool, index: nat)
      requires InSync() && view.Valid() && mark == view.tag(key)
      requires offset == Offset(capacity, view.home(key), p)
      ensures found ==> key in view.slots && index == view.slots[key]
      ensures !found && key in view.slots ==> !InProbe(capacity, view.home(key), p, view.slots[key])
    {
      var hits := CandidateSlots(ctrl, capacity, offset, mark);
      found, index := Compare(key, hits);
      assert key in view.slots ==> ctrl[..][view.slots[key]] == mark;
      if found {
        assert view.Occupied(index, false);
      }
    }

    /** One turn of the lookup loop: compare the candidates, then stop if the group holds an
        empty byte. */
    method ProbeGroup(key: K, offset: nat, mark: bv8, ghost p: nat)
        returns (found: bool, stop: bool, index: nat)
      requires InSync() && view.Valid() && mark == view.tag(key)
      requires offset == Offset(capacity, view.home(key), p) && Unseen(view, key, p)
      ensures found ==> key in view.slots && index == view.slots[key]
      ensures !found && stop ==> key !in view.slots
      ensures !found && !stop ==> Unseen(view, key, p + 1)
                                  && !HasEmpty(view.ctrl, capacity, view.home(key), p)
    {
      found, index := SearchGroup(key, offset, mark, p);
      stop := GroupHasEmpty(ctrl, capacity, offset);
      if !found && stop {
        LookupComplete(view, key, p);
      }
    }

    /** The lookup loop. It stops at the first group with an empty byte, which every round of
        probing has. */
    method FindIndex(key: K) returns (found: bool, index: nat)
      requires InSync() && view.Valid()
      ensures found <==> key in view.slots
      ensures found ==> index == view.slots[key]
    {
      var h, mark := Hash(key);
      GrowthLeavesEmpty(view);
      ghost var last := RoundHasEmpty(view.ctrl, capacity, h);
      FirstOffset(capacity, h);
      var offset, step := h, 0;
      ghost var p := 0;
      while true
        invariant offset == Offset(capacity, h, p) && step == WIDTH * p && p <= last
        invariant Unseen(view, key, p)
        decreases last - p
      {
        var stop;
        found, stop, index := ProbeGroup(key, offset, mark, p);
        if found || stop {
          return;
        }
        offset, step := Next(capacity, offset, step, h, p, last);
        p := p + 1;
      }
    }

    /** `findPointer`. */
    method FindPointer(key: K) returns (found: bool, index: nat)
      requires Valid()
      ensures found <==> key in Contents()
      ensures found ==> Points(view, key, index)
    {
      found, index := FindIndex(key);
    }

    /** Write an entry into a free slot, and the counts. */
    method Store(key: K, value: V, i: nat, newSize: nat, newGrowLeft: int, ghost d: Table<K, V>)
      requires InSync() && view.Shape() && i < capacity
      requires d == view.(ctrl := SetCtrl(view.ctrl, capacity, i, view.tag(key)),
                          keys := view.keys[i := key], values := view.values[i := value], slots := d.slots)
      modifies ctrl, keys, values, `view, `size, `growLeft
      ensures InSync() && view == d && size == newSize && growLeft == newGrowLeft
      ensures capacity == old(capacity) && endIdx == old(endIdx) && Repr == old(Repr)
    {
      var h, mark := Hash(key);
      keys[i] := key;
      values[i] := value;
      size, growLeft := newSize, newGrowLeft;
      StoreCtrl(ctrl, capacity, i, mark);
      view := d;
    }

    /** Change one control byte and the counts. */
    method Mark(i: nat, mark: bv8, newSize: nat, newGrowLeft: int, ghost d: Table<K, V>)
      requires InSync() && view.Shape() && i < capacity && IsCtrl(mark) && mark != SENTINEL
      requires d == view.(ctrl := SetCtrl(view.ctrl, capacity, i, mark), slots := d.slots)
      modifies ctrl, `view, `size, `growLeft
      ensures InSync() && view == d && size == newSize && growLeft == newGrowLeft
      ensures capacity == old(capacity) && endIdx == old(endIdx) && Repr == old(Repr)
    {
      size := newSize;
      StoreCtrl(ctrl, capacity, i, mark);
      growLeft := newGrowLeft;
      view := d;
    }

    // ---- squeezing out tombstones ----

    /** Move the entry of slot `i` to the empty slot `j`. */
    method MoveEntry(i: nat, j: nat, mark: bv8, ghost d: Table<K, V>)
      requires InSync() && view.Shape() && i < capacity && j < capacity && IsFull(mark)
      requires d == view.(ctrl := SetCtrl(SetCtrl(view.ctrl, capacity, j, mark), capacity, i, EMPTY),
                          keys := view.keys[j := view.keys[i]],
                          values := view.values[j := view.values[i]], slots := d.slots)
      modifies ctrl, keys, values, `view
      ensures InSync() && view == d && capacity == old(capacity)
      ensures size == old(size) && growLeft == old(growLeft) && endIdx == old(endIdx)
    {
      keys[j] := keys[i];
      values[j] := values[i];
      StoreCtrl(ctrl, capacity, j, mark);
      StoreCtrl(ctrl, capacity, i, EMPTY);
      view := d;
    }

    /** Exchange the entries of slots `i` and `j`; the one now in `j` is placed. */
    method SwapEntries(i: nat, j: nat, mark: bv8, ghost d: Table<K, V>)
      requires InSync() && view.Shape() && i < capacity && j < capacity && IsFull(mark)
      requires d == view.(ctrl := SetCtrl(view.ctrl, capacity, j, mark),
                          keys := view.keys[i := view.keys[j]][j := view.keys[i]],
                          values := view.values[i := view.values[j]][j := view.values[i]], slots := d.slots)
      modifies ctrl, keys, values, `view
      ensures InSync() && view == d && capacity == old(capacity)
      ensures size == old(size) && growLeft == old(growLeft) && endIdx == old(endIdx)
    {
      keys[i], keys[j] := keys[j], keys[i];
      values[i], values[j] := values[j], values[i];
      StoreCtrl(ctrl, capacity, j, mark);
      view := d;
    }

    /** One turn of the squeezing loop. Either one more entry is placed, or the slot is passed. */
    method PlaceEntry(i: nat) returns (next: nat)
      requires InSync() && Squeezing(view, i) && i < capacity
      modifies ctrl, keys, values, `view, `size, `growLeft
      ensures InSync() && Squeezing(view, next) && capacity == old(capacity)
      ensures size == old(size) && growLeft == old(growLeft) && endIdx == old(endIdx)
      ensures view.Contents() == old(view.Contents())
      ensures next <= i + 1
      ensures |Pending(view)| < old(|Pending(view)|) || (view == old(view) && next == i + 1)
    {
      next := i + 1;
      if ctrl[i] != DELETED {
        PassStep(view, i);
        return;
      }
      ghost var t := view;
      var h, mark := Hash(keys[i]);
      SqueezingHasEmpty(t, i);
      var j;
      ghost var p;
      j, p := FindFirstNonFull(ctrl, capacity, h);
      ghost var d;
      if ProbeIndex(capacity, h, j) == ProbeIndex(capacity, h, i) {
        d := Kept(t, i, j, p);
        Mark(i, mark, size, growLeft, d);
      } else if ctrl[j] == EMPTY {
        d := Moved(t, i, j, p);
        MoveEntry(i, j, mark, d);
      } else {
        d := Swapped(t, i, j, p);
        SwapEntries(i, j, mark, d);
        next := i;
      }
    }

    /** The squeezing loop. Turns that swap two entries repeat the same slot, but every turn places
        one more entry or passes a slot. */
    method PlaceEntries()
      requires InSync() && Squeezing(view, 0)
      modifies ctrl, keys, values, `view, `size, `growLeft
      ensures InSync() && Squeezing(view, capacity) && view.Contents() == old(view.Contents())
      ensures capacity == old(capacity) && endIdx == old(endIdx)
      ensures size == old(size) && growLeft == old(growLeft)
    {
      var i := 0;
      while i != capacity
        invariant InSync() && Squeezing(view, i) && view.Contents() == old(view.Contents())
        invariant capacity == old(capacity) && endIdx == old(endIdx)
        invariant size == old(size) && growLeft == old(growLeft)
        decreases |Pending(view)|, capacity - i
      {
        i := PlaceEntry(i);
      }
    }

    method SetCounts(newGrowLeft: int, newEndIdx: int)
      requires InSync()
      modifies `growLeft, `endIdx
      ensures InSync() && growLeft == newGrowLeft && endIdx == newEndIdx
      ensures view == old(view) && size == old(size) && capacity == old(capacity)
      ensures Repr == old(Repr)
    {
      growLeft, endIdx := newGrowLeft, newEndIdx;
    }

    /** Squeeze the tombstones out in place. */
    method DropDeletesWithoutResize()
      requires Valid() && capacity >= 7
      modifies ctrl, keys, values, `view, `size, `growLeft, `endIdx
      ensures Valid() && Contents() == old(Contents()) && capacity == old(capacity) && size == old(size)
      ensures view.NoTombstones() && growLeft == CapacityToGrowth(capacity) - size
    {
      ghost var t := view;
      ConvertMarks();
      PlaceEntries();
      SqueezeDone(t, view, size, growLeft);
      SetCounts(CapacityToGrowth(capacity) - size, endIdx);
    }

    method ConvertMarks()
      requires Valid() && capacity >= 7
      modifies ctrl, `view
      ensures InSync() && Squeezing(view, 0) && view.Contents() == old(view.Contents())
      ensures capacity == old(capacity) && endIdx == old(endIdx) && size == old(size) && growLeft == old(growLeft)
    {
      ghost var t := view;
      ConvertDeletedToEmptyAndFullToDeleted(ctrl, capacity);
      StartSqueeze(t, ctrl[..]);
      view := t.(ctrl := ctrl[..]);
    }

    // ---- growing ----

    /** New arrays with nothing in them, under a new seed. */
    method NewArrays(newCapacity: nat)
        returns (newCtrl: array<bv8>, newKeys: array<K>, newValues: array<V>, newSeed: bv64, ghost t: Table<K, V>)
      requires LegalCapacity(newCapacity)
      ensures fresh(newCtrl) && fresh(newKeys) && fresh(newValues)
      ensures newCtrl as object != newKeys && newCtrl as object != newValues && newKeys as object != newValues
      ensures newCtrl[..] == t.ctrl && newKeys[..] == t.keys && newValues[..] == t.values && t.capacity == newCapacity
      ensures forall k {:trigger t.home(k)} :: t.home(k) == HomeOf(hasher(k), newSeed, newCapacity)
      ensures forall k {:trigger t.tag(k)} :: t.tag(k) == H2(hasher(k))
      ensures t.Valid() && t.NoTombstones() && t.Contents() == map[] && Counts(t, 0, CapacityToGrowth(newCapacity))
    {
      var n := if newCapacity == 0 then 2 * WIDTH else newCapacity + WIDTH;
      newCtrl := new bv8[n](i => if i == newCapacity then SENTINEL else EMPTY);
      newKeys, newValues := new K[newCapacity + WIDTH], new V[newCapacity + WIDTH];
      newSeed := *;
      t := NewTable(newCtrl[..], newKeys[..], newValues[..], newCapacity, hasher, newSeed);
    }

    method Allocate(newCapacity: nat)
      requires LegalCapacity(newCapacity)
      modifies `ctrl, `keys, `values, `capacity, `seed, `view, `Repr
      ensures fresh(Repr) && InSync() && capacity == newCapacity
      ensures view.Valid() && view.NoTombstones() && view.Contents() == map[]
      ensures Counts(view, 0, CapacityToGrowth(newCapacity))
      ensures size == old(size) && growLeft == old(growLeft) && endIdx == old(endIdx)
      ensures old(ctrl)[..] == old(ctrl[..]) && old(keys)[..] == old(keys[..]) && old(values)[..] == old(values[..])
    {
      var newCtrl, newKeys, newValues, newSeed;
      ghost var t;
      newCtrl, newKeys, newValues, newSeed, t := NewArrays(newCapacity);
      ctrl, keys, values, capacity, seed, view := newCtrl, newKeys, newValues, newCapacity, newSeed, t;
      Repr := {newCtrl as object, newKeys, newValues};
    }

    /** Copy one entry of the old arrays. */
    method Transfer(key: K, value: V)
      requires InSync() && view.Valid() && view.NoTombstones()
      requires key !in view.slots && |view.slots| < CapacityToGrowth(capacity)
      modifies ctrl, keys, values, `view, `size, `growLeft
      ensures InSync() && view.Valid() && view.NoTombstones()
      ensures view.Contents() == old(view.Contents())[key := value]
      ensures capacity == old(capacity) && endIdx == old(endIdx) && size == old(size) && growLeft == old(growLeft)
    {
      var h, mark := Hash(key);
      GrowthLeavesEmpty(view);
      var i;
      ghost var p;
      i, p := FindFirstNonFull(ctrl, capacity, h);
      ghost var d := Transferred(view, i, key, value, p);
      Store(key, value, i, size, growLeft, d);
    }

    /** Copy slot `i` of the old arrays. */
    method TransferSlot(oldCtrl: array<bv8>, oldKeys: array<K>, oldValues: array<V>, i: nat, ghost t: Table<K, V>)
      requires t.Shape() && t.Stored(false) && |t.slots| <= CapacityToGrowth(capacity) && i < t.capacity
      requires oldCtrl[..] == t.ctrl && oldKeys[..] == t.keys && oldValues[..] == t.values
      requires InSync() && view.Valid() && view.NoTombstones() && view.Contents() == Prefix(t, i)
      requires {oldCtrl as object, oldKeys, oldValues} !! Repr && this !in {oldCtrl as object, oldKeys, oldValues}
      modifies ctrl, keys, values, `view, `size, `growLeft
      ensures InSync() && view.Valid() && view.NoTombstones() && view.Contents() == Prefix(t, i + 1)
      ensures capacity == old(capacity) && endIdx == old(endIdx) && size == old(size) && growLeft == old(growLeft)
      ensures oldCtrl[..] == t.ctrl && oldKeys[..] == t.keys && oldValues[..] == t.values
    {
      PrefixStep(t, i);
      if IsFull(oldCtrl[i]) {
        PrefixSize(t, i);
        ContentsSize(view);
        Transfer(oldKeys[i], oldValues[i]);
      }
    }

    /** Copy every entry of the old arrays. */
    method TransferAll(oldCtrl: array<bv8>, oldKeys: array<K>, oldValues: array<V>,
                       oldCapacity: nat, ghost t: Table<K, V>)
      requires t.capacity == oldCapacity && t.Shape() && t.Stored(false) && |t.slots| <= CapacityToGrowth(capacity)
      requires oldCtrl[..] == t.ctrl && oldKeys[..] == t.keys && oldValues[..] == t.values
      requires InSync() && view.Valid() && view.NoTombstones() && view.Contents() == map[]
      requires {oldCtrl as object, oldKeys, oldValues} !! Repr && this !in {oldCtrl as object, oldKeys, oldValues}
      modifies ctrl, keys, values, `view, `size, `growLeft
      ensures InSync() && view.Valid() && view.NoTombstones() && view.Contents() == Prefix(t, t.capacity)
      ensures Repr == old(Repr)
      ensures capacity == old(capacity) && endIdx == old(endIdx) && size == old(size) && growLeft == old(growLeft)
    {
      PrefixAll(t);
      for i := 0 to oldCapacity
        invariant InSync() && view.Valid() && view.NoTombstones() && view.Contents() == Prefix(t, i)
        invariant capacity == old(capacity) && endIdx == old(endIdx) && size == old(size) && growLeft == old(growLeft)
        invariant oldCtrl[..] == t.ctrl && oldKeys[..] == t.keys && oldValues[..] == t.values
      {
        TransferSlot(oldCtrl, oldKeys, oldValues, i, t);
      }
    }

    /** Move everything to arrays of another capacity. */
    method Resize(newCapacity: nat)
      requires Valid() && IsValidCapacity(newCapacity) && size <= CapacityToGrowth(newCapacity)
      modifies this
      ensures Valid() && fresh(Repr) && Contents() == old(Contents())
      ensures capacity == newCapacity && size == old(size)
      ensures view.NoTombstones() && growLeft == CapacityToGrowth(capacity) - size
    {
      ghost var t := view;
      var oldCtrl, oldKeys, oldValues, oldCapacity := ctrl, keys, values, capacity;
      Allocate(newCapacity);
      TransferAll(oldCtrl, oldKeys, oldValues, oldCapacity, t);
      ResizeDone(t, view, size, CapacityToGrowth(capacity) - size);
      SetCounts(CapacityToGrowth(capacity) - size, capacity);
    }

    /** Move to arrays with more room than there are entries. */
    method Enlarge(newCapacity: nat)
      requires Valid() && HasRoom(newCapacity, size)
      modifies this
      ensures Valid() && fresh(Repr) && Contents() == old(Contents()) && size == old(size) && growLeft > 0
      ensures capacity == newCapacity && view.NoTombstones()
    {
      Resize(newCapacity);
    }

    /** Make room: allocate for the first time, squeeze out tombstones if at most half of the
        allowed slots hold entries, and double otherwise. Only a table with more than seven slots,
        which is not small, ever takes the second way. */
    method RehashAndGrowIfNecessary()
      requires Valid() && growLeft == 0
      modifies this, Repr
      ensures Valid() && fresh(Repr - old(Repr)) && Contents() == old(Contents())
      ensures size == old(size) && growLeft > 0 && view.NoTombstones()
      ensures capacity == if old(capacity) == 0 then 1
                          else if old(size) <= CapacityToGrowth(old(capacity)) / 2 then old(capacity)
                          else 2 * old(capacity) + 1
    {
      var doubled := capacity * 2 + 1;
      FullTable(view, capacity, doubled, size);
      if capacity == 0 {
        Enlarge(1);
      } else if size <= CapacityToGrowth(capacity) / 2 {
        assert !IsSmall(capacity);
        DropDeletesWithoutResize();
      } else {
        Enlarge(doubled);
      }
    }

    /** The second half of an insertion: find a slot for a key that is not stored, making room
        first if there is none. */
    method PrepareInsert(key: K) returns (i: nat, ghost p: nat)
      requires Valid() && key !in view.slots
      modifies this, Repr
      ensures old(growLeft) > 0 ==> view == old(view) && Repr == old(Repr)
      ensures Valid() && fresh(Repr - old(Repr)) && Contents() == old(Contents())
      ensures key !in view.slots && IsTarget(view, key, i, p)
      ensures view.ctrl[i] == DELETED || growLeft > 0
    {
      i, p := Probe(key);
      if growLeft == 0 && ctrl[i] != DELETED {
        ContentsSize(view);
        RehashAndGrowIfNecessary();
        ContentsSize(view);
        i, p := Probe(key);
      }
      SpotIsTarget(view, key, i, p, growLeft);
    }

    method Probe(key: K) returns (i: nat, ghost p: nat)
      requires InSync() && view.Valid()
      ensures IsSpot(view.ctrl, capacity, view.home(key), p, i)
    {
      var h, mark := Hash(key);
      GrowthLeavesEmpty(view);
      i, p := FindFirstNonFull(ctrl, capacity, h);
    }

    /** Write a new entry. */
    method StoreNew(key: K, value: V, i: nat, left: int, ghost d: Table<K, V>)
      requires Valid() && i < capacity && d.Valid() && Counts(d, size + 1, left)
      requires d == view.(ctrl := SetCtrl(view.ctrl, capacity, i, view.tag(key)),
                          keys := view.keys[i := key], values := view.values[i := value], slots := d.slots)
      modifies ctrl, keys, values, `view, `size, `growLeft
      ensures Valid() && view == d
    {
      Store(key, value, i, size + 1, left, d);
    }

    /** The writes that end an insertion. */
    method InsertAt(key: K, value: V, i: nat, ghost p: nat)
      requires Valid() && key !in view.slots && IsTarget(view, key, i, p)
      requires view.ctrl[i] == DELETED || growLeft > 0
      modifies ctrl, keys, values, `view, `size, `growLeft
      ensures Valid() && Contents() == old(Contents())[key := value]
      ensures key in view.slots && i == view.slots[key] && Repr == old(Repr)
    {
      var left := growLeft - if ctrl[i] == EMPTY then 1 else 0;
      ghost var d := SwissModel.Inserted(view, i, key, value, p, size, growLeft, left);
      StoreNew(key, value, i, left, d);
    }

    /** Insert a key that is not stored; `index` is where it now is. */
    method InsertNew(key: K, value: V) returns (index: nat)
      requires Valid() && key !in Contents()
      modifies this, Repr
      ensures Valid() && fresh(Repr - old(Repr))
      ensures Contents() == old(Contents())[key := value] && Points(view, key, index)
      ensures old(growLeft) > 0 ==> Repr == old(Repr)
    {
      ContentsSize(view);
      ghost var p;
      index, p := PrepareInsert(key);
      InsertAt(key, value, index, p);
    }

    /** Insert unless the key is stored; either way `index` is where the key now is. */
    method Insert(key: K, value: V) returns (r: InsertResult, index: nat)
      requires Valid()
      modifies this, Repr
      ensures Valid() && fresh(Repr - old(Repr))
      ensures r == if key in old(Contents()) then KeyExists else Inserted
      ensures Contents() == if key in old(Contents()) then old(Contents()) else old(Contents())[key := value]
      ensures Points(view, key, index)
      ensures old(growLeft) > 0 || key in old(Contents()) ==> Repr == old(Repr)
    {
      var found;
      found, index := FindPointer(key);
      if found {
        r := KeyExists;
      } else {
        r := Inserted;
        index := InsertNew(key, value);
      }
    }

    method Erase(key: K) returns (erased: bool)
      requires Valid()
      modifies ctrl, `view, `size, `growLeft
      ensures Valid() && Repr == old(Repr)
      ensures erased <==> key in old(Contents())
      ensures Contents() == old(Contents()) - {key}
      ensures capacity == old(capacity) && size == old(size) - if erased then 1 else 0
      ensures key in old(view.slots) ==> old(view.slots[key]) < old(capacity) && old(view.Shape())
      ensures erased ==>
                growLeft == old(growLeft) + if old(EverySees(view.ctrl, capacity, view.slots[key])) then 1 else 0
    {
      var i;
      erased, i := FindIndex(key);
      if erased {
        GrowthLeavesEmpty(view);
        var neverFull := NeverFull(ctrl, capacity, i);
        var left := growLeft + if neverFull then 1 else 0;
        ghost var d := Removed(view, key, neverFull, size, growLeft, left);
        Mark(i, FreeMark(neverFull), size - 1, left, d);
      } else {
        RemoveAbsent(view, key);
      }
    }

    /** Write through the pointer that `findPointer` or an insertion handed out. */
    method SetValueAt(key: K, index: nat, value: V)
      requires Valid() && Points(view, key, index)
      modifies values, `view
      ensures Valid() && Repr == old(Repr) && Contents() == old(Contents())[key := value]
    {
      ghost var d := Written(view, key, value, size, growLeft);
      values[index] := value;
      view := d;
    }

    /** Read through such a pointer. */
    method ValueAt(key: K, index: nat) returns (value: V)
      requires Valid() && Points(view, key, index)
      ensures key in Contents() && value == Contents()[key]
    {
      value := values[index];
    }

    method NextEntry(start: int) returns (idx: int)
      requires Valid() && -1 <= start <= capacity
      ensures AtEntry(view, idx) && NothingBetween(view, start, idx) && capacity == view.capacity
      ensures start < capacity ==> start < idx
    {
      idx := NextFull(ctrl, start, capacity, view.ctrl);
    }

    /** Back to the shared empty group, with no slots. */
    method Clear()
      requires Valid()
      modifies this
      ensures Valid() && fresh(Repr) && Contents() == map[] && capacity == 0 && size == 0
    {
      Reset();
    }

    method Reset()
      modifies this
      ensures Valid() && fresh(Repr) && Contents() == map[] && capacity == 0 && size == 0
    {
      size := 0;
      Allocate(0);
      SetCounts(0, 0);
    }

    constructor (hasher: K -> bv64)
      ensures Valid() && fresh(Repr) && Contents() == map[] && capacity == 0 && size == 0
      ensures this.hasher == hasher
    {
      this.hasher := hasher;
      var c, ks, vs := new bv8[0], new K[0], new V[0];
      ctrl, keys, values := c, ks, vs;
      new;
      Reset();
    }
  }

  /** The iterator of a table: the index of a full slot, or the capacity at the end. */
  class SwissIterator<K(==, 0, !new), V(0)> {
    var idx: int
    const end: int
    const impl: SwissTable<K, V>

    ghost predicate Valid()
      reads `idx, impl`view
    {
      end == impl.view.capacity && AtEntry(impl.view, idx)
    }

    /** `begin`: before the first slot, then on to the first full one. */
    constructor (impl: SwissTable<K, V>)
      requires impl.Valid()
      ensures this.impl == impl && Valid() && NothingBetween(impl.view, -1, idx)
    {
      this.impl := impl;
      idx, end := -1, impl.capacity;
      new;
      Advance();
    }

    /** Forward to the next full slot. */
    method Advance()
      requires impl.Valid() && end == impl.capacity && -1 <= idx <= end
      modifies `idx
      ensures Valid() && NothingBetween(impl.view, old(idx), idx)
      ensures old(idx) < end ==> old(idx) < idx
    {
      var next := impl.NextEntry(idx);
      idx := next;
    }
  }

  /** A run of the iterator from `begin` to `end` yields every entry once. */
  method Entries<K(==, 0, !new), V(0)>(table: SwissTable<K, V>) returns (entries: seq<(K, V)>)
    requires table.Valid()
    ensures Enumerates(entries, table.Contents())
  {
    var it := new SwissIterator(table);
    ghost var t := table.view;
    entries := [];
    EntriesFirst(t, it.idx);
    while it.idx != table.endIdx
      invariant it.impl == table && it.Valid() && table.view == t && table.Valid()
      invariant Enumerates(entries, Prefix(t, it.idx))
      decreases it.end - it.idx
    {
      var i := it.idx;
      var entry := (table.keys[i], table.values[i]);
      it.Advance();
      EntriesNext(t, entries, i, it.idx);
      entries := entries + [entry];
    }
    PrefixAll(t);
  }
}
