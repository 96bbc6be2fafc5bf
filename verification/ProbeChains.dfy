/** Chains of windows that are searched before a key's own window, and what changing one control
    byte does to them. */
module ProbeChains {
  import opened GroupBits
  import opened ProbeSequence
  import opened Windows

  ghost predicate HasEmpty(c: seq<bv8>, capacity: nat, home: nat, p: nat)
    requires Layout(c, capacity)
  {
    EMPTY in Window(c, Offset(capacity, home, p))
  }

  ghost predicate HasFree(c: seq<bv8>, capacity: nat, home: nat, p: nat)
    requires Layout(c, capacity)
  {
    exists b | b in Window(c, Offset(capacity, home, p)) :: IsFree(b)
  }

  /** A lookup does not stop before probe `p`. */
  ghost predicate Unbroken(c: seq<bv8>, capacity: nat, home: nat, p: nat)
    requires Layout(c, capacity)
  {
    forall q: nat | q < p :: !HasEmpty(c, capacity, home, q)
  }

  /** An insertion does not stop before probe `p`. */
  ghost predicate Crowded(c: seq<bv8>, capacity: nat, home: nat, p: nat)
    requires Layout(c, capacity)
  {
    forall q: nat | q < p :: !HasFree(c, capacity, home, q)
  }

  /** A lookup for a key whose first probe is at `home` reaches slot `i`. */
  ghost predicate Findable(c: seq<bv8>, capacity: nat, home: nat, i: nat)
    requires Layout(c, capacity) && i < capacity
  {
    exists p: nat :: p < Groups(capacity) && InProbe(capacity, home, p, i) && Unbroken(c, capacity, home, p)
  }

  lemma CrowdedUnbroken(c: seq<bv8>, capacity: nat, home: nat, p: nat)
    requires Layout(c, capacity) && Crowded(c, capacity, home, p)
    ensures Unbroken(c, capacity, home, p)
  {
    forall q: nat | q < p ensures !HasEmpty(c, capacity, home, q) {
      assert !HasFree(c, capacity, home, q);
      assert IsFree(EMPTY);
    }
  }

  lemma SlotInProbe(c: seq<bv8>, capacity: nat, home: nat, p: nat, i: nat)
    requires Layout(c, capacity) && i < capacity && InProbe(capacity, home, p, i)
    ensures c[i] in Window(c, Offset(capacity, home, p))
    ensures c[i] == EMPTY ==> HasEmpty(c, capacity, home, p)
    ensures IsFree(c[i]) ==> HasFree(c, capacity, home, p)
  {
    var o := Offset(capacity, home, p);
    WindowReads(c, capacity, o, i);
    assert Window(c, o)[Lag(capacity, o, i)] in Window(c, o);
  }

  /** The condition under which probing ends: some window of every round holds an empty byte. */
  ghost predicate SomeEmpty(c: seq<bv8>, capacity: nat)
    requires Layout(c, capacity)
  {
    IsSmall(capacity) || exists i: nat :: i < capacity && c[i] == EMPTY
  }

  /** Within one round a probe meets an empty byte. */
  lemma RoundHasEmpty(c: seq<bv8>, capacity: nat, home: nat) returns (p: nat)
    requires Layout(c, capacity) && home <= capacity && SomeEmpty(c, capacity)
    ensures p < Groups(capacity) && HasEmpty(c, capacity, home, p)
    ensures HasFree(c, capacity, home, p)
  {
    if IsSmall(capacity) {
      p := 0;
      SmallHasEmpty(c, capacity, Offset(capacity, home, 0));
    } else {
      var i: nat :| i < capacity && c[i] == EMPTY;
      p := ProbesCover(capacity, home, i);
      SlotInProbe(c, capacity, home, p, i);
    }
    assert IsFree(EMPTY);
  }

  // ---- changing one control byte ----

  /** The second position `set_ctrl` writes, computed with the offset mask. */
  function MirrorIndex(capacity: nat, i: nat): int {
    (i - (WIDTH - 1)) % (capacity + 1) + (WIDTH - 1) % (capacity + 1)
  }

  lemma MirrorIs(capacity: nat, i: nat)
    requires IsValidCapacity(capacity) && i < capacity
    ensures MirrorIndex(capacity, i) == if i < WIDTH - 1 then capacity + 1 + i else i
  {
    CapacityGroups(capacity);
    if !IsSmall(capacity) {
      WrapIsMod(i - 7, capacity + 1);
      WrapIsMod(7, capacity + 1);
    }
  }

  ghost function SetCtrl(c: seq<bv8>, capacity: nat, i: nat, h: bv8): (d: seq<bv8>)
    requires Layout(c, capacity) && i < capacity && IsCtrl(h) && h != SENTINEL
    ensures Layout(d, capacity)
    ensures d[i] == h
    ensures forall j | 0 <= j < capacity && j != i :: d[j] == c[j]
    ensures forall j | 0 <= j < |d| && d[j] != c[j] :: d[j] == h && c[j] == c[i]
  {
    MirrorIs(capacity, i);
    c[i := h][MirrorIndex(capacity, i) := h]
  }

  /** Filling a slot creates no empty byte anywhere. */
  lemma FillKeeps(c: seq<bv8>, capacity: nat, i: nat, h: bv8, home: nat, p: nat)
    requires Layout(c, capacity) && i < capacity && IsCtrl(h) && h != SENTINEL
    requires h != EMPTY
    ensures Unbroken(c, capacity, home, p) ==> Unbroken(SetCtrl(c, capacity, i, h), capacity, home, p)
    ensures IsFull(h) && Crowded(c, capacity, home, p) ==> Crowded(SetCtrl(c, capacity, i, h), capacity, home, p)
  {
    var d := SetCtrl(c, capacity, i, h);
    forall q: nat | q < p
      ensures HasEmpty(d, capacity, home, q) ==> HasEmpty(c, capacity, home, q)
      ensures IsFull(h) && HasFree(d, capacity, home, q) ==> HasFree(c, capacity, home, q)
    {
      var o := Offset(capacity, home, q);
      assert forall j | 0 <= j < WIDTH :: Window(d, o)[j] == Window(c, o)[j] || Window(d, o)[j] == h;
      assert forall j | 0 <= j < WIDTH :: Window(c, o)[j] in Window(c, o);
    }
  }

  /** Turning one free mark into the other changes no window's room for an insertion. */
  lemma RemarkKeeps(c: seq<bv8>, capacity: nat, i: nat, h: bv8, home: nat, p: nat)
    requires Layout(c, capacity) && i < capacity && IsFree(h) && IsFree(c[i])
    requires Crowded(c, capacity, home, p)
    ensures Crowded(SetCtrl(c, capacity, i, h), capacity, home, p)
  {
    var d := SetCtrl(c, capacity, i, h);
    forall q: nat | q < p ensures !HasFree(d, capacity, home, q) {
      var o := Offset(capacity, home, q);
      assert !HasFree(c, capacity, home, q);
      assert forall j | 0 <= j < WIDTH :: Window(c, o)[j] in Window(c, o);
      assert forall j | 0 <= j < WIDTH && IsFree(Window(d, o)[j]) :: IsFree(Window(c, o)[j]);
    }
  }

  /** Two control arrays that agree on every slot a window reads give the same window. */
  lemma SameWindow(c: seq<bv8>, d: seq<bv8>, capacity: nat, o: nat)
    requires Layout(c, capacity) && Layout(d, capacity) && o <= capacity && !IsSmall(capacity)
    requires forall i | 0 <= i < capacity && Lag(capacity, o, i) < WIDTH :: c[i] == d[i]
    ensures Window(c, o) == Window(d, o)
  {
    forall j | 0 <= j < WIDTH ensures Window(c, o)[j] == Window(d, o)[j] {
      WindowShows(c, capacity, o, j);
      WindowShows(d, capacity, o, j);
      var i := Wrap(o + j, capacity + 1);
      assert Lag(capacity, o, i) == j;
    }
  }

  /** The test `erase` makes, with the lowest empty byte `lo` of the group at `i` and the highest
      one `hi` of the group before it: trailing and leading zeroes add up to less than a group. */
  ghost predicate WasNeverFull(c: seq<bv8>, capacity: nat, i: nat, lo: nat, hi: nat)
    requires Layout(c, capacity) && i < capacity
  {
    && Lowest(Empties(Window(c, i)), lo)
    && Highest(Empties(Window(c, (i - WIDTH) % (capacity + 1))), hi)
    && lo + (WIDTH - 1 - hi) < WIDTH
  }

  /** An empty byte `t` positions after `i` is in every window that reads it there. */
  lemma EmptyAfter(c: seq<bv8>, capacity: nat, i: nat, o: nat, t: nat)
    requires Layout(c, capacity) && i < capacity && o <= capacity && !IsSmall(capacity)
    requires Lag(capacity, o, i) + t < WIDTH && Window(c, i)[t] == EMPTY
    ensures EMPTY in Window(c, o)
  {
    var j := Lag(capacity, o, i) + t;
    WindowShows(c, capacity, i, t);
    WindowShows(c, capacity, o, j);
    assert Window(c, o)[j] == EMPTY;
  }

  /** And an empty byte before `i`, found in the group that ends just before it. */
  lemma EmptyBefore(c: seq<bv8>, capacity: nat, i: nat, o: nat, t: nat)
    requires Layout(c, capacity) && i < capacity && o <= capacity && !IsSmall(capacity)
    requires t < WIDTH <= Lag(capacity, o, i) + t && Lag(capacity, o, i) < WIDTH
    requires Window(c, Wrap(i - WIDTH, capacity + 1))[t] == EMPTY
    ensures EMPTY in Window(c, o)
  {
    var j := Lag(capacity, o, i) + t - WIDTH;
    WindowShows(c, capacity, Wrap(i - WIDTH, capacity + 1), t);
    WindowShows(c, capacity, o, j);
    assert Window(c, o)[j] == EMPTY;
  }

  /** Every window over `i` already holds another empty byte, so emptying `i` ends no search
      that was not ended before. */
  lemma EraseWindow(c: seq<bv8>, capacity: nat, i: nat, lo: nat, hi: nat, o: nat)
    requires Layout(c, capacity) && i < capacity && o <= capacity && !IsSmall(capacity)
    requires WasNeverFull(c, capacity, i, lo, hi)
    requires Lag(capacity, o, i) < WIDTH
    ensures EMPTY in Window(c, o)
  {
    WrapIsMod(i - WIDTH, capacity + 1);
    if Lag(capacity, o, i) + lo < WIDTH {
      EmptyAfter(c, capacity, i, o, lo);
    } else {
      EmptyBefore(c, capacity, i, o, hi);
    }
  }

  /** Emptying a slot that passed the test keeps every chain that was unbroken. */
  lemma EraseKeeps(c: seq<bv8>, capacity: nat, i: nat, lo: nat, hi: nat, home: nat, p: nat)
    requires Layout(c, capacity) && i < capacity && WasNeverFull(c, capacity, i, lo, hi)
    requires Unbroken(c, capacity, home, p)
    ensures Unbroken(SetCtrl(c, capacity, i, EMPTY), capacity, home, p)
  {
    var d := SetCtrl(c, capacity, i, EMPTY);
    forall q: nat | q < p ensures !HasEmpty(d, capacity, home, q) {
      var o := Offset(capacity, home, q);
      assert !HasEmpty(c, capacity, home, q);
      if IsSmall(capacity) {
        SmallHasEmpty(c, capacity, o);
      } else {
        if Lag(capacity, o, i) < WIDTH {
          EraseWindow(c, capacity, i, lo, hi, o);
        }
        SameWindow(c, d, capacity, o);
      }
    }
  }

  /** Every window over the slot shows an empty byte. */
  ghost predicate EverySees(c: seq<bv8>, capacity: nat, i: nat)
    requires Layout(c, capacity) && i < capacity
  {
    forall o: nat | o <= capacity && Lag(capacity, o, i) < WIDTH :: EMPTY in Window(c, o)
  }

  /** Two windows that are `d` positions apart overlap in what they read. */
  lemma Overlap(c: seq<bv8>, capacity: nat, o: nat, u: nat, d: nat, j: nat)
    requires Layout(c, capacity) && o <= capacity && u <= capacity && !IsSmall(capacity) && d + j < WIDTH
    requires u == Wrap(o + d, capacity + 1)
    ensures Window(c, u)[j] == Window(c, o)[d + j]
  {
    WindowShows(c, capacity, o, d + j);
    WindowShows(c, capacity, u, j);
  }

  /** When the bytes that are not empty reach far enough around `i`, one window over it is full:
      here `lo` bytes from `i` on, and in the group before those above index `hi`. */
  lemma FullWindow(c: seq<bv8>, capacity: nat, i: nat, before: nat, lo: nat, hi: int)
    requires Layout(c, capacity) && i < capacity && !IsSmall(capacity) && -1 <= hi < lo && 1 <= lo <= WIDTH
    requires before == Wrap(i - WIDTH, capacity + 1)
    requires forall t | 0 <= t < lo :: Window(c, i)[t] != EMPTY
    requires forall t | hi < t < WIDTH :: Window(c, before)[t] != EMPTY
    ensures !EverySees(c, capacity, i)
  {
    var n := capacity + 1;
    var o := Wrap(i - (WIDTH - lo), n);
    forall j: nat | j < WIDTH ensures Window(c, o)[j] != EMPTY {
      if j + lo < WIDTH {
        Overlap(c, capacity, before, o, lo, j);
      } else {
        Overlap(c, capacity, o, i, WIDTH - lo, j + lo - WIDTH);
      }
    }
    assert Lag(capacity, o, i) == WIDTH - lo;
  }

  /** The test of `erase` holds of a slot in use exactly if every window over it shows an empty byte. */
  lemma NeverFullExact(c: seq<bv8>, capacity: nat, i: nat)
    requires Layout(c, capacity) && i < capacity && c[i] != EMPTY
    ensures (exists lo, hi :: WasNeverFull(c, capacity, i, lo, hi)) <==> EverySees(c, capacity, i)
  {
    if IsSmall(capacity) {
      forall o: nat | o <= capacity ensures EMPTY in Window(c, o) {
        SmallHasEmpty(c, capacity, o);
      }
      TinyNeverFull(c, capacity, i);
      var lo := FirstEmpty(Window(c, i));
      var hi := LastEmpty(Window(c, i));
      assert WasNeverFull(c, capacity, i, lo, hi);
    } else {
      LargeNeverFull(c, capacity, i);
    }
  }

  lemma LargeNeverFull(c: seq<bv8>, capacity: nat, i: nat)
    requires Layout(c, capacity) && i < capacity && !IsSmall(capacity) && c[i] != EMPTY
    ensures (exists lo, hi :: WasNeverFull(c, capacity, i, lo, hi)) <==> EverySees(c, capacity, i)
  {
    var before := (i - WIDTH) % (capacity + 1);
    WrapIsMod(i - WIDTH, capacity + 1);
    if lo, hi :| WasNeverFull(c, capacity, i, lo, hi) {
      forall o: nat | o <= capacity && Lag(capacity, o, i) < WIDTH ensures EMPTY in Window(c, o) {
        EraseWindow(c, capacity, i, lo, hi, o);
      }
    } else {
      var lo := FirstEmpty(Window(c, i));
      var hi := LastEmpty(Window(c, before));
      if hi < lo {
        FullWindow(c, capacity, i, before, lo, hi);
      } else {
        assert WasNeverFull(c, capacity, i, lo, hi);
      }
    }
  }

  /** The index of the first empty byte of a group, or the width. */
  lemma FirstEmpty(w: seq<bv8>) returns (lo: nat)
    requires |w| == WIDTH
    ensures lo <= WIDTH && (forall t | 0 <= t < lo :: w[t] != EMPTY) && (lo < WIDTH ==> Lowest(Empties(w), lo))
  {
    lo := 0;
    while lo < WIDTH && w[lo] != EMPTY
      invariant lo <= WIDTH && forall t | 0 <= t < lo :: w[t] != EMPTY
    {
      lo := lo + 1;
    }
  }

  /** The index of the last empty byte, or -1. */
  lemma LastEmpty(w: seq<bv8>) returns (hi: int)
    requires |w| == WIDTH
    ensures -1 <= hi < WIDTH && (forall t | hi < t < WIDTH :: w[t] != EMPTY) && (hi >= 0 ==> Highest(Empties(w), hi))
  {
    hi := WIDTH - 1;
    while hi >= 0 && w[hi] != EMPTY
      invariant -1 <= hi < WIDTH && forall t | hi < t < WIDTH :: w[t] != EMPTY
    {
      hi := hi - 1;
    }
  }

  /** With at most seven slots the test always passes, so such tables never hold a tombstone. */
  lemma TinyNeverFull(c: seq<bv8>, capacity: nat, i: nat)
    requires Layout(c, capacity) && i < capacity <= 7 && SomeEmpty(c, capacity)
    ensures (i - WIDTH) % (capacity + 1) == i
    ensures EMPTY in Window(c, i)
    ensures forall lo, hi | Lowest(Empties(Window(c, i)), lo) && Highest(Empties(Window(c, i)), hi) ::
              WasNeverFull(c, capacity, i, lo, hi)
  {
    CapacityGroups(capacity);
    assert (i - WIDTH) % (capacity + 1) == i;
    var w := Window(c, i);
    if IsSmall(capacity) {
      SmallHasEmpty(c, capacity, i);
    } else {
      var e: nat :| e < capacity && c[e] == EMPTY;
      WindowReads(c, capacity, i, e);
      assert w[Lag(capacity, i, e)] == EMPTY;
    }
  }

  /** What the conversion pass makes of a control byte. */
  function Remarked(b: bv8): bv8 {
    if IsFull(b) then DELETED else EMPTY
  }

  /** The marks after the conversion pass, with the repeated bytes and the sentinel restored. */
  ghost predicate Marked(c: seq<bv8>, capacity: nat, d: seq<bv8>)
    requires Layout(c, capacity)
  {
    && Layout(d, capacity)
    && forall i | 0 <= i < capacity :: d[i] == Remarked(c[i])
  }

  /** What an insertion probe may answer: a free slot of the first group with room, or, if a small
      table is full, the position of the sentinel. */
  ghost predicate IsSpot(c: seq<bv8>, capacity: nat, home: nat, p: nat, target: nat)
    requires Layout(c, capacity)
  {
    && target <= capacity && p < Groups(capacity) && Crowded(c, capacity, home, p)
    && (target < capacity ==> IsFree(c[target]) && InProbe(capacity, home, p, target))
    && (target == capacity ==> IsSmall(capacity) && forall i | 0 <= i < capacity :: !IsFree(c[i]))
  }
}
