/** The loops over a probe sequence that do not look at keys. */
module Probing {
  import opened GroupBits
  import opened Group
  import opened ProbeSequence
  import opened Windows
  import opened ProbeChains

  /** A full byte of a window is a full slot, at the offset of the group plus its index. */
  lemma LaneIsSlot(c: seq<bv8>, capacity: nat, offset: nat, j: nat)
    requires Layout(c, capacity) && offset <= capacity && j < WIDTH && IsFull(Window(c, offset)[j])
    ensures (offset + j) % (capacity + 1) == Wrap(offset + j, capacity + 1) < capacity
    ensures IsFull(c[Wrap(offset + j, capacity + 1)])
  {
    WindowSlot(c, capacity, offset, j);
    if capacity > 0 {
      SmallReach(c, capacity, offset, j);
      WrapIsMod(offset + j, capacity + 1);
    }
  }

  /** The slots `Match` reports for the group at `offset`, in order: all of them are full, and
      every slot of the group that carries the tag is among them. */
  method CandidateSlots(ctrl: array<bv8>, capacity: nat, offset: nat, mark: bv8) returns (hits: seq<nat>)
    requires Layout(ctrl[..], capacity) && IsFull(mark) && offset <= capacity
    ensures forall k | 0 <= k < |hits| :: hits[k] < capacity && IsFull(ctrl[..][hits[k]])
    ensures forall i: nat | i < capacity && Lag(capacity, offset, i) < WIDTH && ctrl[..][i] == mark :: i in hits
  {
    ghost var c := ctrl[..];
    assert ctrl[offset..offset + WIDTH] == Window(c, offset);
    var lanes := MatchFull(ctrl, offset, mark);
    LanesAreSlots(c, capacity, offset, lanes);
    hits := [];
    for k := 0 to |lanes|
      invariant |hits| == k
      invariant forall l | 0 <= l < k :: hits[l] == Wrap(offset + lanes[l], capacity + 1)
    {
      LaneIsSlot(c, capacity, offset, lanes[k]);
      hits := hits + [(offset + lanes[k]) % (capacity + 1)];
    }
    SlotsAreHit(c, capacity, offset, mark, lanes, hits);
  }

  lemma LanesAreSlots(c: seq<bv8>, capacity: nat, offset: nat, lanes: seq<nat>)
    requires Layout(c, capacity) && offset <= capacity
    requires forall k | 0 <= k < |lanes| :: lanes[k] < WIDTH && IsFull(Window(c, offset)[lanes[k]])
    ensures forall k | 0 <= k < |lanes| :: offset + lanes[k] < 2 * (capacity + 1)
    ensures forall k | 0 <= k < |lanes| :: var i := Wrap(offset + lanes[k], capacity + 1); i < capacity && IsFull(c[i])
  {
    forall k | 0 <= k < |lanes|
      ensures offset + lanes[k] < 2 * (capacity + 1)
      ensures var i := Wrap(offset + lanes[k], capacity + 1); i < capacity && IsFull(c[i])
    {
      SmallReach(c, capacity, offset, lanes[k]);
      LaneIsSlot(c, capacity, offset, lanes[k]);
    }
  }

  lemma SlotsAreHit(c: seq<bv8>, capacity: nat, offset: nat, mark: bv8, lanes: seq<nat>, hits: seq<nat>)
    requires Layout(c, capacity) && offset <= capacity && |lanes| == |hits|
    requires forall j: nat | j < WIDTH && Window(c, offset)[j] == mark :: j in lanes
    requires forall k | 0 <= k < |lanes| :: offset + lanes[k] < 2 * (capacity + 1)
    requires forall k | 0 <= k < |lanes| :: hits[k] == Wrap(offset + lanes[k], capacity + 1)
    ensures forall i: nat | i < capacity && Lag(capacity, offset, i) < WIDTH && c[i] == mark :: i in hits
  {
    forall i: nat | i < capacity && Lag(capacity, offset, i) < WIDTH && c[i] == mark ensures i in hits {
      WindowReads(c, capacity, offset, i);
      var l :| 0 <= l < |lanes| && lanes[l] == Lag(capacity, offset, i);
      assert hits[l] == i;
    }
  }

  /** The test that ends a lookup. */
  method GroupHasEmpty(ctrl: array<bv8>, capacity: nat, offset: nat) returns (stop: bool)
    requires Layout(ctrl[..], capacity) && offset <= capacity
    ensures stop <==> EMPTY in Window(ctrl[..], offset)
  {
    ghost var c := ctrl[..];
    LayoutCtrl(c, capacity);
    assert ctrl[offset..offset + WIDTH] == Window(c, offset);
    var trailing, leading;
    stop, trailing, leading := MatchEmpty(ctrl, offset);
  }

  /** `MatchEmptyOrDeleted` and the choice among the bytes it reports. */
  method ChooseFree(ctrl: array<bv8>, capacity: nat, offset: nat, ghost home: nat, ghost p: nat)
      returns (any: bool, at: nat)
    requires Layout(ctrl[..], capacity) && offset == Offset(capacity, home, p)
    ensures any <==> HasFree(ctrl[..], capacity, home, p)
    ensures any ==> at < WIDTH && IsFree(Window(ctrl[..], offset)[at])
    ensures any && IsSmall(capacity) ==> Lowest(Frees(Window(ctrl[..], offset)), at)
  {
    ghost var c := ctrl[..];
    LayoutCtrl(c, capacity);
    assert ctrl[offset..offset + WIDTH] == Window(c, offset);
    var lowest, highest;
    any, lowest, highest := MatchEmptyOrDeleted(ctrl, offset);
    var backwards: bool := *;
    at := if !IsSmall(capacity) && backwards then highest else lowest;
  }

  /** The slot the chosen byte stands for. */
  lemma ChosenSlot(c: seq<bv8>, capacity: nat, home: nat, p: nat, at: nat)
    requires Layout(c, capacity) && home <= capacity && at < WIDTH
    requires IsFree(Window(c, Offset(capacity, home, p))[at])
    requires IsSmall(capacity) ==> Lowest(Frees(Window(c, Offset(capacity, home, p))), at)
    ensures var target := (Offset(capacity, home, p) + at) % (capacity + 1);
            && target <= capacity
            && (target < capacity ==> IsFree(c[target]) && InProbe(capacity, home, p, target))
            && (target == capacity ==> IsSmall(capacity) && forall i | 0 <= i < capacity :: !IsFree(c[i]))
  {
    var o := Offset(capacity, home, p);
    if !IsSmall(capacity) {
      LargeChoice(c, capacity, home, p, at);
    } else if i: nat :| i < capacity && IsFree(c[i]) {
      SmallChoice(c, capacity, o, at, i);
      WrapIsMod(o + at, capacity + 1);
      SmallReads(capacity, home, p, Wrap(o + at, capacity + 1));
    } else {
      SmallFull(c, capacity, o, at);
      WrapIsMod(o + at, capacity + 1);
    }
  }

  /** In a large table every free byte of a window is a free slot. */
  lemma LargeChoice(c: seq<bv8>, capacity: nat, home: nat, p: nat, at: nat)
    requires Layout(c, capacity) && !IsSmall(capacity) && at < WIDTH
    requires IsFree(Window(c, Offset(capacity, home, p))[at])
    ensures var target := (Offset(capacity, home, p) + at) % (capacity + 1);
            target < capacity && IsFree(c[target]) && InProbe(capacity, home, p, target)
  {
    WindowSlot(c, capacity, Offset(capacity, home, p), at);
  }

  /** Every window of a small table reads every slot. */
  lemma SmallReads(capacity: nat, home: nat, p: nat, i: nat)
    requires IsSmall(capacity) && i <= capacity
    ensures InProbe(capacity, home, p, i)
  {}

  /** In a small table with a free slot, the lowest free byte is a free slot or its repetition. */
  lemma SmallChoice(c: seq<bv8>, capacity: nat, o: nat, at: nat, i: nat)
    requires Layout(c, capacity) && IsSmall(capacity) && o <= capacity
    requires Lowest(Frees(Window(c, o)), at)
    requires i < capacity && IsFree(c[i])
    ensures o + at <= 2 * capacity && Wrap(o + at, capacity + 1) < capacity
    ensures IsFree(c[Wrap(o + at, capacity + 1)])
  {
    var w, j := Window(c, o), Lag(capacity, o, i);
    CapacityGroups(capacity);
    WindowReads(c, capacity, o, i);
    assert w[j] == c[i] && Frees(w)[j];
    assert at <= j && IsFree(w[at]);
    WindowShows(c, capacity, o, at);
  }

  /** In a small table without a free slot, the lowest free byte is the first byte of padding. */
  lemma SmallFull(c: seq<bv8>, capacity: nat, o: nat, at: nat)
    requires Layout(c, capacity) && IsSmall(capacity) && o <= capacity
    requires Lowest(Frees(Window(c, o)), at)
    requires forall i | 0 <= i < capacity :: !IsFree(c[i])
    ensures o + at == 2 * capacity + 1
  {
    var w, pad := Window(c, o), 2 * capacity + 1 - o;
    if capacity > 0 {
      CapacityGroups(capacity);
    }
    SmallHasEmpty(c, capacity, o);
    assert w[pad] == EMPTY && Frees(w)[pad];
    assert at <= pad && IsFree(w[at]);
    if at < pad {
      PadOnly(c, capacity, o, at);
    }
  }

  lemma PadOnly(c: seq<bv8>, capacity: nat, o: nat, at: nat)
    requires Layout(c, capacity) && o <= capacity && at < WIDTH && o + at <= 2 * capacity
    requires forall i | 0 <= i < capacity :: !IsFree(c[i])
    ensures !IsFree(Window(c, o)[at])
  {
    if o + at > capacity {
      assert c[capacity + 1 + (o + at - capacity - 1)] == c[o + at - capacity - 1];
    }
  }

  /** The part of an insertion probe that happens in one group. */
  method FreeSlot(ctrl: array<bv8>, capacity: nat, offset: nat, ghost home: nat, ghost p: nat)
      returns (any: bool, target: nat)
    requires Layout(ctrl[..], capacity) && home <= capacity && offset == Offset(capacity, home, p)
    requires p < Groups(capacity) && Crowded(ctrl[..], capacity, home, p)
    ensures any ==> IsSpot(ctrl[..], capacity, home, p, target)
    ensures !any ==> Crowded(ctrl[..], capacity, home, p + 1)
    ensures any <==> HasFree(ctrl[..], capacity, home, p)
  {
    var at;
    any, at := ChooseFree(ctrl, capacity, offset, home, p);
    target := (offset + at) % (capacity + 1);
    if any {
      ChosenSlot(ctrl[..], capacity, home, p, at);
    }
  }

  /** `probe_seq::next`, short of the last group of the first round. */
  method Next(capacity: nat, offset: nat, index: nat, ghost home: nat, ghost p: nat, ghost last: nat)
      returns (newOffset: nat, newIndex: nat)
    requires LegalCapacity(capacity) && p < last < Groups(capacity)
    requires offset == Offset(capacity, home, p) && index == WIDTH * p
    ensures newOffset == Offset(capacity, home, p + 1) && newIndex == WIDTH * (p + 1)
    ensures newIndex < capacity
  {
    OffsetNext(capacity, home, p);
    IndexBound(capacity, p + 1);
    newIndex := index + WIDTH;
    newOffset := (offset + newIndex) % (capacity + 1);
  }

  /** Where an insertion probe stops: the first group with room, and in it the lowest free byte,
      or in a debug build and a large table perhaps the highest. */
  method FindFirstNonFull(ctrl: array<bv8>, capacity: nat, home: nat) returns (target: nat, ghost p: nat)
    requires Layout(ctrl[..], capacity) && home <= capacity && SomeEmpty(ctrl[..], capacity)
    ensures IsSpot(ctrl[..], capacity, home, p, target)
    ensures target <= capacity && (target < capacity ==> IsFree(ctrl[..][target]))
  {
    ghost var c := ctrl[..];
    ghost var last := RoundHasEmpty(c, capacity, home);
    var offset, index := home, 0;
    FirstOffset(capacity, home);
    p := 0;
    while true
      invariant offset == Offset(capacity, home, p) && index == WIDTH * p
      invariant p <= last && Crowded(c, capacity, home, p)
      decreases last - p
    {
      var any;
      any, target := FreeSlot(ctrl, capacity, offset, home, p);
      if any {
        return;
      }
      offset, index := Next(capacity, offset, index, home, p, last);
      p := p + 1;
      assert index <= capacity;
    }
  }

  /** `set_ctrl`: a control byte and its repetition. */
  method StoreCtrl(ctrl: array<bv8>, capacity: nat, i: nat, h: bv8)
    requires Layout(ctrl[..], capacity) && i < capacity && IsCtrl(h) && h != SENTINEL
    modifies ctrl
    ensures ctrl[..] == SetCtrl(old(ctrl[..]), capacity, i, h)
  {
    MirrorIs(capacity, i);
    ctrl[i] := h;
    ctrl[(i - (WIDTH - 1)) % (capacity + 1) + (WIDTH - 1) % (capacity + 1)] := h;
  }

  /** The conversion pass: eight bytes at a time, which overwrites the sentinel too. */
  method ConvertGroups(ctrl: array<bv8>, capacity: nat)
    requires (capacity + 1) % WIDTH == 0 && capacity + WIDTH == ctrl.Length
    modifies ctrl
    ensures forall j | 0 <= j < capacity :: ctrl[j] == Remarked(old(ctrl[j]))
  {
    ghost var c := ctrl[..];
    var pos := 0;
    while pos < capacity
      invariant pos % WIDTH == 0 && pos <= capacity + 1
      invariant forall j | 0 <= j < |c| :: ctrl[..][j] == if j < pos then Remarked(c[j]) else c[j]
    {
      ghost var before := ctrl[..];
      ConvertSpecialToEmptyAndFullToDeleted(ctrl, pos);
      OneGroup(before, pos, ctrl[..]);
      pos := pos + WIDTH;
    }
    assert forall j | 0 <= j < capacity :: ctrl[..][j] == ctrl[j];
  }

  lemma OneGroup(c: seq<bv8>, pos: nat, d: seq<bv8>)
    requires pos + WIDTH <= |c| && d == c[..pos] + Converted(c[pos..pos + WIDTH]) + c[pos + WIDTH..]
    ensures |d| == |c|
    ensures forall j | 0 <= j < |c| :: d[j] == if pos <= j < pos + WIDTH then Remarked(c[j]) else c[j]
  {}

  /** The whole pass: then the repeated bytes are copied again and the sentinel restored. */
  method ConvertDeletedToEmptyAndFullToDeleted(ctrl: array<bv8>, capacity: nat)
    requires Layout(ctrl[..], capacity) && capacity > 0 && !IsSmall(capacity)
    modifies ctrl
    ensures Marked(old(ctrl[..]), capacity, ctrl[..])
  {
    ghost var c := ctrl[..];
    CapacityGroups(capacity);
    ConvertGroups(ctrl, capacity);
    for i := 0 to WIDTH - 1
      invariant forall j | 0 <= j < capacity :: ctrl[j] == Remarked(c[j])
      invariant forall j | 0 <= j < i :: ctrl[capacity + 1 + j] == ctrl[j]
    {
      ctrl[capacity + 1 + i] := ctrl[i];
    }
    ctrl[capacity] := SENTINEL;
  }

  /** The test of `erase`, from the groups after and before slot `i`. */
  method NeverFull(ctrl: array<bv8>, capacity: nat, i: nat) returns (yes: bool)
    requires Layout(ctrl[..], capacity) && i < capacity && SomeEmpty(ctrl[..], capacity)
    ensures yes ==> exists lo, hi :: WasNeverFull(ctrl[..], capacity, i, lo, hi)
    ensures !yes ==> capacity > 7
    ensures ctrl[i] != EMPTY ==> (yes <==> EverySees(ctrl[..], capacity, i))
  {
    ghost var c := ctrl[..];
    LayoutCtrl(c, capacity);
    var before := (i - WIDTH) % (capacity + 1);
    assert ctrl[i..i + WIDTH] == Window(c, i);
    assert ctrl[before..before + WIDTH] == Window(c, before);
    var someAfter, trailing, _ := MatchEmpty(ctrl, i);
    var someBefore, _, leading := MatchEmpty(ctrl, before);
    yes := someBefore && someAfter && trailing + leading < WIDTH;
    assert yes <==> exists lo, hi :: WasNeverFull(c, capacity, i, lo, hi) by {
      if yes {
        assert WasNeverFull(c, capacity, i, trailing, 7 - leading);
      }
    }
    if c[i] != EMPTY {
      NeverFullExact(c, capacity, i);
    }
    if !yes && capacity <= 7 {
      TinyNeverFull(c, capacity, i);
    }
  }

  /** The loop of the iterator: on to the next full slot, or to the end. */
  method NextFull(ctrl: array<bv8>, start: int, end: int, ghost c: seq<bv8>) returns (idx: int)
    requires c == ctrl[..] && -1 <= start <= end < |c| && 0 <= end
    ensures start <= idx <= end && (start < end ==> start < idx)
    ensures start < idx < end ==> IsFull(c[idx])
    ensures forall i | start < i < idx :: !IsFull(c[i])
  {
    idx := start;
    while idx < end
      invariant start <= idx <= end
      invariant forall i | start < i <= idx :: !IsFull(ctrl[i])
    {
      idx := idx + 1;
      if IsFull(ctrl[idx]) {
        break;
      }
    }
  }
}
