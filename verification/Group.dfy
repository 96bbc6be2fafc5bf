/** A group of eight control bytes read from the table, and the bit masks its user loops over. */
module Group {
  import opened GroupBits

  /** The indices of the bytes reported by `Match`, in the order the mask iterator yields them. */
  method Match(c: array<bv8>, o: nat, h: bv8) returns (hits: seq<nat>)
    requires o + WIDTH <= c.Length
    ensures Lists(hits, Matches(c[o..o + WIDTH], h))
  {
    var w := LoadGroup(c, o);
    var mask, more := MatchMask(w, h, c[o..o + WIDTH]);
    hits := Iterate(mask, more, Matches(c[o..o + WIDTH], h));
  }

  /** What a lookup relies on: all reported bytes are full, and every byte equal to the hash is
      reported. */
  method MatchFull(c: array<bv8>, o: nat, h: bv8) returns (hits: seq<nat>)
    requires o + WIDTH <= c.Length && IsFull(h)
    ensures forall k | 0 <= k < |hits| :: hits[k] < WIDTH && IsFull(c[o..o + WIDTH][hits[k]])
    ensures forall j: nat | j < WIDTH && c[o..o + WIDTH][j] == h :: j in hits
  {
    ghost var w := c[o..o + WIDTH];
    hits := Match(c, o, h);
    forall k | 0 <= k < |hits| ensures hits[k] < WIDTH && IsFull(w[hits[k]]) {
      MatchesIsFull(w, h, hits[k]);
    }
    forall j: nat | j < WIDTH && w[j] == h ensures j in hits {
      MatchesReal(w, h, j);
    }
  }

  /** `hits` lists the positions at which `f` holds, in increasing order. */
  ghost predicate Lists(hits: seq<nat>, f: seq<bool>) {
    && (forall k | 0 <= k < |hits| :: hits[k] < |f| && f[hits[k]])
    && (forall k, l | 0 <= k < l < |hits| :: hits[k] < hits[l])
    && (forall i: nat | i < |f| && f[i] :: i in hits)
  }

  /** Running the mask iterator to its end: take the lowest set bit, then clear it. */
  method Iterate(start: bv64, any: bool, ghost all: seq<bool>) returns (hits: seq<nat>)
    requires |all| == WIDTH && start == MaskOf(all) && (any <==> true in all)
    ensures Lists(hits, all)
  {
    ghost var f, lo := all, 0;
    var mask, more := start, any;
    hits := [];
    while more
      invariant 0 <= lo <= WIDTH && |f| == WIDTH && mask == MaskOf(f)
      invariant more <==> true in f
      invariant forall j | 0 <= j < WIDTH :: f[j] == (lo <= j && all[j])
      invariant forall k | 0 <= k < |hits| :: hits[k] < lo && all[hits[k]]
      invariant forall k, l | 0 <= k < l < |hits| :: hits[k] < hits[l]
      invariant forall j: nat | j < lo && all[j] :: j in hits
      decreases WIDTH - lo
    {
      var i;
      i, mask, more := TakeLowest(mask, f);
      hits := hits + [i];
      f, lo := f[i := false], i + 1;
    }
  }

  method MatchMask(w: bv64, h: bv8, ghost s: seq<bv8>) returns (mask: bv64, more: bool)
    requires |s| == WIDTH && w == Load(s)
    ensures mask == MaskOf(Matches(s, h))
    ensures more <==> true in Matches(s, h)
  {
    MatchExact(s, h);
    MaskNonzero(Matches(s, h));
    mask := MatchWord(w, h);
    more := mask != 0;
  }

  /** One step of the mask iterator: dereference, then `mask & (mask - 1)`. */
  method TakeLowest(mask: bv64, ghost f: seq<bool>) returns (i: nat, rest: bv64, more: bool)
    requires |f| == WIDTH && mask == MaskOf(f) && true in f
    ensures Lowest(f, i)
    ensures rest == MaskOf(f[i := false])
    ensures more <==> true in f[i := false]
  {
    MaskNonzero(f);
    MaskLowest(f);
    MaskClearLowest(f);
    i := CountTrailingZeroes(mask) / 8;
    WithoutLowestIs(f, i);
    MaskNonzero(f[i := false]);
    rest := mask & (mask - 1);
    more := rest != 0;
  }

  method LoadGroup(c: array<bv8>, o: nat) returns (w: bv64)
    requires o + WIDTH <= c.Length
    ensures w == Load(c[o..o + WIDTH])
  {
    w := Pack(c[o], c[o + 1], c[o + 2], c[o + 3], c[o + 4], c[o + 5], c[o + 6], c[o + 7]);
  }

  /** `MatchEmpty` and what `erase` asks of it: how many bytes lie below the lowest empty byte
      of the group, and how many above the highest. */
  method MatchEmpty(c: array<bv8>, o: nat) returns (any: bool, trailing: nat, leading: nat)
    requires o + WIDTH <= c.Length && AllCtrl(c[o..o + WIDTH])
    ensures any <==> EMPTY in c[o..o + WIDTH]
    ensures any ==> trailing < WIDTH && leading < WIDTH
    ensures any ==> Lowest(Empties(c[o..o + WIDTH]), trailing)
    ensures any ==> Highest(Empties(c[o..o + WIDTH]), 7 - leading)
  {
    var w := LoadGroup(c, o);
    any, trailing, leading := EmptyMask(w, c[o..o + WIDTH]);
  }

  method EmptyMask(w: bv64, ghost s: seq<bv8>) returns (any: bool, trailing: nat, leading: nat)
    requires |s| == WIDTH && w == Load(s) && AllCtrl(s)
    ensures any <==> EMPTY in s
    ensures any ==> trailing < WIDTH && leading < WIDTH
    ensures any ==> Lowest(Empties(s), trailing) && Highest(Empties(s), 7 - leading)
  {
    ghost var f := Empties(s);
    MatchEmptyExact(s);
    MaskNonzero(f);
    var mask := MatchEmptyWord(w);
    any, trailing, leading := mask != 0, 0, 0;
    if any {
      MaskLowest(f);
      MaskHighest(f);
      trailing, leading := CountTrailingZeroes(mask) / 8, CountLeadingZeroes(mask) / 8;
    }
  }

  /** `MatchEmptyOrDeleted` and the two positions an insertion may choose from. */
  method MatchEmptyOrDeleted(c: array<bv8>, o: nat) returns (any: bool, lowest: nat, highest: nat)
    requires o + WIDTH <= c.Length && AllCtrl(c[o..o + WIDTH])
    ensures any <==> exists b | b in c[o..o + WIDTH] :: IsFree(b)
    ensures any ==> lowest < WIDTH && highest < WIDTH
    ensures any ==> Lowest(Frees(c[o..o + WIDTH]), lowest)
    ensures any ==> Highest(Frees(c[o..o + WIDTH]), highest)
  {
    var w := LoadGroup(c, o);
    any, lowest, highest := FreeMask(w, c[o..o + WIDTH]);
  }

  method FreeMask(w: bv64, ghost s: seq<bv8>) returns (any: bool, lowest: nat, highest: nat)
    requires |s| == WIDTH && w == Load(s) && AllCtrl(s)
    ensures any <==> exists b | b in s :: IsFree(b)
    ensures any ==> lowest < WIDTH && highest < WIDTH
    ensures any ==> Lowest(Frees(s), lowest) && Highest(Frees(s), highest)
  {
    ghost var f := Frees(s);
    MatchEmptyOrDeletedExact(s);
    MaskNonzero(f);
    var mask := MatchEmptyOrDeletedWord(w);
    any, lowest, highest := mask != 0, 0, 0;
    if any {
      MaskLowest(f);
      MaskHighest(f);
      lowest, highest := CountTrailingZeroes(mask) / 8, (63 - CountLeadingZeroes(mask)) / 8;
    }
  }

  /** The conversion of one group, written back in place. */
  method ConvertSpecialToEmptyAndFullToDeleted(c: array<bv8>, o: nat)
    requires o + WIDTH <= c.Length
    modifies c
    ensures c[..] == old(c[..o] + Converted(c[o..o + WIDTH]) + c[o + WIDTH..])
  {
    ghost var s := c[o..o + WIDTH];
    var w := LoadGroup(c, o);
    ConvertExact(s);
    var res := ConvertWord(w);
    for i := 0 to WIDTH
      invariant forall j | 0 <= j < c.Length :: c[j] == if o <= j < o + i then Converted(s)[j - o] else old(c[j])
    {
      LoadLane(Converted(s), i);
      c[o + i] := Lane(res, i);
    }
  }
}
