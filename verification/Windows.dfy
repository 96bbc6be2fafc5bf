/** Windows of a control array: the eight bytes each probe reads, seen as positions on a circle
    that holds the slots and the sentinel. */
module Windows {
  import opened Arithmetic
  import opened GroupBits
  import opened ProbeSequence

  /** The position `x` on a circle of `n` positions. */
  function Wrap(x: int, n: nat): (w: int)
    requires 0 <= x + n && x < 2 * n
    ensures 0 <= w < n || n == 0
  {
    if x >= n then x - n else if x < 0 then x + n else x
  }

  lemma WrapIsMod(x: int, n: nat)
    requires n > 0 && 0 <= x + n && x < 2 * n
    ensures Wrap(x, n) == x % n
  {
    DivModUnique(x, if x >= n then 1 else if x < 0 then -1 else 0, n, Wrap(x, n));
  }

  /** A table is small when one group reads all of it. */
  predicate IsSmall(capacity: nat) {
    capacity < WIDTH - 1
  }

  /** How many groups a round of probing visits. */
  function Groups(capacity: nat): (m: nat)
    ensures m > 0
  {
    if IsSmall(capacity) then 1 else (capacity + 1) / WIDTH
  }

  /** The offset of probe `p` for a key whose first probe is at `home`. */
  function Offset(capacity: nat, home: nat, p: nat): (o: nat)
    ensures o <= capacity
  {
    (home + WIDTH * Triangular(p)) % (capacity + 1)
  }

  /** The offset of the next probe from the offset of this one, as `probe_seq::next` does it. */
  lemma OffsetNext(capacity: nat, home: nat, p: nat)
    ensures Offset(capacity, home, p + 1) ==
            (Offset(capacity, home, p) + WIDTH * (p + 1)) % (capacity + 1)
  {
    ModSum(home + WIDTH * Triangular(p), WIDTH * (p + 1), capacity + 1);
  }

  /** Probe `p` reads position `i`. */
  predicate InProbe(capacity: nat, home: nat, p: nat, i: nat)
    requires i <= capacity
  {
    Wrap(i - Offset(capacity, home, p), capacity + 1) < WIDTH
  }

  /** A hash masked by the capacity, which is one less than a power of two. */
  function Masked(x: nat, capacity: nat): (o: nat)
    ensures o <= capacity
  {
    x % (capacity + 1)
  }

  /** The first probe offset of a hash: its upper bits, mixed with the seed of the allocation. */
  function HomeOf(hash: bv64, seed: bv64, capacity: nat): nat {
    Masked(H1(hash, seed) as nat, capacity)
  }

  ghost predicate LegalCapacity(capacity: nat) {
    capacity == 0 || IsValidCapacity(capacity)
  }

  lemma LegalGroups(capacity: nat)
    requires LegalCapacity(capacity)
    ensures IsPow2(Groups(capacity))
    ensures !IsSmall(capacity) ==> capacity + 1 == WIDTH * Groups(capacity)
  {
    if capacity > 0 {
      CapacityGroups(capacity);
    }
  }

  /** The group a position falls in, counted from the home offset: the `probe_index` lambda. */
  function ProbeIndex(capacity: nat, home: nat, i: nat): int {
    ((i - home) % (capacity + 1)) / WIDTH
  }

  lemma ScaledMod(t: nat, m: nat)
    requires m > 0
    ensures (WIDTH * t) % (WIDTH * m) == WIDTH * (t % m)
  {
    var q := t / m;
    assert t == q * m + t % m;
    assert WIDTH * t == q * (WIDTH * m) + WIDTH * (t % m);
    DivModUnique(WIDTH * t, q, WIDTH * m, WIDTH * (t % m));
  }

  /** The window of probe `p` is exactly one group, the one the triangular number selects. */
  lemma ProbeIsGroup(capacity: nat, home: nat, p: nat, i: nat)
    requires LegalCapacity(capacity) && home <= capacity && i <= capacity
    ensures InProbe(capacity, home, p, i) <==>
            ProbeIndex(capacity, home, i) == GroupOf(Groups(capacity), p)
  {
    var n, m := capacity + 1, Groups(capacity);
    var o := Offset(capacity, home, p);
    LegalGroups(capacity);
    WrapIsMod(i - home, n);
    var d := Wrap(i - home, n);
    if !IsSmall(capacity) {
      var b := GroupOf(m, p);
      ScaledMod(Triangular(p), m);
      ModSum(WIDTH * Triangular(p), home, n);
      assert (WIDTH * b + home) % n == o;
      WrapIsMod(WIDTH * b + home, n);
      assert o == Wrap(WIDTH * b + home, n);
    } else {
      assert d / WIDTH == 0;
      assert GroupOf(1, p) == 0;
    }
  }

  /** The first round of probes covers every position exactly once. */
  lemma ProbesCover(capacity: nat, home: nat, i: nat) returns (p: nat)
    requires LegalCapacity(capacity) && home <= capacity && i <= capacity
    ensures p < Groups(capacity) && InProbe(capacity, home, p, i)
    ensures forall q: nat | q < Groups(capacity) && InProbe(capacity, home, q, i) :: q == p
  {
    var m := Groups(capacity);
    LegalGroups(capacity);
    var b := ProbeIndex(capacity, home, i);
    WrapIsMod(i - home, capacity + 1);
    p := TriangularSurjective(m, b);
    ProbeIsGroup(capacity, home, p, i);
    forall q: nat | q < m && InProbe(capacity, home, q, i) ensures q == p {
      ProbeIsGroup(capacity, home, q, i);
    }
  }

  // ---- the control array ----

  /** A control array of `capacity` slots, a sentinel, and seven bytes that repeat the first
      ones (and are empty where there is nothing to repeat). A table without slots has the
      shared array of a sentinel and empty bytes. */
  ghost predicate Layout(c: seq<bv8>, capacity: nat) {
    && LegalCapacity(capacity)
    && |c| == (if capacity == 0 then 2 * WIDTH else capacity + WIDTH)
    && c[capacity] == SENTINEL
    && (forall i | 0 <= i < capacity :: IsCtrl(c[i]) && c[i] != SENTINEL)
    && (forall i | 0 <= i < capacity && i < WIDTH - 1 :: c[capacity + 1 + i] == c[i])
    && (forall i | 2 * capacity < i < |c| :: c[i] == EMPTY)
  }

  /** The eight bytes a probe at offset `o` reads. */
  ghost function Window(c: seq<bv8>, o: nat): seq<bv8>
    requires o + WIDTH <= |c|
  {
    c[o..o + WIDTH]
  }

  lemma LayoutCtrl(c: seq<bv8>, capacity: nat)
    requires Layout(c, capacity)
    ensures AllCtrl(c)
  {
    forall i | 0 <= i < |c| ensures IsCtrl(c[i]) {
      if capacity < i <= 2 * capacity {
        var j := i - capacity - 1;
        assert c[capacity + 1 + j] == c[j];
      }
    }
  }

  /** The index in the window at offset `o` at which position `i` is read. */
  function Lag(capacity: nat, o: nat, i: nat): nat
    requires o <= capacity && i <= capacity
  {
    Wrap(i - o, capacity + 1)
  }

  /** A position inside a window is really read there, through its repetition if need be. */
  lemma WindowReads(c: seq<bv8>, capacity: nat, o: nat, i: nat)
    requires Layout(c, capacity) && o <= capacity && i <= capacity
    requires Lag(capacity, o, i) < WIDTH
    ensures Window(c, o)[Lag(capacity, o, i)] == c[i]
  {
    if i == capacity {
    } else if i < o {
      assert c[capacity + 1 + i] == c[i];
    }
  }

  /** What a window reads at index `j` is the control byte of a position on the circle, except
      for the empty padding of a small table. */
  lemma WindowShows(c: seq<bv8>, capacity: nat, o: nat, j: nat)
    requires Layout(c, capacity) && o <= capacity && j < WIDTH
    ensures IsSmall(capacity) ==> (Window(c, o)[j] == EMPTY
            || (o + j <= capacity && Window(c, o)[j] == c[o + j])
            || (capacity < o + j <= 2 * capacity && Window(c, o)[j] == c[o + j - capacity - 1]))
    ensures !IsSmall(capacity) ==> Window(c, o)[j] == c[Wrap(o + j, capacity + 1)]
  {
    if capacity < o + j <= 2 * capacity {
      var i := o + j - capacity - 1;
      assert c[capacity + 1 + i] == c[i];
    }
  }

  /** In a small table every window sees padding. */
  lemma SmallHasEmpty(c: seq<bv8>, capacity: nat, o: nat)
    requires Layout(c, capacity) && o <= capacity && IsSmall(capacity)
    ensures EMPTY in Window(c, o)
    ensures forall j | 0 <= j < WIDTH && o + j > 2 * capacity :: Window(c, o)[j] == EMPTY
  {
    if capacity > 0 {
      CapacityGroups(capacity);
    }
    assert c[7] == EMPTY;
    assert Window(c, o)[7 - o] == EMPTY;
  }

  /** A position of a window read as a slot, by `probe_seq::offset(i)`. */
  lemma WindowSlot(c: seq<bv8>, capacity: nat, o: nat, j: nat)
    requires Layout(c, capacity) && o <= capacity && j < WIDTH
    requires IsFull(Window(c, o)[j]) || (IsFree(Window(c, o)[j]) && !IsSmall(capacity))
    ensures (o + j) % (capacity + 1) < capacity
    ensures Window(c, o)[j] == c[(o + j) % (capacity + 1)]
    ensures Lag(capacity, o, (o + j) % (capacity + 1)) < WIDTH
  {
    WindowShows(c, capacity, o, j);
    if capacity == 0 {
      assert false;
    }
    WrapIsMod(o + j, capacity + 1);
  }

  /** What is not padding lies within one turn of the circle. */
  lemma SmallReach(c: seq<bv8>, capacity: nat, o: nat, j: nat)
    requires Layout(c, capacity) && o <= capacity && j < WIDTH && Window(c, o)[j] != EMPTY
    ensures o + j < 2 * (capacity + 1)
  {
    if IsSmall(capacity) {
      SmallHasEmpty(c, capacity, o);
    }
  }

  lemma FirstOffset(capacity: nat, home: nat)
    requires home <= capacity
    ensures Offset(capacity, home, 0) == home
  {
    assert home + WIDTH * Triangular(0) == home;
  }

  /** The index of a probe in the first round stays below the capacity. */
  lemma IndexBound(capacity: nat, p: nat)
    requires LegalCapacity(capacity) && 0 < p < Groups(capacity)
    ensures WIDTH * p < capacity
  {
    LegalGroups(capacity);
  }
}
