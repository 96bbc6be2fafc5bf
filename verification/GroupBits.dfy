/** The portable eight-byte control group: bit formulas on one 64-bit word, and what they
    mean for the eight control bytes packed in it. */
module GroupBits {
  const WIDTH: nat := 8

  const MSBS: bv64 := 0x8080808080808080
  const LSBS: bv64 := 0x0101010101010101

  const EMPTY: bv8 := 0x80
  const DELETED: bv8 := 0xFE
  const SENTINEL: bv8 := 0xFF

  predicate IsFull(c: bv8) {
    c < 0x80
  }

  /** The byte is an empty or a deleted slot, so an entry may be placed there. */
  predicate IsFree(c: bv8) {
    c == EMPTY || c == DELETED
  }

  /** Every byte ever stored in a control array is one of these. */
  predicate IsCtrl(c: bv8) {
    IsFull(c) || c == EMPTY || c == DELETED || c == SENTINEL
  }

  ghost predicate AllCtrl(s: seq<bv8>) {
    forall i | 0 <= i < |s| :: IsCtrl(s[i])
  }

  /** The upper bits of a hash choose the home offset, the lower seven mark the slot. */
  function H1(hash: bv64, seed: bv64): bv64 {
    (hash >> 7) ^ seed
  }

  function H2(hash: bv64): (c: bv8)
    ensures IsFull(c)
  {
    (hash & 0x7F) as bv8
  }

  // ---- loading and storing a word ----

  function Pack(b0: bv8, b1: bv8, b2: bv8, b3: bv8, b4: bv8, b5: bv8, b6: bv8, b7: bv8): bv64 {
    (((((((((((((((b7 as bv64) << 8) | (b6 as bv64)) << 8) | (b5 as bv64)) << 8) | (b4 as bv64)) << 8)
      | (b3 as bv64)) << 8) | (b2 as bv64)) << 8) | (b1 as bv64)) << 8) | (b0 as bv64))
  }

  /** The little-endian word read from eight consecutive bytes. */
  function Load(s: seq<bv8>): bv64
    requires |s| == WIDTH
  {
    Pack(s[0], s[1], s[2], s[3], s[4], s[5], s[6], s[7])
  }

  /** Byte `i` of a word, as storing the word to memory writes it. */
  function Lane(w: bv64, i: nat): bv8 {
    if i == 0 then (w & 0xFF) as bv8 else Lane(w >> 8, i - 1)
  }

  lemma PackShift(b0: bv8, b1: bv8, b2: bv8, b3: bv8, b4: bv8, b5: bv8, b6: bv8, b7: bv8)
    ensures Pack(b0, b1, b2, b3, b4, b5, b6, b7) >> 8 == Pack(b1, b2, b3, b4, b5, b6, b7, 0)
    ensures Lane(Pack(b0, b1, b2, b3, b4, b5, b6, b7), 0) == b0
  {}

  /** Loading keeps every byte: lane `i` of the word is byte `i` of the memory. */
  lemma {:induction false} LoadLane(s: seq<bv8>, i: nat)
    requires |s| == WIDTH && i < WIDTH
    ensures Lane(Load(s), i) == s[i]
    decreases i
  {
    PackShift(s[0], s[1], s[2], s[3], s[4], s[5], s[6], s[7]);
    if i > 0 {
      LoadLane(s[1..] + [0], i - 1);
    }
  }

  // ---- the group formulas ----

  function MatchWord(w: bv64, h: bv8): bv64 {
    Underflows(w ^ (LSBS * (h as bv64)))
  }

  /** Xor with the repeated hash byte, byte by byte. */
  function XorBytes(w: bv64, h: bv8): bv64 {
    Pack(((w & 0xFF) as bv8) ^ h, (((w >> 8) & 0xFF) as bv8) ^ h, (((w >> 16) & 0xFF) as bv8) ^ h,
      (((w >> 24) & 0xFF) as bv8) ^ h, (((w >> 32) & 0xFF) as bv8) ^ h, (((w >> 40) & 0xFF) as bv8) ^ h,
      (((w >> 48) & 0xFF) as bv8) ^ h, (((w >> 56) & 0xFF) as bv8) ^ h)
  }

  lemma XorBytesIsXor(w: bv64, h: bv8)
    ensures w ^ (LSBS * (h as bv64)) == XorBytes(w, h)
  {}

  function MatchBytes(w: bv64, h: bv8): bv64 {
    Underflows(XorBytes(w, h))
  }

  lemma MatchWordIsBytes(w: bv64, h: bv8)
    ensures MatchWord(w, h) == MatchBytes(w, h)
  {
    XorBytesIsXor(w, h);
  }

  function Underflows(x: bv64): bv64 {
    (x - LSBS) & !x & MSBS
  }

  function MatchEmptyWord(w: bv64): bv64 {
    (w & (!w << 6)) & MSBS
  }

  function MatchEmptyOrDeletedWord(w: bv64): bv64 {
    (w & (!w << 7)) & MSBS
  }

  function ConvertWord(w: bv64): bv64 {
    var x := w & MSBS;
    (!x + (x >> 7)) & !LSBS
  }

  // ---- the formulas on eight given bytes ----

  function Mark(b: bool): bv8 {
    if b then 0x80 else 0
  }

  lemma MatchEmptyEight(b0: bv8, b1: bv8, b2: bv8, b3: bv8, b4: bv8, b5: bv8, b6: bv8, b7: bv8)
    requires IsCtrl(b0) && IsCtrl(b1) && IsCtrl(b2) && IsCtrl(b3)
    requires IsCtrl(b4) && IsCtrl(b5) && IsCtrl(b6) && IsCtrl(b7)
    ensures MatchEmptyWord(Pack(b0, b1, b2, b3, b4, b5, b6, b7)) ==
            Pack(Mark(b0 == EMPTY), Mark(b1 == EMPTY), Mark(b2 == EMPTY), Mark(b3 == EMPTY), Mark(b4 == EMPTY),
              Mark(b5 == EMPTY), Mark(b6 == EMPTY), Mark(b7 == EMPTY))
  {}

  lemma MatchEmptyOrDeletedEight(b0: bv8, b1: bv8, b2: bv8, b3: bv8, b4: bv8, b5: bv8, b6: bv8, b7: bv8)
    requires IsCtrl(b0) && IsCtrl(b1) && IsCtrl(b2) && IsCtrl(b3)
    requires IsCtrl(b4) && IsCtrl(b5) && IsCtrl(b6) && IsCtrl(b7)
    ensures MatchEmptyOrDeletedWord(Pack(b0, b1, b2, b3, b4, b5, b6, b7)) ==
            Pack(Mark(IsFree(b0)), Mark(IsFree(b1)), Mark(IsFree(b2)), Mark(IsFree(b3)), Mark(IsFree(b4)),
              Mark(IsFree(b5)), Mark(IsFree(b6)), Mark(IsFree(b7)))
  {}

  lemma ConvertEight(b0: bv8, b1: bv8, b2: bv8, b3: bv8, b4: bv8, b5: bv8, b6: bv8, b7: bv8)
    ensures ConvertWord(Pack(b0, b1, b2, b3, b4, b5, b6, b7)) ==
            Pack(if IsFull(b0) then DELETED else EMPTY, if IsFull(b1) then DELETED else EMPTY,
              if IsFull(b2) then DELETED else EMPTY, if IsFull(b3) then DELETED else EMPTY,
              if IsFull(b4) then DELETED else EMPTY, if IsFull(b5) then DELETED else EMPTY,
              if IsFull(b6) then DELETED else EMPTY, if IsFull(b7) then DELETED else EMPTY)
  {}

  lemma XorByte(b: bv8, h: bv8)
    ensures b ^ h == 0 <==> b == h
    ensures b ^ h == 1 <==> b == h ^ 1
  {}

  /** Subtracting one from every byte: a byte underflows when it is zero, or when it is one
      and the byte below underflows. */
  lemma SubtractEight(x0: bv8, x1: bv8, x2: bv8, x3: bv8, x4: bv8, x5: bv8, x6: bv8, x7: bv8)
    ensures var r0 := x0 == 0;
            var r1 := x1 == 0 || (x1 == 1 && r0);
            var r2 := x2 == 0 || (x2 == 1 && r1);
            var r3 := x3 == 0 || (x3 == 1 && r2);
            var r4 := x4 == 0 || (x4 == 1 && r3);
            var r5 := x5 == 0 || (x5 == 1 && r4);
            var r6 := x6 == 0 || (x6 == 1 && r5);
            var r7 := x7 == 0 || (x7 == 1 && r6);
            Underflows(Pack(x0, x1, x2, x3, x4, x5, x6, x7)) ==
            Pack(Mark(r0), Mark(r1), Mark(r2), Mark(r3), Mark(r4), Mark(r5), Mark(r6), Mark(r7))
  {}

  lemma PackBytes(b0: bv8, b1: bv8, b2: bv8, b3: bv8, b4: bv8, b5: bv8, b6: bv8, b7: bv8)
    ensures var w := Pack(b0, b1, b2, b3, b4, b5, b6, b7);
            && ((w & 0xFF) as bv8) == b0 && (((w >> 8) & 0xFF) as bv8) == b1
            && (((w >> 16) & 0xFF) as bv8) == b2 && (((w >> 24) & 0xFF) as bv8) == b3
            && (((w >> 32) & 0xFF) as bv8) == b4 && (((w >> 40) & 0xFF) as bv8) == b5
            && (((w >> 48) & 0xFF) as bv8) == b6 && (((w >> 56) & 0xFF) as bv8) == b7
  {}

  /** `Match` reports byte `i` when it equals the hash, or differs from it in the lowest bit
      only while the byte below is reported. */
  lemma MatchEight(b0: bv8, b1: bv8, b2: bv8, b3: bv8, b4: bv8, b5: bv8, b6: bv8, b7: bv8, h: bv8)
    ensures
            var r0 := b0 == h;
            var r1 := b1 == h || (b1 == h ^ 1 && r0);
            var r2 := b2 == h || (b2 == h ^ 1 && r1);
            var r3 := b3 == h || (b3 == h ^ 1 && r2);
            var r4 := b4 == h || (b4 == h ^ 1 && r3);
            var r5 := b5 == h || (b5 == h ^ 1 && r4);
            var r6 := b6 == h || (b6 == h ^ 1 && r5);
            var r7 := b7 == h || (b7 == h ^ 1 && r6);
            MatchBytes(Pack(b0, b1, b2, b3, b4, b5, b6, b7), h) ==
            Pack(Mark(r0), Mark(r1), Mark(r2), Mark(r3), Mark(r4), Mark(r5), Mark(r6), Mark(r7))
  {
    PackBytes(b0, b1, b2, b3, b4, b5, b6, b7);
    XorByte(b0, h); XorByte(b1, h); XorByte(b2, h); XorByte(b3, h);
    XorByte(b4, h); XorByte(b5, h); XorByte(b6, h); XorByte(b7, h);
    SubtractEight(b0 ^ h, b1 ^ h, b2 ^ h, b3 ^ h, b4 ^ h, b5 ^ h, b6 ^ h, b7 ^ h);
  }

  // ---- bit masks ----

  /** Counting trailing zeroes by isolating the lowest set bit. */
  function CountTrailingZeroes(x: bv64): int {
    var y := x & (!x + 1);
    63 - (if y & 0x00000000FFFFFFFF != 0 then 32 else 0)
       - (if y & 0x0000FFFF0000FFFF != 0 then 16 else 0)
       - (if y & 0x00FF00FF00FF00FF != 0 then 8 else 0)
       - (if y & 0x0F0F0F0F0F0F0F0F != 0 then 4 else 0)
       - (if y & 0x3333333333333333 != 0 then 2 else 0)
       - (if y & 0x5555555555555555 != 0 then 1 else 0)
  }

  /** Counting leading zeroes by halving, with the four-bit table at the end. */
  function CountLeadingZeroes(x: bv64): int {
    var (z0, x0) := if x >> 32 != 0 then (28, x >> 32) else (60, x);
    var (z1, x1) := if x0 >> 16 != 0 then (z0 - 16, x0 >> 16) else (z0, x0);
    var (z2, x2) := if x1 >> 8 != 0 then (z1 - 8, x1 >> 8) else (z1, x1);
    var (z3, x3) := if x2 >> 4 != 0 then (z2 - 4, x2 >> 4) else (z2, x2);
    z3 + (if x3 == 0 then 4 else if x3 == 1 then 3 else if x3 <= 3 then 2 else if x3 <= 7 then 1 else 0)
  }

  lemma NonzeroEight(f0: bool, f1: bool, f2: bool, f3: bool, f4: bool, f5: bool, f6: bool, f7: bool)
    ensures Pack(Mark(f0), Mark(f1), Mark(f2), Mark(f3), Mark(f4), Mark(f5), Mark(f6), Mark(f7)) != 0 <==>
            f0 || f1 || f2 || f3 || f4 || f5 || f6 || f7
  {}

  lemma TrailingEight(f0: bool, f1: bool, f2: bool, f3: bool, f4: bool, f5: bool, f6: bool, f7: bool)
    requires f0 || f1 || f2 || f3 || f4 || f5 || f6 || f7
    ensures var m := Pack(Mark(f0), Mark(f1), Mark(f2), Mark(f3), Mark(f4), Mark(f5), Mark(f6), Mark(f7));
            CountTrailingZeroes(m) / 8 ==
            if f0 then 0 else if f1 then 1 else if f2 then 2 else if f3 then 3 else if f4 then 4
            else if f5 then 5 else if f6 then 6 else 7
  {}

  lemma LeadingEight(f0: bool, f1: bool, f2: bool, f3: bool, f4: bool, f5: bool, f6: bool, f7: bool)
    requires f0 || f1 || f2 || f3 || f4 || f5 || f6 || f7
    ensures var m := Pack(Mark(f0), Mark(f1), Mark(f2), Mark(f3), Mark(f4), Mark(f5), Mark(f6), Mark(f7));
            CountLeadingZeroes(m) / 8 ==
            7 - (if f7 then 7 else if f6 then 6 else if f5 then 5 else if f4 then 4 else if f3 then 3
                 else if f2 then 2 else if f1 then 1 else 0)
    ensures var m := Pack(Mark(f0), Mark(f1), Mark(f2), Mark(f3), Mark(f4), Mark(f5), Mark(f6), Mark(f7));
            (63 - CountLeadingZeroes(m)) / 8 ==
            (if f7 then 7 else if f6 then 6 else if f5 then 5 else if f4 then 4 else if f3 then 3
             else if f2 then 2 else if f1 then 1 else 0)
  {}

  lemma ClearEight(f0: bool, f1: bool, f2: bool, f3: bool, f4: bool, f5: bool, f6: bool, f7: bool)
    ensures var m := Pack(Mark(f0), Mark(f1), Mark(f2), Mark(f3), Mark(f4), Mark(f5), Mark(f6), Mark(f7));
            m & (m - 1) ==
            Pack(0, Mark(f1 && f0), Mark(f2 && (f0 || f1)), Mark(f3 && (f0 || f1 || f2)),
                 Mark(f4 && (f0 || f1 || f2 || f3)), Mark(f5 && (f0 || f1 || f2 || f3 || f4)),
                 Mark(f6 && (f0 || f1 || f2 || f3 || f4 || f5)),
                 Mark(f7 && (f0 || f1 || f2 || f3 || f4 || f5 || f6)))
  {}

  // ---- the same facts about eight bytes of memory ----

  /** The mask whose byte `i` is 0x80 where `f[i]` holds and 0 elsewhere. */
  function MaskOf(f: seq<bool>): bv64
    requires |f| == WIDTH
  {
    Pack(Mark(f[0]), Mark(f[1]), Mark(f[2]), Mark(f[3]), Mark(f[4]), Mark(f[5]), Mark(f[6]), Mark(f[7]))
  }

  /** Byte `i` is reported by `Match`: it equals the hash, or it is the near miss (the hash with
      its lowest bit flipped) and the byte below is reported. */
  predicate Reported(s: seq<bv8>, h: bv8, near: bv8, i: nat)
    requires i < |s|
  {
    s[i] == h || (s[i] == near && i > 0 && Reported(s, h, near, i - 1))
  }

  /** A false positive is a full byte, and a real match lies below it. */
  lemma {:induction false} FalsePositive(s: seq<bv8>, h: bv8, near: bv8, i: nat)
    requires i < |s| && IsFull(h) && near == h ^ 1 && Reported(s, h, near, i)
    ensures IsFull(s[i])
    ensures s[i] != h ==> exists j | 0 <= j < i :: s[j] == h
  {
    XorFull(h);
    if s[i] != h {
      FalsePositive(s, h, near, i - 1);
    }
  }

  lemma XorFull(h: bv8)
    requires IsFull(h)
    ensures IsFull(h ^ 1)
  {}

  function Empties(s: seq<bv8>): (f: seq<bool>)
    ensures |f| == |s|
  {
    seq(|s|, i requires 0 <= i < |s| => s[i] == EMPTY)
  }

  function Frees(s: seq<bv8>): (f: seq<bool>)
    ensures |f| == |s|
  {
    seq(|s|, i requires 0 <= i < |s| => IsFree(s[i]))
  }

  function Matches(s: seq<bv8>, h: bv8): (f: seq<bool>)
    ensures |f| == |s|
  {
    seq(|s|, i requires 0 <= i < |s| => Reported(s, h, h ^ 1, i))
  }

  function Converted(s: seq<bv8>): (t: seq<bv8>)
    ensures |t| == |s|
  {
    seq(|s|, i requires 0 <= i < |s| => if IsFull(s[i]) then DELETED else EMPTY)
  }

  lemma MatchEmptyExact(s: seq<bv8>)
    requires |s| == WIDTH && AllCtrl(s)
    ensures MatchEmptyWord(Load(s)) == MaskOf(Empties(s))
  {
    MatchEmptyEight(s[0], s[1], s[2], s[3], s[4], s[5], s[6], s[7]);
  }

  lemma MatchEmptyOrDeletedExact(s: seq<bv8>)
    requires |s| == WIDTH && AllCtrl(s)
    ensures MatchEmptyOrDeletedWord(Load(s)) == MaskOf(Frees(s))
  {
    MatchEmptyOrDeletedEight(s[0], s[1], s[2], s[3], s[4], s[5], s[6], s[7]);
  }

  lemma MatchesIsFull(s: seq<bv8>, h: bv8, i: nat)
    requires i < |s| && IsFull(h) && Matches(s, h)[i]
    ensures IsFull(s[i])
  {
    FalsePositive(s, h, h ^ 1, i);
  }

  lemma MatchesReal(s: seq<bv8>, h: bv8, i: nat)
    requires i < |s| && s[i] == h
    ensures Matches(s, h)[i]
  {}

  lemma ReportedEight(s: seq<bv8>, h: bv8, near: bv8)
    requires |s| == WIDTH
    ensures var r0 := s[0] == h;
            var r1 := s[1] == h || (s[1] == near && r0);
            var r2 := s[2] == h || (s[2] == near && r1);
            var r3 := s[3] == h || (s[3] == near && r2);
            var r4 := s[4] == h || (s[4] == near && r3);
            var r5 := s[5] == h || (s[5] == near && r4);
            var r6 := s[6] == h || (s[6] == near && r5);
            var r7 := s[7] == h || (s[7] == near && r6);
            && Reported(s, h, near, 0) == r0
            && Reported(s, h, near, 1) == r1
            && Reported(s, h, near, 2) == r2
            && Reported(s, h, near, 3) == r3
            && Reported(s, h, near, 4) == r4
            && Reported(s, h, near, 5) == r5
            && Reported(s, h, near, 6) == r6
            && Reported(s, h, near, 7) == r7
  {
    assert Reported(s, h, near, 1) <==> s[1] == h || (s[1] == near && Reported(s, h, near, 0));
    assert Reported(s, h, near, 2) <==> s[2] == h || (s[2] == near && Reported(s, h, near, 1));
    assert Reported(s, h, near, 3) <==> s[3] == h || (s[3] == near && Reported(s, h, near, 2));
    assert Reported(s, h, near, 4) <==> s[4] == h || (s[4] == near && Reported(s, h, near, 3));
    assert Reported(s, h, near, 5) <==> s[5] == h || (s[5] == near && Reported(s, h, near, 4));
    assert Reported(s, h, near, 6) <==> s[6] == h || (s[6] == near && Reported(s, h, near, 5));
    assert Reported(s, h, near, 7) <==> s[7] == h || (s[7] == near && Reported(s, h, near, 6));
  }

  lemma MatchBytesExact(s: seq<bv8>, h: bv8)
    requires |s| == WIDTH
    ensures MatchBytes(Load(s), h) == MaskOf(Matches(s, h))
  {
    ReportedEight(s, h, h ^ 1);
    MatchEight(s[0], s[1], s[2], s[3], s[4], s[5], s[6], s[7], h);
  }

  lemma MatchExact(s: seq<bv8>, h: bv8)
    requires |s| == WIDTH
    ensures MatchWord(Load(s), h) == MaskOf(Matches(s, h))
  {
    MatchBytesExact(s, h);
    MatchWordIsBytes(Load(s), h);
  }

  /** The in-place conversion, byte by byte. */
  lemma ConvertExact(s: seq<bv8>)
    requires |s| == WIDTH
    ensures ConvertWord(Load(s)) == Load(Converted(s))
  {
    ConvertEight(s[0], s[1], s[2], s[3], s[4], s[5], s[6], s[7]);
  }

  // ---- what a mask tells its user ----

  ghost predicate Lowest(f: seq<bool>, i: int) {
    0 <= i < |f| && f[i] && forall j | 0 <= j < i :: !f[j]
  }

  ghost predicate Highest(f: seq<bool>, i: int) {
    0 <= i < |f| && f[i] && forall j | i < j < |f| :: !f[j]
  }

  lemma MaskNonzero(f: seq<bool>)
    requires |f| == WIDTH
    ensures MaskOf(f) != 0 <==> exists i | 0 <= i < WIDTH :: f[i]
  {
    NonzeroEight(f[0], f[1], f[2], f[3], f[4], f[5], f[6], f[7]);
    assert MaskOf(f) != 0 ==> f[0] || f[1] || f[2] || f[3] || f[4] || f[5] || f[6] || f[7];
  }

  lemma MaskLowest(f: seq<bool>)
    requires |f| == WIDTH && MaskOf(f) != 0
    ensures Lowest(f, CountTrailingZeroes(MaskOf(f)) / 8)
  {
    NonzeroEight(f[0], f[1], f[2], f[3], f[4], f[5], f[6], f[7]);
    TrailingEight(f[0], f[1], f[2], f[3], f[4], f[5], f[6], f[7]);
  }

  lemma MaskHighest(f: seq<bool>)
    requires |f| == WIDTH && MaskOf(f) != 0
    ensures CountLeadingZeroes(MaskOf(f)) / 8 <= 7
    ensures Highest(f, 7 - CountLeadingZeroes(MaskOf(f)) / 8)
    ensures (63 - CountLeadingZeroes(MaskOf(f))) / 8 == 7 - CountLeadingZeroes(MaskOf(f)) / 8
  {
    NonzeroEight(f[0], f[1], f[2], f[3], f[4], f[5], f[6], f[7]);
    LeadingEight(f[0], f[1], f[2], f[3], f[4], f[5], f[6], f[7]);
  }

  function WithoutLowest(f: seq<bool>): seq<bool>
    requires |f| == WIDTH
  {
    [false, f[1] && (f[0]), f[2] && (f[0] || f[1]), f[3] && (f[0] || f[1] || f[2]),
     f[4] && (f[0] || f[1] || f[2] || f[3]), f[5] && (f[0] || f[1] || f[2] || f[3] || f[4]),
     f[6] && (f[0] || f[1] || f[2] || f[3] || f[4] || f[5]),
     f[7] && (f[0] || f[1] || f[2] || f[3] || f[4] || f[5] || f[6])]
  }

  lemma WithoutLowestIs(f: seq<bool>, i: nat)
    requires |f| == WIDTH && Lowest(f, i)
    ensures WithoutLowest(f) == f[i := false]
  {}

  /** `mask & (mask - 1)` drops the lowest reported byte and keeps the others. */
  lemma MaskClearLowest(f: seq<bool>)
    requires |f| == WIDTH
    ensures MaskOf(f) & (MaskOf(f) - 1) == MaskOf(WithoutLowest(f))
  {
    ClearEight(f[0], f[1], f[2], f[3], f[4], f[5], f[6], f[7]);
  }
}
