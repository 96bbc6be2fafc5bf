/** The Left-Right maps as an interleaving of atomic steps: any number of readers and one writer
    that holds the lock, over two copies of a map, two arrival counters and a toggle. Memory is
    sequentially consistent. */
module LeftRight {
  import opened MapSpec

  const BUCKETS := 32

  /** Where a reading thread is. It remembers the version it arrived under; `seen` is the map the
      structure stood for when the thread loaded the toggle, and `got` is what it read. */
  datatype Reader<K, V> =
    | Outside
    | Chosen(v: nat)
    | Arrived(v: nat)
    | Inside(v: nat, copy: nat, seen: map<K, V>)
    | Leaving(v: nat, seen: map<K, V>, got: map<K, V>)

  /** Where the writer is. The two drains add up the buckets of a counter one at a time. */
  datatype Phase = First | Toggling | DrainNext(b: nat, sum: int) | Flipping | DrainPrev(b: nat, sum: int) | Second

  /** The writer: `lr` and `v` are what it loaded at the start, `fore` and `back` the contents of
      the copy it changes first and second, `before` the map when the lock was taken. */
  datatype Writer<K, V> =
    | Idle
    | Busy(phase: Phase, write: Write<K, V>, lr: nat, v: nat, fore: map<K, V>, back: map<K, V>,
           before: map<K, V>, report: bool, undoing: bool)

  /** `bucket` gives the counter bucket of each thread; `abs` is the map the structure stands for. */
  datatype State<K, V> = State(readers: seq<Reader<K, V>>, bucket: seq<nat>, counts: seq<seq<int>>,
                               maps: seq<map<K, V>>, versionIdx: nat, leftRight: nat,
                               writer: Writer<K, V>, abs: map<K, V>)

  // ---- the steps ----

  ghost predicate Shape<K, V>(s: State<K, V>) {
    && |s.bucket| == |s.readers| && (forall t | 0 <= t < |s.readers| :: s.bucket[t] < BUCKETS)
    && |s.counts| == 2 && |s.counts[0]| == BUCKETS && |s.counts[1]| == BUCKETS
    && |s.maps| == 2 && s.versionIdx < 2 && s.leftRight < 2
    && (forall t | 0 <= t < |s.readers| && !s.readers[t].Outside? :: s.readers[t].v < 2)
    && (forall t | 0 <= t < |s.readers| && s.readers[t].Inside? :: s.readers[t].copy < 2)
    && (s.writer.Busy? ==> s.writer.lr < 2 && s.writer.v < 2)
  }

  ghost function Counted<K, V>(s: State<K, V>, t: nat, delta: int): seq<seq<int>>
    requires Shape(s) && t < |s.readers| && !s.readers[t].Outside?
  {
    var v, b := s.readers[t].v, s.bucket[t];
    s.counts[v := s.counts[v][b := s.counts[v][b] + delta]]
  }

  /** One step of reader `t`: load the version, arrive, load the toggle, read, depart. */
  ghost function ReaderStep<K, V>(s: State<K, V>, t: nat): State<K, V>
    requires Shape(s) && t < |s.readers|
  {
    match s.readers[t]
    case Outside => s.(readers := s.readers[t := Chosen(s.versionIdx)])
    case Chosen(v) => s.(readers := s.readers[t := Arrived(v)], counts := Counted(s, t, 1))
    case Arrived(v) => s.(readers := s.readers[t := Inside(v, s.leftRight, s.abs)])
    case Inside(v, c, seen) => s.(readers := s.readers[t := Leaving(v, seen, s.maps[c])])
    case Leaving(v, seen, got) => s.(readers := s.readers[t := Outside], counts := Counted(s, t, -1))
  }

  /** Load the toggle and the version, which only the holder of the lock changes, and start. */
  ghost function Begin<K, V>(s: State<K, V>, w: Write<K, V>, before: map<K, V>, report: bool, undoing: bool)
    : State<K, V>
    requires Shape(s)
  {
    s.(writer := Busy(First, w, s.leftRight, s.versionIdx, s.maps[1 - s.leftRight], s.maps[s.leftRight],
                      before, report, undoing))
  }

  ghost function At<K, V>(s: State<K, V>, phase: Phase): State<K, V>
    requires s.writer.Busy?
  {
    s.(writer := s.writer.(phase := phase))
  }

  /** An insertion of a new key may fail for lack of memory and then leaves the copy as it was, and
      so may an upsert in the first copy; the erasures that undo an insertion cannot. */
  ghost predicate MayFail<K, V>(w: Writer<K, V>, m: map<K, V>) {
    w.Busy? && !w.undoing && (w.write.Insert? || (w.write.Upsert? && w.phase.First?)) && w.write.key !in m
  }

  /** Changing the first copy. Meanwhile anything may stand in it. */
  ghost predicate FirstStep<K, V>(s: State<K, V>, s': State<K, V>)
    requires Shape(s) && s.writer.Busy?
  {
    var w := s.writer;
    || Scribbles(s, s', 1 - w.lr)
    || s' == s.(maps := s.maps[1 - w.lr := Applied(w.fore, w.write)],
                writer := w.(phase := Toggling, report := Reported(w.fore, w.write)))
    || (MayFail(w, w.fore) && s' == s.(maps := s.maps[1 - w.lr := w.fore], writer := Idle))
  }

  /** Changing the second copy. A failure starts over with the erasure of the new key. */
  ghost predicate SecondStep<K, V>(s: State<K, V>, s': State<K, V>)
    requires Shape(s) && s.writer.Busy?
  {
    var w := s.writer;
    || Scribbles(s, s', w.lr)
    || s' == s.(maps := s.maps[w.lr := Applied(w.back, w.write)], writer := Idle)
    || (MayFail(w, w.back)
        && s' == Begin(s.(maps := s.maps[w.lr := w.back]), Erase(w.write.key), w.before, w.report, true))
  }

  ghost predicate WriterStep<K, V>(s: State<K, V>, s': State<K, V>)
    requires Shape(s)
  {
    if s.writer.Idle? then
      s'.writer.Busy? && s' == Begin(s, s'.writer.write, s.abs, s'.writer.report, false)
    else
      var v := s.writer.v;
      match s.writer.phase
      case First => FirstStep(s, s')
      case Toggling =>
        s' == At(s, DrainNext(0, 0)).(leftRight := 1 - s.writer.lr, abs := Applied(s.abs, s.writer.write))
      case DrainNext(b, sum) =>
        s' == At(s, if b < BUCKETS then DrainNext(b + 1, sum + s.counts[1 - v][b])
                    else if sum == 0 then Flipping else DrainNext(0, 0))
      case Flipping => s' == At(s, DrainPrev(0, 0)).(versionIdx := 1 - v)
      case DrainPrev(b, sum) =>
        s' == At(s, if b < BUCKETS then DrainPrev(b + 1, sum + s.counts[v][b])
                    else if sum == 0 then Second else DrainPrev(0, 0))
      case Second => SecondStep(s, s')
  }

  ghost predicate Scribbles<K, V>(s: State<K, V>, s': State<K, V>, c: nat)
    requires Shape(s) && c < 2
  {
    |s'.maps| == 2 && s' == s.(maps := s.maps[c := s'.maps[c]])
  }

  ghost predicate Next<K, V>(s: State<K, V>, s': State<K, V>) {
    Shape(s) && ((exists t: nat :: t < |s.readers| && s' == ReaderStep(s, t)) || WriterStep(s, s'))
  }

  ghost predicate Init<K, V>(s: State<K, V>) {
    && Shape(s) && s.writer.Idle? && s.abs == map[] && s.maps == [map[], map[]]
    && (forall t | 0 <= t < |s.readers| :: s.readers[t].Outside?)
    && (forall v, b | 0 <= v < 2 && 0 <= b < BUCKETS :: s.counts[v][b] == 0)
  }

  // ---- the invariant ----

  /** Between `arrive` and `depart` a thread is counted under the version it chose. */
  predicate IsCounted<K, V>(r: Reader<K, V>, v: nat) {
    (r.Arrived? || r.Inside? || r.Leaving?) && r.v == v
  }

  ghost function Holders<K, V>(s: State<K, V>, v: nat, b: nat): set<int>
    requires Shape(s)
  {
    set t | 0 <= t < |s.readers| && s.bucket[t] == b && IsCounted(s.readers[t], v)
  }

  ghost predicate CountsExact<K, V>(s: State<K, V>)
    requires Shape(s)
  {
    forall v: nat, b: nat | v < 2 && b < BUCKETS :: s.counts[v][b] == |Holders(s, v, b)|
  }

  /** Readers still inside the copy the toggle no longer points at. */
  predicate Stale<K, V>(s: State<K, V>, t: nat)
    requires t < |s.readers|
  {
    s.readers[t].Inside? && s.readers[t].copy != s.leftRight
  }

  ghost predicate NoStale<K, V>(s: State<K, V>) {
    forall t: nat | t < |s.readers| :: !Stale(s, t)
  }

  /** Stale readers that arrived under version `v` are counted in bucket `b` or later. */
  ghost predicate StaleFrom<K, V>(s: State<K, V>, v: nat, b: nat)
    requires Shape(s)
  {
    forall t: nat | t < |s.readers| && Stale(s, t) && s.readers[t].v == v :: b <= s.bucket[t]
  }

  /** What the scans have shown so far: no stale reader in the buckets read as zero. */
  ghost predicate DrainKnows<K, V>(s: State<K, V>)
    requires Shape(s)
  {
    if s.writer.Idle? then NoStale(s) else
      var v := s.writer.v;
      match s.writer.phase
      case First => NoStale(s)
      case Toggling => NoStale(s)
      case DrainNext(b, sum) => 0 <= sum && b <= BUCKETS && (sum == 0 ==> StaleFrom(s, 1 - v, b))
      case Flipping => StaleFrom(s, 1 - v, BUCKETS)
      case DrainPrev(b, sum) =>
        0 <= sum && b <= BUCKETS && StaleFrom(s, 1 - v, BUCKETS) && (sum == 0 ==> StaleFrom(s, v, b))
      case Second => NoStale(s)
  }

  /** A thread inside a copy finds there the map it saw when it loaded the toggle. */
  ghost predicate ReadersSee<K, V>(s: State<K, V>)
    requires Shape(s)
  {
    && (forall t | 0 <= t < |s.readers| && s.readers[t].Inside? :: s.maps[s.readers[t].copy] == s.readers[t].seen)
    && (forall t | 0 <= t < |s.readers| && s.readers[t].Leaving? :: s.readers[t].got == s.readers[t].seen)
  }

  /** The two copies, phase by phase. */
  ghost predicate CopiesAgree<K, V>(s: State<K, V>)
    requires Shape(s)
  {
    && s.maps[s.leftRight] == s.abs
    && if s.writer.Idle? then s.maps[1 - s.leftRight] == s.abs else
         var w := s.writer;
         && w.fore == w.before && Undo(w)
         && (w.phase.First? || w.phase.Toggling? ==> w.lr == s.leftRight && w.v == s.versionIdx && s.abs == w.back)
         && (w.phase.Toggling? ==> s.maps[1 - w.lr] == Applied(w.fore, w.write))
         && (w.phase.DrainNext? || w.phase.Flipping? || w.phase.DrainPrev? ==> s.maps[w.lr] == w.back)
         && (!w.phase.First? && !w.phase.Toggling? ==> w.lr == 1 - s.leftRight && s.abs == Applied(w.fore, w.write))
         && (w.phase.DrainNext? || w.phase.Flipping? ==> s.versionIdx == w.v)
         && (w.phase.DrainPrev? || w.phase.Second? ==> s.versionIdx == 1 - w.v)
         && (!w.undoing && !w.phase.First? ==> w.report == Reported(w.before, w.write))
  }

  /** What the writer started from: two equal copies, or, to undo an insertion, one copy without
      the key and one with it. */
  ghost predicate Undo<K, V>(w: Writer<K, V>)
    requires w.Busy?
  {
    if w.undoing then
      && w.write.Erase? && w.write.key !in w.before
      && w.write.key in w.back && w.back - {w.write.key} == w.before
    else w.back == w.before
  }

  ghost predicate Inv<K, V>(s: State<K, V>) {
    Shape(s) && CountsExact(s) && DrainKnows(s) && ReadersSee(s) && CopiesAgree(s)
  }

  // ---- every step keeps the invariant ----

  lemma InitInv<K, V>(s: State<K, V>)
    requires Init(s)
    ensures Inv(s)
  {
    forall v: nat, b: nat | v < 2 && b < BUCKETS ensures s.counts[v][b] == |Holders(s, v, b)| {
      assert Holders(s, v, b) == {};
    }
  }

  lemma ReaderShape<K, V>(s: State<K, V>, t: nat)
    requires Shape(s) && t < |s.readers|
    ensures Shape(ReaderStep(s, t))
  {}

  /** When one reader moves, the threads counted in a bucket change by at most that reader. */
  lemma HoldersMove<K, V>(s: State<K, V>, d: State<K, V>, t: nat, v: nat, b: nat)
    requires Shape(s) && Shape(d) && t < |s.readers| && d.bucket == s.bucket
    requires d.readers == s.readers[t := d.readers[t]]
    ensures Holders(d, v, b) == if d.bucket[t] == b && IsCounted(d.readers[t], v) then Holders(s, v, b) + {t as int}
                                else Holders(s, v, b) - {t as int}
    ensures t as int in Holders(s, v, b) <==> s.bucket[t] == b && IsCounted(s.readers[t], v)
  {}

  /** Arriving and departing count one thread in or out of its bucket and no other. */
  lemma ReaderCount<K, V>(s: State<K, V>, t: nat, v: nat, b: nat)
    requires Shape(s) && t < |s.readers| && v < 2 && b < BUCKETS
    ensures Shape(ReaderStep(s, t))
    ensures ReaderStep(s, t).counts[v][b] - s.counts[v][b] ==
            if s.readers[t].Outside? || s.readers[t].v != v || s.bucket[t] != b then 0
            else if s.readers[t].Chosen? then 1 else if s.readers[t].Leaving? then -1 else 0
  {}

  lemma ReaderCounts<K, V>(s: State<K, V>, t: nat)
    requires Shape(s) && CountsExact(s) && t < |s.readers|
    ensures Shape(ReaderStep(s, t)) && CountsExact(ReaderStep(s, t))
  {
    ReaderShape(s, t);
    forall v: nat, b: nat | v < 2 && b < BUCKETS
      ensures ReaderStep(s, t).counts[v][b] == |Holders(ReaderStep(s, t), v, b)|
    {
      HoldersMove(s, ReaderStep(s, t), t, v, b);
      ReaderCount(s, t, v, b);
    }
  }

  /** A reader's step never makes a reader stale. */
  lemma ReaderStale<K, V>(s: State<K, V>, t: nat)
    requires Shape(s) && DrainKnows(s) && t < |s.readers|
    ensures Shape(ReaderStep(s, t)) && DrainKnows(ReaderStep(s, t))
  {
    var d := ReaderStep(s, t);
    assert forall u: nat | u < |s.readers| && Stale(d, u) :: Stale(s, u) && d.readers[u] == s.readers[u];
  }

  lemma ReaderSees<K, V>(s: State<K, V>, t: nat)
    requires Shape(s) && ReadersSee(s) && CopiesAgree(s) && t < |s.readers|
    ensures Shape(ReaderStep(s, t)) && ReadersSee(ReaderStep(s, t))
  {}

  lemma ReaderCopies<K, V>(s: State<K, V>, t: nat)
    requires Shape(s) && CopiesAgree(s) && t < |s.readers|
    ensures Shape(ReaderStep(s, t)) && CopiesAgree(ReaderStep(s, t))
  {}

  /** The writer touches no reader and no counter. */
  lemma WriterFrame<K, V>(s: State<K, V>, s': State<K, V>)
    requires Shape(s) && WriterStep(s, s')
    ensures Shape(s') && s'.readers == s.readers && s'.bucket == s.bucket && s'.counts == s.counts
    ensures s'.leftRight == s.leftRight || (s.writer.Busy? && s.writer.phase.Toggling?)
  {}

  lemma WriterCounts<K, V>(s: State<K, V>, s': State<K, V>)
    requires Shape(s) && CountsExact(s) && Shape(s')
    requires s'.readers == s.readers && s'.bucket == s.bucket && s'.counts == s.counts
    ensures CountsExact(s')
  {
    forall v: nat, b: nat | v < 2 && b < BUCKETS ensures s'.counts[v][b] == |Holders(s', v, b)| {
      assert Holders(s', v, b) == Holders(s, v, b);
    }
  }

  /** A bucket read as zero holds no thread. */
  lemma ZeroIsEmpty<K, V>(s: State<K, V>, v: nat, b: nat)
    requires Shape(s) && CountsExact(s) && v < 2 && b < BUCKETS
    ensures 0 <= s.counts[v][b]
    ensures s.counts[v][b] == 0 && StaleFrom(s, v, b) ==> StaleFrom(s, v, b + 1)
  {
    forall t: nat | t < |s.readers| && Stale(s, t) && s.readers[t].v == v && s.bucket[t] == b
      ensures s.counts[v][b] != 0
    {
      assert t as int in Holders(s, v, b);
    }
  }

  /** When the toggle stays, who is stale stays. */
  lemma SameStale<K, V>(s: State<K, V>, s': State<K, V>)
    requires Shape(s) && Shape(s') && s'.readers == s.readers && s'.bucket == s.bucket && s'.leftRight == s.leftRight
    ensures NoStale(s) <==> NoStale(s')
    ensures forall v: nat, b: nat {:trigger StaleFrom(s', v, b)} :: StaleFrom(s, v, b) <==> StaleFrom(s', v, b)
  {
    assert forall t: nat | t < |s.readers| :: Stale(s, t) == Stale(s', t);
  }

  lemma NoneLeft<K, V>(s: State<K, V>)
    requires Shape(s) && StaleFrom(s, 0, BUCKETS) && StaleFrom(s, 1, BUCKETS)
    ensures NoStale(s)
  {}

  lemma NextDrain<K, V>(s: State<K, V>, s': State<K, V>)
    requires Shape(s) && CountsExact(s) && DrainKnows(s) && WriterStep(s, s')
    requires s.writer.Busy? && s.writer.phase.DrainNext?
    ensures Shape(s') && DrainKnows(s')
  {
    var b := s.writer.phase.b;
    if b < BUCKETS {
      ZeroIsEmpty(s, 1 - s.writer.v, b);
    }
    SameStale(s, s');
  }

  lemma PrevDrain<K, V>(s: State<K, V>, s': State<K, V>)
    requires Shape(s) && CountsExact(s) && DrainKnows(s) && WriterStep(s, s')
    requires s.writer.Busy? && s.writer.phase.DrainPrev?
    ensures Shape(s') && DrainKnows(s')
  {
    var b := s.writer.phase.b;
    if b < BUCKETS {
      ZeroIsEmpty(s, s.writer.v, b);
    } else if s.writer.phase.sum == 0 {
      NoneLeft(s);
    }
    SameStale(s, s');
  }

  lemma WriterStale<K, V>(s: State<K, V>, s': State<K, V>)
    requires Shape(s) && CountsExact(s) && DrainKnows(s) && WriterStep(s, s')
    ensures Shape(s') && DrainKnows(s')
  {
    WriterFrame(s, s');
    if s.writer.Busy? && s.writer.phase.DrainNext? {
      NextDrain(s, s');
    } else if s.writer.Busy? && s.writer.phase.DrainPrev? {
      PrevDrain(s, s');
    } else if s'.leftRight == s.leftRight {
      SameStale(s, s');
    }
  }

  /** The copy the toggle points at is never written, and the other only when nobody is in it. */
  lemma WriterExcluded<K, V>(s: State<K, V>, s': State<K, V>)
    requires Shape(s) && DrainKnows(s) && CopiesAgree(s) && WriterStep(s, s')
    ensures Shape(s') && s'.maps[s.leftRight] == s.maps[s.leftRight]
    ensures s'.maps[1 - s.leftRight] != s.maps[1 - s.leftRight] ==> NoStale(s)
  {}

  lemma WriterSees<K, V>(s: State<K, V>, s': State<K, V>)
    requires Inv(s) && WriterStep(s, s')
    ensures Shape(s') && ReadersSee(s')
  {
    WriterFrame(s, s');
    WriterExcluded(s, s');
    forall t: nat | t < |s.readers| && s.readers[t].Inside?
      ensures s'.maps[s.readers[t].copy] == s.readers[t].seen
    {
      assert NoStale(s) ==> !Stale(s, t);
    }
  }

  lemma FirstCopies<K, V>(s: State<K, V>, s': State<K, V>)
    requires Shape(s) && CopiesAgree(s) && s.writer.Busy? && s.writer.phase.First? && FirstStep(s, s')
    ensures Shape(s') && CopiesAgree(s')
  {}

  lemma SecondCopies<K, V>(s: State<K, V>, s': State<K, V>)
    requires Shape(s) && CopiesAgree(s) && s.writer.Busy? && s.writer.phase.Second? && SecondStep(s, s')
    ensures Shape(s') && CopiesAgree(s')
  {}

  lemma ToggleCopies<K, V>(s: State<K, V>, s': State<K, V>)
    requires Shape(s) && CopiesAgree(s) && s.writer.Busy? && s.writer.phase.Toggling? && WriterStep(s, s')
    ensures Shape(s') && CopiesAgree(s')
  {}

  lemma DrainCopies<K, V>(s: State<K, V>, s': State<K, V>)
    requires Shape(s) && CopiesAgree(s) && s.writer.Busy?
    requires s.writer.phase.DrainNext? || s.writer.phase.Flipping? || s.writer.phase.DrainPrev?
    requires WriterStep(s, s')
    ensures Shape(s') && CopiesAgree(s')
  {
    assert s'.maps == s.maps && s'.abs == s.abs && s'.leftRight == s.leftRight;
    assert s'.writer == s.writer.(phase := s'.writer.phase);
  }

  lemma WriterCopies<K, V>(s: State<K, V>, s': State<K, V>)
    requires Shape(s) && CopiesAgree(s) && WriterStep(s, s')
    ensures Shape(s') && CopiesAgree(s')
  {
    if s.writer.Busy? {
      match s.writer.phase
      case First => FirstCopies(s, s');
      case Toggling => ToggleCopies(s, s');
      case Second => SecondCopies(s, s');
      case _ => DrainCopies(s, s');
    }
  }

  /** One step of any thread. */
  lemma NextInv<K, V>(s: State<K, V>, s': State<K, V>)
    requires Inv(s) && Next(s, s')
    ensures Inv(s')
  {
    if t: nat :| t < |s.readers| && s' == ReaderStep(s, t) {
      ReaderCounts(s, t);
      ReaderStale(s, t);
      ReaderSees(s, t);
      ReaderCopies(s, t);
    } else {
      WriterFrame(s, s');
      WriterCounts(s, s');
      WriterStale(s, s');
      WriterSees(s, s');
      WriterCopies(s, s');
    }
  }
}
