/** The ring buffer of one producer and one consumer, as an interleaving of atomic steps. The two
    counters wrap around after 64 bits, and memory is sequentially consistent. */
module RingQueue {
  import opened Arithmetic

  /** How many values a counter has. */
  const COUNTS: nat := 0x1_0000_0000_0000_0000

  /** Adding one to a counter, and subtracting a counter from another. */
  function Count(c: nat): nat {
    if c + 1 == COUNTS then 0 else c + 1
  }

  function Distance(t: nat, h: nat): int {
    if t >= h then t - h else t - h + COUNTS
  }

  /** A push in progress. While it writes its slot anything may stand there. */
  datatype Producer<T> = Resting | HasTail(item: T, tail: nat) | HasBoth(item: T, tail: nat, head: nat)
                       | Writing(item: T, tail: nat) | Written(item: T, tail: nat)

  /** A pop in progress. */
  datatype Consumer<T> = Waiting | HasHead(head: nat) | SeesBoth(head: nat, tail: nat)
                       | Reading(head: nat) | Read(head: nat, got: T)

  /** `pushed` and `popped` are the items of the pushes and pops that moved their counter. */
  datatype State<T> = State(buf: seq<T>, head: nat, tail: nat, producer: Producer<T>, consumer: Consumer<T>,
                            pushed: seq<T>, popped: seq<T>)

  /** Who moves, and what a step leaves open: the item to push, or the contents of a slot in the
      middle of a write. */
  datatype Move<T> = Push(item: T) | Scribble(junk: T) | Produce | Consume

  function Slot<T>(s: State<T>, i: nat): (k: nat)
    requires |s.buf| > 0
    ensures k < |s.buf|
  {
    i % |s.buf|
  }

  predicate CanMove<T>(s: State<T>, m: Move<T>) {
    match m
    case Push(_) => s.producer.Resting?
    case Scribble(_) => s.producer.Writing?
    case Produce => !s.producer.Resting?
    case Consume => true
  }

  /** Load the tail, load the head, compare, write the slot, and only then move the tail. */
  function Step<T>(s: State<T>, m: Move<T>): State<T>
    requires |s.buf| > 0 && CanMove(s, m)
  {
    match m
    case Push(item) => s.(producer := HasTail(item, s.tail))
    case Scribble(junk) => s.(buf := s.buf[Slot(s, s.producer.tail) := junk])
    case Produce => ProducerStep(s)
    case Consume => ConsumerStep(s)
  }

  function ProducerStep<T>(s: State<T>): State<T>
    requires |s.buf| > 0 && !s.producer.Resting?
  {
    match s.producer
    case HasTail(item, t) => s.(producer := HasBoth(item, t, s.head))
    case HasBoth(item, t, h) => s.(producer := if Distance(t, h) >= |s.buf| then Resting else Writing(item, t))
    case Writing(item, t) => s.(buf := s.buf[Slot(s, t) := item], producer := Written(item, t))
    case Written(item, t) => s.(tail := Count(s.tail), pushed := s.pushed + [item], producer := Resting)
  }

  /** Load the head, load the tail, compare, read the slot, and only then move the head. */
  function ConsumerStep<T>(s: State<T>): State<T>
    requires |s.buf| > 0
  {
    match s.consumer
    case Waiting => s.(consumer := HasHead(s.head))
    case HasHead(h) => s.(consumer := SeesBoth(h, s.tail))
    case SeesBoth(h, t) => s.(consumer := if h >= t then Waiting else Reading(h))
    case Reading(h) => s.(consumer := Read(h, s.buf[Slot(s, h)]))
    case Read(h, got) => s.(head := Count(s.head), popped := s.popped + [got], consumer := Waiting)
  }

  ghost predicate Init<T>(s: State<T>) {
    && 0 < |s.buf| < COUNTS && s.head == s.tail == 0 && s.pushed == s.popped == []
    && s.producer.Resting? && s.consumer.Waiting?
  }

  // ---- the invariant ----

  /** Each side knows its own counter exactly and the other's from the past; and there is room
      where the producer writes, and an item where the consumer reads. */
  ghost predicate SidesKnow<T>(s: State<T>) {
    && (!s.producer.Resting? ==> s.producer.tail == s.tail)
    && (s.producer.HasBoth? ==> s.producer.head <= s.head)
    && (s.producer.Writing? || s.producer.Written? ==> s.tail < s.head + |s.buf|)
    && (!s.consumer.Waiting? ==> s.consumer.head == s.head)
    && (s.consumer.SeesBoth? ==> s.consumer.tail <= s.tail)
    && (s.consumer.Reading? || s.consumer.Read? ==> s.head < s.tail)
  }

  ghost predicate Holds<T>(s: State<T>)
    requires |s.buf| > 0 && |s.pushed| == s.tail
  {
    && (forall i: nat | s.head <= i < s.tail :: s.buf[Slot(s, i)] == s.pushed[i])
    && (s.producer.Written? ==> s.buf[Slot(s, s.tail)] == s.producer.item)
    && (s.consumer.Read? && s.head < s.tail ==> s.consumer.got == s.pushed[s.head])
  }

  ghost predicate Inv<T>(s: State<T>) {
    && 0 < |s.buf| < COUNTS && s.head <= s.tail <= s.head + |s.buf|
    && |s.pushed| == s.tail && s.popped == s.pushed[..s.head]
    && SidesKnow(s) && Holds(s)
  }

  lemma SlotsDiffer<T>(s: State<T>, i: nat, j: nat)
    requires |s.buf| > 0 && i < j < i + |s.buf|
    ensures Slot(s, i) != Slot(s, j)
  {
    var n := |s.buf|;
    var q, r := i / n, i % n;
    assert i == q * n + r;
    if r + (j - i) < n {
      DivModUnique(j, q, n, r + (j - i));
    } else {
      DivModUnique(j, q + 1, n, r + (j - i) - n);
    }
  }

  /** Writing the slot of the tail disturbs no item in the ring. */
  lemma WriteKeeps<T>(s: State<T>, x: T)
    requires Inv(s) && s.tail < s.head + |s.buf|
    ensures var d := s.(buf := s.buf[Slot(s, s.tail) := x]);
            forall i: nat | s.head <= i < s.tail :: d.buf[Slot(d, i)] == s.pushed[i]
  {
    forall i: nat | s.head <= i < s.tail ensures Slot(s, i) != Slot(s, s.tail) {
      SlotsDiffer(s, i, s.tail);
    }
  }

  lemma ProducerInv<T>(s: State<T>)
    requires Inv(s) && !s.producer.Resting? && |ProducerStep(s).pushed| < COUNTS
    ensures Inv(ProducerStep(s))
  {
    if s.producer.Writing? {
      WriteKeeps(s, s.producer.item);
    }
  }

  lemma ConsumerInv<T>(s: State<T>)
    requires Inv(s) && |s.pushed| < COUNTS
    ensures Inv(ConsumerStep(s))
  {
    if s.consumer.Read? {
      assert s.pushed[..s.head + 1] == s.pushed[..s.head] + [s.pushed[s.head]];
    }
  }

  lemma StepInv<T>(s: State<T>, m: Move<T>)
    requires Inv(s) && CanMove(s, m) && |Step(s, m).pushed| < COUNTS
    ensures Inv(Step(s, m))
  {
    match m
    case Push(_) =>
    case Scribble(junk) => WriteKeeps(s, junk);
    case Produce => ProducerInv(s);
    case Consume => ConsumerInv(s);
  }

  // ---- whole runs ----

  ghost predicate Follows<T>(run: seq<State<T>>, moves: seq<Move<T>>, i: nat)
    requires 0 < i < |run| == |moves| + 1
  {
    |run[i - 1].buf| > 0 && CanMove(run[i - 1], moves[i - 1]) && run[i] == Step(run[i - 1], moves[i - 1])
  }

  ghost predicate IsRun<T>(run: seq<State<T>>, moves: seq<Move<T>>) {
    |run| == |moves| + 1 && Init(run[0]) && forall i | 0 < i < |run| :: Follows(run, moves, i)
  }

  lemma {:induction false} RunInv<T>(run: seq<State<T>>, moves: seq<Move<T>>, i: nat)
    requires IsRun(run, moves) && i < |run| && |run[i].pushed| < COUNTS
    ensures Inv(run[i])
  {
    if i > 0 {
      assert Follows(run, moves, i);
      RunInv(run, moves, i - 1);
      StepInv(run[i - 1], moves[i - 1]);
    }
  }

  /** In every run, as long as fewer items were pushed than a counter can count: the counters stay
      within a ring of each other, the pops are the pushes in order, and the producer never writes
      the slot the consumer reads. */
  lemma RingSafe<T>(run: seq<State<T>>, moves: seq<Move<T>>, i: nat)
    requires IsRun(run, moves) && i < |run| && |run[i].pushed| < COUNTS
    ensures run[i].head <= run[i].tail <= run[i].head + |run[i].buf|
    ensures run[i].popped <= run[i].pushed
    ensures |run[i].buf| > 0
    ensures run[i].producer.Writing? && run[i].consumer.Reading? ==>
              Slot(run[i], run[i].producer.tail) != Slot(run[i], run[i].consumer.head)
  {
    RunInv(run, moves, i);
    if run[i].producer.Writing? && run[i].consumer.Reading? {
      SlotsDiffer(run[i], run[i].head, run[i].tail);
    }
  }

  // ---- after the tail has wrapped ----

  /** The head stays ahead of the tail: the producer stops at a full ring, and a pop that began
      before is the last to deliver. */
  ghost predicate WrapInv<T>(s: State<T>) {
    && 0 < |s.buf| < COUNTS && |s.pushed| == COUNTS + s.tail && s.tail + COUNTS <= s.head + |s.buf| && s.head < COUNTS
    && (!s.producer.Resting? ==> s.producer.tail == s.tail)
    && (s.producer.HasBoth? ==> s.producer.head <= s.head && s.tail + COUNTS <= s.producer.head + |s.buf|)
    && (s.producer.Writing? || s.producer.Written? ==> s.tail + COUNTS < s.head + |s.buf|)
    && (!s.consumer.Waiting? ==> s.consumer.head == s.head)
    && (s.consumer.SeesBoth? ==> s.consumer.tail < COUNTS)
    && (s.consumer.Reading? || s.consumer.Read? ==> s.head + 1 < COUNTS)
  }

  /** The push whose counter wraps. */
  lemma Wraps<T>(s: State<T>, m: Move<T>)
    requires Inv(s) && CanMove(s, m) && |s.pushed| < COUNTS <= |Step(s, m).pushed|
    ensures WrapInv(Step(s, m))
  {}

  lemma WrapProducer<T>(s: State<T>)
    requires WrapInv(s) && !s.producer.Resting?
    ensures WrapInv(ProducerStep(s))
  {}

  lemma WrapConsumer<T>(s: State<T>)
    requires WrapInv(s)
    ensures WrapInv(ConsumerStep(s))
  {}

  lemma WrapStep<T>(s: State<T>, m: Move<T>)
    requires WrapInv(s) && CanMove(s, m)
    ensures WrapInv(Step(s, m))
  {
    match m
    case Push(_) =>
    case Scribble(_) =>
    case Produce => WrapProducer(s);
    case Consume => WrapConsumer(s);
  }

  lemma {:induction false} RunWraps<T>(run: seq<State<T>>, moves: seq<Move<T>>, i: nat)
    requires IsRun(run, moves) && i < |run| && |run[i].pushed| >= COUNTS
    ensures WrapInv(run[i])
  {
    assert i > 0 && Follows(run, moves, i);
    if |run[i - 1].pushed| >= COUNTS {
      RunWraps(run, moves, i - 1);
      WrapStep(run[i - 1], moves[i - 1]);
    } else {
      RunInv(run, moves, i - 1);
      Wraps(run[i - 1], moves[i - 1]);
    }
  }

  /** The head is not ahead of the tail exactly as long as fewer items were pushed than a counter can
      count, and never more are pushed than that and a ring. */
  lemma RingExact<T>(run: seq<State<T>>, moves: seq<Move<T>>, i: nat)
    requires IsRun(run, moves) && i < |run|
    ensures run[i].head <= run[i].tail <==> |run[i].pushed| < COUNTS
    ensures |run[i].pushed| < COUNTS + |run[i].buf|
  {
    if |run[i].pushed| < COUNTS {
      RunInv(run, moves, i);
    } else {
      RunWraps(run, moves, i);
    }
  }

  /** A pop that begins then never delivers. */
  ghost predicate Deaf<T>(s: State<T>) {
    s.consumer.Waiting? || s.consumer.HasHead? || (s.consumer.SeesBoth? && s.consumer.head >= s.consumer.tail)
  }

  /** Once the counter has wrapped and no pop is under way, no item is delivered any more, whatever
      the ring holds. */
  lemma {:induction false} NothingMore<T>(run: seq<State<T>>, moves: seq<Move<T>>, i: nat, j: nat)
    requires IsRun(run, moves) && i <= j < |run| && |run[i].pushed| >= COUNTS && run[i].consumer.Waiting?
    ensures |run[j].pushed| >= COUNTS && Deaf(run[j]) && run[j].popped == run[i].popped
  {
    if i < j {
      NothingMore(run, moves, i, j - 1);
      RunWraps(run, moves, j - 1);
      assert Follows(run, moves, j);
    }
  }

  // ---- such runs exist ----

  ghost predicate EndsIn<T>(run: seq<State<T>>, moves: seq<Move<T>>, s: State<T>) {
    IsRun(run, moves) && run[|run| - 1] == s
  }

  ghost predicate Reachable<T(!new)>(s: State<T>) {
    exists run: seq<State<T>>, moves: seq<Move<T>> :: EndsIn(run, moves, s)
  }

  lemma Goes<T(!new)>(s: State<T>, m: Move<T>)
    requires Reachable(s) && |s.buf| > 0 && CanMove(s, m)
    ensures Reachable(Step(s, m))
  {
    var run: seq<State<T>>, moves: seq<Move<T>> :| EndsIn(run, moves, s);
    var run', moves' := run + [Step(s, m)], moves + [m];
    forall i | 0 < i < |run'| ensures Follows(run', moves', i) {
      if i < |run| {
        assert Follows(run, moves, i);
      }
    }
    assert EndsIn(run', moves', Step(s, m));
  }

  /** A push that nobody disturbs. */
  lemma Pushes<T(!new)>(s: State<T>, x: T)
    requires Reachable(s) && |s.buf| > 0 && s.producer.Resting? && Distance(s.tail, s.head) < |s.buf|
    ensures Reachable(s.(buf := s.buf[Slot(s, s.tail) := x], tail := Count(s.tail), pushed := s.pushed + [x]))
  {
    Goes(s, Push(x));
    Goes(s.(producer := HasTail(x, s.tail)), Produce);
    Goes(s.(producer := HasBoth(x, s.tail, s.head)), Produce);
    Goes(s.(producer := Writing(x, s.tail)), Produce);
    Goes(s.(buf := s.buf[Slot(s, s.tail) := x], producer := Written(x, s.tail)), Produce);
  }

  lemma Pops<T(!new)>(s: State<T>)
    requires Reachable(s) && |s.buf| > 0 && s.consumer.Waiting? && s.head < s.tail
    ensures Reachable(s.(head := Count(s.head), popped := s.popped + [s.buf[Slot(s, s.head)]]))
  {
    Goes(s, Consume);
    Goes(s.(consumer := HasHead(s.head)), Consume);
    Goes(s.(consumer := SeesBoth(s.head, s.tail)), Consume);
    Goes(s.(consumer := Reading(s.head)), Consume);
    Goes(s.(consumer := Read(s.head, s.buf[Slot(s, s.head)])), Consume);
  }

  /** Pushing and popping one item `k` times. */
  lemma {:induction false} Rounds<T(!new)>(buf: seq<T>, x: T, k: nat) returns (s: State<T>)
    requires 0 < |buf| < COUNTS && k < COUNTS
    ensures Reachable(s) && |s.buf| == |buf| && s.producer.Resting? && s.consumer.Waiting?
    ensures s.head == s.tail == |s.pushed| == |s.popped| == k
    decreases k
  {
    if k == 0 {
      s := State(buf, 0, 0, Resting, Waiting, [], []);
      assert EndsIn([s], [], s);
    } else {
      var r := Rounds(buf, x, k - 1);
      Pushes(r, x);
      s := r.(buf := r.buf[Slot(r, r.tail) := x], tail := Count(r.tail), pushed := r.pushed + [x]);
      Pops(s);
      s := s.(head := Count(s.head), popped := s.popped + [s.buf[Slot(s, s.head)]]);
    }
  }

  /** For every ring and every item there is a run at whose end the ring holds an item that no later
      pop delivers. */
  lemma WrapHides<T(!new)>(buf: seq<T>, x: T) returns (run: seq<State<T>>, moves: seq<Move<T>>)
    requires 0 < |buf| < COUNTS
    ensures IsRun(run, moves)
    ensures var s := run[|run| - 1];
            |s.buf| == |buf| && |s.pushed| == COUNTS && |s.popped| == COUNTS - 1 && s.consumer.Waiting?
  {
    var s := Rounds(buf, x, COUNTS - 1);
    Pushes(s, x);
    var d := s.(buf := s.buf[Slot(s, s.tail) := x], tail := Count(s.tail), pushed := s.pushed + [x]);
    run, moves :| EndsIn(run, moves, d);
  }
}
