/** What whole calls of the ring's push and pop do: when they succeed, and when they refuse. */
module RingCalls {
  import opened RingQueue

  // ---- counters and histories ----

  lemma {:induction false} Sizes<T>(run: seq<State<T>>, moves: seq<Move<T>>, i: nat)
    requires IsRun(run, moves) && i < |run|
    ensures |run[i].buf| == |run[0].buf|
  {
    if i > 0 {
      Sizes(run, moves, i - 1);
      assert Follows(run, moves, i);
    }
  }

  /** The invariant of the moment, before the counters wrap or after. */
  lemma Known<T>(run: seq<State<T>>, moves: seq<Move<T>>, i: nat)
    requires IsRun(run, moves) && i < |run|
    ensures if |run[i].pushed| < COUNTS then Inv(run[i]) else WrapInv(run[i])
  {
    if |run[i].pushed| < COUNTS {
      RunInv(run, moves, i);
    } else {
      RunWraps(run, moves, i);
    }
  }

  /** The head counts the pops, in every run. */
  lemma {:induction false} HeadCounts<T>(run: seq<State<T>>, moves: seq<Move<T>>, i: nat)
    requires IsRun(run, moves) && i < |run|
    ensures run[i].head == |run[i].popped|
  {
    if i > 0 {
      HeadCounts(run, moves, i - 1);
      Known(run, moves, i - 1);
      assert Follows(run, moves, i);
    }
  }

  /** The difference of the counters is the number of items in the ring, in every run. */
  lemma DistanceIs<T>(run: seq<State<T>>, moves: seq<Move<T>>, i: nat)
    requires IsRun(run, moves) && i < |run|
    ensures Distance(run[i].tail, run[i].head) == |run[i].pushed| - |run[i].popped|
    ensures !run[i].producer.Resting? ==> run[i].producer.tail == run[i].tail
  {
    HeadCounts(run, moves, i);
    Known(run, moves, i);
  }

  // ---- pushes ----

  /** How far the push is that runs at moment `m`: it began at moment `b`, and loaded the head at
      moment `i`, where a push that went on to write found room. */
  ghost predicate PushAt<T>(run: seq<State<T>>, moves: seq<Move<T>>, b: nat, i: nat, m: nat)
    requires m < |run| == |moves| + 1
  {
    var p := run[m].producer;
    && b < m && i < m && !p.Resting? && run[b].producer.Resting? && moves[b] == Push(p.item)
    && (forall x | b < x <= m :: !run[x].producer.Resting?) && run[m].pushed == run[b].pushed
    && (!p.HasTail? ==> b < i < m && run[i].producer.HasTail? && moves[i].Produce? && run[i].pushed == run[m].pushed)
    && (p.HasBoth? ==> p.tail == run[i].tail && p.head == run[i].head)
    && (p.Writing? || p.Written? ==> |run[i].pushed| - |run[i].popped| < |run[i].buf|)
  }

  lemma {:induction false} PushSoFar<T>(run: seq<State<T>>, moves: seq<Move<T>>, m: nat) returns (b: nat, i: nat)
    requires IsRun(run, moves) && m < |run| && !run[m].producer.Resting?
    ensures PushAt(run, moves, b, i, m)
    decreases m
  {
    assert m > 0;
    assert Follows(run, moves, m);
    if run[m - 1].producer.Resting? {
      b, i := m - 1, m - 1;
    } else {
      b, i := PushSoFar(run, moves, m - 1);
      if run[m - 1].producer.HasTail? && moves[m - 1].Produce? {
        i := m - 1;
      }
      DistanceIs(run, moves, i);
      Sizes(run, moves, i);
      Sizes(run, moves, m - 1);
    }
  }

  /** A push returns in one of two ways. It is refused exactly if the ring was full when it loaded the
      head, and changes nothing; otherwise it appends the item it was given. This holds for the runs in
      which the counters wrap as well. */
  lemma PushReturns<T>(run: seq<State<T>>, moves: seq<Move<T>>, j: nat) returns (b: nat, i: nat)
    requires IsRun(run, moves) && j + 1 < |run|
    requires !run[j].producer.Resting? && run[j + 1].producer.Resting?
    ensures b < i <= j && run[b].producer.Resting? && moves[b].Push?
    ensures forall x | b < x <= j :: !run[x].producer.Resting?
    ensures run[i].producer.HasTail? && moves[i].Produce? && run[b].pushed == run[i].pushed == run[j].pushed
    ensures run[j + 1].pushed == if |run[i].pushed| - |run[i].popped| >= |run[i].buf| then run[j].pushed
                                 else run[j].pushed + [moves[b].item]
  {
    b, i := PushSoFar(run, moves, j);
    assert Follows(run, moves, j + 1);
    DistanceIs(run, moves, i);
    Sizes(run, moves, i);
    Sizes(run, moves, j);
  }

  // ---- pops ----

  /** One step of a run below the wrap of the counters. */
  lemma RunStep<T>(run: seq<State<T>>, moves: seq<Move<T>>, m: nat)
    requires IsRun(run, moves) && 0 < m < |run| && |run[m].pushed| < COUNTS
    ensures Inv(run[m - 1]) && Inv(run[m]) && CanMove(run[m - 1], moves[m - 1])
    ensures run[m] == Step(run[m - 1], moves[m - 1])
  {
    assert Follows(run, moves, m);
    RunInv(run, moves, m);
    Grows(run[m - 1], moves[m - 1]);
    RunInv(run, moves, m - 1);
  }

  lemma Grows<T>(s: State<T>, m: Move<T>)
    requires |s.buf| > 0 && CanMove(s, m)
    ensures |s.pushed| <= |Step(s, m).pushed|
  {}

  /** The pop that runs at moment `m` loaded the head at moment `b` and the tail at moment `i`, where a
      pop that went on to read found an item. */
  ghost predicate PopAt<T>(run: seq<State<T>>, moves: seq<Move<T>>, b: nat, i: nat, m: nat)
    requires m < |run| == |moves| + 1
  {
    var c := run[m].consumer;
    && b < m && i < m && !c.Waiting? && run[b].consumer.Waiting? && moves[b].Consume?
    && (forall x | b < x <= m :: !run[x].consumer.Waiting?) && run[m].popped == run[b].popped
    && (!c.HasHead? ==> b < i < m && run[i].consumer.HasHead? && moves[i].Consume? && run[i].popped == run[m].popped)
    && (c.SeesBoth? ==> c.tail == |run[i].pushed| && c.head == |run[i].popped|)
    && (c.Reading? || c.Read? ==> |run[i].popped| < |run[i].pushed|)
  }

  lemma {:induction false} PopSoFar<T>(run: seq<State<T>>, moves: seq<Move<T>>, m: nat) returns (b: nat, i: nat)
    requires IsRun(run, moves) && m < |run| && |run[m].pushed| < COUNTS && !run[m].consumer.Waiting?
    ensures PopAt(run, moves, b, i, m)
    decreases m
  {
    assert m > 0;
    RunStep(run, moves, m);
    if run[m - 1].consumer.Waiting? {
      b, i := m - 1, m - 1;
    } else {
      b, i := PopSoFar(run, moves, m - 1);
      if run[m - 1].consumer.HasHead? && moves[m - 1].Consume? {
        i := m - 1;
      }
    }
  }

  lemma {:induction false} PushedGrows<T>(run: seq<State<T>>, moves: seq<Move<T>>, i: nat, j: nat)
    requires IsRun(run, moves) && i <= j < |run|
    ensures run[i].pushed <= run[j].pushed
    decreases j
  {
    if i < j {
      PushedGrows(run, moves, i, j - 1);
      assert Follows(run, moves, j);
    }
  }

  /** A pop returns in one of two ways. It delivers nothing exactly if everything pushed was popped when
      it loaded the tail; otherwise it delivers the oldest item. */
  lemma PopReturns<T>(run: seq<State<T>>, moves: seq<Move<T>>, j: nat) returns (b: nat, i: nat)
    requires IsRun(run, moves) && j + 1 < |run| && |run[j + 1].pushed| < COUNTS
    requires !run[j].consumer.Waiting? && run[j + 1].consumer.Waiting?
    ensures b < i <= j && run[b].consumer.Waiting? && moves[b].Consume?
    ensures forall x | b < x <= j :: !run[x].consumer.Waiting?
    ensures run[i].consumer.HasHead? && moves[i].Consume? && run[b].popped == run[i].popped == run[j].popped
    ensures run[i].popped <= run[i].pushed
    ensures run[j + 1].popped == if run[i].popped == run[i].pushed then run[j].popped
                                 else run[j].popped + [run[i].pushed[|run[i].popped|]]
  {
    RunStep(run, moves, j + 1);
    PushedGrows(run, moves, j, j + 1);
    b, i := PopSoFar(run, moves, j);
    PushedGrows(run, moves, i, j + 1);
    RunInv(run, moves, i);
  }
}
