/** What the steps add up to over whole runs: no freed node is touched, values come out in the
    order they went in, each once, and wait lists stay short. */
module HazardQueueRuns {
  import opened Options
  import opened HazardQueue
  import opened HazardQueueSteps
  import opened HazardQueueRecords
  import opened HazardQueueFrames
  import opened HazardQueueNodes
  import opened HazardQueueGarbage

  // ---- runs ----

  /** Thread `t` takes a step. A step that would touch a node that is not live is not defined. */
  ghost predicate Moves<V>(s: State<V>, s': State<V>, t: nat, c: Choice<V>) {
    && Shape(s) && t < |s.threads| && Fits(s, t, c)
    && Touches(s, t) <= s.heap.Keys && HasSlot(s, s.threads[t])
    && s' == Step(s, t, c)
  }

  ghost predicate Follows<V>(run: seq<State<V>>, schedule: seq<(nat, Choice<V>)>, i: nat)
    requires 0 < i < |run| == |schedule| + 1
  {
    Moves(run[i - 1], run[i], schedule[i - 1].0, schedule[i - 1].1)
  }

  ghost predicate IsRun<V>(run: seq<State<V>>, schedule: seq<(nat, Choice<V>)>) {
    |run| == |schedule| + 1 && Init(run[0]) && forall i | 0 < i < |run| :: Follows(run, schedule, i)
  }

  lemma InitInv<V>(s: State<V>)
    requires Init(s)
    ensures Inv(s) && Slots(s) && GarbageInv(s)
  {
    assert QueuedAt(s, 0);
  }

  lemma {:induction false} RunInv<V>(run: seq<State<V>>, schedule: seq<(nat, Choice<V>)>, i: nat)
    requires IsRun(run, schedule) && i < |run|
    ensures Inv(run[i]) && Slots(run[i]) && GarbageInv(run[i])
  {
    if i == 0 {
      InitInv(run[0]);
    } else {
      RunInv(run, schedule, i - 1);
      assert Follows(run, schedule, i);
      var s, t, c := run[i - 1], schedule[i - 1].0, schedule[i - 1].1;
      StepInv(s, t, c);
      StepFrame(s, t, c);
      StepSlots(s, Step(s, t, c), t, c);
      StepGarbage(s, t, c);
    }
  }

  /** Memory safety: at every moment of every run, whatever a thread is about to read, write or
      free is live; so no node is used after it is freed, and none is freed twice. */
  lemma NoUseAfterFree<V>(run: seq<State<V>>, schedule: seq<(nat, Choice<V>)>, i: nat, t: nat)
    requires IsRun(run, schedule) && i < |run| && t < |run[i].threads|
    ensures Shape(run[i]) && Touches(run[i], t) <= run[i].heap.Keys
  {
    RunInv(run, schedule, i);
    AllLive(run[i], t);
  }

  /** A scan frees only nodes that wait on its own record, which nothing else holds: not the queue,
      not the thread that built or popped them, not another wait list. */
  lemma FreesOnlyRetired<V>(run: seq<State<V>>, schedule: seq<(nat, Choice<V>)>, i: nat, t: nat)
    requires IsRun(run, schedule) && i < |run| && t < |run[i].threads| && run[i].threads[t].pc.Freeing?
    ensures Shape(run[i])
    ensures var th := run[i].threads[t];
            var l := run[i].records[th.recs[0]].rlist;
            th.at < |l| ==> l[th.at] in run[i].heap && run[i].heap[l[th.at]].own == Waiting(th.recs[0])
                            && forall k | 0 <= k < |l| && k != th.at :: l[k] != l[th.at]
  {
    RunInv(run, schedule, i);
    assert WaitList(run[i], run[i].threads[t].recs[0]);
  }

  /** Hazard-pointer safety: a node that a thread validated and still needs is live at every moment,
      its record still shows it, and no scan under way will miss it. */
  lemma ValidatedStaysLive<V>(run: seq<State<V>>, schedule: seq<(nat, Choice<V>)>, i: nat, t: nat)
    requires IsRun(run, schedule) && i < |run| && t < |run[i].threads| && NeedsCur(run[i].threads[t].pc)
    ensures Shape(run[i])
    ensures var th := run[i].threads[t];
            Protected(run[i], th.recs[0], th.cur) && run[i].records[th.recs[0]].hp == Some(th.cur)
  {
    RunInv(run, schedule, i);
    assert ThreadInv(run[i], t);
  }

  // ---- first in, first out, each once ----

  /** A pop that has moved the head has its own answer slot, still empty. */
  ghost predicate Slots<V>(s: State<V>) {
    && (forall t | 0 <= t < |s.threads| && s.threads[t].pc.PopRead? ::
          1 <= s.threads[t].idx <= |s.outs| && s.outs[s.threads[t].idx - 1].None?)
    && (forall t, u | 0 <= t < u < |s.threads| && s.threads[t].pc.PopRead? && s.threads[u].pc.PopRead? ::
          s.threads[t].idx != s.threads[u].idx)
  }

  /** A value is appended to the history when a push swaps the tail, and only then. */
  lemma ValuesMove<V>(s: State<V>, t: nat, c: Choice<V>)
    requires CanStep(s, t, c)
    ensures Step(s, t, c).vals == if Installs(s, t) then s.vals + [s.heap[s.threads[t].node].v] else s.vals
  {
    StepFrame(s, t, c);
  }

  /** An open answer is appended when a pop swaps the head, and filled when that pop reads. */
  lemma AnswersMove<V>(s: State<V>, t: nat, c: Choice<V>)
    requires CanStep(s, t, c)
    ensures var th := s.threads[t];
            Step(s, t, c).outs == if Advances(s, t) then s.outs + [None]
                                  else if th.pc.PopRead? then s.outs[th.idx - 1 := Some(s.heap[th.next].v)] else s.outs
  {
    StepFrame(s, t, c);
  }

  lemma StepSlots<V>(s: State<V>, d: State<V>, t: nat, c: Choice<V>)
    requires CanStep(s, t, c) && Frame(s, d, t, c) && Slots(s)
    ensures Slots(d)
  {
    assert forall u | 0 <= u < |s.threads| && u != t :: d.threads[u] == s.threads[u];
  }

  /** The values popped, in the order of the swaps of the head, are the values pushed, in the order
      of the swaps of the tail: position by position, as far as they have been read. */
  lemma FirstInFirstOut<V>(run: seq<State<V>>, schedule: seq<(nat, Choice<V>)>, i: nat)
    requires IsRun(run, schedule) && i < |run|
    ensures |run[i].outs| < |run[i].vals|
    ensures forall k | 0 <= k < |run[i].outs| && run[i].outs[k].Some? :: run[i].outs[k].value == run[i].vals[k + 1]
  {
    RunInv(run, schedule, i);
  }

  lemma AnswerKept<V>(s: State<V>, d: State<V>, t: nat, c: Choice<V>, k: nat)
    requires CanStep(s, t, c) && Frame(s, d, t, c) && Slots(s) && k < |s.outs| && s.outs[k].Some?
    ensures k < |d.outs| && d.outs[k] == s.outs[k]
  {}

  lemma RunKeeps<V>(run: seq<State<V>>, schedule: seq<(nat, Choice<V>)>, j: nat, k: nat)
    requires IsRun(run, schedule) && 0 < j < |run| && k < |run[j - 1].outs| && run[j - 1].outs[k].Some?
    ensures k < |run[j].outs| && run[j].outs[k] == run[j - 1].outs[k]
  {
    RunInv(run, schedule, j - 1);
    assert Follows(run, schedule, j);
    var s, t, c := run[j - 1], schedule[j - 1].0, schedule[j - 1].1;
    StepFrame(s, t, c);
    AnswerKept(s, run[j], t, c, k);
  }

  /** Nobody is about to deliver what was delivered. */
  lemma SlotFilled<V>(run: seq<State<V>>, schedule: seq<(nat, Choice<V>)>, j: nat, k: nat)
    requires IsRun(run, schedule) && j < |run| && k < |run[j].outs| && run[j].outs[k].Some?
    ensures forall t | 0 <= t < |run[j].threads| && run[j].threads[t].pc.PopRead? :: run[j].threads[t].idx != k + 1
  {
    RunInv(run, schedule, j);
  }

  /** Exactly once: a value that was delivered stays delivered to the same pop, and nobody is
      about to deliver it again. */
  lemma {:induction false} DeliveredOnce<V>(run: seq<State<V>>, schedule: seq<(nat, Choice<V>)>, i: nat, j: nat, k: nat)
    requires IsRun(run, schedule) && i <= j < |run| && k < |run[i].outs| && run[i].outs[k].Some?
    ensures k < |run[j].outs| && run[j].outs[k] == run[i].outs[k]
    ensures forall t | 0 <= t < |run[j].threads| && run[j].threads[t].pc.PopRead? :: run[j].threads[t].idx != k + 1
  {
    if i < j {
      DeliveredOnce(run, schedule, i, j - 1, k);
      RunKeeps(run, schedule, j, k);
    }
    SlotFilled(run, schedule, j, k);
  }

  // ---- bounded garbage ----

  /** At every moment of every run the count of records is the length of their list and the number
      of threads that have counted a record and not added it yet. */
  lemma RecordsCounted<V>(run: seq<State<V>>, schedule: seq<(nat, Choice<V>)>, i: nat)
    requires IsRun(run, schedule) && i < |run|
    ensures run[i].announced == |run[i].records| + |set t | 0 <= t < |run[i].threads| && Adds(run[i].threads[t].pc)|
  {
    RunInv(run, schedule, i);
    assert Adders(run[i].threads) == set t | 0 <= t < |run[i].threads| && Adds(run[i].threads[t].pc);
  }

  /** At every moment of every run, every wait list whose record is not being scanned is below the
      threshold for the count of records. */
  lemma WaitListsBounded<V>(run: seq<State<V>>, schedule: seq<(nat, Choice<V>)>, i: nat, r: nat)
    requires IsRun(run, schedule) && i < |run| && r < |run[i].records|
    requires forall t | 0 <= t < |run[i].threads| && InScan(run[i].threads[t].pc) ::
               |run[i].threads[t].recs| == 2 && run[i].threads[t].recs[0] != r
    ensures var n := run[i].announced; |run[i].records[r].rlist| < 2 * n + n / 4
  {
    RunInv(run, schedule, i);
    assert ListBound(run[i], r);
  }

  /** At every moment of every run, a scan that read no more records than were counted when it was
      triggered ends with at least that number and a quarter of it freed, and leaves no more nodes
      than the records it read. */
  lemma ScansFreeEnough<V>(run: seq<State<V>>, schedule: seq<(nat, Choice<V>)>, i: nat, t: nat)
    requires IsRun(run, schedule) && i < |run| && t < |run[i].threads| && run[i].threads[t].pc.Freeing?
    ensures Shape(run[i])
    ensures var th := run[i].threads[t];
            var kept := |run[i].records[th.recs[0]].rlist|;
            th.at >= kept ==> kept <= th.began
                              && (th.began <= th.trigger ==> th.start - kept >= th.trigger + th.trigger / 4)
  {
    RunInv(run, schedule, i);
    assert ScanBound(run[i], t);
    if run[i].threads[t].at >= |run[i].records[run[i].threads[t].recs[0]].rlist| {
      ScanKeepsFew(run[i], t);
    }
  }
}
