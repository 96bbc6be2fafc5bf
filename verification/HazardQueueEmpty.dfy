/** When a pop answers that the queue is empty, and when it is wrong. */
module HazardQueueEmpty {
  import opened Options
  import opened HazardQueue
  import opened HazardQueueSteps
  import opened HazardQueueRecords
  import opened HazardQueueFrames
  import opened HazardQueueNodes
  import opened HazardQueueRuns

  // ---- what the links of popped nodes say ----

  /** The link of a node is cleared between its pop and its retirement, by the thread that popped it. */
  ghost predicate LinkSays<V>(s: State<V>, a: nat)
    requires a in s.heap
  {
    var n := s.heap[a];
    && (n.own.Waiting? ==> n.next.None?)
    && (n.own.Popped? ==> n.own.t < |s.threads| && s.threads[n.own.t].cur == a && HasPopped(s.threads[n.own.t].pc)
                          && (n.next.None? <==> s.threads[n.own.t].pc.PopRetire?))
  }

  /** A pop that is about to read the link holds the head, or a node that was popped since it
      looked. */
  ghost predicate AtHead<V>(s: State<V>, t: nat)
    requires t < |s.threads|
  {
    var th := s.threads[t];
    th.pc.PopNext? ==> th.cur in s.heap && (s.heap[th.cur].own.Queued? ==> s.heap[th.cur].own.i == s.popped)
  }

  ghost predicate Links<V>(s: State<V>) {
    && (forall a | a in s.heap :: LinkSays(s, a))
    && (forall t: nat | t < |s.threads| :: AtHead(s, t))
  }

  // ---- every step keeps this ----

  /** A step that changes no node. */
  lemma SameLinks<V>(s: State<V>, d: State<V>, t: nat)
    requires Links(s) && t < |s.threads| == |d.threads| && d.threads == s.threads[t := d.threads[t]]
    requires d.heap == s.heap && d.popped == s.popped && AtHead(d, t)
    requires HasPopped(s.threads[t].pc) ==>
               var th, th' := s.threads[t], d.threads[t];
               HasPopped(th'.pc) && th'.cur == th.cur && (th'.pc.PopRetire? <==> th.pc.PopRetire?)
    ensures Links(d)
  {
    forall a | a in d.heap ensures LinkSays(d, a) {
      assert LinkSays(s, a);
    }
    forall u: nat | u < |d.threads| ensures AtHead(d, u) {
      assert AtHead(s, u);
    }
  }

  lemma LocalLinks<V>(s: State<V>, t: nat, c: Choice<V>)
    requires CanStep(s, t, c) && IsLocal(s, t, c) && Links(s)
    ensures Links(Step(s, t, c))
  {
    LocalIsPut(s, t, c);
    var d := Step(s, t, c);
    if s.threads[t].pc.PopValidate? && s.head == s.threads[t].cur {
      assert QueuedAt(s, s.popped);
    }
    SameLinks(s, d, t);
  }

  lemma RecordLinks<V>(s: State<V>, t: nat, c: Choice<V>)
    requires CanStep(s, t, c) && IsRecord(s.threads[t].pc) && Links(s)
    ensures Links(Step(s, t, c))
  {
    var d := Step(s, t, c);
    if Takes(s.threads[t].pc) {
      TakeOnly(s, t, c);
    } else if Adds(s.threads[t].pc) {
      AddOnly(s, t, c);
    } else if s.threads[t].pc.Leave? {
      LeaveOnly(s, t, c);
    } else {
      SetOnly(s, t, c);
    }
    RecordPc(s, t, c);
    SameLinks(s, d, t);
  }

  lemma RecordPc<V>(s: State<V>, t: nat, c: Choice<V>)
    requires CanStep(s, t, c) && IsRecord(s.threads[t].pc)
    ensures t < |Step(s, t, c).threads| && !Step(s, t, c).threads[t].pc.PopNext?
  {}

  lemma BuildLinks<V>(s: State<V>, t: nat, c: Choice<V>)
    requires CanStep(s, t, c) && s.threads[t].pc.Rest? && c.StartPush? && Links(s)
    ensures Links(Step(s, t, c))
  {
    var d := Step(s, t, c);
    forall a | a in d.heap ensures LinkSays(d, a) {
      assert a in s.heap ==> LinkSays(s, a);
    }
    forall u: nat | u < |d.threads| ensures AtHead(d, u) {
      assert AtHead(s, u);
    }
  }

  lemma InstallLinks<V>(s: State<V>, t: nat, c: Choice<V>)
    requires CanStep(s, t, c) && Installs(s, t) && Links(s)
    ensures Links(Step(s, t, c))
  {
    var d := Step(s, t, c);
    assert ThreadInv(s, t) && QueuedAt(s, |s.chain| - 1);
    forall a | a in d.heap ensures LinkSays(d, a) {
      assert LinkSays(s, a);
    }
    forall u: nat | u < |d.threads| ensures AtHead(d, u) {
      assert AtHead(s, u) && ThreadInv(s, u);
    }
  }

  lemma LinkLinks<V>(s: State<V>, t: nat, c: Choice<V>)
    requires CanStep(s, t, c) && s.threads[t].pc.PushLink? && Links(s)
    ensures Links(Step(s, t, c))
  {
    var d := Step(s, t, c);
    assert ThreadInv(s, t);
    forall a | a in d.heap ensures LinkSays(d, a) {
      assert LinkSays(s, a);
    }
    forall u: nat | u < |d.threads| ensures AtHead(d, u) {
      assert AtHead(s, u);
    }
  }

  lemma AdvanceLinks<V>(s: State<V>, t: nat, c: Choice<V>)
    requires CanStep(s, t, c) && Advances(s, t) && Links(s)
    ensures Links(Step(s, t, c))
  {
    var d := Step(s, t, c);
    assert ThreadInv(s, t) && QueuedAt(s, s.popped);
    forall a | a in d.heap ensures LinkSays(d, a) {
      assert LinkSays(s, a);
    }
    forall u: nat | u < |d.threads| ensures AtHead(d, u) {
      assert AtHead(s, u);
    }
  }

  lemma ReadLinks<V>(s: State<V>, t: nat, c: Choice<V>)
    requires CanStep(s, t, c) && s.threads[t].pc.PopRead? && Links(s)
    ensures Links(Step(s, t, c))
  {
    SameLinks(s, Step(s, t, c), t);
  }

  lemma ClearLinks<V>(s: State<V>, t: nat, c: Choice<V>)
    requires CanStep(s, t, c) && s.threads[t].pc.PopClear? && Links(s)
    ensures Links(Step(s, t, c))
  {
    var d := Step(s, t, c);
    assert ThreadInv(s, t);
    forall a | a in d.heap ensures LinkSays(d, a) {
      assert LinkSays(s, a);
    }
    forall u: nat | u < |d.threads| ensures AtHead(d, u) {
      assert AtHead(s, u);
    }
  }

  lemma RetireLinks<V>(s: State<V>, t: nat, c: Choice<V>)
    requires CanStep(s, t, c) && s.threads[t].pc.PopRetire? && Links(s)
    ensures Links(Step(s, t, c))
  {
    var d := Step(s, t, c);
    assert ThreadInv(s, t);
    forall a | a in d.heap ensures LinkSays(d, a) {
      assert LinkSays(s, a) && LinkSays(s, s.threads[t].cur);
    }
    forall u: nat | u < |d.threads| ensures AtHead(d, u) {
      assert AtHead(s, u);
    }
  }

  lemma FreeLinks<V>(s: State<V>, t: nat, c: Choice<V>)
    requires CanStep(s, t, c) && s.threads[t].pc.Freeing? && Links(s)
    ensures Links(Step(s, t, c))
  {
    StepInv(s, t, c);
    var d := Step(s, t, c);
    forall a | a in d.heap ensures LinkSays(d, a) {
      assert LinkSays(s, a);
    }
    forall u: nat | u < |d.threads| ensures AtHead(d, u) {
      assert AtHead(s, u) && ThreadInv(d, u);
    }
  }

  lemma StepLinks<V>(s: State<V>, t: nat, c: Choice<V>)
    requires CanStep(s, t, c) && Links(s)
    ensures Links(Step(s, t, c))
  {
    if IsLocal(s, t, c) {
      LocalLinks(s, t, c);
    } else {
      match s.threads[t].pc
      case Rest => BuildLinks(s, t, c);
      case PushSwap => InstallLinks(s, t, c);
      case PushLink => LinkLinks(s, t, c);
      case PopSwap => AdvanceLinks(s, t, c);
      case PopRead => ReadLinks(s, t, c);
      case PopClear => ClearLinks(s, t, c);
      case PopRetire => RetireLinks(s, t, c);
      case Freeing => FreeLinks(s, t, c);
      case _ => RecordLinks(s, t, c);
    }
  }

  lemma {:induction false} RunLinks<V>(run: seq<State<V>>, schedule: seq<(nat, Choice<V>)>, i: nat)
    requires IsRun(run, schedule) && i < |run|
    ensures Inv(run[i]) && Links(run[i])
  {
    RunInv(run, schedule, i);
    if i > 0 {
      RunLinks(run, schedule, i - 1);
      assert Follows(run, schedule, i);
      StepLinks(run[i - 1], schedule[i - 1].0, schedule[i - 1].1);
    }
  }

  // ---- the answer ----

  /** Every node after the head's has been popped. */
  predicate IsEmpty<V>(s: State<V>) {
    s.popped + 1 == |s.chain|
  }

  /** The successor of the node is installed, and the thread that did it has yet to link it. */
  predicate Unlinked<V>(s: State<V>, a: nat) {
    a in s.heap && s.heap[a].own.Queued? && s.heap[a].linker.Some?
  }

  /** The node was popped, and its link is cleared already. */
  predicate Cleared<V>(s: State<V>, a: nat) {
    a in s.heap && (s.heap[a].own.Waiting?
                    || (s.heap[a].own.Popped? && s.heap[a].own.t < |s.threads|
                        && s.threads[s.heap[a].own.t].pc.PopRetire?))
  }

  /** What the link of the node that a pop holds tells. */
  lemma NextRead<V>(s: State<V>, t: nat)
    requires Inv(s) && Links(s) && t < |s.threads| && s.threads[t].pc.PopNext?
    ensures var a := s.threads[t].cur;
            && a in s.heap
            && (s.heap[a].own.Queued? ==> a == s.head && (Unlinked(s, a) ==> !IsEmpty(s)))
            && (s.heap[a].next.None? <==> (s.heap[a].own.Queued? && IsEmpty(s)) || Unlinked(s, a) || Cleared(s, a))
  {
    var a := s.threads[t].cur;
    assert ThreadInv(s, t) && AtHead(s, t) && LinkSays(s, a);
    if s.heap[a].own.Queued? {
      assert QueuedAt(s, s.popped);
    }
  }

  /** When a pop answers that the queue is empty, at whatever moment of whatever run: if the node it
      holds is the head and the queue is empty, if the head's successor is not linked yet, or if the
      node was popped meanwhile and its link cleared. The answer is wrong in the second case, and in
      the third if something is queued. */
  lemma EmptyAnswer<V>(run: seq<State<V>>, schedule: seq<(nat, Choice<V>)>, i: nat, t: nat)
    requires IsRun(run, schedule) && i + 1 < |run| && schedule[i].0 == t
    requires t < |run[i].threads| && run[i].threads[t].pc.PopNext?
    ensures t < |run[i + 1].threads| && run[i].threads[t].cur in run[i].heap
    ensures var s, a := run[i], run[i].threads[t].cur;
            var empty := run[i + 1].threads[t].pc.Leave?;
            && (empty <==> (s.heap[a].own.Queued? && IsEmpty(s)) || Unlinked(s, a) || Cleared(s, a))
            && (empty && !IsEmpty(s) <==> Unlinked(s, a) || (Cleared(s, a) && !IsEmpty(s)))
  {
    RunLinks(run, schedule, i);
    assert Follows(run, schedule, i + 1);
    NextRead(run[i], t);
  }

  /** Nothing else makes a pop give up: it answers without having moved the head only when it reads
      that link. */
  lemma EmptyOnly<V>(run: seq<State<V>>, schedule: seq<(nat, Choice<V>)>, i: nat, t: nat)
    requires IsRun(run, schedule) && i + 1 < |run| && t < |run[i].threads| && BeforePop(run[i].threads[t].pc)
    ensures t < |run[i + 1].threads|
    ensures run[i + 1].threads[t].pc.Leave? ==>
              var s, a := run[i], run[i].threads[t].cur;
              && schedule[i].0 == t && a in s.heap
              && ((s.heap[a].own.Queued? && IsEmpty(s)) || Unlinked(s, a) || Cleared(s, a))
    ensures BeforePop(run[i + 1].threads[t].pc) || run[i + 1].threads[t].pc.Leave? || Advances(run[i], t)
  {
    RunInv(run, schedule, i);
    assert Follows(run, schedule, i + 1);
    StepFrame(run[i], schedule[i].0, schedule[i].1);
    if schedule[i].0 == t {
      PopGoesOn(run[i], t, schedule[i].1);
      if run[i].threads[t].pc.PopNext? {
        EmptyAnswer(run, schedule, i, t);
      }
    }
  }
}
