/** The steps that build, queue, link, pop, read, retire and free nodes keep the invariant. */
module HazardQueueNodes {
  import opened Options
  import opened HazardQueue
  import opened HazardQueueSteps
  import opened HazardQueueRecords

  lemma PutQueue<V>(s: State<V>, t: nat, th: Thread)
    requires QueueInv(s) && WaitInv(s) && t < |s.threads|
    ensures QueueInv(Put(s, t, th)) && WaitInv(Put(s, t, th))
  {
    SameQueue(s, Put(s, t, th));
    SameWait(s, Put(s, t, th));
  }

  // ---- a new node ----

  lemma BuildQueue<V>(s: State<V>, t: nat, v: V, a: nat)
    requires QueueInv(s) && WaitInv(s) && a !in s.heap
    ensures var d := s.(heap := s.heap[a := Node(v, None, Private(t), None)]); QueueInv(d) && WaitInv(d)
  {
    var d := s.(heap := s.heap[a := Node(v, None, Private(t), None)]);
    forall i: nat | d.popped <= i < |d.chain| ensures QueuedAt(d, i) {
      assert QueuedAt(s, i);
    }
    forall r: nat | r < |d.records| ensures WaitList(d, r) {
      assert WaitList(s, r);
    }
  }

  lemma BuildStep<V>(s: State<V>, t: nat, c: Choice<V>)
    requires CanStep(s, t, c) && s.threads[t].pc.Rest? && c.StartPush?
    ensures Inv(Step(s, t, c))
  {
    var d := Step(s, t, c);
    BuildQueue(s, t, c.v, c.a);
    PutQueue(s.(heap := s.heap[c.a := Node(c.v, None, Private(t), None)]), t, d.threads[t]);
    assert ThreadInv(s, t);
    Assemble(s, d, t);
  }

  // ---- installing it as the tail ----

  lemma InstallQueue<V>(s: State<V>, t: nat, node: nat)
    requires QueueInv(s) && s.tail in s.heap && node in s.heap && s.heap[node].own == Private(t)
    requires s.heap[node].next.None? && s.heap[node].linker.None?
    ensures QueueInv(Install(s, t, node, s.tail))
  {
    var d := Install(s, t, node, s.tail);
    assert QueuedAt(s, |s.chain| - 1);
    forall i: nat | d.popped <= i < |d.chain| ensures QueuedAt(d, i) {
      if i < |s.chain| {
        assert QueuedAt(s, i);
      }
    }
  }

  lemma InstallWait<V>(s: State<V>, t: nat, node: nat)
    requires QueueInv(s) && WaitInv(s) && s.tail in s.heap && node in s.heap && s.heap[node].own == Private(t)
    ensures WaitInv(Install(s, t, node, s.tail))
  {
    var d := Install(s, t, node, s.tail);
    assert QueuedAt(s, |s.chain| - 1);
    forall r: nat | r < |d.records| ensures WaitList(d, r) {
      assert WaitList(s, r);
    }
  }

  lemma InstallEvolves<V>(s: State<V>, t: nat, c: Choice<V>)
    requires CanStep(s, t, c) && s.threads[t].pc.PushSwap? && s.tail == s.threads[t].cur
    ensures Evolves(s, Step(s, t, c), t)
  {
    assert ThreadInv(s, t);
    assert QueuedAt(s, |s.chain| - 1);
  }

  lemma InstallThread<V>(s: State<V>, t: nat, c: Choice<V>)
    requires CanStep(s, t, c) && s.threads[t].pc.PushSwap? && s.tail == s.threads[t].cur
    ensures Shape(Step(s, t, c)) && ThreadInv(Step(s, t, c), t)
  {
    assert ThreadInv(s, t);
    assert QueuedAt(s, |s.chain| - 1);
  }

  lemma InstallStep<V>(s: State<V>, t: nat, c: Choice<V>)
    requires CanStep(s, t, c) && s.threads[t].pc.PushSwap? && s.tail == s.threads[t].cur
    ensures Inv(Step(s, t, c))
  {
    var d := Step(s, t, c);
    assert ThreadInv(s, t);
    InstallQueue(s, t, s.threads[t].node);
    InstallWait(s, t, s.threads[t].node);
    PutQueue(Install(s, t, s.threads[t].node, s.tail), t, d.threads[t]);
    InstallEvolves(s, t, c);
    InstallThread(s, t, c);
    Assemble(s, d, t);
  }

  // ---- linking it ----

  lemma LinkQueue<V>(s: State<V>, i: nat)
    requires QueueInv(s) && WaitInv(s) && s.popped <= i < |s.chain| - 1 && s.chain[i] in s.heap
    ensures QueueInv(Link(s, s.chain[i + 1], s.chain[i])) && WaitInv(Link(s, s.chain[i + 1], s.chain[i]))
  {
    var d := Link(s, s.chain[i + 1], s.chain[i]);
    assert QueuedAt(s, i);
    forall j: nat | d.popped <= j < |d.chain| ensures QueuedAt(d, j) {
      assert QueuedAt(s, j);
    }
    forall r: nat | r < |d.records| ensures WaitList(d, r) {
      assert WaitList(s, r);
    }
  }

  lemma LinkStep<V>(s: State<V>, t: nat, c: Choice<V>)
    requires CanStep(s, t, c) && s.threads[t].pc.PushLink?
    ensures Inv(Step(s, t, c))
  {
    var d, th := Step(s, t, c), s.threads[t];
    assert ThreadInv(s, t);
    LinkQueue(s, th.idx - 1);
    PutQueue(Link(s, th.node, th.cur), t, d.threads[t]);
    Assemble(s, d, t);
  }

  // ---- moving the head ----

  lemma AdvanceQueue<V>(s: State<V>, t: nat)
    requires QueueInv(s) && WaitInv(s) && s.popped + 1 < |s.chain| && s.head in s.heap
    ensures var d := Advance(s, t, s.head, s.chain[s.popped + 1]); QueueInv(d) && WaitInv(d)
  {
    var d := Advance(s, t, s.head, s.chain[s.popped + 1]);
    assert QueuedAt(s, s.popped);
    forall j: nat | d.popped <= j < |d.chain| ensures QueuedAt(d, j) {
      assert QueuedAt(s, j);
    }
    forall r: nat | r < |d.records| ensures WaitList(d, r) {
      assert WaitList(s, r);
    }
  }

  lemma AdvanceEvolves<V>(s: State<V>, t: nat, c: Choice<V>)
    requires CanStep(s, t, c) && s.threads[t].pc.PopSwap? && s.head == s.threads[t].cur
    ensures s.popped + 1 < |s.chain| && s.threads[t].next == s.chain[s.popped + 1]
    ensures Evolves(s, Step(s, t, c), t) && ThreadInv(Step(s, t, c), t)
  {
    assert ThreadInv(s, t);
    assert QueuedAt(s, s.popped) && QueuedAt(s, s.popped + 1);
  }

  lemma AdvanceStep<V>(s: State<V>, t: nat, c: Choice<V>)
    requires CanStep(s, t, c) && s.threads[t].pc.PopSwap? && s.head == s.threads[t].cur
    ensures Inv(Step(s, t, c))
  {
    var d := Step(s, t, c);
    AdvanceEvolves(s, t, c);
    AdvanceQueue(s, t);
    PutQueue(Advance(s, t, s.head, s.chain[s.popped + 1]), t, d.threads[t]);
    Assemble(s, d, t);
  }

  // ---- reading the value, clearing the link ----

  lemma ReadStep<V>(s: State<V>, t: nat, c: Choice<V>)
    requires CanStep(s, t, c) && s.threads[t].pc.PopRead?
    ensures Inv(Step(s, t, c))
  {
    var d, th := Step(s, t, c), s.threads[t];
    assert ThreadInv(s, t);
    var e := s.(outs := d.outs);
    forall i: nat | e.popped <= i < |e.chain| ensures QueuedAt(e, i) {
      assert QueuedAt(s, i);
    }
    SameWait(s, e);
    PutQueue(e, t, d.threads[t]);
    Assemble(s, d, t);
  }

  lemma ClearQueue<V>(s: State<V>, a: nat)
    requires QueueInv(s) && WaitInv(s) && a in s.heap && s.heap[a].own.Popped?
    ensures var d := s.(heap := s.heap[a := s.heap[a].(next := None)]); QueueInv(d) && WaitInv(d)
  {
    var d := s.(heap := s.heap[a := s.heap[a].(next := None)]);
    forall i: nat | d.popped <= i < |d.chain| ensures QueuedAt(d, i) {
      assert QueuedAt(s, i);
    }
    forall r: nat | r < |d.records| ensures WaitList(d, r) {
      assert WaitList(s, r);
    }
  }

  lemma ClearStep<V>(s: State<V>, t: nat, c: Choice<V>)
    requires CanStep(s, t, c) && s.threads[t].pc.PopClear?
    ensures Inv(Step(s, t, c))
  {
    var d, th := Step(s, t, c), s.threads[t];
    assert ThreadInv(s, t);
    ClearQueue(s, th.cur);
    PutQueue(s.(heap := s.heap[th.cur := s.heap[th.cur].(next := None)]), t, d.threads[t]);
    Assemble(s, d, t);
  }

  // ---- retiring and freeing ----

  lemma RetireQueue<V>(s: State<V>, t: nat, r: nat, a: nat)
    requires QueueInv(s) && WaitInv(s) && a in s.heap && s.heap[a].own == Popped(t) && r < |s.records|
    ensures QueueInv(Retire(s, r, a)) && WaitInv(Retire(s, r, a))
  {
    var d := Retire(s, r, a);
    forall i: nat | d.popped <= i < |d.chain| ensures QueuedAt(d, i) {
      assert QueuedAt(s, i);
    }
    forall q: nat | q < |d.records| ensures WaitList(d, q) {
      assert WaitList(s, q);
    }
  }

  lemma RetireEvolves<V>(s: State<V>, t: nat, c: Choice<V>)
    requires CanStep(s, t, c) && s.threads[t].pc.PopRetire?
    ensures Evolves(s, Step(s, t, c), t)
  {
    assert ThreadInv(s, t);
  }

  lemma RetireThread<V>(s: State<V>, t: nat, c: Choice<V>)
    requires CanStep(s, t, c) && s.threads[t].pc.PopRetire?
    ensures Shape(Step(s, t, c)) && ThreadInv(Step(s, t, c), t)
  {
    assert ThreadInv(s, t);
  }

  lemma RetireStep<V>(s: State<V>, t: nat, c: Choice<V>)
    requires CanStep(s, t, c) && s.threads[t].pc.PopRetire?
    ensures Inv(Step(s, t, c))
  {
    var d, th := Step(s, t, c), s.threads[t];
    assert ThreadInv(s, t);
    RetireQueue(s, t, th.recs[0], th.cur);
    PutQueue(Retire(s, th.recs[0], th.cur), t, d.threads[t]);
    RetireEvolves(s, t, c);
    RetireThread(s, t, c);
    Assemble(s, d, t);
  }

  lemma FreeQueue<V>(s: State<V>, r: nat, at: nat)
    requires QueueInv(s) && WaitInv(s) && r < |s.records| && at < |s.records[r].rlist|
    ensures QueueInv(Free(s, r, at)) && WaitInv(Free(s, r, at))
  {
    var d, l := Free(s, r, at), s.records[r].rlist;
    assert WaitList(s, r);
    forall i: nat | d.popped <= i < |d.chain| ensures QueuedAt(d, i) {
      assert QueuedAt(s, i);
    }
    forall q: nat | q < |d.records| ensures WaitList(d, q) {
      assert WaitList(s, q);
    }
    forall a | a in d.heap && d.heap[a].own.Waiting? ensures a in d.records[d.heap[a].own.r].rlist {
      var k :| 0 <= k < |s.records[s.heap[a].own.r].rlist| && s.records[s.heap[a].own.r].rlist[k] == a;
      if s.heap[a].own.r == r {
        assert d.records[r].rlist[if k < at then k else k - 1] == a;
      }
    }
  }

  lemma SkipStep<V>(s: State<V>, t: nat, c: Choice<V>)
    requires CanStep(s, t, c) && s.threads[t].pc.Freeing?
    requires var th := s.threads[t]; var l := s.records[th.recs[0]].rlist; th.at >= |l| || l[th.at] in th.plist
    ensures Inv(Step(s, t, c))
  {
    assert ThreadInv(s, t);
    PutEvolves(s, t, Step(s, t, c).threads[t]);
    Assemble(s, Step(s, t, c), t);
  }

  lemma FreeStep<V>(s: State<V>, t: nat, c: Choice<V>)
    requires CanStep(s, t, c) && s.threads[t].pc.Freeing?
    ensures Inv(Step(s, t, c))
  {
    var d, th := Step(s, t, c), s.threads[t];
    var l := s.records[th.recs[0]].rlist;
    if th.at >= |l| || l[th.at] in th.plist {
      SkipStep(s, t, c);
    } else {
      assert ThreadInv(s, t);
      FreeQueue(s, th.recs[0], th.at);
      PutQueue(Free(s, th.recs[0], th.at), t, th);
      assert WaitList(s, th.recs[0]);
      Assemble(s, d, t);
    }
  }

  /** Every step of every thread, whatever the schedule and the allocator do, touches only live
      nodes and keeps the invariant. */
  lemma StepInv<V>(s: State<V>, t: nat, c: Choice<V>)
    requires CanStep(s, t, c)
    ensures Inv(Step(s, t, c))
  {
    if IsLocal(s, t, c) {
      LocalStep(s, t, c);
    } else {
      match s.threads[t].pc
      case Rest => BuildStep(s, t, c);
      case PushSwap => InstallStep(s, t, c);
      case PushLink => LinkStep(s, t, c);
      case PopSwap => AdvanceStep(s, t, c);
      case PopRead => ReadStep(s, t, c);
      case PopClear => ClearStep(s, t, c);
      case PopRetire => RetireStep(s, t, c);
      case Freeing => FreeStep(s, t, c);
      case _ => RecordStep(s, t, c);
    }
  }
}
