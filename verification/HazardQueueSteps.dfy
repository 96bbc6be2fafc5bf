/** Every step of every thread keeps the invariant of the queue. */
module HazardQueueSteps {
  import opened Options
  import opened HazardQueue

  // ---- what a step of one thread may do to the rest ----

  /** What becomes of a node. */
  ghost predicate Cell<V>(s: State<V>, d: State<V>, t: nat, a: nat)
    requires Shape(s) && t < |s.threads| && a in s.heap
  {
    var n := s.heap[a];
    if a !in d.heap then
      s.threads[t].pc.Freeing? && n.own == Waiting(s.threads[t].recs[0]) && a !in s.threads[t].plist
    else
      var m := d.heap[a];
      && m.v == n.v
      && (m.own == n.own || (n.own == Private(t) && m.own == Queued(|s.chain|))
          || (n.own == Queued(s.popped) && m.own == Popped(t))
          || (n.own == Popped(t) && s.threads[t].pc.PopRetire? && m.own == Waiting(s.threads[t].recs[0])))
      && ((n.own.Private? || n.own.Popped?) && n.own.t != t ==> m == n)
      && (n.own.Queued? && n.linker.Some? && n.linker.value != t ==> m == n)
      && (n.own.Queued? && n.own.i + 1 < |s.chain| && n.linker.None? ==> m.linker.None?)
  }

  /** How the scan of the thread may go on. */
  ghost predicate ScanMoves<V>(s: State<V>, d: State<V>, t: nat)
    requires Shape(s) && Shape(d) && t < |s.threads| == |d.threads|
  {
    var th, th' := s.threads[t], d.threads[t];
    && (th'.pc.Scanning? ==> |s.records| == |d.records| && th'.recs == th.recs)
    && (th'.pc.Scanning? ==> (th.pc.ScanBegin? && th'.at == |s.records|) || ReadsOne(s, th, th'))
    && (th'.pc.Freeing? ==> th'.recs == th.recs && th'.plist == th.plist)
    && (th'.pc.Freeing? ==> th.pc.Freeing? || (th.pc.Scanning? && th.at == 0))
  }

  ghost predicate ReadsOne<V>(s: State<V>, th: Thread, th': Thread) {
    && th.pc.Scanning? && 0 < th.at <= |s.records| && th'.at == th.at - 1 && th.plist <= th'.plist
    && (s.records[th.at - 1].hp.Some? ==> s.records[th.at - 1].hp.value in th'.plist)
  }

  ghost predicate Evolves<V>(s: State<V>, d: State<V>, t: nat)
    requires Shape(s) && t < |s.threads|
  {
    && Shape(d) && |d.threads| == |s.threads|
    && (forall u | 0 <= u < |s.threads| && u != t :: d.threads[u] == s.threads[u])
    && |s.records| <= |d.records|
    && (forall r | 0 <= r < |s.records| && s.records[r].holder.Some? && s.records[r].holder.value != t ::
          d.records[r].hp == s.records[r].hp && d.records[r].holder == s.records[r].holder)
    && s.chain <= d.chain && s.vals <= d.vals && s.popped <= d.popped
    && (forall a | a in s.heap :: Cell(s, d, t, a))
    && (forall a | a in d.heap && a !in s.heap :: d.heap[a].own == Private(t))
    && ScanMoves(s, d, t)
  }

  // ---- the other threads keep what they rely on ----

  lemma StaysSeen<V>(s: State<V>, d: State<V>, t: nat, r: nat, a: nat, w: nat)
    requires Inv(s) && t < |s.threads| && w < |s.threads| && Evolves(s, d, t)
    requires Seen(s, r, a, w) && a in s.heap && r < |s.records| && s.records[r].hp == Some(a)
    ensures Seen(d, r, a, w)
  {
    assert ThreadInv(s, w) && ThreadInv(s, t) && Cell(s, d, t, a);
  }

  /** Hazard-pointer safety: a protected node is not freed by the step, and every scan still
      sees its pointer. */
  lemma StaysProtected<V>(s: State<V>, d: State<V>, t: nat, u: nat, k: nat, a: nat)
    requires Inv(s) && t < |s.threads| && u < |s.threads| && u != t && Evolves(s, d, t)
    requires k < |s.threads[u].recs| && s.records[s.threads[u].recs[k]].hp == Some(a)
    requires Protected(s, s.threads[u].recs[k], a)
    ensures Protected(d, s.threads[u].recs[k], a)
  {
    var r := s.threads[u].recs[k];
    assert ThreadInv(s, u) && ThreadInv(s, t);
    assert Seen(s, r, a, t) && Cell(s, d, t, a);
    forall w: nat | w < |d.threads| ensures Seen(d, r, a, w) {
      StaysSeen(s, d, t, r, a, w);
    }
  }

  lemma OtherGuards<V>(s: State<V>, d: State<V>, t: nat, u: nat)
    requires Inv(s) && t < |s.threads| && u < |s.threads| && u != t && Evolves(s, d, t)
    ensures Guards(d, u)
  {
    assert ThreadInv(s, u);
    var th := s.threads[u];
    if NeedsCur(th.pc) {
      StaysProtected(s, d, t, u, 0, th.cur);
    }
    if th.pc.PopRead? {
      StaysProtected(s, d, t, u, 1, th.next);
    }
  }

  lemma OtherHolds<V>(s: State<V>, d: State<V>, t: nat, u: nat)
    requires Inv(s) && t < |s.threads| && u < |s.threads| && u != t && Evolves(s, d, t)
    ensures Holds(d, u) && Shows(d, u)
  {
    assert ThreadInv(s, u);
  }

  lemma OtherOwns<V>(s: State<V>, d: State<V>, t: nat, u: nat)
    requires Inv(s) && t < |s.threads| && u < |s.threads| && u != t && Evolves(s, d, t) && Guards(d, u)
    ensures Owns(d, u)
  {
    assert ThreadInv(s, u);
    var th := s.threads[u];
    assert th.node in s.heap ==> Cell(s, d, t, th.node);
    assert th.cur in s.heap ==> Cell(s, d, t, th.cur);
    assert th.next in s.heap ==> Cell(s, d, t, th.next);
  }

  lemma OtherKeeps<V>(s: State<V>, d: State<V>, t: nat, u: nat)
    requires Inv(s) && t < |s.threads| && u < |s.threads| && u != t && Evolves(s, d, t)
    ensures ThreadInv(d, u)
  {
    OtherGuards(s, d, t, u);
    OtherHolds(s, d, t, u);
    OtherOwns(s, d, t, u);
  }

  lemma Assemble<V>(s: State<V>, d: State<V>, t: nat)
    requires Inv(s) && t < |s.threads| && Evolves(s, d, t)
    requires QueueInv(d) && WaitInv(d) && ThreadInv(d, t)
    ensures Inv(d)
  {
    forall u: nat | u < |d.threads| ensures ThreadInv(d, u) {
      if u != t {
        OtherKeeps(s, d, t, u);
      }
    }
  }

  // ---- steps that change only the thread ----

  predicate IsLocal<V>(s: State<V>, t: nat, c: Choice<V>)
    requires t < |s.threads| && Fits(s, t, c)
  {
    var th := s.threads[t];
    match th.pc
    case Rest => c.StartPop?
    case PushLoad => true
    case PushValidate => true
    case PushSwap => s.tail != th.cur
    case PopValidate => true
    case PopNext => true
    case PopCheck => true
    case PopSwap => s.head != th.cur
    case ScanBegin => true
    case Scanning => true
    case _ => false
  }

  ghost predicate CanStep<V>(s: State<V>, t: nat, c: Choice<V>) {
    Inv(s) && t < |s.threads| && Fits(s, t, c) && Touches(s, t) <= s.heap.Keys && HasSlot(s, s.threads[t])
  }

  lemma SameQueue<V>(s: State<V>, d: State<V>)
    requires QueueInv(s)
    requires d.heap == s.heap && d.chain == s.chain && d.vals == s.vals && d.popped == s.popped
    requires d.outs == s.outs && d.head == s.head && d.tail == s.tail
    ensures QueueInv(d)
  {
    forall i: nat | d.popped <= i < |d.chain| ensures QueuedAt(d, i) {
      assert QueuedAt(s, i);
    }
  }

  lemma SameWait<V>(s: State<V>, d: State<V>)
    requires WaitInv(s) && d.heap == s.heap && |s.records| <= |d.records|
    requires forall r | 0 <= r < |s.records| :: d.records[r].rlist == s.records[r].rlist
    requires forall r | |s.records| <= r < |d.records| :: d.records[r].rlist == []
    ensures WaitInv(d)
  {
    forall r: nat | r < |d.records| ensures WaitList(d, r) {
      assert r < |s.records| ==> WaitList(s, r);
    }
  }

  lemma PushIsPut<V>(s: State<V>, t: nat, c: Choice<V>)
    requires CanStep(s, t, c) && IsLocal(s, t, c)
    requires s.threads[t].pc.PushLoad? || s.threads[t].pc.PushValidate? || s.threads[t].pc.PushSwap?
    ensures Step(s, t, c) == Put(s, t, Step(s, t, c).threads[t])
    ensures Shape(Step(s, t, c)) && ScanMoves(s, Step(s, t, c), t)
  {}

  lemma PopIsPut<V>(s: State<V>, t: nat, c: Choice<V>)
    requires CanStep(s, t, c) && IsLocal(s, t, c) && (s.threads[t].pc.Rest? || s.threads[t].pc.PopValidate?
               || s.threads[t].pc.PopNext? || s.threads[t].pc.PopCheck? || s.threads[t].pc.PopSwap?)
    ensures Step(s, t, c) == Put(s, t, Step(s, t, c).threads[t])
    ensures Shape(Step(s, t, c)) && ScanMoves(s, Step(s, t, c), t)
  {}

  lemma ScanIsPut<V>(s: State<V>, t: nat, c: Choice<V>)
    requires CanStep(s, t, c) && (s.threads[t].pc.ScanBegin? || s.threads[t].pc.Scanning?)
    ensures Step(s, t, c) == Put(s, t, Step(s, t, c).threads[t])
    ensures Shape(Step(s, t, c)) && ScanMoves(s, Step(s, t, c), t)
  {}

  lemma LocalIsPut<V>(s: State<V>, t: nat, c: Choice<V>)
    requires CanStep(s, t, c) && IsLocal(s, t, c)
    ensures Step(s, t, c) == Put(s, t, Step(s, t, c).threads[t])
    ensures Shape(Step(s, t, c)) && ScanMoves(s, Step(s, t, c), t)
  {
    match s.threads[t].pc
    case ScanBegin => ScanIsPut(s, t, c);
    case Scanning => ScanIsPut(s, t, c);
    case PushLoad => PushIsPut(s, t, c);
    case PushValidate => PushIsPut(s, t, c);
    case PushSwap => PushIsPut(s, t, c);
    case _ => PopIsPut(s, t, c);
  }

  lemma PutEvolves<V>(s: State<V>, t: nat, th: Thread)
    requires Inv(s) && t < |s.threads| && Shape(Put(s, t, th)) && ScanMoves(s, Put(s, t, th), t)
    ensures Evolves(s, Put(s, t, th), t) && QueueInv(Put(s, t, th)) && WaitInv(Put(s, t, th))
  {
    SameQueue(s, Put(s, t, th));
    SameWait(s, Put(s, t, th));
  }

  /** A node that is queued is protected by any pointer to it. */
  lemma QueuedProtected<V>(s: State<V>, r: nat, i: nat)
    requires Shape(s) && QueueInv(s) && s.popped <= i < |s.chain|
    ensures Protected(s, r, s.chain[i])
  {
    assert QueuedAt(s, i);
  }

  /** What a thread protects stays protected when only that thread moves, outside its scan. */
  lemma OwnProtected<V>(s: State<V>, d: State<V>, t: nat, r: nat, a: nat)
    requires Shape(s) && Shape(d) && t < |s.threads| == |d.threads| && Protected(s, r, a)
    requires d.heap == s.heap && d.threads == s.threads[t := d.threads[t]]
    requires !d.threads[t].pc.Scanning? && !d.threads[t].pc.Freeing?
    ensures Protected(d, r, a)
  {
    forall u: nat | u < |d.threads| ensures Seen(d, r, a, u) {
      assert Seen(s, r, a, u);
    }
  }

  lemma PushLocal<V>(s: State<V>, t: nat, c: Choice<V>)
    requires CanStep(s, t, c) && (s.threads[t].pc.PushLoad? || (s.threads[t].pc.PushSwap? && IsLocal(s, t, c)))
    ensures Shape(Step(s, t, c)) && ThreadInv(Step(s, t, c), t)
  {
    assert ThreadInv(s, t);
  }

  lemma TailLocal<V>(s: State<V>, t: nat, c: Choice<V>)
    requires CanStep(s, t, c) && s.threads[t].pc.PushValidate?
    ensures Shape(Step(s, t, c)) && ThreadInv(Step(s, t, c), t)
  {
    assert ThreadInv(s, t);
    if s.tail == s.threads[t].cur {
      QueuedProtected(s, s.threads[t].recs[0], |s.chain| - 1);
      OwnProtected(s, Step(s, t, c), t, s.threads[t].recs[0], s.tail);
    }
  }

  lemma PopLocal<V>(s: State<V>, t: nat, c: Choice<V>)
    requires CanStep(s, t, c) && IsLocal(s, t, c) && (s.threads[t].pc.Rest? || s.threads[t].pc.PopSwap?)
    ensures Shape(Step(s, t, c)) && ThreadInv(Step(s, t, c), t)
  {
    assert ThreadInv(s, t);
  }

  lemma ValidateLocal<V>(s: State<V>, t: nat, c: Choice<V>)
    requires CanStep(s, t, c) && s.threads[t].pc.PopValidate?
    ensures Shape(Step(s, t, c)) && ThreadInv(Step(s, t, c), t)
  {
    assert ThreadInv(s, t);
    var th, d := s.threads[t], Step(s, t, c);
    if s.head == th.cur {
      QueuedProtected(s, th.recs[0], s.popped);
      OwnProtected(s, d, t, th.recs[0], s.head);
      assert QueuedAt(s, s.popped);
    }
  }

  lemma CheckLocal<V>(s: State<V>, t: nat, c: Choice<V>)
    requires CanStep(s, t, c) && s.threads[t].pc.PopCheck?
    ensures Shape(Step(s, t, c)) && ThreadInv(Step(s, t, c), t)
  {
    assert ThreadInv(s, t);
    var th, d := s.threads[t], Step(s, t, c);
    OwnProtected(s, d, t, th.recs[0], th.cur);
  }

  lemma NextLocal<V>(s: State<V>, t: nat, c: Choice<V>)
    requires CanStep(s, t, c) && s.threads[t].pc.PopNext?
    ensures Shape(Step(s, t, c)) && ThreadInv(Step(s, t, c), t)
  {
    assert ThreadInv(s, t);
    var th, d := s.threads[t], Step(s, t, c);
    if d.threads[t].pc.PopProtect2? {
      OwnProtected(s, d, t, th.recs[0], th.cur);
      if s.heap[th.cur].own.Queued? {
        assert QueuedAt(s, s.heap[th.cur].own.i);
      }
    }
  }

  lemma BeginLocal<V>(s: State<V>, t: nat, c: Choice<V>)
    requires CanStep(s, t, c) && s.threads[t].pc.ScanBegin?
    ensures Shape(Step(s, t, c)) && ThreadInv(Step(s, t, c), t)
  {
    assert ThreadInv(s, t);
  }

  lemma ScanLocal<V>(s: State<V>, t: nat, c: Choice<V>)
    requires CanStep(s, t, c) && s.threads[t].pc.Scanning?
    ensures Shape(Step(s, t, c)) && ThreadInv(Step(s, t, c), t)
  {
    assert ThreadInv(s, t);
  }

  lemma LocalThread<V>(s: State<V>, t: nat, c: Choice<V>)
    requires CanStep(s, t, c) && IsLocal(s, t, c)
    ensures Shape(Step(s, t, c)) && ThreadInv(Step(s, t, c), t)
  {
    match s.threads[t].pc
    case PopNext => NextLocal(s, t, c);
    case PopValidate => ValidateLocal(s, t, c);
    case PopCheck => CheckLocal(s, t, c);
    case ScanBegin => BeginLocal(s, t, c);
    case Scanning => ScanLocal(s, t, c);
    case Rest => PopLocal(s, t, c);
    case PopSwap => PopLocal(s, t, c);
    case PushValidate => TailLocal(s, t, c);
    case _ => PushLocal(s, t, c);
  }

  lemma LocalStep<V>(s: State<V>, t: nat, c: Choice<V>)
    requires CanStep(s, t, c) && IsLocal(s, t, c)
    ensures Inv(Step(s, t, c))
  {
    var d := Step(s, t, c);
    LocalIsPut(s, t, c);
    LocalThread(s, t, c);
    PutEvolves(s, t, d.threads[t]);
    Assemble(s, d, t);
  }
}
