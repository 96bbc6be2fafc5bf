/** What a step of the queue leaves alone, in one place, and where a call goes next: the results over
    whole runs need no more of most steps. */
module HazardQueueFrames {
  import opened Options
  import opened HazardQueue
  import opened HazardQueueSteps
  import opened HazardQueueRecords

  predicate InScan(pc: Pc) {
    pc.ScanBegin? || pc.Scanning? || pc.Freeing?
  }

  /** A pop that has not moved the head. */
  predicate BeforePop(pc: Pc) {
    pc.PopTake1? || pc.PopAdd1? || pc.PopTake2? || pc.PopAdd2? || pc.PopProtect? || pc.PopValidate?
    || pc.PopNext? || pc.PopProtect2? || pc.PopCheck? || pc.PopSwap?
  }

  /** The step is the swap of the tail by a push. */
  predicate Installs<V>(s: State<V>, t: nat)
    requires t < |s.threads|
  {
    s.threads[t].pc.PushSwap? && s.tail == s.threads[t].cur
  }

  /** The step is the swap of the head by a pop. */
  predicate Advances<V>(s: State<V>, t: nat)
    requires t < |s.threads|
  {
    s.threads[t].pc.PopSwap? && s.head == s.threads[t].cur
  }

  /** The records: how many are counted and listed, who holds them, and the wait lists. */
  ghost predicate RecordFrame<V>(s: State<V>, d: State<V>, t: nat, c: Choice<V>)
    requires Shape(s) && t < |s.threads|
  {
    var th := s.threads[t];
    && d.announced == s.announced + (if Takes(th.pc) && c.Announce? then 1 else 0)
    && |d.records| == |s.records| + (if Adds(th.pc) then 1 else 0)
    && (forall r | 0 <= r < |s.records| && !((th.pc.PopRetire? || th.pc.Freeing?) && r == th.recs[0]) ::
          d.records[r].rlist == s.records[r].rlist)
    && (forall r | |s.records| <= r < |d.records| :: d.records[r].rlist == [])
    && (forall r | 0 <= r < |s.records| && s.records[r].holder.Some? ::
          s.records[r].holder.value != t || InScan(th.pc) ==>
          d.records[r].holder == s.records[r].holder)
  }

  /** The threads: only one moves, and it enters a scan or a read only where it should. */
  ghost predicate ThreadFrame<V>(s: State<V>, d: State<V>, t: nat, c: Choice<V>)
    requires t < |s.threads|
  {
    && |d.threads| == |s.threads| && d.threads == s.threads[t := d.threads[t]]
    && var th, th' := s.threads[t], d.threads[t];
       && (Adds(th'.pc) <==> Takes(th.pc) && c.Announce?)
       && (InScan(th'.pc) ==> InScan(th.pc) || th.pc.PopRetire?)
       && (th'.pc.PopRead? <==> Advances(s, t))
       && (th'.pc.PopRead? ==> th'.idx == s.popped + 1)
  }

  /** The history: values are appended when the tail is swapped, open answers when the head is, and
      an answer is filled in when the popping thread reads. */
  ghost predicate HistoryFrame<V>(s: State<V>, d: State<V>, t: nat)
    requires Shape(s) && t < |s.threads| && Touches(s, t) <= s.heap.Keys && HasSlot(s, s.threads[t])
  {
    var th := s.threads[t];
    && d.vals == (if Installs(s, t) then s.vals + [s.heap[th.node].v] else s.vals)
    && |d.chain| == |s.chain| + (if Installs(s, t) then 1 else 0)
    && d.popped == s.popped + (if Advances(s, t) then 1 else 0)
    && d.outs == if Advances(s, t) then s.outs + [None]
                 else if th.pc.PopRead? then s.outs[th.idx - 1 := Some(s.heap[th.next].v)] else s.outs
  }

  ghost predicate Frame<V>(s: State<V>, d: State<V>, t: nat, c: Choice<V>)
    requires CanStep(s, t, c)
  {
    Shape(d) && RecordFrame(s, d, t, c) && ThreadFrame(s, d, t, c) && HistoryFrame(s, d, t)
  }

  // ---- every step keeps to it ----

  lemma LocalFrame<V>(s: State<V>, t: nat, c: Choice<V>)
    requires CanStep(s, t, c) && IsLocal(s, t, c)
    ensures Frame(s, Step(s, t, c), t, c)
  {
    LocalIsPut(s, t, c);
  }

  lemma TakeFrame<V>(s: State<V>, t: nat, c: Choice<V>)
    requires CanStep(s, t, c) && Takes(s.threads[t].pc)
    ensures Frame(s, Step(s, t, c), t, c)
  {
    TakeOnly(s, t, c);
  }

  lemma AddFrame<V>(s: State<V>, t: nat, c: Choice<V>)
    requires CanStep(s, t, c) && Adds(s.threads[t].pc)
    ensures Frame(s, Step(s, t, c), t, c)
  {
    AddOnly(s, t, c);
  }

  lemma SetFrame<V>(s: State<V>, t: nat, c: Choice<V>)
    requires CanStep(s, t, c) && (s.threads[t].pc.PushProtect? || s.threads[t].pc.PopProtect?)
    ensures Frame(s, Step(s, t, c), t, c)
  {}

  lemma SetNextFrame<V>(s: State<V>, t: nat, c: Choice<V>)
    requires CanStep(s, t, c) && s.threads[t].pc.PopProtect2?
    ensures Frame(s, Step(s, t, c), t, c)
  {}

  lemma LeaveFrame<V>(s: State<V>, t: nat, c: Choice<V>)
    requires CanStep(s, t, c) && s.threads[t].pc.Leave?
    ensures Frame(s, Step(s, t, c), t, c)
  {
    assert ThreadInv(s, t);
  }

  lemma PushFrame<V>(s: State<V>, t: nat, c: Choice<V>)
    requires CanStep(s, t, c)
    requires Installs(s, t) || s.threads[t].pc.PushLink? || (s.threads[t].pc.Rest? && c.StartPush?)
    ensures Frame(s, Step(s, t, c), t, c)
  {}

  lemma AdvanceFrame<V>(s: State<V>, t: nat, c: Choice<V>)
    requires CanStep(s, t, c) && Advances(s, t)
    ensures Frame(s, Step(s, t, c), t, c)
  {}

  lemma ReadFrame<V>(s: State<V>, t: nat, c: Choice<V>)
    requires CanStep(s, t, c) && (s.threads[t].pc.PopRead? || s.threads[t].pc.PopClear?)
    ensures Frame(s, Step(s, t, c), t, c)
  {}

  lemma RetireFrame<V>(s: State<V>, t: nat, c: Choice<V>)
    requires CanStep(s, t, c) && s.threads[t].pc.PopRetire?
    ensures Frame(s, Step(s, t, c), t, c)
  {}

  lemma FreeFrame<V>(s: State<V>, t: nat, c: Choice<V>)
    requires CanStep(s, t, c) && s.threads[t].pc.Freeing?
    ensures Frame(s, Step(s, t, c), t, c)
  {}

  lemma StepFrame<V>(s: State<V>, t: nat, c: Choice<V>)
    requires CanStep(s, t, c)
    ensures Frame(s, Step(s, t, c), t, c)
  {
    if IsLocal(s, t, c) {
      LocalFrame(s, t, c);
    } else {
      match s.threads[t].pc
      case Rest => PushFrame(s, t, c);
      case PushSwap => PushFrame(s, t, c);
      case PushLink => PushFrame(s, t, c);
      case PopSwap => AdvanceFrame(s, t, c);
      case PopRead => ReadFrame(s, t, c);
      case PopClear => ReadFrame(s, t, c);
      case PopRetire => RetireFrame(s, t, c);
      case Freeing => FreeFrame(s, t, c);
      case Leave => LeaveFrame(s, t, c);
      case PushProtect => SetFrame(s, t, c);
      case PopProtect => SetFrame(s, t, c);
      case PopProtect2 => SetNextFrame(s, t, c);
      case PushTake => TakeFrame(s, t, c);
      case PopTake1 => TakeFrame(s, t, c);
      case PopTake2 => TakeFrame(s, t, c);
      case _ => AddFrame(s, t, c);
    }
  }

  // ---- where a call goes next ----

  /** A push goes on until it has swapped the tail. */
  lemma PushGoesOn<V>(s: State<V>, t: nat, c: Choice<V>)
    requires CanStep(s, t, c) && Builds(s.threads[t].pc)
    ensures var d := Step(s, t, c);
            && t < |d.threads| && d.threads[t].node == s.threads[t].node
            && if Installs(s, t) then d.threads[t].pc.PushLink? else Builds(d.threads[t].pc)
  {}

  lemma PushBegins<V>(s: State<V>, t: nat, c: Choice<V>)
    requires CanStep(s, t, c) && c.StartPush?
    ensures var d := Step(s, t, c);
            && t < |d.threads| && d.threads[t].pc.PushLoad? && d.threads[t].node == c.a
            && c.a in d.heap && d.heap[c.a].v == c.v
    ensures s.threads[t].pc.Rest?
  {}

  lemma PopBegins<V>(s: State<V>, t: nat, c: Choice<V>)
    requires CanStep(s, t, c) && c.StartPop?
    ensures s.threads[t].pc.Rest? && t < |Step(s, t, c).threads| && BeforePop(Step(s, t, c).threads[t].pc)
  {}

  /** What is left after a push has swapped the tail, or a pop has answered. */
  lemma ReturnGoesOn<V>(s: State<V>, t: nat, c: Choice<V>)
    requires CanStep(s, t, c) && (s.threads[t].pc.PushLink? || s.threads[t].pc.Leave?)
    ensures var d := Step(s, t, c); t < |d.threads| && (d.threads[t].pc.Leave? || d.threads[t].pc.Rest?)
  {}

  lemma PoppedGoesOn<V>(s: State<V>, t: nat, c: Choice<V>)
    requires CanStep(s, t, c) && (HasPopped(s.threads[t].pc) || InScan(s.threads[t].pc))
    ensures var pc := Step(s, t, c).threads[t].pc;
            pc.PopClear? || pc.PopRetire? || InScan(pc) || pc.Leave?
  {}

  /** The value of a node never changes. */
  lemma NodeValue<V>(s: State<V>, t: nat, c: Choice<V>, a: nat)
    requires CanStep(s, t, c) && a in s.heap && a in Step(s, t, c).heap
    ensures Step(s, t, c).heap[a].v == s.heap[a].v
  {}

  /** The next step of a pop that has not moved the head. */
  lemma PopGoesOn<V>(s: State<V>, t: nat, c: Choice<V>)
    requires CanStep(s, t, c) && (BeforePop(s.threads[t].pc) || (s.threads[t].pc.Rest? && c.StartPop?))
    ensures var d := Step(s, t, c);
            && t < |d.threads|
            && if Advances(s, t) then d.threads[t].pc.PopRead?
               else BeforePop(d.threads[t].pc) || (s.threads[t].pc.PopNext? && d.threads[t].pc.Leave?)
  {}
}
