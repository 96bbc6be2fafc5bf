/** The steps that acquire, set and release hazard records keep the invariant. */
module HazardQueueRecords {
  import opened HazardQueue
  import opened HazardQueueSteps

  predicate Takes(pc: Pc) {
    pc.PushTake? || pc.PopTake1? || pc.PopTake2?
  }

  /** The thread has counted a record that is not on the list yet. */
  predicate Adds(pc: Pc) {
    pc.PushAdd? || pc.PopAdd1? || pc.PopAdd2?
  }

  predicate IsRecord(pc: Pc) {
    Takes(pc) || Adds(pc) || pc.PushProtect? || pc.PopProtect? || pc.PopProtect2? || pc.Leave?
  }

  /** Only records that nobody else holds change, and no wait list. */
  ghost predicate OnlyRecords<V>(s: State<V>, d: State<V>, t: nat)
    requires t < |s.threads|
  {
    && d == s.(records := d.records, threads := d.threads, announced := d.announced)
    && |d.threads| == |s.threads| && d.threads == s.threads[t := d.threads[t]]
    && |s.records| <= |d.records|
    && (forall r | 0 <= r < |s.records| :: d.records[r].rlist == s.records[r].rlist)
    && (forall r | |s.records| <= r < |d.records| :: d.records[r].rlist == [])
    && (forall r | 0 <= r < |s.records| && s.records[r].holder.Some? && s.records[r].holder.value != t ::
          d.records[r] == s.records[r])
    && !d.threads[t].pc.Scanning? && !d.threads[t].pc.Freeing?
  }

  lemma RecordEvolves<V>(s: State<V>, d: State<V>, t: nat)
    requires Inv(s) && t < |s.threads| && Shape(d) && OnlyRecords(s, d, t)
    ensures Evolves(s, d, t) && QueueInv(d) && WaitInv(d)
  {
    SameQueue(s, d);
    SameWait(s, d);
  }

  lemma TakeOnly<V>(s: State<V>, t: nat, c: Choice<V>)
    requires CanStep(s, t, c) && Takes(s.threads[t].pc)
    ensures Shape(Step(s, t, c)) && OnlyRecords(s, Step(s, t, c), t)
  {}

  lemma AddOnly<V>(s: State<V>, t: nat, c: Choice<V>)
    requires CanStep(s, t, c) && Adds(s.threads[t].pc)
    ensures Shape(Step(s, t, c)) && OnlyRecords(s, Step(s, t, c), t)
  {}

  lemma SetOnly<V>(s: State<V>, t: nat, c: Choice<V>)
    requires CanStep(s, t, c)
    requires s.threads[t].pc.PushProtect? || s.threads[t].pc.PopProtect? || s.threads[t].pc.PopProtect2?
    ensures Shape(Step(s, t, c)) && OnlyRecords(s, Step(s, t, c), t)
  {
    assert ThreadInv(s, t);
  }

  lemma LeaveOnly<V>(s: State<V>, t: nat, c: Choice<V>)
    requires CanStep(s, t, c) && s.threads[t].pc.Leave?
    ensures Shape(Step(s, t, c)) && OnlyRecords(s, Step(s, t, c), t)
  {
    assert ThreadInv(s, t);
  }

  lemma PushTakeThread<V>(s: State<V>, t: nat, c: Choice<V>)
    requires CanStep(s, t, c) && s.threads[t].pc.PushTake?
    ensures Shape(Step(s, t, c)) && ThreadInv(Step(s, t, c), t)
  {
    assert ThreadInv(s, t);
  }

  lemma FirstTakeThread<V>(s: State<V>, t: nat, c: Choice<V>)
    requires CanStep(s, t, c) && s.threads[t].pc.PopTake1?
    ensures Shape(Step(s, t, c)) && ThreadInv(Step(s, t, c), t)
  {
    assert ThreadInv(s, t);
  }

  lemma SecondTakeThread<V>(s: State<V>, t: nat, c: Choice<V>)
    requires CanStep(s, t, c) && s.threads[t].pc.PopTake2?
    ensures Shape(Step(s, t, c)) && ThreadInv(Step(s, t, c), t)
  {
    assert ThreadInv(s, t);
  }

  lemma PushAddThread<V>(s: State<V>, t: nat, c: Choice<V>)
    requires CanStep(s, t, c) && s.threads[t].pc.PushAdd?
    ensures Shape(Step(s, t, c)) && ThreadInv(Step(s, t, c), t)
  {
    assert ThreadInv(s, t);
  }

  lemma PopAddThread<V>(s: State<V>, t: nat, c: Choice<V>)
    requires CanStep(s, t, c) && (s.threads[t].pc.PopAdd1? || s.threads[t].pc.PopAdd2?)
    ensures Shape(Step(s, t, c)) && ThreadInv(Step(s, t, c), t)
  {
    assert ThreadInv(s, t);
  }

  lemma PushSetThread<V>(s: State<V>, t: nat, c: Choice<V>)
    requires CanStep(s, t, c) && s.threads[t].pc.PushProtect?
    ensures Shape(Step(s, t, c)) && ThreadInv(Step(s, t, c), t)
  {
    assert ThreadInv(s, t);
  }

  lemma PopSetThread<V>(s: State<V>, t: nat, c: Choice<V>)
    requires CanStep(s, t, c) && s.threads[t].pc.PopProtect?
    ensures Shape(Step(s, t, c)) && ThreadInv(Step(s, t, c), t)
  {
    assert ThreadInv(s, t);
  }

  /** The record to be given back next still shows a hazard pointer. */
  predicate Shown<V>(s: State<V>, t: nat)
    requires t < |s.threads|
  {
    var recs := s.threads[t].recs;
    recs != [] && recs[|recs| - 1] < |s.records| && s.records[recs[|recs| - 1]].hp.Some?
  }

  lemma HideThread<V>(s: State<V>, t: nat, c: Choice<V>)
    requires CanStep(s, t, c) && s.threads[t].pc.Leave? && Shown(s, t)
    ensures Shape(Step(s, t, c)) && ThreadInv(Step(s, t, c), t)
  {
    assert ThreadInv(s, t);
  }

  lemma ReleaseThread<V>(s: State<V>, t: nat, c: Choice<V>)
    requires CanStep(s, t, c) && s.threads[t].pc.Leave? && !Shown(s, t)
    ensures Shape(Step(s, t, c)) && ThreadInv(Step(s, t, c), t)
  {
    assert ThreadInv(s, t);
  }

  lemma NextThread<V>(s: State<V>, t: nat, c: Choice<V>)
    requires CanStep(s, t, c) && s.threads[t].pc.PopProtect2?
    ensures Shape(Step(s, t, c)) && ThreadInv(Step(s, t, c), t)
  {
    assert ThreadInv(s, t);
    OwnProtected(s, Step(s, t, c), t, s.threads[t].recs[0], s.threads[t].cur);
  }

  lemma RecordStep<V>(s: State<V>, t: nat, c: Choice<V>)
    requires CanStep(s, t, c) && IsRecord(s.threads[t].pc)
    ensures Inv(Step(s, t, c))
  {
    var d := Step(s, t, c);
    if Takes(s.threads[t].pc) {
      TakeOnly(s, t, c);
      match s.threads[t].pc {
        case PushTake => PushTakeThread(s, t, c);
        case PopTake1 => FirstTakeThread(s, t, c);
        case _ => SecondTakeThread(s, t, c);
      }
    } else if Adds(s.threads[t].pc) {
      AddOnly(s, t, c);
      if s.threads[t].pc.PushAdd? {
        PushAddThread(s, t, c);
      } else {
        PopAddThread(s, t, c);
      }
    } else if s.threads[t].pc.Leave? {
      LeaveOnly(s, t, c);
      if Shown(s, t) {
        HideThread(s, t, c);
      } else {
        ReleaseThread(s, t, c);
      }
    } else {
      SetOnly(s, t, c);
      match s.threads[t].pc {
        case PopProtect2 => NextThread(s, t, c);
        case PushProtect => PushSetThread(s, t, c);
        case _ => PopSetThread(s, t, c);
      }
    }
    RecordEvolves(s, d, t);
    Assemble(s, d, t);
  }
}
