/** What whole calls of push and pop do, from the step that begins them to their return. */
module HazardQueueCalls {
  import opened Options
  import opened HazardQueue
  import opened HazardQueueSteps
  import opened HazardQueueRecords
  import opened HazardQueueFrames
  import opened HazardQueueNodes
  import opened HazardQueueRuns
  import opened HazardQueueEmpty

  // ---- from the beginning to the return ----

  ghost predicate Running<V>(run: seq<State<V>>, t: nat, i: nat) {
    i < |run| && t < |run[i].threads| && !run[i].threads[t].pc.Rest?
  }

  /** The steps by one thread move neither end of the queue, except perhaps step `k`. */
  ghost predicate Quiet<V>(run: seq<State<V>>, schedule: seq<(nat, Choice<V>)>, t: nat, i: nat, j: nat, k: int)
    requires j < |run| == |schedule| + 1
  {
    forall m | i <= m < j && m != k && schedule[m].0 == t :: run[m + 1].vals == run[m].vals
                                                             && run[m + 1].popped == run[m].popped
  }

  /** Facts about one step of a run. */
  lemma RunStep<V>(run: seq<State<V>>, schedule: seq<(nat, Choice<V>)>, i: nat)
    requires IsRun(run, schedule) && i + 1 < |run|
    ensures CanStep(run[i], schedule[i].0, schedule[i].1)
    ensures run[i + 1] == Step(run[i], schedule[i].0, schedule[i].1) && Inv(run[i + 1])
    ensures Frame(run[i], run[i + 1], schedule[i].0, schedule[i].1)
  {
    RunInv(run, schedule, i);
    RunInv(run, schedule, i + 1);
    assert Follows(run, schedule, i + 1);
    StepFrame(run[i], schedule[i].0, schedule[i].1);
  }

  /** How far a push is: it builds its node, or it has swapped the tail at moment `k`. */
  ghost predicate PushAt<V>(run: seq<State<V>>, schedule: seq<(nat, Choice<V>)>, t: nat, v: V, i: nat, j: nat, k: int)
    requires i < j < |run| == |schedule| + 1
  {
    && t < |run[j].threads|
    && var th := run[j].threads[t];
       if k < i then Builds(th.pc) && th.node in run[j].heap && run[j].heap[th.node].v == v
       else k < j && schedule[k].0 == t && run[k + 1].vals == run[k].vals + [v] && run[k + 1].popped == run[k].popped
            && (th.pc.PushLink? || th.pc.Leave? || th.pc.Rest?)
  }

  lemma PushStep<V>(run: seq<State<V>>, schedule: seq<(nat, Choice<V>)>, t: nat, v: V, i: nat, j: nat, k: int)
      returns (k': int)
    requires IsRun(run, schedule) && i < j && j + 1 < |run| && Running(run, t, j)
    requires PushAt(run, schedule, t, v, i, j, k)
    ensures PushAt(run, schedule, t, v, i, j + 1, k') && (k' == k || (k < i && k' == j))
    ensures schedule[j].0 == t && k' != j ==> run[j + 1].vals == run[j].vals && run[j + 1].popped == run[j].popped
  {
    RunStep(run, schedule, j);
    k' := k;
    if schedule[j].0 == t {
      if k >= i {
        ReturnGoesOn(run[j], t, schedule[j].1);
      } else {
        PushGoesOn(run[j], t, schedule[j].1);
        if Installs(run[j], t) {
          k' := j;
        } else {
          assert ThreadInv(run[j + 1], t);
          NodeValue(run[j], t, schedule[j].1, run[j].threads[t].node);
        }
      }
    } else if k < i {
      assert ThreadInv(run[j + 1], t);
      NodeValue(run[j], schedule[j].0, schedule[j].1, run[j].threads[t].node);
    }
  }

  lemma {:induction false} PushSoFar<V>(run: seq<State<V>>, schedule: seq<(nat, Choice<V>)>, t: nat, v: V, a: nat,
                                        i: nat, j: nat)
      returns (k: int)
    requires IsRun(run, schedule) && i < j < |run| && schedule[i] == (t, StartPush(v, a))
    requires forall m: nat | i < m < j :: Running(run, t, m)
    ensures PushAt(run, schedule, t, v, i, j, k) && Quiet(run, schedule, t, i, j, k)
  {
    if j == i + 1 {
      RunStep(run, schedule, i);
      PushBegins(run[i], t, schedule[i].1);
      k := -1;
    } else {
      var k0 := PushSoFar(run, schedule, t, v, a, i, j - 1);
      assert Running(run, t, j - 1);
      k := PushStep(run, schedule, t, v, i, j - 1, k0);
    }
  }

  /** A push that has returned has appended its value, at exactly one moment of the call, and has
      done nothing else to the queue. */
  lemma PushReturns<V>(run: seq<State<V>>, schedule: seq<(nat, Choice<V>)>, t: nat, v: V, a: nat, i: nat, j: nat)
      returns (k: nat)
    requires IsRun(run, schedule) && i < j < |run| && schedule[i] == (t, StartPush(v, a))
    requires forall m: nat | i < m < j :: Running(run, t, m)
    requires t < |run[j].threads| && run[j].threads[t].pc.Rest?
    ensures i < k < j && schedule[k].0 == t
    ensures run[k + 1].vals == run[k].vals + [v] && run[k + 1].popped == run[k].popped
    ensures forall m | i <= m < j && m != k && schedule[m].0 == t ::
              run[m + 1].vals == run[m].vals && run[m + 1].popped == run[m].popped
  {
    k := PushSoFar(run, schedule, t, v, a, i, j);
    if k == i {
      RunStep(run, schedule, i);
      PushBegins(run[i], t, schedule[i].1);
    }
  }

  // ---- the same for pops ----

  /** Where a pop is: it has not moved the head; it has, at moment `k`, and has read its value or is
      about to; or it read at moment `k` that there is no successor. */
  ghost predicate PopAt<V>(run: seq<State<V>>, schedule: seq<(nat, Choice<V>)>, t: nat, i: nat, j: nat,
                           k: int, taken: bool)
    requires i < j < |run| == |schedule| + 1
  {
    && t < |run[j].threads|
    && var th := run[j].threads[t];
       if k < i then BeforePop(th.pc)
       else k < j && schedule[k].0 == t && t < |run[k].threads|
            && if taken then Took(run, t, j, k) else GaveUp(run, t, k) && (th.pc.Leave? || th.pc.Rest?)
  }

  ghost predicate Took<V>(run: seq<State<V>>, t: nat, j: nat, k: nat)
    requires k < j < |run| && t < |run[j].threads|
  {
    var th, p := run[j].threads[t], run[k].popped;
    && run[k + 1].popped == p + 1 && run[k + 1].vals == run[k].vals
    && ((th.pc.PopRead? && th.idx == p + 1)
        || (p < |run[j].outs| && run[j].outs[p].Some?
            && (th.pc.PopClear? || th.pc.PopRetire? || InScan(th.pc) || th.pc.Leave? || th.pc.Rest?)))
  }

  /** The step that answers "empty" at moment `k`. */
  ghost predicate GaveUp<V>(run: seq<State<V>>, t: nat, k: nat)
    requires k + 1 < |run| && t < |run[k].threads|
  {
    var s, a := run[k], run[k].threads[t].cur;
    && run[k + 1].popped == s.popped && run[k + 1].vals == s.vals && a in s.heap
    && ((s.heap[a].own.Queued? && IsEmpty(s)) || Unlinked(s, a) || Cleared(s, a))
  }

  lemma BeforeStep<V>(run: seq<State<V>>, schedule: seq<(nat, Choice<V>)>, t: nat, i: nat, j: nat)
      returns (k: int, taken: bool)
    requires IsRun(run, schedule) && i < j && j + 1 < |run|
    requires t < |run[j].threads| && BeforePop(run[j].threads[t].pc) && schedule[j].0 == t
    ensures PopAt(run, schedule, t, i, j + 1, k, taken) && (k == -1 || k == j)
    ensures k == -1 ==> run[j + 1].vals == run[j].vals && run[j + 1].popped == run[j].popped
  {
    RunStep(run, schedule, j);
    EmptyOnly(run, schedule, j, t);
    taken := Advances(run[j], t);
    k := if taken || run[j + 1].threads[t].pc.Leave? then j else -1;
  }

  lemma TakenStep<V>(run: seq<State<V>>, schedule: seq<(nat, Choice<V>)>, t: nat, i: nat, j: nat, k: nat)
    requires IsRun(run, schedule) && i < j && j + 1 < |run| && Running(run, t, j) && i <= k
    requires PopAt(run, schedule, t, i, j, k, true)
    ensures PopAt(run, schedule, t, i, j + 1, k, true)
    ensures schedule[j].0 == t ==> run[j + 1].vals == run[j].vals && run[j + 1].popped == run[j].popped
  {
    RunStep(run, schedule, j);
    var p := run[k].popped;
    if p < |run[j].outs| && run[j].outs[p].Some? {
      RunKeeps(run, schedule, j + 1, p);
    }
    if schedule[j].0 == t {
      if run[j].threads[t].pc.Leave? {
        ReturnGoesOn(run[j], t, schedule[j].1);
      } else {
        PoppedGoesOn(run[j], t, schedule[j].1);
      }
    }
  }

  lemma PopStep<V>(run: seq<State<V>>, schedule: seq<(nat, Choice<V>)>, t: nat, i: nat, j: nat, k: int, taken: bool)
      returns (k': int, taken': bool)
    requires IsRun(run, schedule) && i < j && j + 1 < |run| && Running(run, t, j)
    requires PopAt(run, schedule, t, i, j, k, taken)
    ensures PopAt(run, schedule, t, i, j + 1, k', taken') && (k >= i ==> k' == k) && (k < i ==> k' < i || k' == j)
    ensures schedule[j].0 == t && k' != j ==> run[j + 1].vals == run[j].vals && run[j + 1].popped == run[j].popped
  {
    RunStep(run, schedule, j);
    k', taken' := k, taken;
    if k < i {
      if schedule[j].0 == t {
        k', taken' := BeforeStep(run, schedule, t, i, j);
      }
    } else if taken {
      TakenStep(run, schedule, t, i, j, k);
    } else if schedule[j].0 == t {
      ReturnGoesOn(run[j], t, schedule[j].1);
    }
  }

  lemma {:induction false} PopSoFar<V>(run: seq<State<V>>, schedule: seq<(nat, Choice<V>)>, t: nat, i: nat, j: nat)
      returns (k: int, taken: bool)
    requires IsRun(run, schedule) && i < j < |run| && schedule[i] == (t, StartPop)
    requires forall m: nat | i < m < j :: Running(run, t, m)
    ensures PopAt(run, schedule, t, i, j, k, taken) && Quiet(run, schedule, t, i, j, k) && k != i
  {
    if j == i + 1 {
      RunStep(run, schedule, i);
      PopBegins(run[i], t, schedule[i].1);
      k, taken := -1, false;
    } else {
      var k0, taken0 := PopSoFar(run, schedule, t, i, j - 1);
      assert Running(run, t, j - 1);
      k, taken := PopStep(run, schedule, t, i, j - 1, k0, taken0);
    }
  }

  /** A pop that has returned has done one of two things at exactly one moment of the call, and
      nothing else to the queue. Either it took the oldest value queued and delivers that; or it read
      that the node it held has no successor, in one of the three cases of `EmptyAnswer`. */
  lemma PopReturns<V>(run: seq<State<V>>, schedule: seq<(nat, Choice<V>)>, t: nat, i: nat, j: nat)
      returns (k: nat, taken: bool)
    requires IsRun(run, schedule) && i < j < |run| && schedule[i] == (t, StartPop)
    requires forall m: nat | i < m < j :: Running(run, t, m)
    requires t < |run[j].threads| && run[j].threads[t].pc.Rest?
    ensures i < k < j && schedule[k].0 == t && run[k + 1].vals == run[k].vals
    ensures taken ==> run[k + 1].popped == run[k].popped + 1
    ensures taken ==> var p := run[k].popped;
              p < |run[j].outs| && p + 1 < |run[j].vals| && run[j].outs[p] == Some(run[j].vals[p + 1])
    ensures !taken ==> run[k + 1].popped == run[k].popped
    ensures !taken ==> t < |run[k].threads| && run[k].threads[t].cur in run[k].heap
    ensures !taken ==> var s, a := run[k], run[k].threads[t].cur;
              (s.heap[a].own.Queued? && IsEmpty(s)) || Unlinked(s, a) || Cleared(s, a)
    ensures forall m | i <= m < j && m != k && schedule[m].0 == t ::
              run[m + 1].vals == run[m].vals && run[m + 1].popped == run[m].popped
  {
    k, taken := PopSoFar(run, schedule, t, i, j);
    FirstInFirstOut(run, schedule, j);
  }

  // ---- what a call leaves behind ----

  /** A record that nobody holds shows no node, so it keeps none from being freed; and the records
      that a thread holds are those it knows of. */
  ghost predicate Tidy<V>(s: State<V>) {
    && (forall r: nat | r < |s.records| && s.records[r].holder.None? :: s.records[r].hp.None?)
    && (forall r: nat | r < |s.records| && s.records[r].holder.Some? ::
          s.records[r].holder.value < |s.threads| && r in s.threads[s.records[r].holder.value].recs)
  }

  /** Other steps change neither the pointers nor the holders. */
  lemma PlainTidy<V>(s: State<V>, t: nat, c: Choice<V>)
    requires CanStep(s, t, c) && !IsRecord(s.threads[t].pc)
    ensures var d := Step(s, t, c);
            && |d.records| == |s.records| && |d.threads| == |s.threads|
            && (forall r | 0 <= r < |s.records| ::
                  d.records[r].hp == s.records[r].hp && d.records[r].holder == s.records[r].holder)
            && (forall u | 0 <= u < |s.threads| :: d.threads[u].recs == s.threads[u].recs)
  {
    if IsLocal(s, t, c) {
      LocalIsPut(s, t, c);
    }
  }

  lemma TakeTidy<V>(s: State<V>, t: nat, c: Choice<V>)
    requires CanStep(s, t, c) && Takes(s.threads[t].pc) && Tidy(s)
    ensures Tidy(Step(s, t, c))
  {
    if c.Take? {
      var d := Step(s, t, c);
      assert d.threads[t].recs == s.threads[t].recs + [c.r] && c.r in d.threads[t].recs;
    }
  }

  lemma AddTidy<V>(s: State<V>, t: nat, c: Choice<V>)
    requires CanStep(s, t, c) && Adds(s.threads[t].pc) && Tidy(s)
    ensures Tidy(Step(s, t, c))
  {
    var d := Step(s, t, c);
    assert d.threads[t].recs == s.threads[t].recs + [|s.records|] && |s.records| in d.threads[t].recs;
  }

  lemma SetTidy<V>(s: State<V>, t: nat, c: Choice<V>)
    requires CanStep(s, t, c) && Tidy(s)
    requires s.threads[t].pc.PushProtect? || s.threads[t].pc.PopProtect? || s.threads[t].pc.PopProtect2?
    ensures Tidy(Step(s, t, c))
  {
    assert ThreadInv(s, t);
  }

  lemma HideTidy<V>(s: State<V>, t: nat, c: Choice<V>)
    requires CanStep(s, t, c) && s.threads[t].pc.Leave? && Shown(s, t) && Tidy(s)
    ensures Tidy(Step(s, t, c))
  {
    assert ThreadInv(s, t);
  }

  lemma Shorter(l: seq<nat>, x: nat)
    requires l != [] && x in l && x != l[|l| - 1]
    ensures x in l[..|l| - 1]
  {}

  lemma Released<V>(s: State<V>, t: nat, c: Choice<V>)
    requires CanStep(s, t, c) && s.threads[t].pc.Leave? && !Shown(s, t)
    ensures var d, recs := Step(s, t, c), s.threads[t].recs;
            && recs != [] && recs[|recs| - 1] < |s.records| && |d.threads| == |s.threads|
            && d.records == s.records[recs[|recs| - 1] := s.records[recs[|recs| - 1]].(hp := None, holder := None)]
            && d.threads[t].recs == recs[..|recs| - 1]
            && forall u | 0 <= u < |s.threads| && u != t :: d.threads[u] == s.threads[u]
  {}

  lemma ReleaseTidy<V>(s: State<V>, t: nat, c: Choice<V>)
    requires CanStep(s, t, c) && s.threads[t].pc.Leave? && !Shown(s, t) && Tidy(s)
    ensures Tidy(Step(s, t, c))
  {
    Released(s, t, c);
    var d, recs := Step(s, t, c), s.threads[t].recs;
    forall r: nat | r < |d.records| && d.records[r].holder.Some?
      ensures d.records[r].holder.value < |d.threads| && r in d.threads[d.records[r].holder.value].recs
    {
      if s.records[r].holder == Some(t) {
        Shorter(recs, r);
      }
    }
  }

  lemma StepTidy<V>(s: State<V>, t: nat, c: Choice<V>)
    requires CanStep(s, t, c) && Tidy(s)
    ensures Tidy(Step(s, t, c))
  {
    if Takes(s.threads[t].pc) {
      TakeTidy(s, t, c);
    } else if Adds(s.threads[t].pc) {
      AddTidy(s, t, c);
    } else if s.threads[t].pc.Leave? {
      if Shown(s, t) {
        HideTidy(s, t, c);
      } else {
        ReleaseTidy(s, t, c);
      }
    } else if IsRecord(s.threads[t].pc) {
      SetTidy(s, t, c);
    } else {
      PlainTidy(s, t, c);
    }
  }

  /** In every run, what nobody holds shows nothing, and a thread between two calls holds nothing. */
  lemma {:induction false} RecordsTidy<V>(run: seq<State<V>>, schedule: seq<(nat, Choice<V>)>, i: nat)
    requires IsRun(run, schedule) && i < |run|
    ensures forall r: nat | r < |run[i].records| && run[i].records[r].holder.None? :: run[i].records[r].hp.None?
    ensures forall r: nat, t | r < |run[i].records| && 0 <= t < |run[i].threads| && run[i].threads[t].pc.Rest? ::
              run[i].records[r].holder != Some(t)
    ensures Tidy(run[i])
  {
    if i > 0 {
      RecordsTidy(run, schedule, i - 1);
      RunStep(run, schedule, i - 1);
      StepTidy(run[i - 1], schedule[i - 1].0, schedule[i - 1].1);
    }
  }
}
