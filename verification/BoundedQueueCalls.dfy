/** What whole calls of the bounded wrapper do: when a push is refused, and what the others change. */
module BoundedQueueCalls {
  import opened HazardQueue
  import opened HazardQueueSteps
  import opened HazardQueueFrames
  import opened HazardQueueNodes
  import opened HazardQueueEmpty
  import opened BoundedQueue

  lemma RunStep<V>(run: seq<Wrapper<V>>, schedule: seq<(nat, Choice<V>)>, m: nat)
    requires IsRun(run, schedule) && m + 1 < |run|
    ensures WrapperInv(run[m]) && WrapperInv(run[m + 1]) && CanMove(run[m], schedule[m].0, schedule[m].1)
    ensures run[m + 1] == Next(run[m], schedule[m].0, schedule[m].1)
  {
    RunInv(run, schedule, m);
    RunInv(run, schedule, m + 1);
    assert Follows(run, schedule, m + 1);
  }

  /** A push is refused exactly if what the counter held at first, the items of the linked queue, and
      the operations that are counted before they take effect or after, fill the capacity. */
  lemma PushRefused<V>(run: seq<Wrapper<V>>, schedule: seq<(nat, Choice<V>)>, i: nat)
    requires IsRun(run, schedule) && i + 1 < |run| && schedule[i].0 < |run[i].phases|
    requires run[i].phases[schedule[i].0].Idle? && schedule[i].1.StartPush?
    ensures var s, t := run[i], schedule[i].0;
            var held := set u | 0 <= u < |s.phases| && (s.phases[u].Pushing? || s.phases[u].Taken?);
            && t < |run[i + 1].phases|
            && if s.start + Items(s.inner) + |held| >= s.capacity then run[i + 1] == s
               else run[i + 1].phases[t].Tested? && run[i + 1].inner == s.inner
  {
    RunStep(run, schedule, i);
    var s := run[i];
    assert Those(s.phases, Owes) == set u | 0 <= u < |s.phases| && (s.phases[u].Pushing? || s.phases[u].Taken?);
  }

  // ---- one step of a call ----

  /** What the step changes of the linked queue and the counter. */
  ghost predicate Changes<V>(s: Wrapper<V>, d: Wrapper<V>, pushed: int, popped: int, counted: int) {
    && |d.inner.vals| == |s.inner.vals| + pushed && d.inner.popped == s.inner.popped + popped
    && d.counter == s.counter + counted
  }

  lemma InnerChanges<V>(s: Wrapper<V>, t: nat, c: Choice<V>, p: Phase)
    requires WrapperInv(s) && CanInner(s.inner, t, c) && t < |s.phases|
    ensures var pushed, popped := Installs(s.inner, t), Advances(s.inner, t);
            Changes(s, Inside(s, t, c, p), if pushed then 1 else 0, if popped then 1 else 0, 0)
  {
    StepFrame(s.inner, t, c);
  }

  /** The phases of a call, and what each step of it changes. */
  lemma Stages<V>(s: Wrapper<V>, t: nat, c: Choice<V>)
    requires WrapperInv(s) && CanMove(s, t, c)
    ensures var d, p := Next(s, t, c), s.phases[t];
            && |d.phases| == |s.phases|
            && var p' := d.phases[t];
               match p
               case Idle => Changes(s, d, 0, 0, 0)
               case Tested => p'.Pushing? && Changes(s, d, 0, 0, 1)
               case Pushing => (p'.Pushing? && Changes(s, d, 0, 0, 0)) || (p'.Pushed? && Changes(s, d, 1, 0, 0))
               case Pushed => (p'.Pushed? || p'.Idle?) && Changes(s, d, 0, 0, 0)
               case Taking =>
                 ((p'.Taking? || p'.Idle?) && Changes(s, d, 0, 0, 0)) || (p'.Taken? && Changes(s, d, 0, 1, 0))
               case Taken => (p'.Taken? && Changes(s, d, 0, 0, 0)) || (p'.Idle? && Changes(s, d, 0, 0, -1))
  {
    var p := s.phases[t];
    if CanInner(s.inner, t, c) {
      InnerChanges(s, t, c, if p.Idle? then Taking else After(s, t));
    }
  }

  // ---- whole calls ----

  ghost predicate Busy<V>(run: seq<Wrapper<V>>, t: nat, m: nat) {
    m < |run| && t < |run[m].phases| && !run[m].phases[t].Idle?
  }

  /** The steps by one thread move neither end of the linked queue, except perhaps step `k`. */
  ghost predicate Quiet<V>(run: seq<Wrapper<V>>, schedule: seq<(nat, Choice<V>)>, t: nat, i: nat, j: nat, k: int)
    requires j < |run| == |schedule| + 1
  {
    forall m | i <= m < j && m != k && schedule[m].0 == t ::
      |run[m + 1].inner.vals| == |run[m].inner.vals| && run[m + 1].inner.popped == run[m].inner.popped
  }

  lemma QuietOn<V>(run: seq<Wrapper<V>>, schedule: seq<(nat, Choice<V>)>, t: nat, i: nat, j: nat, k: int, k': int)
    requires i <= j && j + 1 < |run| == |schedule| + 1 && Quiet(run, schedule, t, i, j, k)
    requires k' == k || (k < i && k' == j)
    requires schedule[j].0 == t && k' != j ==> Changes(run[j], run[j + 1], 0, 0, run[j + 1].counter - run[j].counter)
    ensures Quiet(run, schedule, t, i, j + 1, k')
  {}

  lemma OthersKeep<V>(s: Wrapper<V>, u: nat, c: Choice<V>, t: nat)
    requires WrapperInv(s) && CanMove(s, u, c) && t < |s.phases| && t != u
    ensures |Next(s, u, c).phases| == |s.phases| && Next(s, u, c).phases[t] == s.phases[t]
  {}

  /** How far a push is that passed the test: it has not swapped the tail, or has at moment `k`. */
  ghost predicate PushAt<V>(run: seq<Wrapper<V>>, schedule: seq<(nat, Choice<V>)>, t: nat, i: nat, j: nat, k: int)
    requires i < j < |run| == |schedule| + 1
  {
    && t < |run[j].phases|
    && var p := run[j].phases[t];
       if k < i then p.Tested? || p.Pushing?
       else k < j && schedule[k].0 == t && Changes(run[k], run[k + 1], 1, 0, 0) && (p.Pushed? || p.Idle?)
  }

  lemma PushStep<V>(run: seq<Wrapper<V>>, schedule: seq<(nat, Choice<V>)>, t: nat, i: nat, j: nat, k: int)
      returns (k': int)
    requires IsRun(run, schedule) && i < j && j + 1 < |run| && Busy(run, t, j)
    requires PushAt(run, schedule, t, i, j, k)
    ensures PushAt(run, schedule, t, i, j + 1, k') && (k' == k || (k < i && k' == j))
    ensures schedule[j].0 == t && k' != j ==> Changes(run[j], run[j + 1], 0, 0, run[j + 1].counter - run[j].counter)
  {
    RunStep(run, schedule, j);
    k' := k;
    if schedule[j].0 == t {
      Stages(run[j], t, schedule[j].1);
      if k < i && run[j + 1].phases[t].Pushed? {
        k' := j;
      }
    } else {
      OthersKeep(run[j], schedule[j].0, schedule[j].1, t);
    }
  }

  lemma PushStart<V>(run: seq<Wrapper<V>>, schedule: seq<(nat, Choice<V>)>, i: nat)
    requires IsRun(run, schedule) && i + 1 < |run| && schedule[i].0 < |run[i].phases| && schedule[i].1.StartPush?
    requires run[i].phases[schedule[i].0].Idle?
    requires schedule[i].0 < |run[i + 1].phases| && run[i + 1].phases[schedule[i].0].Tested?
    ensures PushAt(run, schedule, schedule[i].0, i, i + 1, -1) && Quiet(run, schedule, schedule[i].0, i, i + 1, -1)
  {
    RunStep(run, schedule, i);
    Stages(run[i], schedule[i].0, schedule[i].1);
  }

  lemma {:induction false} PushSoFar<V>(run: seq<Wrapper<V>>, schedule: seq<(nat, Choice<V>)>, t: nat, i: nat, j: nat)
      returns (k: int)
    requires IsRun(run, schedule) && i < j < |run| && schedule[i].0 == t && schedule[i].1.StartPush?
    requires t < |run[i].phases| && run[i].phases[t].Idle? && forall m: nat | i < m < j :: Busy(run, t, m)
    requires t < |run[i + 1].phases| && run[i + 1].phases[t].Tested?
    ensures PushAt(run, schedule, t, i, j, k) && Quiet(run, schedule, t, i, j, k)
  {
    if j == i + 1 {
      PushStart(run, schedule, i);
      k := -1;
    } else {
      var k0 := PushSoFar(run, schedule, t, i, j - 1);
      assert Busy(run, t, j - 1);
      k := PushStep(run, schedule, t, i, j - 1, k0);
      QuietOn(run, schedule, t, i, j - 1, k0, k);
    }
  }

  /** A push that was not refused, and has returned, has added one item at exactly one moment. */
  lemma PushReturns<V>(run: seq<Wrapper<V>>, schedule: seq<(nat, Choice<V>)>, t: nat, i: nat, j: nat) returns (k: nat)
    requires IsRun(run, schedule) && i + 1 < j < |run| && schedule[i].0 == t && schedule[i].1.StartPush?
    requires t < |run[i].phases| && run[i].phases[t].Idle? && forall m: nat | i < m < j :: Busy(run, t, m)
    requires t < |run[j].phases| && run[j].phases[t].Idle?
    ensures i <= k < j && schedule[k].0 == t && Items(run[k + 1].inner) == Items(run[k].inner) + 1
    ensures Quiet(run, schedule, t, i, j, k)
  {
    RunStep(run, schedule, i);
    assert Busy(run, t, i + 1);
    k := PushSoFar(run, schedule, t, i, j);
    RunStep(run, schedule, k);
  }

  // ---- pops ----

  lemma LinksOn<V>(s: Wrapper<V>, t: nat, c: Choice<V>)
    requires WrapperInv(s) && CanMove(s, t, c) && Links(s.inner)
    ensures Links(Next(s, t, c).inner)
  {
    if CanInner(s.inner, t, c) {
      StepLinks(s.inner, t, c);
    }
  }

  /** What the links of the linked queue say holds under the wrapper too. */
  lemma {:induction false} InnerLinks<V>(run: seq<Wrapper<V>>, schedule: seq<(nat, Choice<V>)>, i: nat)
    requires IsRun(run, schedule) && i < |run|
    ensures Links(run[i].inner)
  {
    if i > 0 {
      InnerLinks(run, schedule, i - 1);
      RunStep(run, schedule, i - 1);
      LinksOn(run[i - 1], schedule[i - 1].0, schedule[i - 1].1);
    }
  }

  /** The pop of the linked queue answers "empty" at moment `m`. */
  ghost predicate GivesUp<V>(run: seq<Wrapper<V>>, t: nat, m: nat)
    requires m < |run|
  {
    && t < |run[m].inner.threads|
    && var s, a := run[m].inner, run[m].inner.threads[t].cur;
       a in s.heap && ((s.heap[a].own.Queued? && IsEmpty(s)) || Unlinked(s, a) || Cleared(s, a))
  }

  /** A pop that has not moved the head goes on, moves it, or gives up. */
  lemma TakingStep<V>(run: seq<Wrapper<V>>, schedule: seq<(nat, Choice<V>)>, t: nat, m: nat)
    requires IsRun(run, schedule) && m + 1 < |run| && schedule[m].0 == t && t < |run[m].phases|
    requires run[m].phases[t].Taking? && t < |run[m].inner.threads| && BeforePop(run[m].inner.threads[t].pc)
    ensures t < |run[m + 1].phases| == |run[m + 1].inner.threads|
    ensures run[m + 1].phases[t].Taking? && !BeforePop(run[m + 1].inner.threads[t].pc) ==>
              GivesUp(run, t, m) && (run[m + 1].inner.threads[t].pc.Leave? || run[m + 1].inner.threads[t].pc.Rest?)
    ensures run[m + 1].phases[t].Taking? || run[m + 1].phases[t].Taken?
  {
    RunStep(run, schedule, m);
    InnerLinks(run, schedule, m);
    PopGoesOn(run[m].inner, t, schedule[m].1);
    if run[m].inner.threads[t].pc.PopNext? {
      NextRead(run[m].inner, t);
    }
  }

  /** How far a pop is: it has not moved the head, or has at moment `k`, or has given up then. */
  ghost predicate PopAt<V>(run: seq<Wrapper<V>>, schedule: seq<(nat, Choice<V>)>, t: nat, i: nat, j: nat,
                           k: int, taken: bool)
    requires i < j < |run| == |schedule| + 1
  {
    && t < |run[j].phases| == |run[j].inner.threads|
    && var p, pc := run[j].phases[t], run[j].inner.threads[t].pc;
       if k < i then p.Taking? && BeforePop(pc)
       else k < j && schedule[k].0 == t
            && if taken then Changes(run[k], run[k + 1], 0, 1, 0) && (p.Taken? || p.Idle?)
               else GivesUp(run, t, k) && Changes(run[k], run[k + 1], 0, 0, 0)
                    && (p.Idle? || (p.Taking? && (pc.Leave? || pc.Rest?)))
  }

  /** The steps of a thread that has moved the head, or given up. */
  lemma ReturningStep<V>(s: Wrapper<V>, t: nat, c: Choice<V>)
    requires WrapperInv(s) && CanMove(s, t, c) && t < |s.inner.threads|
    requires var p, pc := s.phases[t], s.inner.threads[t].pc;
             p.Taken? || (p.Taking? && (pc.Leave? || pc.Rest?))
    ensures var d, taken := Next(s, t, c), s.phases[t].Taken?;
            && t < |d.phases| == |d.inner.threads|
            && if d.phases[t].Idle? then Changes(s, d, 0, 0, if taken then -1 else 0)
               else d.phases[t] == s.phases[t] && Changes(s, d, 0, 0, 0)
                    && (!taken ==> d.inner.threads[t].pc.Leave? || d.inner.threads[t].pc.Rest?)
  {
    Stages(s, t, c);
    NextInv(s, t, c);
    if CanInner(s.inner, t, c) && !Rests(s, t) && s.inner.threads[t].pc.Leave? {
      ReturnGoesOn(s.inner, t, c);
    }
  }

  lemma PopStep<V>(run: seq<Wrapper<V>>, schedule: seq<(nat, Choice<V>)>, t: nat, i: nat, j: nat, k: int, taken: bool)
      returns (k': int, taken': bool)
    requires IsRun(run, schedule) && i < j && j + 1 < |run| && Busy(run, t, j) && schedule[j].0 == t
    requires PopAt(run, schedule, t, i, j, k, taken)
    ensures PopAt(run, schedule, t, i, j + 1, k', taken') && (k' == k || (k < i && k' == j))
    ensures k' != j ==> Changes(run[j], run[j + 1], 0, 0, run[j + 1].counter - run[j].counter)
    ensures run[j + 1].phases[t].Idle? ==> run[j + 1].counter == run[j].counter - (if taken' then 1 else 0)
  {
    RunStep(run, schedule, j);
    k', taken' := k, taken;
    if k < i {
      TakingStep(run, schedule, t, j);
      Stages(run[j], t, schedule[j].1);
      taken' := run[j + 1].phases[t].Taken?;
      if taken' || !BeforePop(run[j + 1].inner.threads[t].pc) {
        k' := j;
      }
    } else {
      ReturningStep(run[j], t, schedule[j].1);
    }
  }

  lemma PopOther<V>(run: seq<Wrapper<V>>, schedule: seq<(nat, Choice<V>)>, t: nat, i: nat, j: nat, k: int, taken: bool)
    requires IsRun(run, schedule) && i < j && j + 1 < |run| && schedule[j].0 != t
    requires PopAt(run, schedule, t, i, j, k, taken)
    ensures PopAt(run, schedule, t, i, j + 1, k, taken) && run[j + 1].phases[t] == run[j].phases[t]
  {
    RunStep(run, schedule, j);
    OthersKeep(run[j], schedule[j].0, schedule[j].1, t);
    if CanInner(run[j].inner, schedule[j].0, schedule[j].1) {
      StepFrame(run[j].inner, schedule[j].0, schedule[j].1);
    }
  }

  lemma PopOn<V>(run: seq<Wrapper<V>>, schedule: seq<(nat, Choice<V>)>, t: nat, i: nat, j: nat, k: int, taken: bool)
      returns (k': int, taken': bool)
    requires IsRun(run, schedule) && i < j && j + 1 < |run| && Busy(run, t, j)
    requires PopAt(run, schedule, t, i, j, k, taken)
    ensures PopAt(run, schedule, t, i, j + 1, k', taken') && (k' == k || (k < i && k' == j))
    ensures schedule[j].0 == t && k' != j ==> Changes(run[j], run[j + 1], 0, 0, run[j + 1].counter - run[j].counter)
    ensures run[j + 1].phases[t].Idle? ==> run[j + 1].counter == run[j].counter - (if taken' then 1 else 0)
  {
    if schedule[j].0 == t {
      k', taken' := PopStep(run, schedule, t, i, j, k, taken);
    } else {
      k', taken' := k, taken;
      PopOther(run, schedule, t, i, j, k, taken);
    }
  }

  lemma PopStart<V>(run: seq<Wrapper<V>>, schedule: seq<(nat, Choice<V>)>, i: nat)
    requires IsRun(run, schedule) && i + 1 < |run| && schedule[i].0 < |run[i].phases|
    requires run[i].phases[schedule[i].0].Idle? && schedule[i].1.StartPop?
    ensures PopAt(run, schedule, schedule[i].0, i, i + 1, -1, false)
    ensures Quiet(run, schedule, schedule[i].0, i, i + 1, -1)
  {
    RunStep(run, schedule, i);
    Stages(run[i], schedule[i].0, schedule[i].1);
    PopGoesOn(run[i].inner, schedule[i].0, schedule[i].1);
  }

  lemma {:induction false} PopSoFar<V>(run: seq<Wrapper<V>>, schedule: seq<(nat, Choice<V>)>, t: nat, i: nat, j: nat)
      returns (k: int, taken: bool)
    requires IsRun(run, schedule) && i < j < |run| && schedule[i] == (t, StartPop)
    requires t < |run[i].phases| && run[i].phases[t].Idle? && forall m: nat | i < m < j :: Busy(run, t, m)
    ensures PopAt(run, schedule, t, i, j, k, taken) && Quiet(run, schedule, t, i, j, k) && k != i
    ensures run[j].phases[t].Idle? ==> run[j].counter == run[j - 1].counter - (if taken then 1 else 0)
  {
    if j == i + 1 {
      PopStart(run, schedule, i);
      k, taken := -1, false;
    } else {
      k, taken := PopSoFar(run, schedule, t, i, j - 1);
      var k0 := k;
      assert Busy(run, t, j - 1);
      k, taken := PopOn(run, schedule, t, i, j - 1, k, taken);
      QuietOn(run, schedule, t, i, j - 1, k0, k);
    }
  }

  /** A pop that has returned has taken one item at exactly one moment, and lowers the counter as it
      returns; or it has taken nothing and leaves the counter, because at one moment the pop of the
      linked queue answered "empty", in one of the three cases. */
  lemma PopReturns<V>(run: seq<Wrapper<V>>, schedule: seq<(nat, Choice<V>)>, t: nat, i: nat, j: nat)
      returns (k: nat, taken: bool)
    requires IsRun(run, schedule) && i < j < |run| && schedule[i] == (t, StartPop)
    requires t < |run[i].phases| && run[i].phases[t].Idle? && forall m: nat | i < m < j :: Busy(run, t, m)
    requires t < |run[j].phases| && run[j].phases[t].Idle?
    ensures i < k < j && schedule[k].0 == t && Quiet(run, schedule, t, i, j, k)
    ensures Items(run[k + 1].inner) == Items(run[k].inner) - (if taken then 1 else 0)
    ensures run[j].counter == run[j - 1].counter - (if taken then 1 else 0)
    ensures !taken ==> GivesUp(run, t, k)
  {
    k, taken := PopSoFar(run, schedule, t, i, j);
    RunStep(run, schedule, k);
  }
}
