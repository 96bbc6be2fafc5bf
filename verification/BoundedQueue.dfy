/** The bounded wrapper of the multi-producer queue: a counter that is tested, then incremented,
    then followed by the push; and decremented after a pop that found something. Between these
    the threads take the steps of the queue with hazard pointers. */
module BoundedQueue {
  import opened Arithmetic
  import opened HazardQueue
  import opened HazardQueueSteps
  import opened HazardQueueFrames
  import opened HazardQueueNodes
  import Runs = HazardQueueRuns

  /** Where a thread is in the wrapper: past the test, before or after its push took effect, before
      or after its pop did. */
  datatype Phase = Idle | Tested | Pushing | Pushed | Taking | Taken

  /** An idle thread may push or pop. `pushers` are the threads that ever passed the test of a push;
      `start` is what the counter held at first: the constructor does not set it. */
  datatype Wrapper<V> = Wrapper(inner: State<V>, phases: seq<Phase>, counter: int, start: int,
                                capacity: int, pushers: set<int>)

  /** The number of items in the inner queue. */
  function Items<V>(q: State<V>): int {
    |q.chain| - 1 - q.popped
  }

  // ---- the steps ----

  ghost predicate CanInner<V>(q: State<V>, t: nat, c: Choice<V>) {
    Shape(q) && t < |q.threads| && Fits(q, t, c) && Touches(q, t) <= q.heap.Keys && HasSlot(q, q.threads[t])
  }

  /** Whether the thread is between two operations of the inner queue. */
  predicate Rests<V>(s: Wrapper<V>, t: nat) {
    t < |s.inner.threads| && s.inner.threads[t].pc.Rest?
  }

  ghost predicate CanMove<V>(s: Wrapper<V>, t: nat, c: Choice<V>) {
    && t < |s.phases|
    && match s.phases[t]
       case Idle => c.StartPush? || (c.StartPop? && CanInner(s.inner, t, c))
       case Tested => true
       case Pushing => CanInner(s.inner, t, c) && (Rests(s, t) ==> c.StartPush?)
       case _ => Rests(s, t) || CanInner(s.inner, t, c)
  }

  ghost function Inside<V>(s: Wrapper<V>, t: nat, c: Choice<V>, p: Phase): Wrapper<V>
    requires CanInner(s.inner, t, c) && t < |s.phases|
  {
    s.(inner := Step(s.inner, t, c), phases := s.phases[t := p])
  }

  ghost function Next<V>(s: Wrapper<V>, t: nat, c: Choice<V>): Wrapper<V>
    requires CanMove(s, t, c)
  {
    match s.phases[t]
    case Idle =>
      if c.StartPop? then Inside(s, t, c, Taking)
      else if s.counter >= s.capacity then s
      else s.(phases := s.phases[t := Tested], pushers := s.pushers + {t})
    case Tested => s.(counter := s.counter + 1, phases := s.phases[t := Pushing])
    case Pushing => Inside(s, t, c, if Installs(s.inner, t) then Pushed else Pushing)
    case Pushed => if Rests(s, t) then s.(phases := s.phases[t := Idle]) else Inside(s, t, c, Pushed)
    case Taking =>
      if Rests(s, t) then s.(phases := s.phases[t := Idle])
      else Inside(s, t, c, if Advances(s.inner, t) then Taken else Taking)
    case Taken =>
      if Rests(s, t) then s.(counter := s.counter - 1, phases := s.phases[t := Idle]) else Inside(s, t, c, Taken)
  }

  // ---- the invariant ----

  /** Where a thread may be in the inner queue. */
  predicate Agrees(p: Phase, pc: Pc) {
    match p
    case Idle => pc.Rest?
    case Tested => pc.Rest?
    case Pushing => pc.Rest? || Builds(pc)
    case Pushed => pc.PushLink? || pc.Leave? || pc.Rest?
    case Taking => BeforePop(pc) || pc.Leave? || pc.Rest?
    case Taken => HasPopped(pc) || InScan(pc) || pc.Leave? || pc.Rest?
  }

  /** Counted but not pushed yet, or popped but still counted. */
  predicate Owes(p: Phase) {
    p.Pushing? || p.Taken?
  }

  predicate Passed(p: Phase) {
    p.Tested?
  }

  ghost function Those(phases: seq<Phase>, f: Phase -> bool): set<int> {
    set t | 0 <= t < |phases| && f(phases[t])
  }

  ghost predicate Roles<V>(s: Wrapper<V>) {
    && |s.phases| == |s.inner.threads|
    && (forall t | 0 <= t < |s.phases| :: Agrees(s.phases[t], s.inner.threads[t].pc))
    && (forall t | 0 <= t < |s.phases| && s.phases[t].Tested? :: t in s.pushers)
  }

  /** What the counter stands for, and how far it can go: a producer passes the test below the
      capacity, and at most the other producers have passed it too. */
  ghost predicate Accounts<V>(s: Wrapper<V>) {
    && s.counter == s.start + Items(s.inner) + |Those(s.phases, Owes)|
    && s.counter + |Those(s.phases, Passed)| <= Most(s)
  }

  ghost function Most<V>(s: Wrapper<V>): int {
    if s.start <= s.capacity + |s.pushers| - 1 then s.capacity + |s.pushers| - 1 else s.start
  }

  ghost predicate WrapperInv<V>(s: Wrapper<V>) {
    Inv(s.inner) && Roles(s) && Accounts(s)
  }

  // ---- what the steps of the inner queue mean to the wrapper ----

  /** The phase after a step of the inner queue. */
  ghost function After<V>(s: Wrapper<V>, t: nat): Phase
    requires t < |s.phases| && t < |s.inner.threads|
  {
    match s.phases[t]
    case Pushing => if Installs(s.inner, t) then Pushed else Pushing
    case Pushed => Pushed
    case Taken => Taken
    case _ => if Advances(s.inner, t) then Taken else Taking
  }

  lemma InnerPc<V>(s: Wrapper<V>, t: nat, c: Choice<V>)
    requires WrapperInv(s) && t < |s.phases| && CanStep(s.inner, t, c)
    requires s.inner.threads[t].pc.Rest? ==>
               if s.phases[t].Pushing? then c.StartPush? else s.phases[t].Idle? && c.StartPop?
    requires !s.phases[t].Tested?
    ensures t < |Step(s.inner, t, c).threads| && Agrees(After(s, t), Step(s.inner, t, c).threads[t].pc)
  {
    var pc := s.inner.threads[t].pc;
    match s.phases[t]
    case Pushing => if pc.Rest? { PushBegins(s.inner, t, c); } else { PushGoesOn(s.inner, t, c); }
    case Pushed => ReturnGoesOn(s.inner, t, c);
    case Taken => if pc.Leave? { ReturnGoesOn(s.inner, t, c); } else { PoppedGoesOn(s.inner, t, c); }
    case _ => if pc.Leave? { ReturnGoesOn(s.inner, t, c); } else { PopGoesOn(s.inner, t, c); }
  }

  lemma ThoseMove(phases: seq<Phase>, f: Phase -> bool, t: nat, p: Phase)
    requires t < |phases|
    ensures |Those(phases[t := p], f)| ==
            |Those(phases, f)| + (if f(p) then 1 else 0) - (if f(phases[t]) then 1 else 0)
  {
    var a, b := Those(phases, f), Those(phases[t := p], f);
    var rest := a - {t as int};
    assert b - {t as int} == rest;
    assert a == if f(phases[t]) then rest + {t as int} else rest;
    assert b == if f(p) then rest + {t as int} else rest;
  }

  lemma InsideRoles<V>(s: Wrapper<V>, d: State<V>, t: nat, c: Choice<V>)
    requires Roles(s) && t < |s.phases| && CanStep(s.inner, t, c)
    requires Frame(s.inner, d, t, c) && Agrees(After(s, t), d.threads[t].pc)
    ensures Roles(s.(inner := d, phases := s.phases[t := After(s, t)]))
  {}

  lemma InsideInv<V>(s: Wrapper<V>, d: State<V>, t: nat, c: Choice<V>)
    requires WrapperInv(s) && t < |s.phases| && CanStep(s.inner, t, c)
    requires !s.phases[t].Tested? && Frame(s.inner, d, t, c) && Inv(d) && Agrees(After(s, t), d.threads[t].pc)
    ensures WrapperInv(s.(inner := d, phases := s.phases[t := After(s, t)]))
  {
    InsideRoles(s, d, t, c);
    InsideAccounts(s, d, t, c);
  }

  lemma InsideAccounts<V>(s: Wrapper<V>, d: State<V>, t: nat, c: Choice<V>)
    requires Roles(s) && Accounts(s) && t < |s.phases| && CanStep(s.inner, t, c)
    requires !s.phases[t].Tested? && Frame(s.inner, d, t, c)
    ensures Accounts(s.(inner := d, phases := s.phases[t := After(s, t)]))
  {
    ThoseMove(s.phases, Owes, t, After(s, t));
    ThoseMove(s.phases, Passed, t, After(s, t));
  }

  lemma TestInv<V>(s: Wrapper<V>, t: nat)
    requires WrapperInv(s) && t < |s.phases| && s.phases[t].Idle? && s.counter < s.capacity
    ensures WrapperInv(s.(phases := s.phases[t := Tested], pushers := s.pushers + {t}))
  {
    ThoseMove(s.phases, Owes, t, Tested);
    var all := Those(s.phases[t := Tested], Passed);
    assert all <= s.pushers + {t};
    SubsetSize(all, s.pushers + {t});
  }

  lemma CountInv<V>(s: Wrapper<V>, t: nat)
    requires WrapperInv(s) && t < |s.phases| && s.phases[t].Tested?
    ensures WrapperInv(s.(counter := s.counter + 1, phases := s.phases[t := Pushing]))
  {
    ThoseMove(s.phases, Owes, t, Pushing);
    ThoseMove(s.phases, Passed, t, Pushing);
  }

  lemma ReturnInv<V>(s: Wrapper<V>, t: nat)
    requires WrapperInv(s) && t < |s.phases| && Rests(s, t) && !s.phases[t].Tested? && !s.phases[t].Pushing?
    ensures WrapperInv(s.(counter := s.counter - (if s.phases[t].Taken? then 1 else 0), phases := s.phases[t := Idle]))
  {
    ThoseMove(s.phases, Owes, t, Idle);
    ThoseMove(s.phases, Passed, t, Idle);
  }

  lemma NextInv<V>(s: Wrapper<V>, t: nat, c: Choice<V>)
    requires WrapperInv(s) && CanMove(s, t, c)
    ensures WrapperInv(Next(s, t, c))
  {
    var p := s.phases[t];
    if p.Tested? {
      CountInv(s, t);
    } else if p.Idle? && c.StartPush? {
      if s.counter < s.capacity {
        TestInv(s, t);
      }
    } else if Rests(s, t) && !p.Idle? && !p.Pushing? {
      ReturnInv(s, t);
    } else {
      StepInv(s.inner, t, c);
      StepFrame(s.inner, t, c);
      InnerPc(s, t, c);
      InsideInv(s, Step(s.inner, t, c), t, c);
    }
  }

  // ---- runs ----

  ghost predicate Start<V>(s: Wrapper<V>) {
    && Init(s.inner) && |s.phases| == |s.inner.threads| && s.counter == s.start && s.pushers == {}
    && (forall t | 0 <= t < |s.phases| :: s.phases[t].Idle?)
  }

  lemma StartInv<V>(s: Wrapper<V>)
    requires Start(s)
    ensures WrapperInv(s)
  {
    Runs.InitInv(s.inner);
    assert Those(s.phases, Owes) == {} && Those(s.phases, Passed) == {};
  }

  ghost predicate Follows<V>(run: seq<Wrapper<V>>, schedule: seq<(nat, Choice<V>)>, i: nat)
    requires 0 < i < |run| == |schedule| + 1
  {
    CanMove(run[i - 1], schedule[i - 1].0, schedule[i - 1].1)
    && run[i] == Next(run[i - 1], schedule[i - 1].0, schedule[i - 1].1)
  }

  ghost predicate IsRun<V>(run: seq<Wrapper<V>>, schedule: seq<(nat, Choice<V>)>) {
    |run| == |schedule| + 1 && Start(run[0]) && forall i | 0 < i < |run| :: Follows(run, schedule, i)
  }

  lemma {:induction false} RunInv<V>(run: seq<Wrapper<V>>, schedule: seq<(nat, Choice<V>)>, i: nat)
    requires IsRun(run, schedule) && i < |run|
    ensures WrapperInv(run[i])
  {
    if i == 0 {
      StartInv(run[0]);
    } else {
      RunInv(run, schedule, i - 1);
      assert Follows(run, schedule, i);
      NextInv(run[i - 1], schedule[i - 1].0, schedule[i - 1].1);
    }
  }

  /** In every run in which P threads ever pushed, the linked queue holds at most `capacity + P - 1`
      items, less what the counter held at the start, or nothing at all if that is more. */
  lemma NeverMore<V>(run: seq<Wrapper<V>>, schedule: seq<(nat, Choice<V>)>, i: nat)
    requires IsRun(run, schedule) && i < |run|
    ensures var s := run[i];
            var most := s.capacity + |s.pushers| - 1;
            |s.inner.chain| - 1 - s.inner.popped <= if s.start <= most then most - s.start else 0
  {
    RunInv(run, schedule, i);
  }
}
