/** A run in which the bounded queue holds more than its bound, because of what its counter held
    before anyone used it. */
module BoundedQueueExcess {
  import opened Options
  import opened HazardQueue
  import opened HazardQueueSteps
  import opened HazardQueueFrames
  import opened HazardQueueNodes
  import opened HazardQueueSolo
  import opened BoundedQueue

  ghost predicate EndsIn(run: seq<Wrapper<int>>, schedule: seq<(nat, Choice<int>)>, s: Wrapper<int>) {
    IsRun(run, schedule) && run[|run| - 1] == s
  }

  ghost predicate Reachable(s: Wrapper<int>) {
    exists run: seq<Wrapper<int>>, schedule: seq<(nat, Choice<int>)> :: EndsIn(run, schedule, s)
  }

  /** A reachable state with one thread. */
  ghost predicate Alone(s: Wrapper<int>) {
    Reachable(s) && WrapperInv(s) && |s.phases| == 1
  }

  lemma Moves(s: Wrapper<int>, c: Choice<int>)
    requires Alone(s) && CanMove(s, 0, c)
    ensures Alone(Next(s, 0, c))
  {
    NextInv(s, 0, c);
    var run: seq<Wrapper<int>>, schedule: seq<(nat, Choice<int>)> :| EndsIn(run, schedule, s);
    var run', schedule' := run + [Next(s, 0, c)], schedule + [(0, c)];
    forall i | 0 < i < |run'| ensures BoundedQueue.Follows(run', schedule', i) {
      if i < |run| {
        assert BoundedQueue.Follows(run, schedule, i);
      }
    }
    assert EndsIn(run', schedule', Next(s, 0, c));
  }

  /** A step of the inner queue during a push. */
  lemma Within(s: Wrapper<int>, c: Choice<int>)
    requires Alone(s) && CanStep(s.inner, 0, c)
    requires if s.inner.threads[0].pc.Rest? then s.phases[0].Pushing? && c.StartPush?
             else s.phases[0].Pushing? || s.phases[0].Pushed?
    ensures Alone(s.(inner := Step(s.inner, 0, c), phases := [After(s, 0)]))
  {
    Moves(s, c);
    assert s.phases[0 := After(s, 0)] == [After(s, 0)];
  }

  lemma Counts(s: Wrapper<int>, v: int, a: nat) returns (d: Wrapper<int>)
    requires Alone(s) && s.phases[0].Idle? && s.counter < s.capacity
    ensures Alone(d) && d == s.(counter := s.counter + 1, phases := [Pushing], pushers := s.pushers + {0})
  {
    Moves(s, StartPush(v, a));
    d := s.(phases := s.phases[0 := Tested], pushers := s.pushers + {0});
    Moves(d, Go);
    d := d.(counter := d.counter + 1, phases := d.phases[0 := Pushing]);
    assert d.phases == [Pushing];
  }

  lemma Begins(s: Wrapper<int>, v: int, a: nat) returns (d: Wrapper<int>)
    requires Alone(s) && s.phases == [Pushing] && s.inner.threads[0].pc.Rest? && a !in s.inner.heap
    ensures Alone(d) && d == s.(inner := d.inner) && d.inner.threads[0].pc.PushLoad?
    ensures d.inner.heap.Keys == s.inner.heap.Keys + {a}
    ensures d.inner.chain == s.inner.chain && d.inner.popped == s.inner.popped
  {
    BeginPush(s.inner, 0, v, a);
    Within(s, StartPush(v, a));
    d := s.(inner := Step(s.inner, 0, StartPush(v, a)));
    assert s.phases == [After(s, 0)];
  }

  lemma Readies(s: Wrapper<int>) returns (d: Wrapper<int>)
    requires Alone(s) && s.phases == [Pushing] && s.inner.threads[0].pc.PushLoad?
    ensures Alone(d) && d == s.(inner := d.inner) && Quiet(s.inner, d.inner, 0)
    ensures d.inner.threads[0].pc.PushSwap? && d.inner.threads[0].cur == d.inner.tail
  {
    d := s;
    while PushLeft(d.inner.threads[0].pc) > 0
      invariant Alone(d) && d == s.(inner := d.inner) && Quiet(s.inner, d.inner, 0)
      invariant d.inner.threads[0].pc.PushLoad? || d.inner.threads[0].cur == d.inner.tail
      invariant PushLeft(d.inner.threads[0].pc) == 0 ==> d.inner.threads[0].pc.PushSwap?
      decreases PushLeft(d.inner.threads[0].pc)
    {
      var c := Onward(d.inner.threads[0].pc);
      PushMoves(d.inner, 0);
      Within(d, c);
      assert d.phases == [After(d, 0)];
      d := d.(inner := Step(d.inner, 0, c));
    }
  }

  lemma Ends(s: Wrapper<int>) returns (d: Wrapper<int>)
    requires Alone(s) && s.phases == [Pushed] && s.inner.threads[0].pc.Leave?
    ensures Alone(d) && d == s.(inner := d.inner, phases := [Idle]) && Quiet(s.inner, d.inner, 0)
    ensures d.inner.threads[0].pc.Rest?
  {
    d := s;
    while d.inner.threads[0].pc.Leave?
      invariant Alone(d) && d == s.(inner := d.inner) && Quiet(s.inner, d.inner, 0)
      invariant d.inner.threads[0].pc.Leave? || d.inner.threads[0].pc.Rest?
      decreases if d.inner.threads[0].pc.Leave? then LeaveLeft(d.inner, 0) else 0
    {
      LeaveMoves(d.inner, 0);
      Within(d, Go);
      assert d.phases == [After(d, 0)];
      d := d.(inner := Step(d.inner, 0, Go));
    }
    Moves(d, Go);
    assert d.phases[0 := Idle] == [Idle];
    d := d.(phases := [Idle]);
  }

  lemma Finishes(s: Wrapper<int>) returns (d: Wrapper<int>)
    requires Alone(s) && s.phases == [Pushing] && s.inner.threads[0].pc.PushSwap?
    requires s.inner.threads[0].cur == s.inner.tail
    ensures Alone(d) && d == s.(inner := d.inner, phases := [Idle]) && d.inner.threads[0].pc.Rest?
    ensures |d.inner.chain| == |s.inner.chain| + 1 && d.inner.popped == s.inner.popped
    ensures d.inner.heap.Keys == s.inner.heap.Keys
  {
    SwapPush(s.inner, 0);
    Within(s, Go);
    d := s.(inner := Step(s.inner, 0, Go), phases := [Pushed]);
    LinkPush(d.inner, 0);
    Within(d, Go);
    assert d.phases == [After(d, 0)];
    d := d.(inner := Step(d.inner, 0, Go));
    d := Ends(d);
  }

  /** A push of the wrapper that returns. */
  lemma Accepts(s: Wrapper<int>, v: int, a: nat) returns (d: Wrapper<int>)
    requires Alone(s) && s.phases == [Idle] && s.counter < s.capacity
    requires s.inner.threads[0].pc.Rest? && a !in s.inner.heap
    ensures Alone(d) && d == s.(inner := d.inner, counter := s.counter + 1, pushers := s.pushers + {0})
    ensures d.inner.threads[0].pc.Rest? && Items(d.inner) == Items(s.inner) + 1
    ensures d.inner.heap.Keys == s.inner.heap.Keys + {a}
  {
    d := Counts(s, v, a);
    d := Begins(d, v, a);
    d := Readies(d);
    d := Finishes(d);
  }

  /** If the counter starts at minus one, one producer fills a queue of capacity one with two items. */
  lemma Exceeds() returns (run: seq<Wrapper<int>>, schedule: seq<(nat, Choice<int>)>)
    ensures IsRun(run, schedule)
    ensures var s := run[|run| - 1];
            s.start == -1 && s.capacity == 1 && |s.pushers| == 1 && Items(s.inner) > s.capacity + |s.pushers| - 1
  {
    var q := State(map[0 := Node(0, None, Queued(0), None)], 0, 0, [], 0,
                   [Thread(Rest, 0, 0, 0, [], 0, 0, {}, 0, 0, 0)], [0], [0], 0, []);
    var s := Wrapper(q, [Idle], -1, -1, 1, {});
    StartInv(s);
    assert EndsIn([s], [], s);
    s := Accepts(s, 7, 1);
    s := Accepts(s, 8, 2);
    assert s.pushers == {0};
    run, schedule :| EndsIn(run, schedule, s);
  }
}
