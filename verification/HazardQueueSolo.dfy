/** What one thread achieves while the others pause: the runs that show where the queue answers
    wrongly are made of this. New records are added rather than old ones taken. */
module HazardQueueSolo {
  import opened Options
  import opened HazardQueue
  import opened HazardQueueSteps
  import opened HazardQueueNodes
  import Runs = HazardQueueRuns

  // ---- paths ----

  ghost predicate Path<V>(run: seq<State<V>>, schedule: seq<(nat, Choice<V>)>) {
    |run| == |schedule| + 1 && forall i | 0 < i < |run| :: Runs.Follows(run, schedule, i)
  }

  ghost predicate IsPath<V>(run: seq<State<V>>, schedule: seq<(nat, Choice<V>)>, s: State<V>, d: State<V>) {
    Path(run, schedule) && run[0] == s && run[|run| - 1] == d
  }

  ghost predicate Reaches<V(!new)>(s: State<V>, d: State<V>) {
    exists run: seq<State<V>>, schedule: seq<(nat, Choice<V>)> :: IsPath(run, schedule, s, d)
  }

  lemma Stays<V(!new)>(s: State<V>)
    ensures Reaches(s, s)
  {
    var schedule: seq<(nat, Choice<V>)> := [];
    assert IsPath([s], schedule, s, s);
  }

  lemma Joined<V>(run: seq<State<V>>, schedule: seq<(nat, Choice<V>)>,
                  run': seq<State<V>>, schedule': seq<(nat, Choice<V>)>)
    requires Path(run, schedule) && Path(run', schedule') && run[|run| - 1] == run'[0]
    ensures Path(run + run'[1..], schedule + schedule')
  {
    var all, moves := run + run'[1..], schedule + schedule';
    forall i | 0 < i < |all| ensures Runs.Follows(all, moves, i) {
      if i < |run| {
        assert Runs.Follows(run, schedule, i);
      } else {
        var k := i - |run| + 1;
        assert Runs.Follows(run', schedule', k);
        assert all[i] == run'[k] && all[i - 1] == run'[k - 1] && moves[i - 1] == schedule'[k - 1];
      }
    }
  }

  /** One more step. */
  lemma Goes<V(!new)>(o: State<V>, s: State<V>, t: nat, c: Choice<V>)
    requires Reaches(o, s) && CanStep(s, t, c)
    ensures Reaches(o, Step(s, t, c)) && Inv(Step(s, t, c))
  {
    StepInv(s, t, c);
    var d := Step(s, t, c);
    var run: seq<State<V>>, schedule: seq<(nat, Choice<V>)> :| IsPath(run, schedule, o, s);
    assert Runs.Follows([s, d], [(t, c)], 1);
    Joined(run, schedule, [s, d], [(t, c)]);
    assert IsPath(run + [s, d][1..], schedule + [(t, c)], o, d);
  }

  // ---- steps that only prepare ----

  ghost predicate Others<V>(s: State<V>, d: State<V>, t: nat) {
    t < |s.threads| == |d.threads| && forall u | 0 <= u < |s.threads| && u != t :: d.threads[u] == s.threads[u]
  }

  /** Nothing changes but the thread and the records. */
  ghost predicate Quiet<V>(s: State<V>, d: State<V>, t: nat) {
    && Others(s, d, t) && d.heap == s.heap && d.head == s.head && d.tail == s.tail
    && d.chain == s.chain && d.vals == s.vals && d.popped == s.popped && d.outs == s.outs
  }

  /** How many steps a push has before its swap, and a pop before it reads the link and before its
      swap. */
  function PushLeft(pc: Pc): nat {
    match pc
    case PushLoad => 5
    case PushTake => 4
    case PushAdd => 3
    case PushProtect => 2
    case PushValidate => 1
    case _ => 0
  }

  function PopLeft(pc: Pc): nat {
    match pc
    case PopTake1 => 6
    case PopAdd1 => 5
    case PopTake2 => 4
    case PopAdd2 => 3
    case PopProtect => 2
    case PopValidate => 1
    case _ => 0
  }

  function SwapLeft(pc: Pc): nat {
    match pc
    case PopNext => 3
    case PopProtect2 => 2
    case PopCheck => 1
    case _ => 0
  }

  /** The choice that goes on: records are added. */
  function Onward<V>(pc: Pc): Choice<V> {
    if pc.PushTake? || pc.PopTake1? || pc.PopTake2? then Announce else Go
  }

  lemma PushMoves<V>(s: State<V>, t: nat)
    requires Inv(s) && t < |s.threads| && PushLeft(s.threads[t].pc) > 0
    requires s.threads[t].pc.PushLoad? || s.threads[t].cur == s.tail
    ensures var c := Onward(s.threads[t].pc);
            && CanStep(s, t, c) && Quiet(s, Step(s, t, c), t)
            && var th, th' := s.threads[t], Step(s, t, c).threads[t];
               && PushLeft(th'.pc) == PushLeft(th.pc) - 1 && (PushLeft(th'.pc) == 0 ==> th'.pc.PushSwap?)
               && th'.node == th.node && th'.cur == s.tail
  {
    AllLive(s, t);
  }

  lemma PopMoves<V>(s: State<V>, t: nat)
    requires Inv(s) && t < |s.threads| && PopLeft(s.threads[t].pc) > 0 && s.threads[t].cur == s.head
    ensures var c := Onward(s.threads[t].pc);
            && CanStep(s, t, c) && Quiet(s, Step(s, t, c), t)
            && var th, th' := s.threads[t], Step(s, t, c).threads[t];
               && PopLeft(th'.pc) == PopLeft(th.pc) - 1 && (PopLeft(th'.pc) == 0 ==> th'.pc.PopNext?)
               && th'.cur == s.head
  {
    AllLive(s, t);
  }

  lemma SwapMoves<V>(s: State<V>, t: nat)
    requires Inv(s) && t < |s.threads| && SwapLeft(s.threads[t].pc) > 0 && s.threads[t].cur == s.head
    requires s.head in s.heap && s.heap[s.head].next.Some?
    requires !s.threads[t].pc.PopNext? ==> s.heap[s.head].next == Some(s.threads[t].next)
    ensures CanStep(s, t, Go) && Quiet(s, Step(s, t, Go), t)
    ensures var th, th' := s.threads[t], Step(s, t, Go).threads[t];
            && SwapLeft(th'.pc) == SwapLeft(th.pc) - 1 && (SwapLeft(th'.pc) == 0 ==> th'.pc.PopSwap?)
            && th'.cur == s.head && s.heap[s.head].next == Some(th'.next)
  {
    AllLive(s, t);
  }

  // ---- the steps that matter ----

  lemma BeginPush<V>(s: State<V>, t: nat, v: V, a: nat)
    requires Inv(s) && t < |s.threads| && s.threads[t].pc.Rest? && a !in s.heap
    ensures CanStep(s, t, StartPush(v, a))
    ensures var d := Step(s, t, StartPush(v, a));
            && Others(s, d, t) && d.threads[t].pc.PushLoad? && d.threads[t].node == a
            && d == s.(heap := s.heap[a := Node(v, None, Private(t), None)], threads := d.threads)
  {}

  lemma SwapPush<V>(s: State<V>, t: nat)
    requires Inv(s) && t < |s.threads| && s.threads[t].pc.PushSwap? && s.threads[t].cur == s.tail
    ensures CanStep(s, t, Go)
    ensures var d, th := Step(s, t, Go), s.threads[t];
            && Others(s, d, t) && d.threads[t].pc.PushLink?
            && d.threads[t].node == th.node && d.threads[t].cur == th.cur
            && d == s.(tail := th.node, chain := s.chain + [th.node], vals := s.vals + [s.heap[th.node].v],
                       heap := d.heap, threads := d.threads)
            && d.heap.Keys == s.heap.Keys && s.tail in s.heap && d.heap[s.tail].linker == Some(t)
            && (forall x | x in s.heap && x != s.tail && x != th.node :: d.heap[x] == s.heap[x])
  {
    AllLive(s, t);
    assert ThreadInv(s, t) && QueuedAt(s, |s.chain| - 1);
  }

  lemma LinkPush<V>(s: State<V>, t: nat)
    requires Inv(s) && t < |s.threads| && s.threads[t].pc.PushLink?
    ensures CanStep(s, t, Go)
    ensures var d, th := Step(s, t, Go), s.threads[t];
            && Others(s, d, t) && d.threads[t].pc.Leave?
            && th.cur in s.heap && d.heap == s.heap[th.cur := s.heap[th.cur].(next := Some(th.node), linker := None)]
            && d == s.(heap := d.heap, threads := d.threads)
  {
    AllLive(s, t);
  }

  /** How far a thread is from giving its records back. */
  ghost function LeaveLeft<V>(s: State<V>, t: nat): nat
    requires Shape(s) && t < |s.threads| && s.threads[t].pc.Leave?
  {
    var recs := s.threads[t].recs;
    2 * |recs| + (if s.records[recs[|recs| - 1]].hp.Some? then 1 else 0)
  }

  lemma LeaveMoves<V>(s: State<V>, t: nat)
    requires Inv(s) && t < |s.threads| && s.threads[t].pc.Leave?
    ensures CanStep(s, t, Go) && Quiet(s, Step(s, t, Go), t) && Shape(Step(s, t, Go))
    ensures var d := Step(s, t, Go);
            d.threads[t].pc.Rest? || (d.threads[t].pc.Leave? && LeaveLeft(d, t) < LeaveLeft(s, t))
  {
    StepInv(s, t, Go);
  }

  lemma BeginPop<V>(s: State<V>, t: nat)
    requires Inv(s) && t < |s.threads| && s.threads[t].pc.Rest?
    ensures CanStep(s, t, StartPop) && Quiet(s, Step(s, t, StartPop), t)
    ensures var th := Step(s, t, StartPop).threads[t]; th.pc.PopTake1? && th.cur == s.head
  {}

  lemma SwapPop<V>(s: State<V>, t: nat)
    requires Inv(s) && t < |s.threads| && s.threads[t].pc.PopSwap? && s.threads[t].cur == s.head
    ensures CanStep(s, t, Go) && s.head in s.heap
    ensures var d := Step(s, t, Go);
            && Others(s, d, t) && d.threads[t].pc.PopRead? && d.threads[t].cur == s.head
            && d.popped == s.popped + 1 && d.chain == s.chain && d.vals == s.vals
            && d.heap == s.heap[s.head := s.heap[s.head].(own := Popped(t))]
  {
    AllLive(s, t);
  }

  lemma ReadPop<V>(s: State<V>, t: nat)
    requires Inv(s) && t < |s.threads| && (s.threads[t].pc.PopRead? || s.threads[t].pc.PopClear?)
    ensures CanStep(s, t, Go)
    ensures var d, th := Step(s, t, Go), s.threads[t];
            && Others(s, d, t) && d.threads[t].pc == (if th.pc.PopRead? then PopClear else PopRetire)
            && d.threads[t].cur == th.cur && d.popped == s.popped && d.chain == s.chain && d.vals == s.vals
            && d.heap.Keys == s.heap.Keys && (forall x | x in s.heap :: d.heap[x].own == s.heap[x].own)
  {
    AllLive(s, t);
    assert ThreadInv(s, t);
  }

  // ---- whole operations ----

  lemma Prepares<V(!new)>(o: State<V>, s: State<V>, t: nat) returns (d: State<V>)
    requires Reaches(o, s) && Inv(s) && t < |s.threads| && s.threads[t].pc.PushLoad?
    ensures Reaches(o, d) && Inv(d) && Quiet(s, d, t)
    ensures d.threads[t].pc.PushSwap? && d.threads[t].node == s.threads[t].node && d.threads[t].cur == s.tail
  {
    d := s;
    while PushLeft(d.threads[t].pc) > 0
      invariant Reaches(o, d) && Inv(d) && Quiet(s, d, t) && d.threads[t].node == s.threads[t].node
      invariant d.threads[t].pc.PushLoad? || d.threads[t].cur == s.tail
      invariant PushLeft(d.threads[t].pc) == 0 ==> d.threads[t].pc.PushSwap?
      decreases PushLeft(d.threads[t].pc)
    {
      var c := Onward(d.threads[t].pc);
      PushMoves(d, t);
      Goes(o, d, t, c);
      d := Step(d, t, c);
    }
  }

  /** A push up to the moment when its node is installed. */
  lemma Installed<V(!new)>(o: State<V>, s: State<V>, t: nat, v: V, a: nat) returns (d: State<V>)
    requires Reaches(o, s) && Inv(s) && t < |s.threads| && s.threads[t].pc.Rest? && a !in s.heap
    ensures Reaches(o, d) && Inv(d) && Others(s, d, t) && d.threads[t].pc.PushLink?
    ensures s.tail in s.heap && d.threads[t].cur == s.tail && d.threads[t].node == a
    ensures d.heap.Keys == s.heap.Keys + {a} && d.tail == a && d.head == s.head && d.popped == s.popped
    ensures d.chain == s.chain + [a] && d.vals == s.vals + [v] && d.heap[s.tail].linker == Some(t)
    ensures forall x | x in s.heap && x != s.tail :: d.heap[x] == s.heap[x]
  {
    assert QueuedAt(s, |s.chain| - 1);
    BeginPush(s, t, v, a);
    Goes(o, s, t, StartPush(v, a));
    d := Prepares(o, Step(s, t, StartPush(v, a)), t);
    SwapPush(d, t);
    Goes(o, d, t, Go);
    d := Step(d, t, Go);
  }

  lemma Leaves<V(!new)>(o: State<V>, s: State<V>, t: nat) returns (d: State<V>)
    requires Reaches(o, s) && Inv(s) && t < |s.threads| && s.threads[t].pc.Leave?
    ensures Reaches(o, d) && Inv(d) && Quiet(s, d, t) && d.threads[t].pc.Rest?
  {
    d := s;
    while d.threads[t].pc.Leave?
      invariant Reaches(o, d) && Inv(d) && Quiet(s, d, t) && (d.threads[t].pc.Leave? || d.threads[t].pc.Rest?)
      decreases if d.threads[t].pc.Leave? then LeaveLeft(d, t) else 0
    {
      LeaveMoves(d, t);
      Goes(o, d, t, Go);
      d := Step(d, t, Go);
    }
  }

  /** A push that returns. */
  lemma Pushes<V(!new)>(o: State<V>, s: State<V>, t: nat, v: V, a: nat) returns (d: State<V>)
    requires Reaches(o, s) && Inv(s) && t < |s.threads| && s.threads[t].pc.Rest? && a !in s.heap
    ensures Reaches(o, d) && Inv(d) && Others(s, d, t) && d.threads[t].pc.Rest?
    ensures d.heap.Keys == s.heap.Keys + {a} && d.tail == a && d.head == s.head && d.popped == s.popped
    ensures d.chain == s.chain + [a] && d.vals == s.vals + [v]
    ensures s.tail in s.heap && d.heap[s.tail].next == Some(a)
    ensures forall x | x in s.heap && x != s.tail :: d.heap[x] == s.heap[x]
  {
    d := Installed(o, s, t, v, a);
    LinkPush(d, t);
    Goes(o, d, t, Go);
    d := Leaves(o, Step(d, t, Go), t);
  }

  /** A pop up to the moment when it has validated the head. */
  lemma Looks<V(!new)>(o: State<V>, s: State<V>, t: nat) returns (d: State<V>)
    requires Reaches(o, s) && Inv(s) && t < |s.threads| && s.threads[t].pc.Rest?
    ensures Reaches(o, d) && Inv(d) && Quiet(s, d, t) && d.threads[t].pc.PopNext? && d.threads[t].cur == s.head
  {
    BeginPop(s, t);
    Goes(o, s, t, StartPop);
    d := Step(s, t, StartPop);
    while PopLeft(d.threads[t].pc) > 0
      invariant Reaches(o, d) && Inv(d) && Quiet(s, d, t) && d.threads[t].cur == s.head
      invariant PopLeft(d.threads[t].pc) == 0 ==> d.threads[t].pc.PopNext?
      decreases PopLeft(d.threads[t].pc)
    {
      var c := Onward(d.threads[t].pc);
      PopMoves(d, t);
      Goes(o, d, t, c);
      d := Step(d, t, c);
    }
  }

  lemma Checks<V(!new)>(o: State<V>, s: State<V>, t: nat) returns (d: State<V>)
    requires Reaches(o, s) && Inv(s) && t < |s.threads| && s.threads[t].pc.PopNext? && s.threads[t].cur == s.head
    requires s.head in s.heap && s.heap[s.head].next.Some?
    ensures Reaches(o, d) && Inv(d) && Quiet(s, d, t) && d.threads[t].pc.PopSwap? && d.threads[t].cur == s.head
  {
    d := s;
    while SwapLeft(d.threads[t].pc) > 0
      invariant Reaches(o, d) && Inv(d) && Quiet(s, d, t) && d.threads[t].cur == s.head
      invariant !d.threads[t].pc.PopNext? ==> s.heap[s.head].next == Some(d.threads[t].next)
      invariant SwapLeft(d.threads[t].pc) == 0 ==> d.threads[t].pc.PopSwap?
      decreases SwapLeft(d.threads[t].pc)
    {
      SwapMoves(d, t);
      Goes(o, d, t, Go);
      d := Step(d, t, Go);
    }
  }

  /** A pop up to the moment when it has cleared the link of the node it took. */
  lemma Clears<V(!new)>(o: State<V>, s: State<V>, t: nat) returns (d: State<V>)
    requires Reaches(o, s) && Inv(s) && t < |s.threads| && s.threads[t].pc.Rest?
    requires s.head in s.heap && s.heap[s.head].next.Some?
    ensures Reaches(o, d) && Inv(d) && Others(s, d, t) && d.threads[t].pc.PopRetire?
    ensures d.popped == s.popped + 1 && d.chain == s.chain && d.vals == s.vals
    ensures s.head in d.heap && d.heap[s.head].own == Popped(t)
  {
    d := Looks(o, s, t);
    d := Checks(o, d, t);
    SwapPop(d, t);
    Goes(o, d, t, Go);
    d := Step(d, t, Go);
    while d.threads[t].pc.PopRead? || d.threads[t].pc.PopClear?
      invariant Reaches(o, d) && Inv(d) && Others(s, d, t)
      invariant d.threads[t].pc.PopRead? || d.threads[t].pc.PopClear? || d.threads[t].pc.PopRetire?
      invariant d.popped == s.popped + 1 && d.chain == s.chain && d.vals == s.vals
      invariant s.head in d.heap && d.heap[s.head].own == Popped(t)
      decreases if d.threads[t].pc.PopRead? then 2 else if d.threads[t].pc.PopClear? then 1 else 0
    {
      ReadPop(d, t);
      Goes(o, d, t, Go);
      d := Step(d, t, Go);
    }
  }
}
