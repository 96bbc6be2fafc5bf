/** Two runs in which a pop answers that the queue is empty although a push that returned before it
    began is still queued. */
module HazardQueueWrong {
  import opened Options
  import opened HazardQueue
  import opened HazardQueueSteps
  import opened HazardQueueNodes
  import opened HazardQueueRuns
  import opened HazardQueueEmpty
  import opened HazardQueueSolo

  ghost function Resting(): Thread {
    Thread(Rest, 0, 0, 0, [], 0, 0, {}, 0, 0, 0)
  }

  /** A new queue and two threads. */
  ghost function Fresh(): State<int> {
    State(map[0 := Node(0, None, Queued(0), None)], 0, 0, [], 0, [Resting(), Resting()], [0], [0], 0, [])
  }

  lemma FreshStarts()
    ensures Init(Fresh()) && Inv(Fresh()) && Reaches(Fresh(), Fresh())
  {
    InitInv(Fresh());
    Stays(Fresh());
  }

  /** At moment `i` thread 1 rests and 7 and 8 are pushed; from then on `popped` values are popped
      at most; at moment `j` a pop of thread 1 that began after `i` finds no link, and answers. */
  ghost predicate WrongAnswer(run: seq<State<int>>, schedule: seq<(nat, Choice<int>)>, i: nat, j: nat, popped: nat) {
    && IsRun(run, schedule) && i < j && j + 1 < |run| && schedule[j].0 == 1
    && |run[i].threads| == |run[j].threads| == |run[j + 1].threads| == 2
    && run[i].threads[1].pc.Rest? && run[i].vals == [0, 7, 8] && run[i].popped == 0
    && run[j].threads[1].pc.PopNext? && run[j].vals == [0, 7, 8] && run[j].popped == popped < 2
    && |run[j].chain| == 3 && run[j + 1].threads[1].pc.Leave?
  }

  /** Put the pieces of such a run together. */
  lemma Assembled(s: State<int>, d: State<int>)
      returns (run: seq<State<int>>, schedule: seq<(nat, Choice<int>)>, i: nat, j: nat)
    requires Reaches(Fresh(), s) && Reaches(s, d) && Inv(d) && Links(d) && s != d
    requires |s.threads| == |d.threads| == 2
    requires s.threads[1].pc.Rest? && s.vals == d.vals == [0, 7, 8] && s.popped == 0 && d.popped < 2 && |d.chain| == 3
    requires d.threads[1].pc.PopNext? && (Unlinked(d, d.threads[1].cur) || Cleared(d, d.threads[1].cur))
    ensures WrongAnswer(run, schedule, i, j, d.popped) && run[i] == s && run[j] == d
  {
    var first: seq<State<int>>, moves: seq<(nat, Choice<int>)> :| IsPath(first, moves, Fresh(), s);
    var second: seq<State<int>>, moves': seq<(nat, Choice<int>)> :| IsPath(second, moves', s, d);
    AllLive(d, 1);
    NextRead(d, 1);
    StepInv(d, 1, Go);
    var e := Step(d, 1, Go);
    assert Runs.Follows([d, e], [(1, Go)], 1);
    Joined(first, moves, second, moves');
    Joined(first + second[1..], moves + moves', [d, e], [(1, Go)]);
    run := first + second[1..] + [d, e][1..];
    schedule := moves + moves' + [(1, Go)];
    i, j := |first| - 1, |first| + |second| - 2;
    FreshStarts();
  }

  lemma ReachedLinks(s: State<int>)
    requires Reaches(Fresh(), s)
    ensures Inv(s) && Links(s)
  {
    var run: seq<State<int>>, schedule: seq<(nat, Choice<int>)> :| IsPath(run, schedule, Fresh(), s);
    FreshStarts();
    RunLinks(run, schedule, |run| - 1);
  }

  lemma PathLinks(s: State<int>, d: State<int>)
    requires Reaches(Fresh(), s) && Reaches(s, d)
    ensures Inv(d) && Links(d)
  {
    var first: seq<State<int>>, moves: seq<(nat, Choice<int>)> :| IsPath(first, moves, Fresh(), s);
    var second: seq<State<int>>, moves': seq<(nat, Choice<int>)> :| IsPath(second, moves', s, d);
    Joined(first, moves, second, moves');
    assert IsPath(first + second[1..], moves + moves', Fresh(), d);
    ReachedLinks(d);
  }

  // ---- the two runs ----

  /** Two values are pushed, thread 1 rests, and nothing was popped. */
  ghost predicate Pushed(s: State<int>) {
    && Reaches(Fresh(), s) && Inv(s) && |s.threads| == 2 && s.threads[1].pc.Rest?
    && s.vals == [0, 7, 8] && s.popped == 0 && |s.chain| == 3 && s.head == 0 && 0 in s.heap
  }

  /** 7 is installed, perhaps not linked. */
  ghost predicate FirstPushed(s: State<int>) {
    && Reaches(Fresh(), s) && Inv(s) && |s.threads| == 2 && s.threads[1].pc.Rest?
    && s.vals == [0, 7] && s.popped == 0 && |s.chain| == 2 && s.head == 0 && s.tail == 1 && s.heap.Keys == {0, 1}
  }

  lemma SecondPush(s: State<int>, t: nat) returns (d: State<int>)
    requires FirstPushed(s) && t < 2 && s.threads[t].pc.Rest?
    ensures Pushed(d) && d.heap[0] == s.heap[0] && d.threads[t].pc.Rest?
  {
    d := Pushes(Fresh(), s, t, 8, 2);
    assert d.threads[1].pc.Rest?;
  }

  lemma UnlinkedStart() returns (s: State<int>)
    ensures Pushed(s) && s.heap[0].own.Queued? && s.heap[0].linker.Some?
  {
    FreshStarts();
    s := Installed(Fresh(), Fresh(), 0, 7, 1);
    s := SecondPush(s, 1);
    assert QueuedAt(s, 0);
  }

  lemma ClearedStart() returns (s: State<int>)
    ensures Pushed(s) && s.heap[0].next.Some? && s.threads[0].pc.Rest?
  {
    FreshStarts();
    s := Pushes(Fresh(), Fresh(), 0, 7, 1);
    s := SecondPush(s, 0);
  }

  lemma ClearedEnd(s: State<int>) returns (d: State<int>)
    requires Pushed(s) && s.heap[0].next.Some? && s.threads[0].pc.Rest?
    ensures Reaches(s, d) && Inv(d) && |d.threads| == 2 && d.threads[1].pc.PopNext? && d.popped == 1
    ensures d.vals == s.vals && d.chain == s.chain && Cleared(d, d.threads[1].cur)
  {
    Stays(s);
    d := Looks(s, s, 1);
    d := Clears(s, d, 0);
  }

  /** Thread 0 installs 7 and stops; thread 1 pushes 8, returns, and pops. */
  lemma UnlinkedRun() returns (run: seq<State<int>>, schedule: seq<(nat, Choice<int>)>, i: nat, j: nat)
    ensures WrongAnswer(run, schedule, i, j, 0) && Unlinked(run[j], run[j].threads[1].cur)
  {
    var s := UnlinkedStart();
    Stays(s);
    var d := Looks(s, s, 1);
    PathLinks(s, d);
    run, schedule, i, j := Assembled(s, d);
  }

  /** Thread 0 pushes 7 and 8; thread 1 begins to pop and validates the head; thread 0 pops 7. */
  lemma ClearedRun() returns (run: seq<State<int>>, schedule: seq<(nat, Choice<int>)>, i: nat, j: nat)
    ensures WrongAnswer(run, schedule, i, j, 1) && Cleared(run[j], run[j].threads[1].cur)
    ensures run[i].threads[0].pc.Rest?
  {
    var s := ClearedStart();
    var d := ClearedEnd(s);
    PathLinks(s, d);
    run, schedule, i, j := Assembled(s, d);
  }
}
