/** The multi-producer multi-consumer queue with hazard pointers, as an interleaving of atomic
    steps of any number of threads. Addresses are reused as soon as they are freed. Memory is
    sequentially consistent. */
module HazardQueue {
  import opened Options

  /** Who is responsible for a node: the thread that built it, the queue at a position, the thread
      that popped it, or a record whose wait list it is on. Positions number all nodes that were
      ever queued. */
  datatype Owner = Private(t: nat) | Queued(i: nat) | Popped(t: nat) | Waiting(r: nat)

  /** `linker` is the thread that installed the successor and has yet to link it. */
  datatype Node<V> = Node(v: V, next: Option<nat>, own: Owner, linker: Option<nat>)

  /** A hazard record; the thread holding it stands for the active flag. */
  datatype Record = Record(hp: Option<nat>, holder: Option<nat>, rlist: seq<nat>)

  datatype Pc = Rest
              | PushLoad | PushTake | PushAdd | PushProtect | PushValidate | PushSwap | PushLink
              | PopTake1 | PopAdd1 | PopTake2 | PopAdd2 | PopProtect | PopValidate
              | PopNext | PopProtect2 | PopCheck | PopSwap
              | PopRead | PopClear | PopRetire
              | ScanBegin | Scanning | Freeing
              | Leave

  /** A thread: where it is, the nodes it works on, the records it holds, and its scan, which
      reads the records from the newest, `at`, down. `idx` is a position in the queue; `start`,
      `trigger` and `began` are the length of the wait list and the number of records when a scan
      was triggered, and the number of records when it began. */
  datatype Thread = Thread(pc: Pc, node: nat, cur: nat, next: nat, recs: seq<nat>, idx: nat,
                           at: nat, plist: set<nat>, start: nat, trigger: nat, began: nat)

  /** `heap` holds the nodes that are not freed. `announced` is the count of records that the manager
      keeps, which runs ahead of the list while records are being added. `chain` and `vals` are the
      nodes and values ever queued, in the order of the swaps of `tail`, after the first dummy;
      `popped` counts the swaps of `head`, and `outs` is what those pops returned, once they have
      read it. */
  datatype State<V> = State(heap: map<nat, Node<V>>, head: nat, tail: nat, records: seq<Record>, announced: nat,
                            threads: seq<Thread>, chain: seq<nat>, vals: seq<V>, popped: nat,
                            outs: seq<Option<V>>)

  /** What a step leaves open: the operation a resting thread starts, with the address the
      allocator gives it, and whether a thread that wants a record takes one nobody holds or decides
      to add one. */
  datatype Choice<V> = Go | StartPush(v: V, a: nat) | StartPop | Take(r: nat) | Announce

  function Threshold(records: nat): nat {
    2 * records + records / 4
  }

  // ---- what must hold for the next step of a thread to make sense ----

  /** How many records a thread holds at each point. */
  predicate HoldsEnough(th: Thread) {
    match th.pc
    case Rest => |th.recs| == 0
    case PushLoad => |th.recs| == 0
    case PushTake => |th.recs| == 0
    case PushAdd => |th.recs| == 0
    case PopTake1 => |th.recs| == 0
    case PopAdd1 => |th.recs| == 0
    case PopTake2 => |th.recs| == 1
    case PopAdd2 => |th.recs| == 1
    case Leave => 1 <= |th.recs| <= 2
    case PushProtect => |th.recs| == 1
    case PushValidate => |th.recs| == 1
    case PushSwap => |th.recs| == 1
    case PushLink => |th.recs| == 1
    case _ => |th.recs| == 2
  }

  ghost predicate Shape<V>(s: State<V>) {
    && (forall t | 0 <= t < |s.threads| :: HoldsEnough(s.threads[t]))
    && (forall t, k | 0 <= t < |s.threads| && 0 <= k < |s.threads[t].recs| :: s.threads[t].recs[k] < |s.records|)
    && (forall t | 0 <= t < |s.threads| && s.threads[t].pc.Scanning? :: s.threads[t].at <= |s.records|)
  }

  predicate Fits<V>(s: State<V>, t: nat, c: Choice<V>)
    requires t < |s.threads|
  {
    match s.threads[t].pc
    case Rest => (c.StartPush? && c.a !in s.heap) || c.StartPop?
    case PushTake => CanTake(s, c)
    case PopTake1 => CanTake(s, c)
    case PopTake2 => CanTake(s, c)
    case _ => c.Go?
  }

  /** `acquire` takes a record nobody holds, or gives up looking for one. Attempts to take a record
      that is held change nothing. */
  predicate CanTake<V>(s: State<V>, c: Choice<V>) {
    c.Announce? || (c.Take? && c.r < |s.records| && s.records[c.r].holder.None?)
  }

  /** The nodes the next step of a thread reads, writes or frees. */
  ghost function Touches<V>(s: State<V>, t: nat): set<nat>
    requires Shape(s) && t < |s.threads|
  {
    var th := s.threads[t];
    match th.pc
    case PushSwap => if s.tail == th.cur then {th.node, th.cur} else {}
    case PushLink => {th.cur}
    case PopNext => {th.cur}
    case PopCheck => {th.cur}
    case PopSwap => if s.head == th.cur then {th.cur} else {}
    case PopRead => {th.next}
    case PopClear => {th.cur}
    case PopRetire => {th.cur}
    case Freeing => if th.at < |s.records[th.recs[0]].rlist| then {s.records[th.recs[0]].rlist[th.at]} else {}
    case _ => {}
  }

  /** The answer slot of a pop that is about to read its value. */
  predicate HasSlot<V>(s: State<V>, th: Thread) {
    th.pc.PopRead? ==> 1 <= th.idx <= |s.outs|
  }

  // ---- the steps ----

  function Put<V>(s: State<V>, t: nat, th: Thread): State<V>
    requires t < |s.threads|
  {
    s.(threads := s.threads[t := th])
  }

  /** A thread that has got record `r`. */
  function Got(th: Thread, r: nat): Thread {
    th.(recs := th.recs + [r],
        pc := match th.pc
              case PushTake => PushProtect
              case PushAdd => PushProtect
              case PopTake1 => PopTake2
              case PopAdd1 => PopTake2
              case _ => PopProtect)
  }

  function Adding(pc: Pc): Pc {
    match pc
    case PushTake => PushAdd
    case PopTake1 => PopAdd1
    case _ => PopAdd2
  }

  /** Take a record from the list, or count one more before adding it. */
  function TakeStep<V>(s: State<V>, t: nat, c: Choice<V>): State<V>
    requires t < |s.threads| && CanTake(s, c)
  {
    var th := s.threads[t];
    if c.Announce? then Put(s.(announced := s.announced + 1), t, th.(pc := Adding(th.pc)))
    else Put(s.(records := s.records[c.r := s.records[c.r].(holder := Some(t))]), t, Got(th, c.r))
  }

  /** Put the new record on the list. */
  function AddStep<V>(s: State<V>, t: nat): State<V>
    requires t < |s.threads|
  {
    Put(s.(records := s.records + [Record(None, Some(t), [])]), t, Got(s.threads[t], |s.records|))
  }

  function SetHp<V>(s: State<V>, r: nat, hp: Option<nat>): State<V>
    requires r < |s.records|
  {
    s.(records := s.records[r := s.records[r].(hp := hp)])
  }

  /** Install the new node as the tail. */
  function Install<V>(s: State<V>, t: nat, node: nat, cur: nat): State<V>
    requires node in s.heap && cur in s.heap
  {
    var h := s.heap[node := s.heap[node].(own := Queued(|s.chain|))];
    s.(tail := node, chain := s.chain + [node], vals := s.vals + [s.heap[node].v],
       heap := h[cur := h[cur].(linker := Some(t))])
  }

  function Link<V>(s: State<V>, node: nat, cur: nat): State<V>
    requires cur in s.heap
  {
    s.(heap := s.heap[cur := s.heap[cur].(next := Some(node), linker := None)])
  }

  /** Move the head on; the old head now belongs to the popping thread. */
  function Advance<V>(s: State<V>, t: nat, cur: nat, next: nat): State<V>
    requires cur in s.heap
  {
    s.(head := next, popped := s.popped + 1, outs := s.outs + [None],
       heap := s.heap[cur := s.heap[cur].(own := Popped(t))])
  }

  function Retire<V>(s: State<V>, r: nat, cur: nat): State<V>
    requires cur in s.heap && r < |s.records|
  {
    s.(heap := s.heap[cur := s.heap[cur].(own := Waiting(r))],
       records := s.records[r := s.records[r].(rlist := s.records[r].rlist + [cur])])
  }

  function Free<V>(s: State<V>, r: nat, at: nat): State<V>
    requires r < |s.records| && at < |s.records[r].rlist|
  {
    var l := s.records[r].rlist;
    s.(heap := s.heap - {l[at]},
       records := s.records[r := s.records[r].(rlist := l[..at] + l[at + 1..])])
  }

  function Release<V>(s: State<V>, r: nat): State<V>
    requires r < |s.records|
  {
    s.(records := s.records[r := s.records[r].(holder := None)])
  }

  /** The next step of thread `t`. */
  ghost function Step<V>(s: State<V>, t: nat, c: Choice<V>): State<V>
    requires Shape(s) && t < |s.threads| && Fits(s, t, c)
    requires Touches(s, t) <= s.heap.Keys && HasSlot(s, s.threads[t])
  {
    var th := s.threads[t];
    match th.pc
    case Rest =>
      if c.StartPop? then Put(s, t, th.(pc := PopTake1, cur := s.head))
      else Put(s.(heap := s.heap[c.a := Node(c.v, None, Private(t), None)]), t, th.(pc := PushLoad, node := c.a))
    case PushLoad => Put(s, t, th.(pc := PushTake, cur := s.tail))
    case PushTake => TakeStep(s, t, c)
    case PushAdd => AddStep(s, t)
    case PushProtect => Put(SetHp(s, th.recs[0], Some(th.cur)), t, th.(pc := PushValidate))
    case PushValidate =>
      Put(s, t, if s.tail == th.cur then th.(pc := PushSwap) else th.(pc := PushProtect, cur := s.tail))
    case PushSwap =>
      if s.tail == th.cur then Put(Install(s, t, th.node, th.cur), t, th.(pc := PushLink, idx := |s.chain|))
      else Put(s, t, th.(pc := PushProtect, cur := s.tail))
    case PushLink => Put(Link(s, th.node, th.cur), t, th.(pc := Leave))
    case PopTake1 => TakeStep(s, t, c)
    case PopAdd1 => AddStep(s, t)
    case PopTake2 => TakeStep(s, t, c)
    case PopAdd2 => AddStep(s, t)
    case PopProtect => Put(SetHp(s, th.recs[0], Some(th.cur)), t, th.(pc := PopValidate))
    case PopValidate => Put(s, t, if s.head == th.cur then th.(pc := PopNext) else th.(pc := PopProtect, cur := s.head))
    case PopNext =>
      Put(s, t, if s.heap[th.cur].next.None? then th.(pc := Leave)
                else th.(pc := PopProtect2, next := s.heap[th.cur].next.value))
    case PopProtect2 => Put(SetHp(s, th.recs[1], Some(th.next)), t, th.(pc := PopCheck))
    case PopCheck => Put(s, t, th.(pc := if s.heap[th.cur].next == Some(th.next) then PopSwap else PopProtect))
    case PopSwap =>
      if s.head == th.cur then Put(Advance(s, t, th.cur, th.next), t, th.(pc := PopRead, idx := s.popped + 1))
      else Put(s, t, th.(pc := PopProtect, cur := s.head))
    case PopRead =>
      Put(s.(outs := s.outs[th.idx - 1 := Some(s.heap[th.next].v)]), t, th.(pc := PopClear))
    case PopClear =>
      Put(s.(heap := s.heap[th.cur := s.heap[th.cur].(next := None)]), t, th.(pc := PopRetire))
    case PopRetire =>
      var n := |s.records[th.recs[0]].rlist| + 1;
      Put(Retire(s, th.recs[0], th.cur), t,
          if n >= Threshold(s.announced) then th.(pc := ScanBegin, start := n, trigger := s.announced)
          else th.(pc := Leave))
    case ScanBegin => Put(s, t, th.(pc := Scanning, at := |s.records|, began := |s.records|, plist := {}))
    case Scanning =>
      if th.at == 0 then Put(s, t, th.(pc := Freeing)) else
        var hp := s.records[th.at - 1].hp;
        Put(s, t, th.(at := th.at - 1, plist := if hp.Some? then th.plist + {hp.value} else th.plist))
    case Freeing =>
      var l := s.records[th.recs[0]].rlist;
      if th.at >= |l| then Put(s, t, th.(pc := Leave))
      else if l[th.at] in th.plist then Put(s, t, th.(at := th.at + 1))
      else Put(Free(s, th.recs[0], th.at), t, th)
    case Leave =>
      var last := |th.recs| - 1;
      if s.records[th.recs[last]].hp.Some? then Put(SetHp(s, th.recs[last], None), t, th)
      else Put(Release(s, th.recs[last]), t, th.(recs := th.recs[..last], pc := if last == 0 then Rest else Leave))
  }

  ghost predicate Init<V>(s: State<V>) {
    && |s.chain| == 1 && |s.vals| == 1 && s.popped == 0 && s.outs == [] && s.head == s.tail == s.chain[0]
    && s.heap == map[s.head := Node(s.vals[0], None, Queued(0), None)]
    && s.records == [] && s.announced == 0
    && (forall t | 0 <= t < |s.threads| :: s.threads[t].pc.Rest? && s.threads[t].recs == [])
  }

  // ---- the invariant ----

  /** The nodes from the head on are live, in order, and linked except where a thread has yet to. */
  ghost predicate QueueInv<V>(s: State<V>) {
    && |s.vals| == |s.chain| && s.popped < |s.chain|
    && s.head == s.chain[s.popped] && s.tail == s.chain[|s.chain| - 1]
    && (forall i: nat | s.popped <= i < |s.chain| :: QueuedAt(s, i))
    && (forall a | a in s.heap && s.heap[a].own.Queued? ::
          s.popped <= s.heap[a].own.i < |s.chain| && s.chain[s.heap[a].own.i] == a)
    && |s.outs| == s.popped
    && (forall i | 0 <= i < s.popped :: s.outs[i].None? || s.outs[i].value == s.vals[i + 1])
  }

  ghost predicate QueuedAt<V>(s: State<V>, i: nat)
    requires i < |s.chain| == |s.vals|
  {
    && s.chain[i] in s.heap
    && var n := s.heap[s.chain[i]];
       && n.own == Queued(i) && n.v == s.vals[i]
       && n.next == (if i + 1 < |s.chain| && n.linker.None? then Some(s.chain[i + 1]) else None)
       && (i + 1 == |s.chain| ==> n.linker.None?)
  }

  /** The wait lists hold live nodes, each once, and nothing else waits. */
  ghost predicate WaitInv<V>(s: State<V>) {
    && (forall r: nat | r < |s.records| :: WaitList(s, r))
    && (forall a | a in s.heap && s.heap[a].own.Waiting? ::
          s.heap[a].own.r < |s.records| && a in s.records[s.heap[a].own.r].rlist)
  }

  ghost predicate WaitList<V>(s: State<V>, r: nat)
    requires r < |s.records|
  {
    var l := s.records[r].rlist;
    && (forall k | 0 <= k < |l| :: l[k] in s.heap && s.heap[l[k]].own == Waiting(r))
    && (forall k, m | 0 <= k < m < |l| :: l[k] != l[m])
  }

  /** The records a thread holds are its own. */
  ghost predicate Holds<V>(s: State<V>, t: nat)
    requires Shape(s) && t < |s.threads|
  {
    && (forall k | 0 <= k < |s.threads[t].recs| :: s.records[s.threads[t].recs[k]].holder == Some(t))
    && (|s.threads[t].recs| == 2 ==> s.threads[t].recs[0] != s.threads[t].recs[1])
  }

  /** Between setting a hazard pointer and moving on, it still holds the node. */
  predicate ShowsCur(pc: Pc) {
    pc.PushValidate? || pc.PushSwap? || pc.PopValidate? || pc.PopNext? || pc.PopProtect2? || pc.PopCheck? || pc.PopSwap?
  }

  predicate ShowsNext(pc: Pc) {
    pc.PopCheck? || pc.PopSwap? || pc.PopRead?
  }

  ghost predicate Shows<V>(s: State<V>, t: nat)
    requires Shape(s) && t < |s.threads|
  {
    var th := s.threads[t];
    && (ShowsCur(th.pc) ==> s.records[th.recs[0]].hp == Some(th.cur))
    && (ShowsNext(th.pc) ==> s.records[th.recs[1]].hp == Some(th.next))
  }

  /** No scan under way will miss the hazard pointer of record `r`: if it is about to decide on
      node `a` it has seen the pointer, or will still read it. */
  ghost predicate Seen<V>(s: State<V>, r: nat, a: nat, u: nat)
    requires Shape(s) && u < |s.threads|
  {
    var th := s.threads[u];
    a in s.heap && (th.pc.Scanning? || th.pc.Freeing?) && s.heap[a].own == Waiting(th.recs[0]) ==>
      a in th.plist || (th.pc.Scanning? && r < th.at)
  }

  ghost predicate Protected<V>(s: State<V>, r: nat, a: nat)
    requires Shape(s)
  {
    a in s.heap && forall u: nat | u < |s.threads| :: Seen(s, r, a, u)
  }

  /** Where a node that was validated against `head` or `tail` is still needed. */
  predicate NeedsCur(pc: Pc) {
    pc.PushSwap? || pc.PopNext? || pc.PopProtect2? || pc.PopCheck? || pc.PopSwap?
  }

  ghost predicate Guards<V>(s: State<V>, t: nat)
    requires Shape(s) && t < |s.threads|
  {
    var th := s.threads[t];
    && (NeedsCur(th.pc) ==> Protected(s, th.recs[0], th.cur))
    && (th.pc.PopRead? ==> Protected(s, th.recs[1], th.next))
  }

  predicate Builds(pc: Pc) {
    pc.PushLoad? || pc.PushTake? || pc.PushAdd? || pc.PushProtect? || pc.PushValidate? || pc.PushSwap?
  }

  predicate HasPopped(pc: Pc) {
    pc.PopRead? || pc.PopClear? || pc.PopRetire?
  }

  /** The nodes a thread is responsible for, and what it knows of their places. */
  ghost predicate Owns<V>(s: State<V>, t: nat)
    requires t < |s.threads|
  {
    var th := s.threads[t];
    && (Builds(th.pc) ==> th.node in s.heap && s.heap[th.node].own == Private(t)
                          && s.heap[th.node].next.None? && s.heap[th.node].linker.None?)
    && (HasPopped(th.pc) ==> th.cur in s.heap && s.heap[th.cur].own == Popped(t))
    && (th.pc.PushLink? ==> 0 < th.idx < |s.chain| && th.cur == s.chain[th.idx - 1] && th.node == s.chain[th.idx]
                            && th.cur in s.heap && s.heap[th.cur].own == Queued(th.idx - 1)
                            && s.heap[th.cur].linker == Some(t))
    && (th.pc.PopNext? ==> th.cur in s.heap && !s.heap[th.cur].own.Private?)
    && (th.pc.PopProtect2? || th.pc.PopCheck? || th.pc.PopSwap? ==> KnowsNext(s, th.cur, th.next))
    && (th.pc.PopRead? ==> 1 <= th.idx <= s.popped && th.idx < |s.vals| && th.next in s.heap
                           && s.heap[th.next].v == s.vals[th.idx])
  }

  /** What was read as the successor still is, as long as the node has not been popped. */
  ghost predicate KnowsNext<V>(s: State<V>, cur: nat, next: nat) {
    && cur in s.heap && !s.heap[cur].own.Private?
    && (s.heap[cur].own.Queued? ==>
          s.heap[cur].own.i + 1 < |s.chain| && next == s.chain[s.heap[cur].own.i + 1] && s.heap[cur].linker.None?)
  }

  ghost predicate ThreadInv<V>(s: State<V>, t: nat)
    requires Shape(s) && t < |s.threads|
  {
    Holds(s, t) && Shows(s, t) && Guards(s, t) && Owns(s, t)
  }

  ghost predicate Inv<V>(s: State<V>) {
    Shape(s) && QueueInv(s) && WaitInv(s) && forall t: nat | t < |s.threads| :: ThreadInv(s, t)
  }

  /** No step reads, writes or frees a node that is not live. */
  lemma AllLive<V>(s: State<V>, t: nat)
    requires Inv(s) && t < |s.threads|
    ensures Touches(s, t) <= s.heap.Keys && HasSlot(s, s.threads[t])
  {
    assert ThreadInv(s, t);
    if s.threads[t].pc.Freeing? {
      assert WaitList(s, s.threads[t].recs[0]);
    }
    if s.threads[t].pc.PopSwap? || s.threads[t].pc.PushSwap? {
      assert QueuedAt(s, s.popped) && QueuedAt(s, |s.chain| - 1);
    }
  }
}
