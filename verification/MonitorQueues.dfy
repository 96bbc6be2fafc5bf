/** The queues built on a mutex and two condition variables. A method here is one critical section:
    from taking the lock, or from waking up with it, to releasing it by returning or by waiting.
    A condition variable is the set of threads that sleep on it and have not been notified. */
module MonitorQueues {
  import opened Arithmetic
  import opened Options

  // ---- a ring buffer ----

  /** The position `i` places after `head` on a ring of `n`. */
  function Ring(head: nat, i: nat, n: nat): (r: nat)
    requires head < n && i <= n
    ensures r < n
  {
    if head + i < n then head + i else head + i - n
  }

  lemma RingIsMod(head: nat, i: nat, n: nat)
    requires head < n && i <= n
    ensures Ring(head, i, n) == (head + i) % n
  {
    DivModUnique(head + i, if head + i < n then 0 else 1, n, Ring(head, i, n));
  }

  /** The `size` items of a ring, from `head` on. */
  ghost function RingItems<T>(b: seq<T>, head: nat, size: nat): seq<T>
    requires size <= |b| && (size > 0 ==> head < |b|)
  {
    seq(size, i requires 0 <= i < size => b[Ring(head, i, |b|)])
  }

  lemma RingPush<T>(b: seq<T>, head: nat, size: nat, item: T)
    requires head < |b| && size < |b|
    ensures RingItems(b[Ring(head, size, |b|) := item], head, size + 1) == RingItems(b, head, size) + [item]
    ensures Ring(Ring(head, size, |b|), 1, |b|) == Ring(head, size + 1, |b|)
  {}

  lemma RingPop<T>(b: seq<T>, head: nat, size: nat, blank: T)
    requires head < |b| && 0 < size <= |b|
    ensures RingItems(b, head, size) == [b[head]] + RingItems(b[head := blank], Ring(head, 1, |b|), size - 1)
    ensures Ring(Ring(head, 1, |b|), size - 1, |b|) == Ring(head, size, |b|)
  {}

  class BoundedBlockingQueue<T> {
    const buf: array<T>
    const capacity: nat
    const blank: T
    var size: nat
    var head: nat
    var tail: nat
    var full: set<nat>
    var empty: set<nat>

    /** All items pushed so far, and all items popped. */
    ghost var pushed: seq<T>
    ghost var popped: seq<T>

    /** The items in the buffer, oldest first. */
    ghost function Items(): seq<T>
      requires size <= buf.Length && (size > 0 ==> head < buf.Length)
      reads `head, `size, buf
    {
      RingItems(buf[..], head, size)
    }

    /** The buffer, unless it has no room at all, is a sequence from `head` to `tail`; no thread
        sleeps on an occasion that has come; and what was pushed is what was popped followed by what
        is here. */
    ghost predicate Valid()
      reads this, buf
    {
      && buf.Length == capacity && size <= capacity
      && (capacity > 0 ==> head < capacity && tail == Ring(head, size, capacity))
      && (empty != {} ==> size == 0)
      && (full != {} ==> size >= capacity)
      && pushed == popped + Items()
    }

    constructor (maxItems: nat, blank: T)
      ensures Valid() && fresh(buf) && capacity == maxItems && Items() == [] && pushed == [] && popped == []
    {
      capacity, this.blank := maxItems, blank;
      buf := new T[maxItems](i => blank);
      size, head, tail, full, empty, pushed, popped := 0, 0, 0, {}, {}, [], [];
    }

    /** Push, or sleep while there is no room. */
    method Push(t: nat, item: T) returns (done: bool)
      requires Valid()
      modifies this, buf
      ensures Valid()
      ensures done <==> old(size) < capacity
      ensures done ==> Items() == old(Items()) + [item] && pushed == old(pushed) + [item] && popped == old(popped)
      ensures !done ==> Items() == old(Items()) && pushed == old(pushed) && popped == old(popped)
      ensures full == old(full) + (if done then {} else {t}) && empty == if done then {} else old(empty)
    {
      if size >= capacity {
        full := full + {t};
        return false;
      }
      RingPush(buf[..], head, size, item);
      RingIsMod(tail, 1, capacity);
      buf[tail] := item;
      tail := (tail + 1) % capacity;
      size := size + 1;
      if size == 1 {
        empty := {};
      }
      pushed := pushed + [item];
      return true;
    }

    /** Pop the oldest item, or sleep while there is none. */
    method Pop(t: nat) returns (r: Option<T>)
      requires Valid()
      modifies this, buf
      ensures Valid()
      ensures r.None? <==> old(size) == 0
      ensures r.Some? ==> old(Items()) == [r.value] + Items() && popped == old(popped) + [r.value]
                          && pushed == old(pushed)
      ensures r.None? ==> Items() == old(Items()) && pushed == old(pushed) && popped == old(popped)
      ensures empty == old(empty) + (if r.None? then {t} else {}) && full == if r.None? then old(full) else {}
    {
      if size == 0 {
        empty := empty + {t};
        return None;
      }
      RingPop(buf[..], head, size, blank);
      RingIsMod(head, 1, capacity);
      var item := buf[head];
      buf[head] := blank;
      head := (head + 1) % capacity;
      size := size - 1;
      if size == capacity - 1 {
        full := {};
      }
      popped := popped + [item];
      return Some(item);
    }
  }

  // ---- a queue bounded by the total size of its items ----

  ghost function Total<T>(sizer: T -> int, s: seq<T>): int {
    if s == [] then 0 else Total(sizer, s[..|s| - 1]) + sizer(s[|s| - 1])
  }

  lemma {:induction false} TotalSplit<T>(sizer: T -> int, s: seq<T>, t: seq<T>)
    ensures Total(sizer, s + t) == Total(sizer, s) + Total(sizer, t)
    decreases |t|
  {
    if t == [] {
      assert s + t == s;
    } else {
      assert (s + t)[..|s + t| - 1] == s + t[..|t| - 1];
      TotalSplit(sizer, s, t[..|t| - 1]);
    }
  }

  lemma TotalFirst<T>(sizer: T -> int, s: seq<T>)
    requires s != []
    ensures Total(sizer, s) == sizer(s[0]) + Total(sizer, s[1..])
  {
    assert s == [s[0]] + s[1..];
    TotalSplit(sizer, [s[0]], s[1..]);
    assert [s[0]][..0] == [];
  }

  ghost predicate AllPositive<T>(sizer: T -> int, s: seq<T>) {
    forall i | 0 <= i < |s| :: sizer(s[i]) > 0
  }

  lemma {:induction false} TotalPositive<T>(sizer: T -> int, s: seq<T>)
    requires AllPositive(sizer, s)
    ensures Total(sizer, s) >= 0 && (Total(sizer, s) == 0 <==> s == [])
    decreases |s|
  {
    if s != [] {
      TotalPositive(sizer, s[..|s| - 1]);
    }
  }

  lemma TotalPush<T>(sizer: T -> int, s: seq<T>, item: T)
    ensures Total(sizer, s + [item]) == Total(sizer, s) + sizer(item)
  {
    assert (s + [item])[..|s|] == s;
  }

  /** A batch taken from the front of `all`, with `rest` left of total size `size`, and `n` of the
      budget. */
  ghost predicate Batched<T>(sizer: T -> int, all: seq<T>, batch: seq<T>, rest: seq<T>, size: int, n: int,
    budget: int) {
    && all == batch + rest && batch != []
    && AllPositive(sizer, rest) && size == Total(sizer, rest)
    && n == budget - Total(sizer, batch)
    && (|batch| >= 2 ==> n >= 0)
  }

  lemma BatchStart<T>(sizer: T -> int, all: seq<T>, budget: int)
    requires AllPositive(sizer, all) && all != []
    ensures Batched(sizer, all, [all[0]], all[1..], Total(sizer, all) - sizer(all[0]), budget - sizer(all[0]), budget)
  {
    TotalFirst(sizer, all);
    assert [all[0]][..0] == [];
  }

  lemma BatchNext<T>(sizer: T -> int, all: seq<T>, batch: seq<T>, rest: seq<T>, size: int, n: int, budget: int)
    requires Batched(sizer, all, batch, rest, size, n, budget) && rest != []
    ensures sizer(rest[0]) <= n ==>
              Batched(sizer, all, batch + [rest[0]], rest[1..], size - sizer(rest[0]), n - sizer(rest[0]), budget)
    ensures sizer(rest[0]) > n ==> Total(sizer, batch + [rest[0]]) > budget
    ensures sizer(rest[0]) > 0
  {
    TotalFirst(sizer, rest);
    TotalPush(sizer, batch, rest[0]);
  }

  /** After the first item: as many more as fit the budget. */
  method TakeMore<T>(sizer: T -> int, ghost all: seq<T>, first: seq<T>, others: seq<T>, total: int, left: int,
    ghost budget: int)
      returns (batch: seq<T>, rest: seq<T>, size: int)
    requires Batched(sizer, all, first, others, total, left, budget)
    ensures all == batch + rest && batch != [] && AllPositive(sizer, rest) && size == Total(sizer, rest)
    ensures |batch| > |first| ==> Total(sizer, batch) <= budget
    ensures rest != [] ==> Total(sizer, batch + [rest[0]]) > budget
  {
    batch, rest, size := first, others, total;
    var n := left;
    TotalPositive(sizer, rest);
    while n > 0 && size > 0
      invariant Batched(sizer, all, batch, rest, size, n, budget) && |batch| >= |first|
      invariant size > 0 <==> rest != []
      invariant |batch| > |first| ==> n >= 0
      decreases |rest|
    {
      var curSize := sizer(rest[0]);
      BatchNext(sizer, all, batch, rest, size, n, budget);
      if curSize > n {
        break;
      }
      batch, rest, size, n := batch + [rest[0]], rest[1..], size - curSize, n - curSize;
      TotalPositive(sizer, rest);
    }
    if rest != [] {
      BatchNext(sizer, all, batch, rest, size, n, budget);
    }
  }

  /** The items that `drop` does not select, in order. */
  ghost function Kept<T>(drop: T -> bool, s: seq<T>): seq<T> {
    if s == [] then [] else
      var front := Kept(drop, s[..|s| - 1]);
      if drop(s[|s| - 1]) then front else front + [s[|s| - 1]]
  }

  lemma KeptPush<T>(drop: T -> bool, s: seq<T>, item: T)
    ensures Kept(drop, s + [item]) == Kept(drop, s) + if drop(item) then [] else [item]
  {
    assert (s + [item])[..|s|] == s;
  }

  /** Where the items kept come from: from all places whose item is not selected, in order. */
  lemma {:induction false} KeptExact<T>(drop: T -> bool, s: seq<T>) returns (at: seq<nat>)
    ensures |at| == |Kept(drop, s)|
    ensures forall k | 0 <= k < |at| :: at[k] < |s| && Kept(drop, s)[k] == s[at[k]]
    ensures forall k, l | 0 <= k < l < |at| :: at[k] < at[l]
    ensures forall i: nat | i < |s| :: i in at <==> !drop(s[i])
    decreases |s|
  {
    if s == [] {
      at := [];
    } else {
      var n := |s| - 1;
      at := KeptExact(drop, s[..n]);
      if !drop(s[n]) {
        at := at + [n];
      }
    }
  }

  /** The first `i` items are sifted; `size` is the total of those kept and those to come. */
  ghost predicate Sifted<T>(sizer: T -> int, drop: T -> bool, items: seq<T>, i: nat, kept: seq<T>, size: int)
    requires i <= |items|
  {
    kept == Kept(drop, items[..i]) && AllPositive(sizer, kept) && size == Total(sizer, kept) + Total(sizer, items[i..])
  }

  lemma SiftNext<T>(sizer: T -> int, drop: T -> bool, items: seq<T>, i: nat, kept: seq<T>, size: int)
    requires i < |items| && AllPositive(sizer, items) && Sifted(sizer, drop, items, i, kept, size)
    ensures if drop(items[i]) then Sifted(sizer, drop, items, i + 1, kept, size - sizer(items[i]))
            else Sifted(sizer, drop, items, i + 1, kept + [items[i]], size)
  {
    assert items[..i + 1] == items[..i] + [items[i]];
    assert items[i..][1..] == items[i + 1..];
    TotalFirst(sizer, items[i..]);
    TotalPush(sizer, kept, items[i]);
    KeptPush(drop, items[..i], items[i]);
  }

  /** Move the items that stay to a new queue, and take the sizes of the others off. */
  method Sift<T>(sizer: T -> int, drop: T -> bool, items: seq<T>, total: int) returns (kept: seq<T>, size: int)
    requires AllPositive(sizer, items) && total == Total(sizer, items)
    ensures kept == Kept(drop, items) && AllPositive(sizer, kept) && size == Total(sizer, kept)
  {
    kept, size := [], total;
    assert items[..0] == [] && items[0..] == items;
    for i := 0 to |items|
      invariant Sifted(sizer, drop, items, i, kept, size)
    {
      SiftNext(sizer, drop, items, i, kept, size);
      if !drop(items[i]) {
        kept := kept + [items[i]];
      } else {
        size := size - sizer(items[i]);
      }
    }
    assert items[..|items|] == items && items[|items|..] == [];
  }

  lemma Assoc<T>(a: seq<T>, b: seq<T>, c: seq<T>)
    ensures (a + b) + c == a + (b + c)
  {}

  datatype Outcome = Accepted | Ignored | Asleep

  class GenericBoundedQueue<T> {
    const capacity: int
    const sizer: T -> int
    const mandatory: T -> bool
    var items: seq<T>
    var size: int
    var full: set<nat>
    var empty: set<nat>

    /** The items pushed and the items popped, without those that were removed. */
    ghost var pushed: seq<T>
    ghost var popped: seq<T>

    ghost predicate Valid()
      reads this
    {
      && AllPositive(sizer, items) && size == Total(sizer, items)
      && (empty != {} ==> items == [])
      && (full != {} ==> size >= capacity)
      && pushed == popped + items
    }

    constructor (capacity: int, sizer: T -> int, mandatory: T -> bool)
      ensures Valid() && items == [] && pushed == [] && popped == []
      ensures this.capacity == capacity && this.sizer == sizer && this.mandatory == mandatory
    {
      this.capacity, this.sizer, this.mandatory := capacity, sizer, mandatory;
      items, size, full, empty, pushed, popped := [], 0, {}, {}, [], [];
    }

    /** The end of every push. */
    method Append(item: T)
      requires Valid() && sizer(item) > 0
      modifies this
      ensures Valid() && items == old(items) + [item]
      ensures pushed == old(pushed) + [item] && popped == old(popped) && full == old(full) && empty == {}
    {
      TotalPush(sizer, items, item);
      items := items + [item];
      size := size + sizer(item);
      if |items| == 1 {
        empty := {};
      }
      pushed := pushed + [item];
    }

    /** Push without waiting. Items without a size are refused, and items without a mandate when
        the queue is full. */
    method Push(item: T) returns (ok: bool)
      requires Valid()
      modifies this
      ensures Valid()
      ensures ok <==> sizer(item) > 0 && (mandatory(item) || old(size) < capacity)
      ensures items == if ok then old(items) + [item] else old(items)
      ensures pushed == (if ok then old(pushed) + [item] else old(pushed)) && popped == old(popped)
      ensures full == old(full) && empty == if ok then {} else old(empty)
    {
      if sizer(item) <= 0 || (!mandatory(item) && size >= capacity) {
        return false;
      }
      Append(item);
      return true;
    }

    /** Push, or sleep while the queue is full. */
    method BlockingPush(t: nat, item: T) returns (r: Outcome)
      requires Valid()
      modifies this
      ensures Valid()
      ensures r.Ignored? <==> sizer(item) <= 0
      ensures r.Accepted? <==> sizer(item) > 0 && (mandatory(item) || old(size) < capacity)
      ensures items == if r.Accepted? then old(items) + [item] else old(items)
      ensures pushed == (if r.Accepted? then old(pushed) + [item] else old(pushed)) && popped == old(popped)
      ensures full == old(full) + (if r.Asleep? then {t} else {})
      ensures empty == if r.Accepted? then {} else old(empty)
    {
      if sizer(item) <= 0 {
        return Ignored;
      }
      if !mandatory(item) && size >= capacity {
        full := full + {t};
        return Asleep;
      }
      Append(item);
      return Accepted;
    }

    /** A wait that ends without a notification, by a timeout. */
    method GiveUp(t: nat)
      requires Valid()
      modifies this
      ensures Valid() && items == old(items) && pushed == old(pushed) && popped == old(popped)
      ensures full == old(full) - {t} && empty == old(empty) - {t}
    {
      full, empty := full - {t}, empty - {t};
    }

    /** The end of every single pop. */
    method Take() returns (item: T)
      requires Valid() && items != []
      modifies this
      ensures Valid() && old(items) == [item] + items
      ensures popped == old(popped) + [item] && pushed == old(pushed)
      ensures empty == old(empty) && full == if old(size) >= capacity > size then {} else old(full)
    {
      TotalFirst(sizer, items);
      Assoc(popped, [items[0]], items[1..]);
      item := items[0];
      items := items[1..];
      var wasFull := size >= capacity;
      size := size - sizer(item);
      if wasFull && size < capacity {
        full := {};
      }
      popped := popped + [item];
    }

    method Pop() returns (r: Option<T>)
      requires Valid()
      modifies this
      ensures Valid()
      ensures r.None? <==> old(items) == []
      ensures r.Some? ==> old(items) == [r.value] + items && popped == old(popped) + [r.value] && pushed == old(pushed)
      ensures r.None? ==> items == old(items) && popped == old(popped) && pushed == old(pushed)
      ensures empty == old(empty) && full == if old(size) >= capacity > size then {} else old(full)
    {
      TotalPositive(sizer, items);
      if size == 0 {
        return None;
      }
      var item := Take();
      return Some(item);
    }

    /** Pop, or sleep while the queue is empty. */
    method BlockingPop(t: nat) returns (r: Option<T>)
      requires Valid()
      modifies this
      ensures Valid()
      ensures r.None? <==> old(items) == []
      ensures r.Some? ==> old(items) == [r.value] + items && popped == old(popped) + [r.value] && pushed == old(pushed)
      ensures r.None? ==> items == old(items) && popped == old(popped) && pushed == old(pushed)
      ensures empty == old(empty) + (if r.None? then {t} else {})
      ensures full == if old(size) >= capacity > size then {} else old(full)
    {
      TotalPositive(sizer, items);
      if size == 0 {
        empty := empty + {t};
        return None;
      }
      var item := Take();
      return Some(item);
    }

    /** Pop the first item whatever its size, and then as many more as fit the budget. */
    method PopBatch(budget: int) returns (batch: seq<T>)
      requires Valid() && budget > 0
      modifies this
      ensures Valid() && old(items) == batch + items && popped == old(popped) + batch && pushed == old(pushed)
      ensures old(items) != [] ==> batch != []
      ensures |batch| > 1 ==> Total(sizer, batch) <= budget
      ensures batch != [] && items != [] ==> Total(sizer, batch + [items[0]]) > budget
      ensures empty == old(empty) && full == if old(size) >= capacity > size then {} else old(full)
    {
      TotalPositive(sizer, items);
      if size == 0 {
        return [];
      }
      var wasFull := size >= capacity;
      BatchStart(sizer, items, budget);
      var curSize := sizer(items[0]);
      batch, items, size := TakeMore(sizer, items, [items[0]], items[1..], size - curSize, budget - curSize, budget);
      if wasFull && size < capacity {
        full := {};
      }
      Assoc(popped, batch, items);
      popped := popped + batch;
    }

    /** Remove the items selected by `drop`; the others keep their order. */
    method RemoveItem(drop: T -> bool)
      requires Valid()
      modifies this
      ensures Valid() && items == Kept(drop, old(items)) && popped == old(popped)
      ensures empty == old(empty) && full == if old(size) >= capacity > size then {} else old(full)
    {
      if items == [] {
        size := 0;
        return;
      }
      var wasFull := size >= capacity;
      items, size := Sift(sizer, drop, items, size);
      if wasFull && size < capacity {
        full := {};
      }
      pushed := popped + items;
    }

    /** Clearing resets the size without notifying anyone: what the other operations keep survives
        exactly when no thread sleeps for room. */
    method Clear()
      requires Valid()
      modifies this
      ensures items == [] && size == 0 && full == old(full) && empty == old(empty)
      ensures Valid() <==> old(full) == {} || capacity <= 0
    {
      items := [];
      size := 0;
      pushed := popped;
    }
  }

  /** A full queue, a thread that waits for room, and a clear: the queue is empty and the thread
      still sleeps. */
  method ClearLosesWakeup(t: nat) returns (q: GenericBoundedQueue<int>)
    ensures fresh(q) && q.capacity == 1 && q.items == [] && q.size == 0 && t in q.full && !q.Valid()
  {
    q := new GenericBoundedQueue(1, item => 1, item => false);
    var ok := q.Push(5);
    assert ok;
    var r := q.BlockingPush(t, 6);
    q.Clear();
  }
}
