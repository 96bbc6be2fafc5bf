/** How long the wait lists of the queue's hazard records can get. */
module HazardQueueGarbage {
  import opened HazardQueue
  import opened HazardQueueSteps
  import opened HazardQueueRecords
  import opened HazardQueueFrames

  /** What a thread in its scan knows: the list was long enough to trigger it, and it keeps only
      what it found in the records. */
  ghost predicate ScanBound<V>(s: State<V>, u: nat)
    requires Shape(s) && u < |s.threads| && InScan(s.threads[u].pc)
  {
    var th := s.threads[u];
    var l := s.records[th.recs[0]].rlist;
    && Threshold(th.trigger) <= th.start && 1 <= th.trigger
    && (th.pc.ScanBegin? ==> |l| == th.start)
    && (th.pc.Scanning? ==> |l| == th.start && 1 <= th.began <= |s.records| && |th.plist| + th.at <= th.began)
    && (th.pc.Freeing? ==> |l| <= th.start && 1 <= th.began <= |s.records| && |th.plist| <= th.began
                           && th.at <= |l| && forall k | 0 <= k < th.at :: l[k] in th.plist)
  }

  /** The wait list of `r` is below the threshold, unless its holder is scanning it. */
  ghost predicate ListBound<V>(s: State<V>, r: nat)
    requires Shape(s) && r < |s.records|
  {
    || |s.records[r].rlist| < Threshold(s.announced)
    || (s.records[r].holder.Some? && s.records[r].holder.value < |s.threads|
        && var th := s.threads[s.records[r].holder.value]; InScan(th.pc) && th.recs[0] == r)
  }

  ghost function Adders(threads: seq<Thread>): set<int> {
    set t | 0 <= t < |threads| && Adds(threads[t].pc)
  }

  /** The count is right but for the records that are counted and not on the list yet. */
  ghost predicate CountRight<V>(s: State<V>) {
    s.announced == |s.records| + |Adders(s.threads)|
  }

  ghost predicate GarbageInv<V>(s: State<V>) {
    && Shape(s) && CountRight(s)
    && (forall u: nat | u < |s.threads| && InScan(s.threads[u].pc) :: ScanBound(s, u))
    && (forall r: nat | r < |s.records| :: ListBound(s, r))
  }

  // ---- a step keeps the bounds ----

  lemma AddersMove(threads: seq<Thread>, t: nat, th: Thread)
    requires t < |threads| && !(Adds(threads[t].pc) && Adds(th.pc))
    ensures |Adders(threads[t := th])| ==
            |Adders(threads)| + (if Adds(th.pc) then 1 else if Adds(threads[t].pc) then -1 else 0)
  {
    var a, b := Adders(threads), Adders(threads[t := th]);
    if Adds(th.pc) {
      assert t as int !in a && b == a + {t as int};
    } else if Adds(threads[t].pc) {
      assert t as int in a && b == a - {t as int};
    } else {
      assert b == a;
    }
  }

  lemma StepCount<V>(s: State<V>, d: State<V>, t: nat, c: Choice<V>)
    requires CanStep(s, t, c) && Frame(s, d, t, c) && CountRight(s)
    ensures CountRight(d)
  {
    AddersMove(s.threads, t, d.threads[t]);
  }

  lemma OtherScan<V>(s: State<V>, d: State<V>, t: nat, c: Choice<V>, u: nat)
    requires CanStep(s, t, c) && Frame(s, d, t, c)
    requires u < |s.threads| && u != t && InScan(s.threads[u].pc) && ScanBound(s, u)
    ensures ScanBound(d, u)
  {
    assert ThreadInv(s, t) && ThreadInv(s, u);
  }

  lemma TriggerScan<V>(s: State<V>, t: nat, c: Choice<V>)
    requires CanStep(s, t, c) && s.threads[t].pc.PopRetire? && CountRight(s)
    ensures Shape(Step(s, t, c))
    ensures InScan(Step(s, t, c).threads[t].pc) ==> ScanBound(Step(s, t, c), t)
  {
    StepFrame(s, t, c);
  }

  lemma BeginScan<V>(s: State<V>, t: nat, c: Choice<V>)
    requires CanStep(s, t, c) && s.threads[t].pc.ScanBegin? && ScanBound(s, t)
    ensures Shape(Step(s, t, c)) && InScan(Step(s, t, c).threads[t].pc) && ScanBound(Step(s, t, c), t)
  {
    StepFrame(s, t, c);
  }

  lemma ReadScan<V>(s: State<V>, t: nat, c: Choice<V>)
    requires CanStep(s, t, c) && s.threads[t].pc.Scanning? && ScanBound(s, t)
    ensures Shape(Step(s, t, c)) && InScan(Step(s, t, c).threads[t].pc) && ScanBound(Step(s, t, c), t)
  {
    StepFrame(s, t, c);
  }

  lemma FreeScan<V>(s: State<V>, t: nat, c: Choice<V>)
    requires CanStep(s, t, c) && s.threads[t].pc.Freeing? && ScanBound(s, t)
    ensures Shape(Step(s, t, c))
    ensures InScan(Step(s, t, c).threads[t].pc) ==> ScanBound(Step(s, t, c), t)
  {
    StepFrame(s, t, c);
  }

  lemma OwnScan<V>(s: State<V>, d: State<V>, t: nat, c: Choice<V>)
    requires CanStep(s, t, c) && d == Step(s, t, c) && Frame(s, d, t, c) && CountRight(s)
    requires InScan(s.threads[t].pc) ==> ScanBound(s, t)
    ensures InScan(d.threads[t].pc) ==> ScanBound(d, t)
  {
    match s.threads[t].pc
    case PopRetire => TriggerScan(s, t, c);
    case ScanBegin => BeginScan(s, t, c);
    case Scanning => ReadScan(s, t, c);
    case Freeing => FreeScan(s, t, c);
    case _ =>
  }

  lemma {:induction false} DistinctFit(l: seq<nat>, p: set<nat>)
    requires forall k | 0 <= k < |l| :: l[k] in p
    requires forall k, m | 0 <= k < m < |l| :: l[k] != l[m]
    ensures |l| <= |p|
  {
    if l != [] {
      var last := l[|l| - 1];
      DistinctFit(l[..|l| - 1], p - {last});
    }
  }

  /** What a finished scan leaves was found in the records, each node once. */
  lemma ScanKeepsFew<V>(s: State<V>, t: nat)
    requires Inv(s) && t < |s.threads| && s.threads[t].pc.Freeing? && ScanBound(s, t) && CountRight(s)
    requires s.threads[t].at >= |s.records[s.threads[t].recs[0]].rlist|
    ensures |s.records[s.threads[t].recs[0]].rlist| <= s.threads[t].began
    ensures |s.records[s.threads[t].recs[0]].rlist| < Threshold(s.announced)
  {
    var r := s.threads[t].recs[0];
    assert WaitList(s, r);
    DistinctFit(s.records[r].rlist, s.threads[t].plist);
  }

  /** A retired node makes its list reach the threshold only if that starts a scan. */
  lemma RetireList<V>(s: State<V>, t: nat, c: Choice<V>)
    requires CanStep(s, t, c) && s.threads[t].pc.PopRetire?
    ensures var d, r := Step(s, t, c), s.threads[t].recs[0];
            && r < |d.records| && t < |d.threads| && |d.threads[t].recs| == 2 && d.threads[t].recs[0] == r
            && (|d.records[r].rlist| < Threshold(s.announced) || InScan(d.threads[t].pc))
  {}

  /** A scan ends when it has passed the whole list, which may have become shorter. */
  lemma FreeList<V>(s: State<V>, t: nat, c: Choice<V>)
    requires CanStep(s, t, c) && s.threads[t].pc.Freeing?
    ensures var d, r := Step(s, t, c), s.threads[t].recs[0];
            && r < |d.records| && t < |d.threads| && d.threads[t].recs == s.threads[t].recs
            && |d.records[r].rlist| <= |s.records[r].rlist|
            && (!InScan(d.threads[t].pc) ==> s.threads[t].at >= |s.records[r].rlist|)
  {}

  lemma ReadList<V>(s: State<V>, t: nat, c: Choice<V>)
    requires CanStep(s, t, c) && (s.threads[t].pc.ScanBegin? || s.threads[t].pc.Scanning?)
    ensures t < |Step(s, t, c).threads| && InScan(Step(s, t, c).threads[t].pc)
    ensures Step(s, t, c).threads[t].recs == s.threads[t].recs
  {}

  /** The list of the record that the thread scans or retires to. */
  lemma OwnList<V>(s: State<V>, d: State<V>, t: nat, c: Choice<V>, r: nat)
    requires CanStep(s, t, c) && d == Step(s, t, c) && Frame(s, d, t, c) && GarbageInv(s)
    requires (s.threads[t].pc.PopRetire? || InScan(s.threads[t].pc)) && r == s.threads[t].recs[0]
    ensures ListBound(d, r)
  {
    assert ThreadInv(s, t) && ListBound(s, r);
    if s.threads[t].pc.PopRetire? {
      RetireList(s, t, c);
      RetireHolder(s, t, c);
    } else if s.threads[t].pc.Freeing? {
      FreeList(s, t, c);
      assert ScanBound(s, t);
      if !InScan(d.threads[t].pc) {
        ScanKeepsFew(s, t);
      }
    } else {
      ReadList(s, t, c);
    }
  }

  lemma RetireHolder<V>(s: State<V>, t: nat, c: Choice<V>)
    requires CanStep(s, t, c) && s.threads[t].pc.PopRetire?
    ensures var d, r := Step(s, t, c), s.threads[t].recs[0];
            r < |d.records| && d.records[r].holder == s.records[r].holder
  {}

  lemma OtherList<V>(s: State<V>, d: State<V>, t: nat, c: Choice<V>, r: nat)
    requires CanStep(s, t, c) && Frame(s, d, t, c) && GarbageInv(s) && r < |s.records|
    requires s.threads[t].pc.PopRetire? || InScan(s.threads[t].pc) ==> r != s.threads[t].recs[0]
    ensures ListBound(d, r)
  {
    assert ListBound(s, r) && ThreadInv(s, t);
  }

  lemma StepGarbage<V>(s: State<V>, t: nat, c: Choice<V>)
    requires CanStep(s, t, c) && GarbageInv(s)
    ensures GarbageInv(Step(s, t, c))
  {
    StepFrame(s, t, c);
    KeepsGarbage(s, Step(s, t, c), t, c);
  }

  lemma KeepsGarbage<V>(s: State<V>, d: State<V>, t: nat, c: Choice<V>)
    requires CanStep(s, t, c) && d == Step(s, t, c) && Frame(s, d, t, c) && GarbageInv(s)
    ensures GarbageInv(d)
  {
    StepCount(s, d, t, c);
    forall u: nat | u < |d.threads| && InScan(d.threads[u].pc) ensures ScanBound(d, u) {
      if u == t {
        OwnScan(s, d, t, c);
      } else {
        OtherScan(s, d, t, c, u);
      }
    }
    forall r: nat | r < |d.records| ensures ListBound(d, r) {
      if r < |s.records| {
        var th := s.threads[t];
        if (th.pc.PopRetire? || InScan(th.pc)) && r == th.recs[0] {
          OwnList(s, d, t, c, r);
        } else {
          OtherList(s, d, t, c, r);
        }
      }
    }
  }
}
