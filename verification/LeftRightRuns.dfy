/** What the Left-Right steps add up to over whole runs: exclusion, linearizability, and the outcome
    of every write. */
module LeftRightRuns {
  import opened MapSpec
  import opened LeftRight

  ghost predicate Follows<K, V>(run: seq<State<K, V>>, i: nat)
    requires 0 < i < |run|
  {
    Next(run[i - 1], run[i])
  }

  ghost predicate IsRun<K, V>(run: seq<State<K, V>>) {
    |run| > 0 && Init(run[0]) && forall i | 0 < i < |run| :: Follows(run, i)
  }

  lemma RunStep<K, V>(run: seq<State<K, V>>, i: nat)
    requires IsRun(run) && 0 < i < |run| && Inv(run[i - 1])
    ensures Inv(run[i])
  {
    assert Follows(run, i);
    NextInv(run[i - 1], run[i]);
  }

  lemma {:induction false} RunInv<K, V>(run: seq<State<K, V>>, i: nat)
    requires IsRun(run) && i < |run|
    ensures Inv(run[i])
  {
    if i == 0 {
      InitInv(run[0]);
    } else {
      RunInv(run, i - 1);
      RunStep(run, i);
    }
  }

  /** The writer is in the middle of changing copy `c`. */
  predicate Changing<K, V>(s: State<K, V>, c: nat) {
    s.writer.Busy? && ((s.writer.phase.First? && c == 1 - s.writer.lr) || (s.writer.phase.Second? && c == s.writer.lr))
  }

  /** Exclusion: nobody is ever inside the copy being changed, so a reader finds the same map
      there until it leaves, whatever the other threads do. */
  lemma Exclusion<K, V>(run: seq<State<K, V>>, i: nat, t: nat)
    requires IsRun(run) && i < |run| && t < |run[i].readers| && run[i].readers[t].Inside?
    ensures Shape(run[i]) && !Changing(run[i], run[i].readers[t].copy)
    ensures run[i].maps[run[i].readers[t].copy] == run[i].readers[t].seen
  {
    RunInv(run, i);
    assert NoStale(run[i]) ==> !Stale(run[i], t);
  }

  /** What a thread keeps between loading the toggle and departing. */
  lemma Remembers<K, V>(s: State<K, V>, s': State<K, V>, t: nat)
    requires Inv(s) && Next(s, s') && t < |s.readers| && |s'.readers| == |s.readers|
    requires s'.readers[t].Inside? || s'.readers[t].Leaving?
    ensures s.readers[t].Arrived? || s.readers[t].Inside? || s.readers[t].Leaving?
    ensures s.readers[t].Arrived? ==> s'.readers[t].Inside? && s'.readers[t].seen == s.abs
    ensures !s.readers[t].Arrived? ==> s'.readers[t].seen == s.readers[t].seen
  {
    if WriterStep(s, s') {
      WriterFrame(s, s');
    }
  }

  lemma NextThreads<K, V>(s: State<K, V>, s': State<K, V>)
    requires Next(s, s')
    ensures |s'.readers| == |s.readers|
  {
    if WriterStep(s, s') {
      WriterFrame(s, s');
    }
  }

  /** A reader that has loaded the toggle did so in the last step, or remembers what it saw. */
  lemma LastStep<K, V>(run: seq<State<K, V>>, j: nat, t: nat)
    requires IsRun(run) && j < |run| && t < |run[j].readers|
    requires run[j].readers[t].Inside? || run[j].readers[t].Leaving?
    ensures j > 0 && t < |run[j - 1].readers|
    ensures var r := run[j - 1].readers[t];
            if r.Arrived? then run[j].readers[t].seen == run[j - 1].abs
            else (r.Inside? || r.Leaving?) && run[j].readers[t].seen == r.seen
  {
    assert j > 0;
    assert Follows(run, j);
    RunInv(run, j - 1);
    NextThreads(run[j - 1], run[j]);
    Remembers(run[j - 1], run[j], t);
  }

  lemma GotIsSeen<K, V>(run: seq<State<K, V>>, j: nat, t: nat)
    requires IsRun(run) && j < |run| && t < |run[j].readers| && run[j].readers[t].Leaving?
    ensures run[j].readers[t].got == run[j].readers[t].seen
  {
    RunInv(run, j);
  }

  /** Linearizability: what a reader gets is the map the structure stood for at one moment of its
      own call, the moment it loaded the toggle. */
  lemma {:induction false} Linearized<K, V>(run: seq<State<K, V>>, j: nat, t: nat) returns (i: nat)
    requires IsRun(run) && j < |run| && t < |run[j].readers|
    requires run[j].readers[t].Inside? || run[j].readers[t].Leaving?
    ensures i < j && t < |run[i].readers| && run[i].readers[t].Arrived?
    ensures run[j].readers[t].seen == run[i].abs
    ensures run[j].readers[t].Leaving? ==> run[j].readers[t].got == run[i].abs
    ensures forall k | i < k <= j :: t < |run[k].readers| && (run[k].readers[t].Inside? || run[k].readers[t].Leaving?)
  {
    LastStep(run, j, t);
    if run[j].readers[t].Leaving? {
      GotIsSeen(run, j, t);
    }
    if run[j - 1].readers[t].Arrived? {
      i := j - 1;
    } else {
      i := Linearized(run, j - 1, t);
    }
  }

  /** The map the structure stands for changes only when the writer stores the toggle, and then by
      exactly its operation. */
  lemma AbsChanges<K, V>(s: State<K, V>, s': State<K, V>)
    requires Inv(s) && Next(s, s')
    ensures if s.writer.Busy? && s.writer.phase.Toggling? && s'.leftRight != s.leftRight then
              var w, m := s.writer.write, s.abs;
              && (w.Insert? ==> s'.abs == if w.key in m then m else m[w.key := w.value])
              && (w.Upsert? ==> s'.abs == m[w.key := w.value])
              && (w.Erase? ==> s'.abs == m - {w.key})
              && (w.Clear? ==> s'.abs == map[])
            else s'.abs == s.abs
  {}

  /** Between operations the copies are equal. */
  lemma IdleEqual<K, V>(run: seq<State<K, V>>, i: nat)
    requires IsRun(run) && i < |run| && run[i].writer.Idle?
    ensures run[i].maps == [run[i].abs, run[i].abs]
  {
    RunInv(run, i);
  }

  /** An operation that failed at its first copy: both hold the map it found. */
  lemma FirstFails<K, V>(s: State<K, V>, s': State<K, V>)
    requires Inv(s) && WriterStep(s, s') && s.writer.Busy? && s.writer.phase.First? && s'.writer.Idle?
    ensures s'.abs == s.writer.before
  {}

  /** An operation that changed both copies. */
  lemma SecondDone<K, V>(s: State<K, V>, s': State<K, V>)
    requires Inv(s) && WriterStep(s, s') && s.writer.Busy? && s.writer.phase.Second? && s'.writer.Idle?
    ensures s'.abs == if s.writer.undoing then s.writer.before else Applied(s.writer.before, s.writer.write)
    ensures !s.writer.undoing ==>
              s.writer.report == Reported(s.writer.before, s.writer.write) == Reported(s.writer.back, s.writer.write)
  {}

  /** How an operation ends. If it did not fail, both copies hold the result of the operation on
      the map it found: an insertion keeps what is there, an upsert replaces it. It reports whether
      it added its key, or found the one to erase, and the second copy would have reported the same.
      If it failed, at the first copy or at the second, both hold the map it found. */
  lemma WriterDone<K, V>(s: State<K, V>, s': State<K, V>)
    requires Inv(s) && WriterStep(s, s') && s.writer.Busy? && s'.writer.Idle?
    ensures s'.maps == [s'.abs, s'.abs]
    ensures s.writer.phase.Second? && !s.writer.undoing ==>
              var w, m, added := s.writer.write, s.writer.before, s.writer.report;
              && (w.Insert? && w.key in m ==> !added && s'.abs == m)
              && (w.Insert? && w.key !in m ==> added && s'.abs == m[w.key := w.value])
              && (w.Upsert? ==> (added <==> w.key !in m) && s'.abs == m[w.key := w.value])
              && (w.Erase? ==> (added <==> w.key in m) && s'.abs == m - {w.key})
              && (w.Clear? ==> s'.abs == map[])
              && added == Reported(s.writer.back, w)
    ensures s.writer.phase.First? || s.writer.undoing ==> s'.abs == s.writer.before
  {
    WriterCopies(s, s');
    if s.writer.phase.First? {
      FirstFails(s, s');
    } else {
      SecondDone(s, s');
    }
  }

  /** A failure at the second copy starts the erasure that undoes the insertion. */
  lemma FailureUndone<K, V>(s: State<K, V>, s': State<K, V>)
    requires Inv(s) && WriterStep(s, s') && s.writer.Busy? && s.writer.phase.Second?
    requires s'.writer.Busy? && s'.writer.phase.First?
    ensures s'.writer.undoing && s'.writer.before == s.writer.before
    ensures s'.writer.write == Erase(s.writer.write.key) && s.writer.write.key !in s.writer.before
    ensures s'.abs == s.writer.before[s.writer.write.key := s.writer.write.value]
    ensures s.writer.write.Insert?
  {}

  /** An upsert is not caught when it fails at the second copy, and releases the lock. The copies
      are then equal exactly if the upsert had nothing to change. */
  lemma UpsertUncaught<K, V>(s: State<K, V>, s': State<K, V>)
    requires Inv(s) && s.writer.Busy? && s.writer.phase.Second? && !s.writer.undoing && s.writer.write.Upsert?
    requires s' == s.(maps := s.maps[s.writer.lr := s.writer.back], writer := Idle)
    ensures |s'.maps| == 2
    ensures s'.maps[0] == s'.maps[1] <==>
              s.writer.write.key in s.writer.before && s.writer.before[s.writer.write.key] == s.writer.write.value
  {
    var w := s.writer;
    assert s'.maps[w.lr] == w.before && s'.maps[1 - w.lr] == Applied(w.before, w.write);
    if w.write.key in w.before && w.before[w.write.key] == w.write.value {
      assert w.before[w.write.key := w.write.value] == w.before;
    }
  }

  // ---- a run up to an upsert that may fail ----

  lemma Extended<K, V>(run: seq<State<K, V>>, s: State<K, V>)
    requires IsRun(run) && Next(run[|run| - 1], s)
    ensures IsRun(run + [s])
  {
    forall i | 0 < i < |run + [s]| ensures Follows(run + [s], i) {
      if i < |run| {
        assert Follows(run, i);
      }
    }
  }

  /** Nobody reads, and a new key is upserted. */
  ghost function Upserting(phase: Phase, first: map<int, int>, abs: map<int, int>, leftRight: nat, version: nat)
      : State<int, int> {
    var zeros := seq(BUCKETS, _ => 0);
    State([], [], [zeros, zeros], [map[], first], version, leftRight,
          Busy(phase, Upsert(7, 8), 0, 0, map[], map[], map[], true, false), abs)
  }

  lemma UpsertToggled() returns (run: seq<State<int, int>>)
    ensures IsRun(run) && run[|run| - 1] == Upserting(DrainNext(0, 0), map[7 := 8], map[7 := 8], 1, 0)
  {
    var s := Upserting(First, map[], map[], 0, 0);
    run := [s.(writer := Idle)];
    Extended(run, s);
    run := run + [s];
    Extended(run, Upserting(Toggling, map[7 := 8], map[], 0, 0));
    run := run + [Upserting(Toggling, map[7 := 8], map[], 0, 0)];
    Extended(run, Upserting(DrainNext(0, 0), map[7 := 8], map[7 := 8], 1, 0));
    run := run + [Upserting(DrainNext(0, 0), map[7 := 8], map[7 := 8], 1, 0)];
  }

  lemma UpsertFlipped() returns (run: seq<State<int, int>>)
    ensures IsRun(run) && run[|run| - 1] == Upserting(DrainPrev(0, 0), map[7 := 8], map[7 := 8], 1, 1)
  {
    run := UpsertToggled();
    for b := 0 to BUCKETS
      invariant IsRun(run) && run[|run| - 1] == Upserting(DrainNext(b, 0), map[7 := 8], map[7 := 8], 1, 0)
    {
      Extended(run, Upserting(DrainNext(b + 1, 0), map[7 := 8], map[7 := 8], 1, 0));
      run := run + [Upserting(DrainNext(b + 1, 0), map[7 := 8], map[7 := 8], 1, 0)];
    }
    Extended(run, Upserting(Flipping, map[7 := 8], map[7 := 8], 1, 0));
    run := run + [Upserting(Flipping, map[7 := 8], map[7 := 8], 1, 0)];
    Extended(run, Upserting(DrainPrev(0, 0), map[7 := 8], map[7 := 8], 1, 1));
    run := run + [Upserting(DrainPrev(0, 0), map[7 := 8], map[7 := 8], 1, 1)];
  }

  /** A run from the empty map to the second copy of an upsert of a new key: failing there leaves
      the key in one copy only. */
  lemma UpsertSplits() returns (run: seq<State<int, int>>)
    ensures IsRun(run)
    ensures var s := run[|run| - 1];
            && s.writer.Busy? && s.writer.phase.Second? && !s.writer.undoing && s.writer.write == Upsert(7, 8)
            && |s.maps| == 2 && s.writer.lr < 2 && s.maps[s.writer.lr := s.writer.back] == [map[], map[7 := 8]]
  {
    run := UpsertFlipped();
    for b := 0 to BUCKETS
      invariant IsRun(run) && run[|run| - 1] == Upserting(DrainPrev(b, 0), map[7 := 8], map[7 := 8], 1, 1)
    {
      Extended(run, Upserting(DrainPrev(b + 1, 0), map[7 := 8], map[7 := 8], 1, 1));
      run := run + [Upserting(DrainPrev(b + 1, 0), map[7 := 8], map[7 := 8], 1, 1)];
    }
    Extended(run, Upserting(Second, map[7 := 8], map[7 := 8], 1, 1));
    run := run + [Upserting(Second, map[7 := 8], map[7 := 8], 1, 1)];
  }

  // ---- readers do not hold up the writer ----

  ghost function Drained<K, V>(s: State<K, V>): nat
    requires Shape(s) && s.writer.Busy?
  {
    if s.writer.phase.DrainNext? then 1 - s.writer.v else s.writer.v
  }

  /** The threads that may keep the counter being drained above zero. */
  ghost function Blockers<K, V>(s: State<K, V>): set<int>
    requires Shape(s) && s.writer.Busy?
  {
    set t | 0 <= t < |s.readers| && !s.readers[t].Outside? && s.readers[t].v == Drained(s)
  }

  lemma DrainReader<K, V>(s: State<K, V>, t: nat)
    requires Shape(s) && s.writer.Busy? && s.versionIdx != Drained(s) && t < |s.readers|
    ensures Shape(ReaderStep(s, t)) && Blockers(ReaderStep(s, t)) <= Blockers(s)
  {
    var d := ReaderStep(s, t);
    forall u | u in Blockers(d) ensures u in Blockers(s) {
      assert u != t ==> d.readers[u] == s.readers[u];
    }
  }

  lemma DrainVersion<K, V>(s: State<K, V>)
    requires Shape(s) && CopiesAgree(s) && s.writer.Busy? && (s.writer.phase.DrainNext? || s.writer.phase.DrainPrev?)
    ensures s.versionIdx != Drained(s)
  {}

  lemma DrainWriter<K, V>(s: State<K, V>, s': State<K, V>)
    requires Shape(s) && Shape(s') && WriterStep(s, s') && s.writer.Busy? && s'.writer.Busy?
    requires (s.writer.phase.DrainNext? && s'.writer.phase.DrainNext?)
             || (s.writer.phase.DrainPrev? && s'.writer.phase.DrainPrev?)
    ensures Blockers(s') == Blockers(s)
  {
    assert s'.writer == s.writer.(phase := s'.writer.phase) && s'.readers == s.readers;
  }

  /** While the writer drains a counter no call that starts later can join those it waits for. */
  lemma DrainShrinks<K, V>(s: State<K, V>, s': State<K, V>)
    requires Shape(s) && CopiesAgree(s) && Next(s, s') && s.writer.Busy? && s'.writer.Busy? && Shape(s')
    requires (s.writer.phase.DrainNext? && s'.writer.phase.DrainNext?)
             || (s.writer.phase.DrainPrev? && s'.writer.phase.DrainPrev?)
    ensures Blockers(s') <= Blockers(s)
  {
    if t: nat :| t < |s.readers| && s' == ReaderStep(s, t) {
      DrainVersion(s);
      DrainReader(s, t);
    } else {
      DrainWriter(s, s');
    }
  }

  /** When none of them is left, the scan goes through, bucket by bucket, and the writer goes on. */
  lemma DrainEnds<K, V>(s: State<K, V>, s': State<K, V>)
    requires Inv(s) && s.writer.Busy? && WriterStep(s, s') && Blockers(s) == {}
    ensures var p := s.writer.phase; p.DrainNext? && p.sum == 0 ==>
              s'.writer.Busy? && s'.writer.phase == if p.b < BUCKETS then DrainNext(p.b + 1, 0) else Flipping
    ensures var p := s.writer.phase; p.DrainPrev? && p.sum == 0 ==>
              s'.writer.Busy? && s'.writer.phase == if p.b < BUCKETS then DrainPrev(p.b + 1, 0) else Second
  {
    forall v: nat, b: nat | v == Drained(s) && b < BUCKETS ensures s.counts[v][b] == 0 {
      assert Holders(s, v, b) <= Blockers(s);
    }
  }
}
