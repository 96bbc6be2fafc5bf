/** The hash map users see, over a Swiss table: every run of operations behaves as a finite map. */
module FlatHashmap {
  import opened MapSpec
  import opened Options
  import opened ProbeSequence
  import opened SwissModel
  import opened SwissTable

  datatype Op<K, V> = Change(write: Write<K, V>) | Find(key: K) | Subscript(key: K) | Assign(key: K, value: V) | Size

  datatype Answer<V> = Looked(result: Option<V>) | Did(done: bool) | Value(value: V) | Count(count: nat) | Done

  /** What each operation means for a finite map. `blank` is the value a subscript creates. */
  function Meaning<K(==), V>(m: map<K, V>, op: Op<K, V>, blank: V): (map<K, V>, Answer<V>) {
    match op
    case Change(w) => (Applied(m, w), Did(Reported(m, w)))
    case Find(k) => (m, Looked(if k in m then Some(m[k]) else None))
    case Subscript(k) => if k in m then (m, Value(m[k])) else (m[k := blank], Value(blank))
    case Assign(k, v) => (m[k := v], Done)
    case Size => (m, Count(|m|))
  }

  function MeaningOfAll<K(==), V>(m: map<K, V>, ops: seq<Op<K, V>>, blank: V): (map<K, V>, seq<Answer<V>>) {
    if ops == [] then (m, []) else
      var (m1, answers) := MeaningOfAll(m, ops[..|ops| - 1], blank);
      var (m2, answer) := Meaning(m1, ops[|ops| - 1], blank);
      (m2, answers + [answer])
  }

  lemma MeaningNext<K, V>(m: map<K, V>, ops: seq<Op<K, V>>, i: nat, blank: V)
    requires i < |ops|
    ensures var (m1, answers) := MeaningOfAll(m, ops[..i], blank);
            var (m2, answer) := Meaning(m1, ops[i], blank);
            MeaningOfAll(m, ops[..i + 1], blank) == (m2, answers + [answer])
  {
    assert ops[..i + 1][..i] == ops[..i];
  }

  lemma WrittenTwice<K, V>(m: map<K, V>, k: K, v: V, w: V)
    ensures m[k := v][k := w] == m[k := w]
  {}

  class FlatHashmap<K(==, 0, !new), V(0)> {
    const impl: SwissTable<K, V>
    const blank: V

    ghost predicate Valid()
      reads impl, impl.ctrl, impl.keys, impl.values
    {
      impl.Valid()
    }

    ghost function Contents(): map<K, V>
      requires impl.view.Valid()
      reads impl
    {
      impl.Contents()
    }

    /** The constructor allocates the first capacity at once. */
    constructor (hasher: K -> bv64, initialCap: nat, blank: V)
      ensures Valid() && fresh(impl) && fresh(impl.Repr) && Contents() == map[]
      ensures impl.hasher == hasher && this.blank == blank
      ensures IsValidCapacity(impl.capacity) && initialCap <= impl.capacity
      ensures initialCap > 0 ==> impl.capacity < 2 * initialCap
    {
      var table := new SwissTable(hasher);
      table.Resize(NormalizeCapacity(initialCap));
      impl := table;
      this.blank := blank;
    }

    method Find(key: K) returns (r: Option<V>)
      requires Valid()
      ensures r == if key in Contents() then Some(Contents()[key]) else None
    {
      var found, index := impl.FindPointer(key);
      if found {
        var value := impl.ValueAt(key, index);
        return Some(value);
      }
      return None;
    }

    method Insert(key: K, value: V) returns (done: bool)
      requires Valid()
      modifies impl, impl.Repr
      ensures Valid() && fresh(impl.Repr - old(impl.Repr))
      ensures done <==> key !in old(Contents())
      ensures Contents() == if done then old(Contents())[key := value] else old(Contents())
    {
      var r, index := impl.Insert(key, value);
      done := r == Inserted;
    }

    /** The slot a subscript refers to, created if need be. */
    method Subscript(key: K) returns (index: nat)
      requires Valid()
      modifies impl, impl.Repr
      ensures Valid() && fresh(impl.Repr - old(impl.Repr)) && Points(impl.view, key, index)
      ensures Contents() == if key in old(Contents()) then old(Contents()) else old(Contents())[key := blank]
    {
      var found, r;
      found, index := impl.FindPointer(key);
      if found {
        return;
      }
      r, index := impl.Insert(key, blank);
    }

    /** A subscript that is read. */
    method Read(key: K) returns (value: V)
      requires Valid()
      modifies impl, impl.Repr
      ensures Valid() && fresh(impl.Repr - old(impl.Repr))
      ensures Contents() == if key in old(Contents()) then old(Contents()) else old(Contents())[key := blank]
      ensures key in Contents() && value == Contents()[key]
    {
      var index := Subscript(key);
      value := impl.ValueAt(key, index);
    }

    /** A subscript that is written. */
    method Assign(key: K, value: V)
      requires Valid()
      modifies impl, impl.Repr
      ensures Valid() && fresh(impl.Repr - old(impl.Repr))
      ensures Contents() == old(Contents())[key := value]
    {
      var index := Subscript(key);
      WrittenTwice(old(Contents()), key, blank, value);
      impl.SetValueAt(key, index, value);
    }

    method Upsert(key: K, value: V) returns (added: bool)
      requires Valid()
      modifies impl, impl.Repr
      ensures Valid() && fresh(impl.Repr - old(impl.Repr))
      ensures added <==> key !in old(Contents())
      ensures Contents() == old(Contents())[key := value]
    {
      var found, index := impl.FindPointer(key);
      if found {
        impl.SetValueAt(key, index, value);
      } else {
        var r, i := impl.Insert(key, value);
      }
      added := !found;
    }

    method Erase(key: K) returns (erased: bool)
      requires Valid()
      modifies impl, impl.Repr
      ensures Valid() && impl.Repr == old(impl.Repr)
      ensures erased <==> key in old(Contents())
      ensures Contents() == old(Contents()) - {key}
    {
      erased := impl.Erase(key);
    }

    method Clear()
      requires Valid()
      modifies impl
      ensures Valid() && fresh(impl.Repr) && Contents() == map[]
    {
      impl.Clear();
    }

    method Size() returns (n: nat)
      requires Valid()
      ensures n == |Contents()|
    {
      ContentsSize(impl.view);
      n := impl.size;
    }

    method Write(w: Write<K, V>) returns (done: bool)
      requires Valid()
      modifies impl, impl.Repr
      ensures Valid() && fresh(impl.Repr - old(impl.Repr))
      ensures w.Insert? || w.Upsert? ==> (done <==> w.key !in old(Contents()))
      ensures w.Insert? ==> Contents() == if done then old(Contents())[w.key := w.value] else old(Contents())
      ensures w.Upsert? ==> Contents() == old(Contents())[w.key := w.value]
      ensures w.Erase? ==> (done <==> w.key in old(Contents())) && Contents() == old(Contents()) - {w.key}
      ensures w.Clear? ==> done && Contents() == map[]
    {
      match w
      case Insert(k, v) =>
        done := Insert(k, v);
      case Upsert(k, v) =>
        done := Upsert(k, v);
      case Erase(k) =>
        done := Erase(k);
      case Clear =>
        Clear();
        done := true;
    }

    method Perform(op: Op<K, V>) returns (answer: Answer<V>)
      requires Valid()
      modifies impl, impl.Repr
      ensures Valid() && fresh(impl.Repr - old(impl.Repr))
      ensures Contents() == Meaning(old(Contents()), op, blank).0
      ensures answer == Meaning(old(Contents()), op, blank).1
    {
      match op
      case Find(k) =>
        var r := Find(k);
        answer := Looked(r);
      case Change(w) =>
        var done := Write(w);
        answer := Did(done);
      case Subscript(k) =>
        var v := Read(k);
        answer := Value(v);
      case Assign(k, v) =>
        Assign(k, v);
        answer := Done;
      case Size =>
        var n := Size();
        answer := Count(n);
    }

    /** Every run of operations answers, and ends, as a finite map does. */
    method Run(ops: seq<Op<K, V>>) returns (answers: seq<Answer<V>>)
      requires Valid()
      modifies impl, impl.Repr
      ensures Valid() && fresh(impl.Repr - old(impl.Repr))
      ensures (Contents(), answers) == MeaningOfAll(old(Contents()), ops, blank)
    {
      answers := [];
      for i := 0 to |ops|
        invariant Valid() && fresh(impl.Repr - old(impl.Repr))
        invariant (Contents(), answers) == MeaningOfAll(old(Contents()), ops[..i], blank)
      {
        MeaningNext(old(Contents()), ops, i, blank);
        var answer := Perform(ops[i]);
        answers := answers + [answer];
      }
      assert ops[..|ops|] == ops;
    }
  }
}
