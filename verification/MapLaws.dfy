/** What a run of operations makes of each key of a map, and what it answers. */
module MapLaws {
  import opened MapSpec
  import opened Options
  import opened FlatHashmap

  /** After the operation the key is there. */
  predicate Brings<K(==), V>(op: Op<K, V>, k: K) {
    match op
    case Change(Insert(x, _)) => x == k
    case Change(Upsert(x, _)) => x == k
    case Subscript(x) => x == k
    case Assign(x, _) => x == k
    case _ => false
  }

  /** After the operation the key is not there. */
  predicate Takes<K(==), V>(op: Op<K, V>, k: K) {
    match op
    case Change(Erase(x)) => x == k
    case Change(Clear) => true
    case _ => false
  }

  /** The operation gives the key a value, whatever was there. */
  predicate Overwrites<K(==), V>(op: Op<K, V>, k: K) {
    match op
    case Change(Upsert(x, _)) => x == k
    case Assign(x, _) => x == k
    case _ => false
  }

  ghost predicate NeverTaken<K, V>(ops: seq<Op<K, V>>, from: nat, k: K) {
    forall i | from <= i < |ops| :: !Takes(ops[i], k)
  }

  ghost predicate NeverSet<K, V>(ops: seq<Op<K, V>>, from: nat, k: K) {
    forall i | from <= i < |ops| :: !Overwrites(ops[i], k)
  }

  /** The map after the operations. */
  ghost function After<K, V>(m: map<K, V>, ops: seq<Op<K, V>>, blank: V): map<K, V> {
    MeaningOfAll(m, ops, blank).0
  }

  lemma AfterLast<K, V>(m: map<K, V>, ops: seq<Op<K, V>>, blank: V, k: K)
    requires ops != []
    ensures var before, op := After(m, ops[..|ops| - 1], blank), ops[|ops| - 1];
            var after := After(m, ops, blank);
            && (k in after <==> Brings(op, k) || (k in before && !Takes(op, k)))
            && (k in before && k in after && !Overwrites(op, k) ==> after[k] == before[k])
            && (k in after && Overwrites(op, k) ==> op == Change(Upsert(k, after[k])) || op == Assign(k, after[k]))
            && (k in after && k !in before && !Overwrites(op, k) ==>
                  op == Change(Insert(k, after[k])) || (op == Subscript(k) && after[k] == blank))
  {}

  /** A key is there exactly if some operation brings it and none after it takes it away, or if it was
      there before and none takes it away. */
  lemma {:induction false} Presence<K, V>(m: map<K, V>, ops: seq<Op<K, V>>, blank: V, k: K)
    ensures k in After(m, ops, blank) <==>
              (k in m && NeverTaken(ops, 0, k))
              || exists i: nat :: i < |ops| && Brings(ops[i], k) && NeverTaken(ops, i + 1, k)
    decreases |ops|
  {
    if ops != [] {
      var n := |ops| - 1;
      var front := ops[..n];
      Presence(m, front, blank, k);
      AfterLast(m, ops, blank, k);
      forall from: nat | from <= n
        ensures NeverTaken(ops, from, k) <==> NeverTaken(front, from, k) && !Takes(ops[n], k)
      {
        Extends(ops, k, from);
      }
      assert Brings(ops[n], k) ==> NeverTaken(ops, n + 1, k);
    }
  }

  lemma Extends<K, V>(ops: seq<Op<K, V>>, k: K, from: nat)
    requires from < |ops|
    ensures var n := |ops| - 1; NeverTaken(ops, from, k) <==> NeverTaken(ops[..n], from, k) && !Takes(ops[n], k)
  {
    var n := |ops| - 1;
    assert forall i | from <= i < n :: ops[..n][i] == ops[i];
  }

  /** Where the value of a key comes from: from the last upsert or assignment, or from the insertion
      or subscript that created it, if there was no upsert or assignment since; or, as -1, from the
      map at the start. */
  lemma {:induction false} Origin<K, V>(m: map<K, V>, ops: seq<Op<K, V>>, blank: V, k: K) returns (i: int)
    requires k in After(m, ops, blank)
    ensures -1 <= i < |ops| && NeverTaken(ops, i + 1, k) && NeverSet(ops, i + 1, k)
    ensures var v := After(m, ops, blank)[k];
            if i == -1 then k in m && v == m[k]
            else ops[i] == Change(Upsert(k, v)) || ops[i] == Assign(k, v)
                 || (k !in After(m, ops[..i], blank)
                     && (ops[i] == Change(Insert(k, v)) || (ops[i] == Subscript(k) && v == blank)))
    decreases |ops|
  {
    if ops == [] {
      return -1;
    }
    var n := |ops| - 1;
    AfterLast(m, ops, blank, k);
    if Overwrites(ops[n], k) || k !in After(m, ops[..n], blank) {
      return n;
    }
    i := Origin(m, ops[..n], blank, k);
    assert i >= 0 ==> ops[..n][..i] == ops[..i];
  }

  /** What each operation of a run answers, in terms of the map it finds. */
  lemma {:induction false} Answers<K, V>(m: map<K, V>, ops: seq<Op<K, V>>, blank: V, i: nat)
    requires i < |ops|
    ensures var answers, before := MeaningOfAll(m, ops, blank).1, After(m, ops[..i], blank);
            && |answers| == |ops|
            && match ops[i]
               case Change(Insert(k, _)) => answers[i] == Did(k !in before)
               case Change(Upsert(k, _)) => answers[i] == Did(k !in before)
               case Change(Erase(k)) => answers[i] == Did(k in before)
               case Change(Clear) => answers[i].Did?
               case Find(k) => answers[i].Looked? && (answers[i].result.Some? <==> k in before)
                               && (k in before ==> answers[i].result.value == before[k])
               case Subscript(k) => answers[i] == Value(if k in before then before[k] else blank)
               case Assign(_, _) => answers[i].Done?
               case Size => answers[i] == Count(|before|)
    decreases |ops|
  {
    AnswerCount(m, ops, blank);
    var n := |ops| - 1;
    AnswerCount(m, ops[..n], blank);
    if i < n {
      Answers(m, ops[..n], blank, i);
      assert ops[..n][..i] == ops[..i];
    }
  }

  lemma {:induction false} AnswerCount<K, V>(m: map<K, V>, ops: seq<Op<K, V>>, blank: V)
    ensures |MeaningOfAll(m, ops, blank).1| == |ops|
    decreases |ops|
  {
    if ops != [] {
      AnswerCount(m, ops[..|ops| - 1], blank);
    }
  }
}
