/** What the operations that change a map mean, whatever implements it. */
module MapSpec {
  datatype Write<K, V> = Insert(key: K, value: V) | Upsert(key: K, value: V) | Erase(key: K) | Clear

  /** `insert` never overwrites, `upsert` always does. */
  function Applied<K(==), V>(m: map<K, V>, w: Write<K, V>): map<K, V> {
    match w
    case Insert(k, v) => if k in m then m else m[k := v]
    case Upsert(k, v) => m[k := v]
    case Erase(k) => m - {k}
    case Clear => map[]
  }

  /** The operation's answer: whether a key was added, or was there to erase. */
  function Reported<K(==), V>(m: map<K, V>, w: Write<K, V>): bool {
    match w
    case Insert(k, v) => k !in m
    case Upsert(k, v) => k !in m
    case Erase(k) => k in m
    case Clear => true
  }
}
