/**
 * The two dictionary updates the client's rooms perform on their player
 * tables: `Players[key] = value` and `Players.Remove(key)`.
 */
module Roster {

  /** `d[k] = v`: k now maps to v, whether or not it was present, and no other key changes. */
  function Put<K, V>(d: map<K, V>, k: K, v: V): (r: map<K, V>)
    ensures r.Keys == d.Keys + {k} && r[k] == v
    ensures forall j :: j in d && j != k ==> r[j] == d[j]
  {
    d[k := v]
  }

  /** `d.Remove(k)`: k is gone and every other entry stays. */
  function Drop<K, V>(d: map<K, V>, k: K): (r: map<K, V>)
    ensures r.Keys == d.Keys - {k}
    ensures forall j :: j in r ==> r[j] == d[j]
  {
    d - {k}
  }

  /** Storing the same entry twice is storing it once. */
  lemma PutIdempotent<K, V>(d: map<K, V>, k: K, v: V)
    ensures Put(Put(d, k, v), k, v) == Put(d, k, v)
  {
  }

  /** A second store under the same key replaces the first. */
  lemma PutOverwrites<K, V>(d: map<K, V>, k: K, v: V, w: V)
    ensures Put(Put(d, k, v), k, w) == Put(d, k, w)
  {
  }

  /** A store grows the table by one exactly when the key is new. */
  lemma PutSize<K, V>(d: map<K, V>, k: K, v: V)
    ensures |Put(d, k, v)| == if k in d then |d| else |d| + 1
  {
    if k in d {
      assert Put(d, k, v).Keys == d.Keys;
    } else {
      assert Put(d, k, v).Keys == d.Keys + {k};
    }
  }

  /** Removing an absent key changes nothing; removing a present one shrinks the table by one. */
  lemma DropSize<K, V>(d: map<K, V>, k: K)
    ensures k !in d ==> Drop(d, k) == d
    ensures k in d ==> |Drop(d, k)| == |d| - 1
  {
    if k in d {
      assert Drop(d, k).Keys == d.Keys - {k};
    }
  }

  /**
   * Storing an entry and then removing its key leaves the key absent and
   * every other key as before; when the key was new, the table is back
   * where it started.
   */
  lemma PutThenDrop<K, V>(d: map<K, V>, k: K, v: V)
    ensures Drop(Put(d, k, v), k) == Drop(d, k)
    ensures k !in d ==> Drop(Put(d, k, v), k) == d
  {
  }
}
