/** The two failure-compatible datatypes the model uses for absent values and thrown errors. */
module Wrappers {

  datatype Option<+T> = None | Some(value: T)

  datatype Result<+R, +E> = Success(value: R) | Failure(error: E)

  /** A map read as a partial function. */
  function Get<K, V>(m: map<K, V>, k: K): Option<V> {
    if k in m then Some(m[k]) else None
  }

  /** Maps that read alike are equal. */
  lemma SameMap<K(!new), V>(a: map<K, V>, b: map<K, V>)
    requires forall k :: Get(a, k) == Get(b, k)
    ensures a == b
  {
    forall k ensures k in a <==> k in b { assert Get(a, k) == Get(b, k); }
    forall k | k in a ensures a[k] == b[k] { assert Get(a, k) == Get(b, k); }
  }
}
