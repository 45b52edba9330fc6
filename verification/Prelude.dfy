/** Small datatypes and list facts shared by every component. */
module Prelude {

  /** A value that may be absent: a nil pointer or a missing map entry. */
  datatype Option<+T> = None | Some(value: T)

  /** A value together with the error return of the operation that produces it. */
  datatype Result<+T> = Ok(value: T) | Err(error: string)

  /** Map lookup with the `v, ok := m[k]` idiom. */
  function Lookup<K, V>(m: map<K, V>, k: K): Option<V> {
    if k in m then Some(m[k]) else None
  }

  predicate Distinct<T(==)>(s: seq<T>) {
    forall i, j :: 0 <= i < j < |s| ==> s[i] != s[j]
  }

  /** Two fresh, different keys make a map larger by two. */
  lemma TwoNewKeys<K, V>(m: map<K, V>, k: K, v: V, l: K, w: V)
    requires k !in m && l !in m && k != l
    ensures |m[k := v][l := w]| == |m| + 2
  {
    assert |m[k := v]| == |m| + 1;
  }

  lemma DistinctAppend<T>(s: seq<T>, t: seq<T>)
    requires Distinct(s) && |t| <= 1 && (t != [] ==> t[0] !in s)
    ensures Distinct(s + t)
  {
    forall i, j | 0 <= i < j < |s + t| ensures (s + t)[i] != (s + t)[j] {
      assert (s + t)[i] == s[i];
    }
  }
}
