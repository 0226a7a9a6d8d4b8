/** Types shared by every module. */
module Prelude {

  datatype Option<+T> = None | Some(value: T)

  /** The value a finite map holds at a key, if any. */
  function Get<K, V>(m: map<K, V>, k: K): Option<V> {
    if k in m then Some(m[k]) else None
  }

  function Least(a: nat, b: nat): nat {
    if a < b then a else b
  }

  lemma MapsAgree<K, V>(a: map<K, V>, b: map<K, V>)
    requires forall k :: Get(a, k) == Get(b, k)
    ensures a == b
  {
    forall k
      ensures k in a <==> k in b
      ensures k in a ==> a[k] == b[k]
    {
      assert Get(a, k) == Get(b, k);
    }
  }
}
