/** Insertion-ordered maps as association lists: the iteration order of a JavaScript
    `Map` and of `Object.entries` over string keys. Updating a present key overwrites
    its value but keeps its place. */
module OrderedMap {
  import opened Types

  predicate KeysDistinct<K(==), V>(m: seq<(K, V)>) {
    forall i, j :: 0 <= i < j < |m| ==> m[i].0 != m[j].0
  }

  function Lookup<K(==), V>(m: seq<(K, V)>, k: K): (r: Option<V>)
    ensures r.None? <==> forall i :: 0 <= i < |m| ==> m[i].0 != k
  {
    if |m| == 0 then None else if m[0].0 == k then Some(m[0].1) else Lookup(m[1..], k)
  }

  /** Lookup of a counter, `m[k] ?? 0`. */
  function LookupOr0<K(==)>(m: seq<(K, nat)>, k: K): nat {
    match Lookup(m, k)
    case Some(n) => n
    case None => 0
  }

  /** `m.set(k, v)` / `m[k] = v`. */
  function Set<K(==, !new), V>(m: seq<(K, V)>, k: K, v: V): (r: seq<(K, V)>)
    ensures Lookup(r, k) == Some(v)
    ensures forall k' :: k' != k ==> Lookup(r, k') == Lookup(m, k')
    ensures Lookup(m, k).Some? ==> |r| == |m| && forall i :: 0 <= i < |m| ==> r[i].0 == m[i].0
    ensures Lookup(m, k).None? ==> r == m + [(k, v)]
  {
    if |m| == 0 then [(k, v)]
    else if m[0].0 == k then
      var r := [(k, v)] + m[1..];
      assert r[1..] == m[1..];
      r
    else
      var rest := Set(m[1..], k, v);
      var r := [m[0]] + rest;
      assert r[1..] == rest;
      assert Lookup(m[1..], k).None? ==> r == m + [(k, v)];
      r
  }

  /** Setting a key never duplicates one. */
  lemma {:induction false} SetKeepsDistinct<K(!new), V>(m: seq<(K, V)>, k: K, v: V)
    requires KeysDistinct(m)
    ensures KeysDistinct(Set(m, k, v))
  {
    if |m| > 0 && m[0].0 != k {
      SetKeepsDistinct(m[1..], k, v);
      assert Lookup(Set(m[1..], k, v), m[0].0) == Lookup(m[1..], m[0].0);
    }
  }

  /** With distinct keys, every entry is what a lookup of its key finds. */
  lemma {:induction false} LookupEntry<K, V>(m: seq<(K, V)>, j: nat)
    requires KeysDistinct(m) && j < |m|
    ensures Lookup(m, m[j].0) == Some(m[j].1)
  {
    if j > 0 {
      assert m[0].0 != m[j].0;
      LookupEntry(m[1..], j - 1);
    }
  }

  /** A lookup that finds a value finds it at an entry. */
  lemma {:induction false} LookupFound<K, V>(m: seq<(K, V)>, k: K)
    requires Lookup(m, k).Some?
    ensures exists j :: 0 <= j < |m| && m[j] == (k, Lookup(m, k).value)
  {
    if m[0].0 != k {
      LookupFound(m[1..], k);
      var j :| 0 <= j < |m[1..]| && m[1..][j] == (k, Lookup(m, k).value);
      assert m[j + 1] == m[1..][j];
    }
  }
}
