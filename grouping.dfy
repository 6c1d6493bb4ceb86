/**
 * An ordered multimap: a map from a key to the list of values recorded under
 * it, in the order they were recorded. The index file's word map and the
 * synonym file's synonym map are both built this way.
 */
module Grouping {

  /** Record `v` under `k`: append to its list, or start a one-element list. */
  function Add<K(==), V>(m: map<K, seq<V>>, k: K, v: V): map<K, seq<V>>
  {
    if k in m then m[k := m[k] + [v]] else m[k := [v]]
  }

  /** Record every pair of `ps` in order. */
  function Group<K(==), V>(ps: seq<(K, V)>): map<K, seq<V>>
  {
    if ps == [] then map[]
    else Add(Group(ps[..|ps| - 1]), ps[|ps| - 1].0, ps[|ps| - 1].1)
  }

  /** Reference definition: the values paired with `k`, in their order in `ps`. */
  function Select<K(==), V>(ps: seq<(K, V)>, k: K): seq<V>
  {
    if ps == [] then []
    else Select(ps[..|ps| - 1], k) + (if ps[|ps| - 1].0 == k then [ps[|ps| - 1].1] else [])
  }

  /**
   * A key is present exactly when some pair carries it, and then its list is
   * every value paired with it, in order (never empty).
   */
  lemma {:induction false} GroupIsSelect<K, V>(ps: seq<(K, V)>, k: K)
    ensures k in Group(ps) <==> exists i :: 0 <= i < |ps| && ps[i].0 == k
    ensures k in Group(ps) ==> Group(ps)[k] == Select(ps, k) && Select(ps, k) != []
    ensures k !in Group(ps) ==> Select(ps, k) == []
  {
    if ps != [] {
      var p := ps[..|ps| - 1];
      GroupIsSelect(p, k);
      if exists i :: 0 <= i < |p| && p[i].0 == k {
        var i :| 0 <= i < |p| && p[i].0 == k;
        assert ps[i].0 == k;
      }
      if exists i :: 0 <= i < |ps| && ps[i].0 == k {
        var i :| 0 <= i < |ps| && ps[i].0 == k;
        if i < |p| { assert p[i].0 == k; }
      }
    }
  }

  /** Recording one more pair only extends that pair's key; the other keys keep their lists. */
  lemma {:induction false} SelectAppend<K, V>(ps: seq<(K, V)>, k: K, v: V, j: K)
    ensures Select(ps + [(k, v)], j) == Select(ps, j) + (if j == k then [v] else [])
  {
    assert (ps + [(k, v)])[..|ps|] == ps;
  }
}
