/** Lists of records with distinct keys, and the maps they stand for. */
module Keyed {
  import opened Lists

  /** The map a reader builds from a list: later records win. */
  function IndexBy<K, V>(key: V -> K, s: seq<V>): map<K, V> {
    if s == [] then map[] else IndexBy(key, s[..|s| - 1])[key(s[|s| - 1]) := s[|s| - 1]]
  }

  ghost predicate DistinctKeys<K, V>(key: V -> K, s: seq<V>) {
    forall i, j :: 0 <= i < j < |s| ==> key(s[i]) != key(s[j])
  }

  /** Each record is filed under its key. */
  ghost predicate KeyedBy<K, V>(key: V -> K, m: map<K, V>) {
    forall k :: k in m ==> key(m[k]) == k
  }

  lemma {:induction false} IndexFacts<K, V>(key: V -> K, s: seq<V>)
    ensures KeyedBy(key, IndexBy(key, s))
    ensures forall k :: k in IndexBy(key, s) ==> IndexBy(key, s)[k] in s
    ensures forall i :: 0 <= i < |s| ==> key(s[i]) in IndexBy(key, s)
    ensures DistinctKeys(key, s) ==> forall i :: 0 <= i < |s| ==> IndexBy(key, s)[key(s[i])] == s[i]
  {
    if s != [] {
      var init := s[..|s| - 1];
      IndexFacts(key, init);
      assert forall i :: 0 <= i < |init| ==> init[i] == s[i];
    }
  }

  lemma {:induction false} FreshKey<K, V>(key: V -> K, s: seq<V>, k: K)
    requires forall i :: 0 <= i < |s| ==> key(s[i]) != k
    ensures k !in IndexBy(key, s)
  {
    if s != [] {
      FreshKey(key, s[..|s| - 1], k);
    }
  }

  lemma IndexAppend<K, V>(key: V -> K, s: seq<V>, v: V)
    ensures IndexBy(key, s + [v]) == IndexBy(key, s)[key(v) := v]
  {
    assert (s + [v])[..|s|] == s;
  }

  /** The map does not depend on the order of records with distinct keys. */
  lemma IndexIgnoresOrder<K, V>(key: V -> K, a: seq<V>, b: seq<V>)
    requires multiset(a) == multiset(b) && DistinctKeys(key, a)
    ensures DistinctKeys(key, b) && IndexBy(key, b) == IndexBy(key, a)
  {
    forall i, j | 0 <= i < j < |b|
      ensures key(b[i]) != key(b[j])
    {
      var k, l := PairOfPerm(b, a, i, j);
    }
    IndexFacts(key, a);
    IndexFacts(key, b);
    SameIndex(key, a, b);
    SameIndex(key, b, a);
  }

  lemma SameIndex<K, V>(key: V -> K, a: seq<V>, b: seq<V>)
    requires multiset(a) == multiset(b) && DistinctKeys(key, a) && DistinctKeys(key, b)
    ensures forall k :: k in IndexBy(key, a) ==> k in IndexBy(key, b) && IndexBy(key, b)[k] == IndexBy(key, a)[k]
  {
    IndexFacts(key, a);
    IndexFacts(key, b);
    forall k | k in IndexBy(key, a)
      ensures k in IndexBy(key, b) && IndexBy(key, b)[k] == IndexBy(key, a)[k]
    {
      var v := IndexBy(key, a)[k];
      assert v in multiset(a);
      assert v in multiset(b);
      var i :| 0 <= i < |b| && b[i] == v;
    }
  }

  /** The records of a map, in whatever order the map yields them. */
  method ValuesOf<K(!new), V>(key: V -> K, m: map<K, V>) returns (s: seq<V>)
    requires KeyedBy(key, m)
    ensures DistinctKeys(key, s) && IndexBy(key, s) == m
  {
    s := [];
    var todo := m.Keys;
    while todo != {}
      invariant todo <= m.Keys && IndexBy(key, s) == m - todo
      invariant DistinctKeys(key, s) && forall i :: 0 <= i < |s| ==> key(s[i]) in m && key(s[i]) !in todo
    {
      var k :| k in todo;
      IndexAppend(key, s, m[k]);
      s := s + [m[k]];
      todo := todo - {k};
    }
  }
}
