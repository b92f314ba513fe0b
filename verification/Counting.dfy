/** Finite maps with no value twice: their values, and how many there are. */
module Counting {

  ghost predicate Injective<K, V>(m: map<K, V>) {
    forall j, k :: j in m && k in m && m[j] == m[k] ==> j == k
  }

  function Values<K, V>(m: map<K, V>): set<V> {
    set k | k in m :: m[k]
  }

  lemma ValuesOfUpdate<K, V>(m: map<K, V>, k: K, v: V)
    requires Injective(m)
    ensures Values(m[k := v]) == Values(m) - (if k in m then {m[k]} else {}) + {v}
  {
    var n := m[k := v];
    assert n[k] == v;
    forall x | x in Values(m) && (k in m ==> x != m[k])
      ensures x in Values(n)
    {
      var j :| j in m && m[j] == x;
      assert n[j] == x;
    }
  }

  lemma ValuesWithout<K, V>(m: map<K, V>, gone: set<K>)
    requires Injective(m)
    ensures Values(m - gone) == Values(m) - set k | k in gone && k in m :: m[k]
  {
    var n := m - gone;
    forall x | x in Values(m) && x !in (set k | k in gone && k in m :: m[k])
      ensures x in Values(n)
    {
      var j :| j in m && m[j] == x;
      assert n[j] == x;
    }
  }

  lemma {:induction false} ValuesCount<K, V>(m: map<K, V>)
    requires Injective(m)
    ensures |Values(m)| == |m|
    decreases |m|
  {
    if m == map[] {
    } else {
      var k :| k in m;
      var rest := m - {k};
      ValuesCount(rest);
      ValuesOfUpdate(rest, k, m[k]);
      assert m == rest[k := m[k]];
      assert m[k] !in Values(rest);
    }
  }

  lemma ValuesWithoutKey<K, V>(m: map<K, V>, k: K)
    requires Injective(m)
    ensures Values(m - {k}) == Values(m) - (if k in m then {m[k]} else {})
  {
    ValuesWithout(m, {k});
  }

  lemma PartsCount<V>(whole: set<V>, a: set<V>, b: set<V>)
    requires a <= whole && b <= whole && a !! b
    ensures |whole| == |a| + |b| + |whole - a - b|
  {
    assert whole == a + b + (whole - a - b);
  }

  lemma SizeAfterUpdate<K, V>(m: map<K, V>, k: K, v: V)
    requires k !in m
    ensures |m[k := v]| == |m| + 1
  {
  }

  lemma SizeAfterRemoval<K, V>(m: map<K, V>, k: K)
    requires k in m
    ensures |m - {k}| == |m| - 1
  {
    var rest := m - {k};
    assert m == rest[k := m[k]];
  }
}
