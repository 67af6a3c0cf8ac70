/** Facts about finite maps that the dictionary model relies on. */
module Maps {

  /** No two keys of `m` are mapped to the same value. */
  ghost predicate Injective<K, V>(m: map<K, V>) {
    forall k1, k2 :: k1 in m && k2 in m && k1 != k2 ==> m[k1] != m[k2]
  }

  /** Every pair of `m1` appears swapped in `m2`, and every pair of `m2` swapped in `m1`. */
  ghost predicate Inverses<K, V>(m1: map<K, V>, m2: map<V, K>) {
    && (forall k :: k in m1 ==> m1[k] in m2 && m2[m1[k]] == k)
    && (forall v :: v in m2 ==> m2[v] in m1 && m1[m2[v]] == v)
  }

  lemma SubsetCard<T>(a: set<T>, b: set<T>)
    requires a <= b
    ensures |a| <= |b|
    ensures |a| == |b| ==> a == b
  {
    assert b == a + (b - a);
  }

  /** A map never has more distinct values than keys. */
  lemma {:induction false} ValuesNoMoreThanKeys<K, V>(m: map<K, V>)
    ensures |m.Values| <= |m.Keys|
    decreases |m.Keys|
  {
    if m.Keys != {} {
      var k :| k in m.Keys;
      var rest := m - {k};
      assert rest.Keys == m.Keys - {k};
      ValuesNoMoreThanKeys(rest);
      forall v | v in m.Values ensures v in rest.Values + {m[k]} {
        var j :| j in m && m[j] == v;
        if j != k { assert j in rest; }
      }
      SubsetCard(m.Values, rest.Values + {m[k]});
    }
  }

  /** An injective map has exactly as many distinct values as keys. */
  lemma {:induction false} InjectiveCard<K, V>(m: map<K, V>)
    requires Injective(m)
    ensures |m.Values| == |m.Keys|
    decreases |m.Keys|
  {
    if m.Keys != {} {
      var k :| k in m.Keys;
      var rest := m - {k};
      assert rest.Keys == m.Keys - {k};
      forall v | v in m.Values - {m[k]} ensures v in rest.Values {
        var j :| j in m && m[j] == v;
        assert j in rest;
      }
      assert rest.Values == m.Values - {m[k]};
      assert m[k] in m.Values;
      InjectiveCard(rest);
    }
  }

  /** A map with a repeated value has strictly fewer distinct values than keys. */
  lemma NotInjectiveCard<K, V>(m: map<K, V>)
    requires !Injective(m)
    ensures |m.Values| < |m.Keys|
  {
    var k1, k2 :| k1 in m && k2 in m && k1 != k2 && m[k1] == m[k2];
    var rest := m - {k1};
    assert rest.Keys == m.Keys - {k1};
    forall v | v in m.Values ensures v in rest.Values {
      var j :| j in m && m[j] == v;
      if j == k1 { assert rest[k2] == v; } else { assert j in rest; }
    }
    SubsetCard(m.Values, rest.Values);
    ValuesNoMoreThanKeys(rest);
  }

  /** Injectivity is exactly "as many distinct values as keys". */
  lemma InjectiveIffCard<K, V>(m: map<K, V>)
    ensures Injective(m) <==> |m.Values| == |m.Keys|
  {
    if Injective(m) { InjectiveCard(m); } else { NotInjectiveCard(m); }
  }

  /** The one-sided check plus equal sizes gives the two-sided inverse relation, and back. */
  lemma InversesIffOneSided<K, V>(m1: map<K, V>, m2: map<V, K>)
    ensures Inverses(m1, m2) <==>
      (|m1| == |m2| && forall k :: k in m1 ==> m1[k] in m2 && m2[m1[k]] == k)
  {
    if forall k :: k in m1 ==> m1[k] in m2 && m2[m1[k]] == k {
      assert Injective(m1);
      InjectiveCard(m1);
      assert m1.Values <= m2.Keys;
      if |m1| == |m2| {
        assert |m1.Keys| == |m1| && |m2.Keys| == |m2|;
        SubsetCard(m1.Values, m2.Keys);
        assert Inverses(m1, m2);
      }
      if Inverses(m1, m2) {
        assert m2.Keys <= m1.Values;
        assert m1.Values == m2.Keys;
        assert |m1.Keys| == |m1| && |m2.Keys| == |m2|;
      }
    }
  }

  /** The inverse relation is symmetric. */
  lemma InversesSymmetric<K, V>(m1: map<K, V>, m2: map<V, K>)
    ensures Inverses(m1, m2) <==> Inverses(m2, m1)
  {
  }
}
