/** Cardinality facts used by the capacity and conservation results. */
module Counting {

  ghost function Below(n: nat): set<nat> {
    set i: nat {:trigger i in Below(n)} | i < n
  }

  lemma {:induction false} BelowSize(n: nat)
    ensures |Below(n)| == n
  {
    if n > 0 {
      BelowSize(n - 1);
      assert Below(n) == Below(n - 1) + {n - 1};
    }
  }

  /** A subset of the first n naturals has n elements only when it is all of them. */
  lemma FullSubset(s: set<nat>, n: nat)
    requires s <= Below(n)
    ensures |s| <= n
    ensures |s| == n <==> s == Below(n)
  {
    BelowSize(n);
    var rest := Below(n) - s;
    assert Below(n) == s + rest && s !! rest;
    assert |Below(n)| == |s| + |rest|;
  }

  /** A one-to-one map has as many values as keys. */
  lemma {:induction false} InjectiveSize<K, V>(m: map<K, V>)
    requires forall k, k' | k in m && k' in m && m[k] == m[k'] :: k == k'
    ensures |m.Values| == |m.Keys|
    decreases |m|
  {
    if m.Keys != {} {
      var k :| k in m.Keys;
      var rest := m - {k};
      assert rest.Keys == m.Keys - {k};
      assert rest.Values == m.Values - {m[k]} by {
        forall v | v in m.Values - {m[k]} ensures v in rest.Values {
          var j :| j in m && m[j] == v;
          assert j in rest && rest[j] == v;
        }
      }
      InjectiveSize(rest);
    }
  }
}
