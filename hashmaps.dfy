/**
 * Iteration over a `std::collections::HashMap`: every entry is visited
 * exactly once, in an order the caller cannot rely on. The order is modelled
 * as a nondeterministic choice of the next key.
 */
module HashMaps {

  /** The keys that occur in a sequence of entries. */
  ghost function KeysOf<K, V>(es: seq<(K, V)>): set<K> {
    set i | 0 <= i < |es| :: es[i].0
  }

  /** The entries (key-value pairs) that occur in a sequence of entries. */
  ghost function ItemsOf<K, V>(es: seq<(K, V)>): set<(K, V)> {
    set i | 0 <= i < |es| :: es[i]
  }

  /** `es` lists every entry of `m` exactly once, in some order. */
  ghost predicate Enumerates<K, V>(es: seq<(K, V)>, m: map<K, V>) {
    && (forall i | 0 <= i < |es| :: es[i].0 in m && m[es[i].0] == es[i].1)
    && (forall i, j | 0 <= i < j < |es| :: es[i].0 != es[j].0)
    && KeysOf(es) == m.Keys
  }

  lemma KeysOfCons<K, V>(es: seq<(K, V)>)
    requires es != []
    ensures KeysOf(es) == {es[0].0} + KeysOf(es[1..])
  {
    forall k | k in KeysOf(es) ensures k in {es[0].0} + KeysOf(es[1..]) {
      var i :| 0 <= i < |es| && es[i].0 == k;
      if i > 0 {
        assert es[1..][i - 1].0 == k;
      }
    }
    forall k | k in KeysOf(es[1..]) ensures k in KeysOf(es) {
      var i :| 0 <= i < |es[1..]| && es[1..][i].0 == k;
      assert es[i + 1].0 == k;
    }
  }

  lemma KeysOfSnoc<K, V>(es: seq<(K, V)>, e: (K, V))
    ensures KeysOf(es + [e]) == KeysOf(es) + {e.0}
  {
    var es' := es + [e];
    assert es'[|es|].0 == e.0;
    forall k | k in KeysOf(es) ensures k in KeysOf(es') {
      var i :| 0 <= i < |es| && es[i].0 == k;
      assert es'[i].0 == k;
    }
  }

  /** A sequence with pairwise distinct keys has as many entries as keys. */
  lemma {:induction false} DistinctKeysCount<K, V>(es: seq<(K, V)>)
    requires forall i, j | 0 <= i < j < |es| :: es[i].0 != es[j].0
    ensures |KeysOf(es)| == |es|
  {
    if es != [] {
      KeysOfCons(es);
      DistinctKeysCount(es[1..]);
      forall i | 0 <= i < |es[1..]| ensures es[1..][i].0 != es[0].0 {
        assert es[1..][i] == es[i + 1];
      }
    }
  }

  /**
   * An enumeration of `m` yields exactly the entries of `m`, one element
   * per entry.
   */
  lemma EnumerationIsItems<K, V>(es: seq<(K, V)>, m: map<K, V>)
    requires Enumerates(es, m)
    ensures ItemsOf(es) == m.Items
    ensures |es| == |m|
  {
    DistinctKeysCount(es);
    assert |m.Keys| == |m|;
    forall p | p in m.Items ensures p in ItemsOf(es) {
      assert p.0 in KeysOf(es);
      var i :| 0 <= i < |es| && es[i].0 == p.0;
      assert es[i] == p;
    }
  }

  /** A one-entry map has exactly one enumeration. */
  lemma SingletonEnumeration<K, V>(es: seq<(K, V)>, k: K, v: V)
    requires Enumerates(es, map[k := v])
    ensures es == [(k, v)]
  {
    EnumerationIsItems(es, map[k := v]);
    assert es[0].0 in map[k := v];
  }

  /**
   * Part way through an iteration of `m`: `es` lists, once each, the entries
   * whose keys are no longer in `rest`, and `rest` holds the others.
   */
  ghost predicate Visited<K, V>(es: seq<(K, V)>, rest: map<K, V>, m: map<K, V>) {
    && rest.Keys <= m.Keys
    && (forall k | k in rest :: rest[k] == m[k])
    && (forall i | 0 <= i < |es| :: es[i].0 in m && m[es[i].0] == es[i].1)
    && (forall i, j | 0 <= i < j < |es| :: es[i].0 != es[j].0)
    && KeysOf(es) == m.Keys - rest.Keys
  }

  lemma VisitNext<K, V>(es: seq<(K, V)>, rest: map<K, V>, m: map<K, V>, k: K)
    requires Visited(es, rest, m) && k in rest
    ensures Visited(es + [(k, rest[k])], rest - {k}, m)
  {
    KeysOfSnoc(es, (k, rest[k]));
    var es' := es + [(k, rest[k])];
    forall i, j | 0 <= i < j < |es'| ensures es'[i].0 != es'[j].0 {
      if j == |es| {
        assert es[i].0 in KeysOf(es);
      }
    }
  }

  /**
   * Visits every entry of `m`; which key comes next is not determined, as
   * with a `HashMap`.
   */
  method Iterate<K, V>(m: map<K, V>) returns (es: seq<(K, V)>)
    ensures Enumerates(es, m)
  {
    es := [];
    var rest := m;
    while |rest| > 0
      invariant Visited(es, rest, m)
      decreases |rest|
    {
      var k :| k in rest;
      VisitNext(es, rest, m, k);
      es := es + [(k, rest[k])];
      rest := rest - {k};
    }
    assert rest.Keys == {};
  }
}
