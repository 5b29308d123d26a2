/**
 * `SELECT ... WHERE eligible ORDER BY ... LIMIT n` over a table held as a map from primary key
 * to row. The ORDER BY columns are given as a total preorder `atLeast(a, b)`: "a sorts no later
 * than b". Rows that tie on every ORDER BY column come out in an order SQL leaves unspecified;
 * the selection below picks among them nondeterministically.
 */
module Ranking {
  import opened Wrappers

  ghost predicate TotalPreorder<V(!new)>(atLeast: (V, V) -> bool) {
    && (forall a, b :: atLeast(a, b) || atLeast(b, a))
    && (forall a, b, c :: atLeast(a, b) && atLeast(b, c) ==> atLeast(a, c))
  }

  /**
   * ks is an answer to the query: at most `limit` distinct keys of eligible rows, in rank order,
   * and every eligible row it leaves out was left out because the page was full and ranks no
   * higher than any row on it.
   */
  ghost predicate IsOrderedSelection<K, V>(t: map<K, V>, eligible: V -> bool, atLeast: (V, V) -> bool,
                                           limit: Option<nat>, ks: seq<K>)
  {
    && (limit.Some? ==> |ks| <= limit.value)
    && (forall i :: 0 <= i < |ks| ==> ks[i] in t && eligible(t[ks[i]]))
    && (forall i, j :: 0 <= i < j < |ks| ==> ks[i] != ks[j])
    && (forall i, j :: 0 <= i < j < |ks| ==> atLeast(t[ks[i]], t[ks[j]]))
    && (forall k :: k in t && eligible(t[k]) && k !in ks ==>
          && limit.Some? && |ks| == limit.value
          && forall i :: 0 <= i < |ks| ==> atLeast(t[ks[i]], t[k]))
  }

  /** A key among `keys` whose row ranks at least as high as every other row of `keys`. */
  method PickBest<K, V(!new)>(t: map<K, V>, keys: set<K>, atLeast: (V, V) -> bool) returns (best: K)
    requires keys != {} && keys <= t.Keys
    requires TotalPreorder(atLeast)
    ensures best in keys
    ensures forall k :: k in keys ==> atLeast(t[best], t[k])
  {
    best :| best in keys;
    var todo := keys - {best};
    while todo != {}
      invariant todo <= keys && best in keys
      invariant forall k :: k in keys && k !in todo ==> atLeast(t[best], t[k])
      decreases todo
    {
      var k :| k in todo;
      if !atLeast(t[best], t[k]) {
        best := k;
      }
      todo := todo - {k};
    }
  }

  /** Runs the query: repeatedly takes a highest-ranked remaining eligible row until the limit is reached. */
  method SelectOrdered<K, V(!new)>(t: map<K, V>, eligible: V -> bool, atLeast: (V, V) -> bool,
                                   limit: Option<nat>) returns (ks: seq<K>)
    requires TotalPreorder(atLeast)
    ensures IsOrderedSelection(t, eligible, atLeast, limit, ks)
  {
    var remaining := set k | k in t && eligible(t[k]);
    ks := [];
    while remaining != {} && (limit.None? || |ks| < limit.value)
      invariant limit.Some? ==> |ks| <= limit.value
      invariant forall k :: k in remaining <==> k in t && eligible(t[k]) && k !in ks
      invariant forall i :: 0 <= i < |ks| ==> ks[i] in t && eligible(t[ks[i]])
      invariant forall i, j :: 0 <= i < j < |ks| ==> ks[i] != ks[j]
      invariant forall i, j :: 0 <= i < j < |ks| ==> atLeast(t[ks[i]], t[ks[j]])
      invariant forall i, k :: 0 <= i < |ks| && k in remaining ==> atLeast(t[ks[i]], t[k])
      decreases remaining
    {
      var best := PickBest(t, remaining, atLeast);
      ks := ks + [best];
      remaining := remaining - {best};
    }
  }
}
