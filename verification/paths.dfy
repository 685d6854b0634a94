/**
 * Graphs given by their adjacency lists (vertex -> set of successors): their edges,
 * reachability, walks that never take a self-loop, and topological orders.
 */
module Paths {
  import opened Collections

  function Last<V>(p: seq<V>): V
    requires |p| >= 1
  {
    p[|p| - 1]
  }

  /** The edges of `g` as (source, target) pairs. */
  ghost function EdgePairs<V>(g: map<V, set<V>>): set<(V, V)> {
    set u, v | u in g && v in g[u] :: (u, v)
  }

  /** Giving a vertex an empty successor set when it has none adds no edge. */
  lemma EdgePairsWithKey<V>(g: map<V, set<V>>, k: V)
    ensures EdgePairs(WithKey(g, k, {})) == EdgePairs(g)
  {
  }

  /** Adding `v` to the successors of `u` adds exactly the edge `(u, v)`. */
  lemma EdgePairsInsert<V>(g: map<V, set<V>>, u: V, v: V)
    requires u in g
    ensures EdgePairs(g[u := g[u] + {v}]) == EdgePairs(g) + {(u, v)}
  {
  }

  /** Discarding `v` from the successors of `u` removes exactly the edge `(u, v)`. */
  lemma EdgePairsDelete<V>(g: map<V, set<V>>, u: V, v: V)
    requires u in g
    ensures EdgePairs(g[u := g[u] - {v}]) == EdgePairs(g) - {(u, v)}
  {
  }

  /**
   * The edges of `g`, each once, listed source by source in one iteration order of
   * the vertices and, within a source, of its successors.
   */
  method ListEdges<V(==)>(g: map<V, set<V>>) returns (es: seq<(V, V)>)
    ensures Distinct(es)
    ensures forall e :: e in es <==> e in EdgePairs(g)
    ensures |es| == |EdgePairs(g)|
  {
    var order := Enumerate(g.Keys);
    es := [];
    var i := 0;
    while i < |order|
      invariant 0 <= i <= |order|
      invariant Distinct(es)
      invariant forall e :: e in es <==> e.0 in order[..i] && e in EdgePairs(g)
    {
      var u := order[i];
      var successors := Enumerate(g[u]);
      var j := 0;
      while j < |successors|
        invariant 0 <= j <= |successors|
        invariant Distinct(es)
        invariant forall e :: e in es <==> (e.0 in order[..i] && e in EdgePairs(g)) || (e.0 == u && e.1 in successors[..j])
      {
        assert (u, successors[j]) !in es by {
          assert u !in order[..i];
        }
        es := es + [(u, successors[j])];
        j := j + 1;
      }
      assert successors[..j] == successors;
      assert order[..i + 1] == order[..i] + [u];
      i := i + 1;
    }
    assert order[..i] == order;
    assert Elements(es) == EdgePairs(g);
    DistinctCard(es);
  }

  /** `p` is a walk of one or more vertices, each step along an edge of `g`. */
  ghost predicate IsPath<V>(g: map<V, set<V>>, p: seq<V>) {
    |p| >= 1 && forall i :: 0 <= i < |p| - 1 ==> p[i] in g && p[i + 1] in g[p[i]]
  }

  /** `b` can be reached from `a` by zero or more steps of `g`. */
  ghost predicate Reachable<V(!new)>(g: map<V, set<V>>, a: V, b: V) {
    exists p :: IsPath(g, p) && p[0] == a && Last(p) == b
  }

  /** Every successor of every member of `s` is again in `s`. */
  ghost predicate Closed<V>(g: map<V, set<V>>, s: set<V>) {
    forall x :: x in s && x in g ==> g[x] <= s
  }

  lemma ReachableRefl<V(!new)>(g: map<V, set<V>>, a: V)
    ensures Reachable(g, a, a)
  {
    assert IsPath(g, [a]);
  }

  /** One more edge at the end of a walk. */
  lemma ReachableStep<V(!new)>(g: map<V, set<V>>, a: V, u: V, w: V)
    requires Reachable(g, a, u) && u in g && w in g[u]
    ensures Reachable(g, a, w)
  {
    var p :| IsPath(g, p) && p[0] == a && Last(p) == u;
    var q := p + [w];
    assert IsPath(g, q) by {
      forall i | 0 <= i < |q| - 1 ensures q[i] in g && q[i + 1] in g[q[i]] {
        if i < |p| - 1 {
          assert q[i] == p[i] && q[i + 1] == p[i + 1];
        }
      }
    }
    assert q[0] == a && Last(q) == w;
  }

  /** Walks compose: reachability is transitive. */
  lemma ReachableTrans<V(!new)>(g: map<V, set<V>>, a: V, b: V, c: V)
    requires Reachable(g, a, b) && Reachable(g, b, c)
    ensures Reachable(g, a, c)
  {
    var p :| IsPath(g, p) && p[0] == a && Last(p) == b;
    var q :| IsPath(g, q) && q[0] == b && Last(q) == c;
    var r := p + q[1..];
    assert IsPath(g, r) by {
      forall i | 0 <= i < |r| - 1 ensures r[i] in g && r[i + 1] in g[r[i]] {
        if i < |p| - 1 {
          assert r[i] == p[i] && r[i + 1] == p[i + 1];
        } else {
          assert r[i] == q[i - |p| + 1] && r[i + 1] == q[i - |p| + 2];
        }
      }
    }
    assert r[0] == a && Last(r) == c;
  }

  lemma {:induction false} PathStaysInClosed<V>(g: map<V, set<V>>, s: set<V>, p: seq<V>, k: nat)
    requires IsPath(g, p) && p[0] in s && Closed(g, s)
    requires k < |p|
    ensures p[k] in s
  {
    if k > 0 {
      PathStaysInClosed(g, s, p, k - 1);
    }
  }

  /** A set that contains `a` and is closed under `g` contains everything reachable from `a`. */
  lemma ClosedContainsReachable<V(!new)>(g: map<V, set<V>>, s: set<V>, a: V, b: V)
    requires a in s && Closed(g, s) && Reachable(g, a, b)
    ensures b in s
  {
    var p :| IsPath(g, p) && p[0] == a && Last(p) == b;
    PathStaysInClosed(g, s, p, |p| - 1);
  }

  /** `p` is a walk that never takes a self-loop `x -> x`. */
  ghost predicate StrictPath<V>(g: map<V, set<V>>, p: seq<V>) {
    |p| >= 1 && forall i :: 0 <= i < |p| - 1 ==> p[i] in g && p[i + 1] in g[p[i]] && p[i + 1] != p[i]
  }

  /** Some walk without self-loops leads from `a` to `b` in exactly `k` steps. */
  ghost predicate HasStrictPath<V(!new)>(g: map<V, set<V>>, a: V, b: V, k: nat) {
    exists p :: StrictPath(g, p) && p[0] == a && Last(p) == b && |p| == k + 1
  }

  lemma StrictPathExtend<V(!new)>(g: map<V, set<V>>, a: V, u: V, k: nat, w: V)
    requires HasStrictPath(g, a, u, k) && u in g && w in g[u] && w != u
    ensures HasStrictPath(g, a, w, k + 1)
  {
    var p :| StrictPath(g, p) && p[0] == a && Last(p) == u && |p| == k + 1;
    var q := p + [w];
    assert StrictPath(g, q) by {
      forall i | 0 <= i < |q| - 1 ensures q[i] in g && q[i + 1] in g[q[i]] && q[i + 1] != q[i] {
        if i < |p| - 1 {
          assert q[i] == p[i] && q[i + 1] == p[i + 1];
        }
      }
    }
    assert q[0] == a && Last(q) == w && |q| == k + 2;
  }

  /** A one-step walk without self-loops is exactly an edge to another vertex. */
  lemma StrictPathOneStep<V(!new)>(g: map<V, set<V>>, a: V, b: V)
    ensures HasStrictPath(g, a, b, 1) <==> a in g && b in g[a] && b != a
  {
    if a in g && b in g[a] && b != a {
      assert StrictPath(g, [a, b]);
    }
  }

  /**
   * `ts` lists each vertex of `vs` once, and every edge `x -> y` of `g` other than a
   * self-loop has `y` before `x`; walking `ts` backwards therefore visits every
   * vertex before its successors.
   */
  ghost predicate TopologicalOrder<V(!new)>(g: map<V, set<V>>, vs: set<V>, ts: seq<V>) {
    && Distinct(ts)
    && (forall x :: x in ts <==> x in vs)
    && (forall i, j :: 0 <= i < |ts| && 0 <= j < |ts| && ts[i] in g && ts[j] in g[ts[i]] && ts[j] != ts[i] ==> j < i)
  }

  /**
   * In a topological order, a proper successor of the `i`th entry lies strictly before
   * it, so it is not among the entries from `i` onwards.
   */
  lemma SuccessorNotLater<V(!new)>(g: map<V, set<V>>, vs: set<V>, ts: seq<V>, i: nat, w: V)
    requires TopologicalOrder(g, vs, ts) && i < |ts|
    requires ts[i] in g && w in g[ts[i]] && w != ts[i]
    ensures w !in ts[i..]
  {
  }

  /** In a topological order, a proper predecessor of the `i`th entry lies strictly after it. */
  lemma PredecessorLater<V(!new)>(g: map<V, set<V>>, vs: set<V>, ts: seq<V>, i: nat, x: V)
    requires TopologicalOrder(g, vs, ts) && i < |ts|
    requires x in ts && x in g && ts[i] in g[x] && x != ts[i]
    ensures x in ts[i + 1..]
  {
    var k :| 0 <= k < |ts| && ts[k] == x;
    assert ts[i + 1..][k - i - 1] == x;
  }
}
