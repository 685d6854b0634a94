/**
 * A mutable directed graph meant to be acyclic: a vertex set, adjacency lists, a
 * label on every vertex and a label on every edge, with reachability, transitive
 * closure and transitive reduction computed along a topological order.
 */
module DAG {
  import opened Wrappers
  import opened Collections
  import opened Paths
  import GraphvizText

  /** A missing dictionary key, or a vertex label that several vertices share. */
  datatype DagError = KeyError | ValueError

  /** The contents of a graph: vertices, adjacency lists, vertex labels and edge-label tables. */
  datatype Shape<V> = Shape(vs: set<V>, adj: map<V, set<V>>, vl: map<V, string>, el: map<V, map<V, string>>)

  /**
   * Every vertex has a successor set, a label and an edge-label table; successors
   * are vertices, and exactly the edges out of a vertex carry a label.
   */
  ghost predicate WellFormed<V>(g: Shape<V>) {
    && g.adj.Keys == g.vs
    && g.vl.Keys == g.vs
    && g.el.Keys == g.vs
    && forall u :: u in g.adj ==> g.adj[u] <= g.vs && g.el[u].Keys == g.adj[u]
  }

  /**
   * `add_vertex`: the vertex set gains `v`; a vertex already present is left as it is,
   * label included, so the first label wins.
   */
  function AddVertexTo<V>(g: Shape<V>, v: V, lbl: string): (r: Shape<V>)
    ensures r.vs == g.vs + {v}
    ensures v in g.vs ==> r == g
  {
    if v in g.vs then g else Shape(g.vs + {v}, g.adj[v := {}], g.vl[v := lbl], g.el[v := map[]])
  }

  /**
   * `add_edge`: both endpoints added with label "", then the edge and its label; the
   * vertex set gains exactly `u` and `v`, and the edge set exactly `(u, v)`.
   */
  function AddEdgeTo<V>(g: Shape<V>, u: V, v: V, lbl: string): (r: Shape<V>)
    requires WellFormed(g)
    ensures r.vs == g.vs + {u, v}
    ensures EdgePairs(r.adj) == EdgePairs(g.adj) + {(u, v)}
  {
    var g1 := AddVertexTo(g, u, "");
    AddVertexFacts(g, u, "");
    AddVertexFacts(g1, v, "");
    Link(AddVertexTo(g1, v, ""), u, v, lbl)
  }

  /**
   * The edge `u -> v` labelled `lbl` set on a vertex `u` already present: the edge set
   * gains exactly `(u, v)`; vertices and their labels are kept.
   */
  function Link<V>(h: Shape<V>, u: V, v: V, lbl: string): (r: Shape<V>)
    requires u in h.adj && u in h.el
    ensures r.vs == h.vs && r.vl == h.vl
    ensures EdgePairs(r.adj) == EdgePairs(h.adj) + {(u, v)}
    ensures u in r.el && v in r.el[u] && r.el[u][v] == lbl
  {
    EdgePairsInsert(h.adj, u, v);
    h.(adj := h.adj[u := h.adj[u] + {v}], el := h.el[u := h.el[u][v := lbl]])
  }

  /**
   * `remove_edge` on a vertex `u`: the edge set loses exactly `(u, v)` and the edge's
   * label is dropped; vertices and their labels are kept.
   */
  function RemoveEdgeFrom<V>(g: Shape<V>, u: V, v: V): (r: Shape<V>)
    requires WellFormed(g) && u in g.vs
    ensures r.vs == g.vs && r.vl == g.vl
    ensures EdgePairs(r.adj) == EdgePairs(g.adj) - {(u, v)}
    ensures u in r.el && v !in r.el[u]
  {
    EdgePairsDelete(g.adj, u, v);
    g.(adj := g.adj[u := g.adj[u] - {v}], el := g.el[u := g.el[u] - {v}])
  }

  /** A new vertex has no successors and the given label; nothing else changes. */
  lemma AddVertexFacts<V>(g: Shape<V>, v: V, lbl: string)
    requires WellFormed(g)
    ensures WellFormed(AddVertexTo(g, v, lbl))
    ensures AddVertexTo(g, v, lbl).vs == g.vs + {v}
    ensures EdgePairs(AddVertexTo(g, v, lbl).adj) == EdgePairs(g.adj)
    ensures AddVertexTo(g, v, lbl).vl[v] == if v in g.vs then g.vl[v] else lbl
    ensures forall x :: x in g.vs ==> AddVertexTo(g, v, lbl).vl[x] == g.vl[x] && AddVertexTo(g, v, lbl).el[x] == g.el[x]
  {
    EdgePairsWithKey(g.adj, v);
  }

  lemma InsertKeepsWellFormed<V>(h: Shape<V>, u: V, v: V, lbl: string)
    requires WellFormed(h) && u in h.vs && v in h.vs
    ensures WellFormed(Link(h, u, v, lbl))
  {
  }

  /** Adding `u -> v` adds `u` and `v` to the vertices and keeps the graph well formed. */
  lemma AddEdgeWellFormed<V>(g: Shape<V>, u: V, v: V, lbl: string)
    requires WellFormed(g)
    ensures WellFormed(AddEdgeTo(g, u, v, lbl))
    ensures AddEdgeTo(g, u, v, lbl).vs == g.vs + {u, v}
  {
    var g1 := AddVertexTo(g, u, "");
    AddVertexFacts(g, u, "");
    AddVertexFacts(g1, v, "");
    InsertKeepsWellFormed(AddVertexTo(g1, v, ""), u, v, lbl);
  }

  /**
   * Adding `u -> v` adds exactly that edge, labelled `lbl`, and keeps every other
   * vertex and edge label.
   */
  lemma AddEdgeFacts<V>(g: Shape<V>, u: V, v: V, lbl: string)
    requires WellFormed(g)
    ensures var h := AddEdgeTo(g, u, v, lbl);
      && EdgePairs(h.adj) == EdgePairs(g.adj) + {(u, v)}
      && u in h.el && v in h.el[u] && h.el[u][v] == lbl
    ensures var h := AddEdgeTo(g, u, v, lbl);
      forall x :: x in g.vs ==> x in h.vl && h.vl[x] == g.vl[x]
    ensures var h := AddEdgeTo(g, u, v, lbl);
      forall x, y :: x in g.vs && y in g.el[x] && (x, y) != (u, v) ==> x in h.el && y in h.el[x] && h.el[x][y] == g.el[x][y]
  {
    var g1 := AddVertexTo(g, u, "");
    AddVertexFacts(g, u, "");
    AddVertexFacts(g1, v, "");
    var h := AddVertexTo(g1, v, "");
    EdgePairsInsert(h.adj, u, v);
  }

  /** Removing `u -> v` removes exactly that edge and its label. */
  lemma RemoveEdgeFacts<V>(g: Shape<V>, u: V, v: V)
    requires WellFormed(g) && u in g.vs
    ensures WellFormed(RemoveEdgeFrom(g, u, v))
    ensures RemoveEdgeFrom(g, u, v).vs == g.vs && RemoveEdgeFrom(g, u, v).vl == g.vl
    ensures EdgePairs(RemoveEdgeFrom(g, u, v).adj) == EdgePairs(g.adj) - {(u, v)}
    ensures v !in RemoveEdgeFrom(g, u, v).el[u]
  {
    EdgePairsDelete(g.adj, u, v);
  }

  /** Removing an edge that is not there changes nothing. */
  lemma RemoveAbsentEdge<V>(g: Shape<V>, u: V, v: V)
    requires WellFormed(g) && u in g.vs && v !in g.adj[u]
    ensures RemoveEdgeFrom(g, u, v) == g
  {
    var h := RemoveEdgeFrom(g, u, v);
    assert h.adj[u] == g.adj[u] && h.el[u] == g.el[u];
    assert h.adj == g.adj && h.el == g.el;
  }

  /** Adding a new edge between existing vertices and removing it again restores the graph. */
  lemma AddThenRemoveEdge<V>(g: Shape<V>, u: V, v: V, lbl: string)
    requires WellFormed(g) && u in g.vs && v in g.vs && v !in g.adj[u]
    ensures WellFormed(AddEdgeTo(g, u, v, lbl))
    ensures RemoveEdgeFrom(AddEdgeTo(g, u, v, lbl), u, v) == g
  {
    assert AddVertexTo(g, u, "") == g && AddVertexTo(g, v, "") == g;
    InsertKeepsWellFormed(g, u, v, lbl);
    UnlinkAfterLink(g, u, v, lbl);
  }

  lemma UnlinkAfterLink<V>(g: Shape<V>, u: V, v: V, lbl: string)
    requires WellFormed(g) && u in g.vs && v in g.vs && v !in g.adj[u]
    ensures WellFormed(Link(g, u, v, lbl))
    ensures RemoveEdgeFrom(Link(g, u, v, lbl), u, v) == g
  {
    InsertKeepsWellFormed(g, u, v, lbl);
    var k := RemoveEdgeFrom(Link(g, u, v, lbl), u, v);
    assert k.adj == g.adj by {
      assert k.adj[u] == g.adj[u];
    }
    assert k.el == g.el by {
      assert k.el[u] == g.el[u];
    }
  }

  /** The vertices `vs`, labelled as in `vl`, without any edge. */
  function Bare<V>(vs: set<V>, vl: map<V, string>): Shape<V>
    requires vs <= vl.Keys
  {
    Shape(vs, map x | x in vs :: {}, map x | x in vs :: vl[x], map x | x in vs :: map[])
  }

  lemma BareFacts<V>(vs: set<V>, vl: map<V, string>, x: V)
    requires vs <= vl.Keys && x in vl
    ensures WellFormed(Bare(vs, vl))
    ensures AddVertexTo(Bare(vs, vl), x, vl[x]) == Bare(vs + {x}, vl)
  {
    var g, h := AddVertexTo(Bare(vs, vl), x, vl[x]), Bare(vs + {x}, vl);
    if x !in vs {
      assert g.adj == h.adj && g.vl == h.vl && g.el == h.el;
    }
  }

  /** `g` with `targets` added to the successors of `v`, each labelled by `labelOf`. */
  function WithEdgesFrom<V>(g: Shape<V>, v: V, targets: set<V>, labelOf: map<V, string>): Shape<V>
    requires v in g.adj && v in g.el && targets <= labelOf.Keys
  {
    g.(adj := g.adj[v := g.adj[v] + targets], el := g.el[v := g.el[v] + map u | u in targets :: labelOf[u]])
  }

  lemma WithEdgesFromWellFormed<V>(g: Shape<V>, v: V, targets: set<V>, labelOf: map<V, string>)
    requires WellFormed(g) && v in g.vs && targets <= g.vs && targets <= labelOf.Keys
    ensures WellFormed(WithEdgesFrom(g, v, targets, labelOf))
  {
    var h := WithEdgesFrom(g, v, targets, labelOf);
    forall x | x in h.adj ensures h.adj[x] <= h.vs && h.el[x].Keys == h.adj[x] {
      if x == v {
        assert h.el[x].Keys == g.el[v].Keys + targets;
      }
    }
  }

  /** Between vertices already present, `add_edge` only inserts the edge and its label. */
  lemma AddEdgeBetweenVertices<V>(h: Shape<V>, u: V, v: V, lbl: string)
    requires WellFormed(h) && u in h.vs && v in h.vs
    ensures AddEdgeTo(h, u, v, lbl) == h.(adj := h.adj[u := h.adj[u] + {v}], el := h.el[u := h.el[u][v := lbl]])
  {
  }

  lemma LabelTableStep<V>(table: map<V, string>, targets: set<V>, labelOf: map<V, string>, u: V)
    requires targets <= labelOf.Keys && u in labelOf
    ensures (table + map x | x in targets :: labelOf[x])[u := labelOf[u]] == table + map x | x in targets + {u} :: labelOf[x]
  {
  }

  /** Adding the edges one target at a time builds `WithEdgesFrom`. */
  lemma WithEdgesFromStep<V>(g: Shape<V>, v: V, targets: set<V>, labelOf: map<V, string>, u: V)
    requires WellFormed(g) && v in g.vs && targets <= g.vs && targets <= labelOf.Keys && u in g.vs && u in labelOf
    ensures WellFormed(WithEdgesFrom(g, v, targets, labelOf))
    ensures AddEdgeTo(WithEdgesFrom(g, v, targets, labelOf), v, u, labelOf[u]) == WithEdgesFrom(g, v, targets + {u}, labelOf)
  {
    WithEdgesFromWellFormed(g, v, targets, labelOf);
    var h := WithEdgesFrom(g, v, targets, labelOf);
    AddEdgeBetweenVertices(h, v, u, labelOf[u]);
    LabelTableStep(g.el[v], targets, labelOf, u);
    var k := WithEdgesFrom(g, v, targets + {u}, labelOf);
    assert h.adj[v] + {u} == k.adj[v];
    UpdateTwice(g.adj, v, g.adj[v] + targets, k.adj[v]);
    assert h.el[v][u := labelOf[u]] == k.el[v];
    UpdateTwice(g.el, v, g.el[v] + map x | x in targets :: labelOf[x], k.el[v]);
  }

  lemma WithNoEdgesFrom<V>(g: Shape<V>, v: V, labelOf: map<V, string>)
    requires v in g.adj && v in g.el
    ensures WithEdgesFrom(g, v, {}, labelOf) == g
  {
    var h := WithEdgesFrom(g, v, {}, labelOf);
    assert h.adj[v] == g.adj[v] && h.el[v] == g.el[v];
    assert h.adj == g.adj && h.el == g.el;
  }

  /** The label of the edge to `b` in `table`, or "" when there is no such edge. */
  function LabelOrEmpty<V>(table: map<V, string>, b: V): string {
    if b in table then table[b] else ""
  }

  /**
   * The vertices `vs` labelled as in `vl`, where every vertex outside `pending` has the
   * successors `out[a]`, each edge labelled from `el` (or ""), and every vertex in
   * `pending` has none yet: the result of the closure and reduction loops part way.
   */
  ghost function Built<V>(vs: set<V>, vl: map<V, string>, el: map<V, map<V, string>>, out: map<V, set<V>>, pending: set<V>): Shape<V>
    requires vs <= vl.Keys && vs <= el.Keys && vs <= out.Keys
  {
    Shape(vs,
      map a | a in vs :: if a in pending then {} else out[a],
      map a | a in vs :: vl[a],
      map a | a in vs :: if a in pending then map[] else map b | b in out[a] :: LabelOrEmpty(el[a], b))
  }

  lemma BuiltNothing<V>(vs: set<V>, vl: map<V, string>, el: map<V, map<V, string>>, out: map<V, set<V>>)
    requires vs <= vl.Keys && vs <= el.Keys && vs <= out.Keys
    ensures Built(vs, vl, el, out, vs) == Bare(vs, vl)
  {
    var g, h := Built(vs, vl, el, out, vs), Bare(vs, vl);
    assert g.adj == h.adj;
    assert g.el == h.el;
  }

  lemma BuiltWellFormed<V>(vs: set<V>, vl: map<V, string>, el: map<V, map<V, string>>, out: map<V, set<V>>, pending: set<V>)
    requires vs <= vl.Keys && vs <= el.Keys && vs <= out.Keys
    requires forall a :: a in vs ==> out[a] <= vs
    ensures WellFormed(Built(vs, vl, el, out, pending))
  {
  }

  /** Giving the pending vertex `v` its successors and their labels completes `v`. */
  lemma BuiltStep<V>(vs: set<V>, vl: map<V, string>, el: map<V, map<V, string>>, out: map<V, set<V>>, pending: set<V>,
                     v: V, labelOf: map<V, string>)
    requires vs <= vl.Keys && vs <= el.Keys && vs <= out.Keys
    requires v in vs && v in pending
    requires out[v] <= labelOf.Keys && forall b :: b in out[v] ==> labelOf[b] == LabelOrEmpty(el[v], b)
    ensures WithEdgesFrom(Built(vs, vl, el, out, pending), v, out[v], labelOf) == Built(vs, vl, el, out, pending - {v})
  {
    BuiltStepSuccessors(vs, vl, el, out, pending, v, labelOf);
    BuiltStepLabels(vs, vl, el, out, pending, v, labelOf);
  }

  lemma BuiltStepSuccessors<V>(vs: set<V>, vl: map<V, string>, el: map<V, map<V, string>>, out: map<V, set<V>>, pending: set<V>,
                               v: V, labelOf: map<V, string>)
    requires vs <= vl.Keys && vs <= el.Keys && vs <= out.Keys
    requires v in vs && v in pending && out[v] <= labelOf.Keys
    ensures WithEdgesFrom(Built(vs, vl, el, out, pending), v, out[v], labelOf).adj == Built(vs, vl, el, out, pending - {v}).adj
  {
    var g := Built(vs, vl, el, out, pending);
    var h, k := WithEdgesFrom(g, v, out[v], labelOf), Built(vs, vl, el, out, pending - {v});
    assert h.adj[v] == k.adj[v];
  }

  lemma BuiltStepLabels<V>(vs: set<V>, vl: map<V, string>, el: map<V, map<V, string>>, out: map<V, set<V>>, pending: set<V>,
                           v: V, labelOf: map<V, string>)
    requires vs <= vl.Keys && vs <= el.Keys && vs <= out.Keys
    requires v in vs && v in pending
    requires out[v] <= labelOf.Keys && forall b :: b in out[v] ==> labelOf[b] == LabelOrEmpty(el[v], b)
    ensures WithEdgesFrom(Built(vs, vl, el, out, pending), v, out[v], labelOf).el == Built(vs, vl, el, out, pending - {v}).el
  {
    var g := Built(vs, vl, el, out, pending);
    var h, k := WithEdgesFrom(g, v, out[v], labelOf), Built(vs, vl, el, out, pending - {v});
    assert h.el[v] == k.el[v];
  }

  /** The sources `b` of the edges `b -> a` of `g` listed in `done`. */
  ghost function Incoming<V>(g: Shape<V>, done: set<(V, V)>, a: V): set<V>
    requires WellFormed(g)
  {
    set b | b in g.vs && (b, a) in done && a in g.adj[b]
  }

  /** The labels of the edges `b -> a` of `g` listed in `done`, by source. */
  ghost function IncomingLabels<V>(g: Shape<V>, done: set<(V, V)>, a: V): map<V, string>
    requires WellFormed(g)
  {
    map b | b in Incoming(g, done, a) :: g.el[b][a]
  }

  /**
   * `g`'s vertices and labels with the edges of `done` that are edges of `g` reversed,
   * each carrying its original label: the transpose loop part way.
   */
  ghost function TransposeUpTo<V>(g: Shape<V>, done: set<(V, V)>): Shape<V>
    requires WellFormed(g)
  {
    Shape(g.vs,
      map a | a in g.vs :: Incoming(g, done, a),
      map a | a in g.vs :: g.vl[a],
      map a | a in g.vs :: IncomingLabels(g, done, a))
  }

  /** The graph `transpose` returns: every edge of `g` reversed, with its label. */
  ghost function TransposeOf<V>(g: Shape<V>): Shape<V>
    requires WellFormed(g)
  {
    TransposeUpTo(g, EdgePairs(g.adj))
  }

  lemma TransposeNothing<V>(g: Shape<V>)
    requires WellFormed(g)
    ensures TransposeUpTo(g, {}) == Bare(g.vs, g.vl)
  {
    var t, b := TransposeUpTo(g, {}), Bare(g.vs, g.vl);
    forall a | a in g.vs ensures Incoming(g, {}, a) == {} && IncomingLabels(g, {}, a) == map[] {
      assert Incoming(g, {}, a) == {};
    }
    assert t.adj == b.adj;
    assert t.el == b.el;
  }

  lemma TransposeUpToWellFormed<V>(g: Shape<V>, done: set<(V, V)>)
    requires WellFormed(g)
    ensures WellFormed(TransposeUpTo(g, done))
  {
  }

  /** Listing one more edge `u -> v` adds `u` to the sources into `v`, and nothing else. */
  lemma IncomingStep<V>(g: Shape<V>, done: set<(V, V)>, u: V, v: V, a: V)
    requires WellFormed(g) && (u, v) in EdgePairs(g.adj)
    ensures Incoming(g, done + {(u, v)}, a) == if a == v then Incoming(g, done, a) + {u} else Incoming(g, done, a)
    ensures IncomingLabels(g, done + {(u, v)}, a) ==
      if a == v then IncomingLabels(g, done, a)[u := g.el[u][v]] else IncomingLabels(g, done, a)
  {
  }

  /** Reversing one more edge of `g` with `add_edge` extends the transpose by that edge. */
  lemma TransposeStep<V>(g: Shape<V>, done: set<(V, V)>, u: V, v: V)
    requires WellFormed(g) && (u, v) in EdgePairs(g.adj)
    ensures WellFormed(TransposeUpTo(g, done))
    ensures AddEdgeTo(TransposeUpTo(g, done), v, u, g.el[u][v]) == TransposeUpTo(g, done + {(u, v)})
  {
    TransposeUpToWellFormed(g, done);
    AddEdgeBetweenVertices(TransposeUpTo(g, done), v, u, g.el[u][v]);
    TransposeStepSuccessors(g, done, u, v);
    TransposeStepLabels(g, done, u, v);
  }

  lemma TransposeStepSuccessors<V>(g: Shape<V>, done: set<(V, V)>, u: V, v: V)
    requires WellFormed(g) && (u, v) in EdgePairs(g.adj)
    ensures var t := TransposeUpTo(g, done);
      t.adj[v := t.adj[v] + {u}] == TransposeUpTo(g, done + {(u, v)}).adj
  {
    var t, k := TransposeUpTo(g, done), TransposeUpTo(g, done + {(u, v)});
    forall a | a in g.vs ensures t.adj[v := t.adj[v] + {u}][a] == k.adj[a] {
      IncomingStep(g, done, u, v, a);
    }
  }

  lemma TransposeStepLabels<V>(g: Shape<V>, done: set<(V, V)>, u: V, v: V)
    requires WellFormed(g) && (u, v) in EdgePairs(g.adj)
    ensures var t := TransposeUpTo(g, done);
      v in t.el && t.el[v := t.el[v][u := g.el[u][v]]] == TransposeUpTo(g, done + {(u, v)}).el
  {
    var t, k := TransposeUpTo(g, done), TransposeUpTo(g, done + {(u, v)});
    forall a | a in g.vs ensures t.el[v := t.el[v][u := g.el[u][v]]][a] == k.el[a] {
      IncomingStep(g, done, u, v, a);
    }
  }

  /** The transpose has the same vertices and labels and exactly the reversed edges, labels kept. */
  lemma TransposeFacts<V>(g: Shape<V>)
    requires WellFormed(g)
    ensures WellFormed(TransposeOf(g))
    ensures TransposeOf(g).vs == g.vs && TransposeOf(g).vl == g.vl
    ensures forall a, b :: (a, b) in EdgePairs(TransposeOf(g).adj) <==> (b, a) in EdgePairs(g.adj)
    ensures forall a, b :: (a, b) in EdgePairs(TransposeOf(g).adj) ==> TransposeOf(g).el[a][b] == g.el[b][a]
  {
    TransposeUpToWellFormed(g, EdgePairs(g.adj));
    assert TransposeOf(g).vl == g.vl;
  }

  /** Transposing twice gives back the graph. */
  lemma TransposeTwice<V>(g: Shape<V>)
    requires WellFormed(g)
    ensures WellFormed(TransposeOf(g)) && TransposeOf(TransposeOf(g)) == g
  {
    TransposeFacts(g);
    TransposeFacts(TransposeOf(g));
    TransposeTwiceSuccessors(g);
    TransposeTwiceLabels(g);
  }

  lemma TransposeTwiceSuccessors<V>(g: Shape<V>)
    requires WellFormed(g)
    ensures WellFormed(TransposeOf(g)) && TransposeOf(TransposeOf(g)).adj == g.adj
  {
    TransposeFacts(g);
    var t := TransposeOf(g);
    TransposeFacts(t);
    var tt := TransposeOf(t);
    forall a | a in g.vs ensures tt.adj[a] == g.adj[a] {
      assert forall b :: b in tt.adj[a] <==> (a, b) in EdgePairs(tt.adj);
    }
  }

  lemma TransposeTwiceLabels<V>(g: Shape<V>)
    requires WellFormed(g)
    ensures WellFormed(TransposeOf(g)) && TransposeOf(TransposeOf(g)).el == g.el
  {
    TransposeFacts(g);
    var t := TransposeOf(g);
    TransposeFacts(t);
    TransposeTwiceSuccessors(g);
    var tt := TransposeOf(t);
    forall a | a in g.vs ensures tt.el[a] == g.el[a] {
      assert forall b :: b in tt.el[a] <==> (a, b) in EdgePairs(tt.adj);
    }
  }

  /** Every successor of a vertex is a vertex, so walks from a vertex stay among the vertices. */
  lemma ReachableStaysInside<V(!new)>(g: Shape<V>, a: V, b: V)
    requires WellFormed(g) && a in g.vs && Reachable(g.adj, a, b)
    ensures b in g.vs
  {
    ClosedContainsReachable(g.adj, g.vs, a, b);
  }

  /** For each vertex, the other vertices reachable from it. */
  ghost function ClosureTargets<V(!new)>(g: Shape<V>): map<V, set<V>> {
    map a | a in g.vs :: set b | b in g.vs && b != a && Reachable(g.adj, a, b)
  }

  /**
   * The graph `transitive_closure` returns: the same vertices and labels, an edge
   * `a -> b` for every other vertex `b` reachable from `a`, labelled as in `g` when
   * `g` has that edge and "" otherwise.
   */
  ghost function ClosureOf<V(!new)>(g: Shape<V>): Shape<V>
    requires WellFormed(g)
  {
    Built(g.vs, g.vl, g.el, ClosureTargets(g), {})
  }

  lemma ClosureFacts<V(!new)>(g: Shape<V>)
    requires WellFormed(g)
    ensures WellFormed(ClosureOf(g))
    ensures ClosureOf(g).vs == g.vs && ClosureOf(g).vl == g.vl
    ensures forall a, b :: (a, b) in EdgePairs(ClosureOf(g).adj) <==> a in g.vs && b != a && Reachable(g.adj, a, b)
    ensures forall a, b :: (a, b) in EdgePairs(ClosureOf(g).adj) ==> ClosureOf(g).el[a][b] == LabelOrEmpty(g.el[a], b)
  {
    var c := ClosureOf(g);
    BuiltWellFormed(g.vs, g.vl, g.el, ClosureTargets(g), {});
    assert c.vl == g.vl;
    forall a, b | a in g.vs && b != a && Reachable(g.adj, a, b) ensures (a, b) in EdgePairs(c.adj) {
      ReachableStaysInside(g, a, b);
    }
  }

  /** The closure is transitive: two closure edges make a third, unless it would be a self-loop. */
  lemma ClosureTransitive<V(!new)>(g: Shape<V>, a: V, b: V, c: V)
    requires WellFormed(g) && a != c
    requires (a, b) in EdgePairs(ClosureOf(g).adj) && (b, c) in EdgePairs(ClosureOf(g).adj)
    ensures (a, c) in EdgePairs(ClosureOf(g).adj)
  {
    ClosureFacts(g);
    ReachableTrans(g.adj, a, b, c);
  }

  /** Every edge of `g` other than a self-loop is an edge of its closure, with the same label. */
  lemma ClosureKeepsEdges<V(!new)>(g: Shape<V>, a: V, b: V)
    requires WellFormed(g) && (a, b) in EdgePairs(g.adj) && a != b
    ensures (a, b) in EdgePairs(ClosureOf(g).adj) && ClosureOf(g).el[a][b] == g.el[a][b]
  {
    ClosureFacts(g);
    ReachableRefl(g.adj, a);
    ReachableStep(g.adj, a, a, b);
  }

  /** What one pass of `ReachableInOrder` yields for `v` is `v`'s row of the closure. */
  lemma ClosureRow<V(!new)>(g: Shape<V>, v: V, reachable: set<V>)
    requires v in g.vs && reachable <= g.vs
    requires forall w :: w in reachable <==> Reachable(g.adj, v, w)
    ensures ClosureTargets(g)[v] == reachable - {v}
  {
  }

  /** `b` is reached from `a` by a walk of `k` steps without self-loops, and by none longer. */
  ghost predicate LongestStrictPath<V(!new)>(g: map<V, set<V>>, a: V, b: V, k: nat) {
    HasStrictPath(g, a, b, k) && forall j: nat :: HasStrictPath(g, a, b, j) ==> j <= k
  }

  /** For each vertex, the successors that no longer walk without self-loops reaches. */
  ghost function ReductionTargets<V(!new)>(g: Shape<V>): map<V, set<V>>
    requires WellFormed(g)
  {
    map a | a in g.vs :: set b | b in g.adj[a] && LongestStrictPath(g.adj, a, b, 1)
  }

  /**
   * The graph `transitive_reduction` returns: the same vertices and labels, and the
   * edges `a -> b` of `g` whose longest walk without self-loops has one step.
   */
  ghost function ReductionOf<V(!new)>(g: Shape<V>): Shape<V>
    requires WellFormed(g)
  {
    Built(g.vs, g.vl, g.el, ReductionTargets(g), {})
  }

  lemma ReductionFacts<V(!new)>(g: Shape<V>)
    requires WellFormed(g)
    ensures WellFormed(ReductionOf(g))
    ensures ReductionOf(g).vs == g.vs && ReductionOf(g).vl == g.vl
    ensures forall a, b :: (a, b) in EdgePairs(ReductionOf(g).adj) <==>
      (a, b) in EdgePairs(g.adj) && a != b && forall k: nat :: HasStrictPath(g.adj, a, b, k) ==> k <= 1
    ensures forall a, b :: (a, b) in EdgePairs(ReductionOf(g).adj) ==> ReductionOf(g).el[a][b] == g.el[a][b]
  {
    var r := ReductionOf(g);
    BuiltWellFormed(g.vs, g.vl, g.el, ReductionTargets(g), {});
    assert r.vl == g.vl;
    forall a, b | (a, b) in EdgePairs(g.adj)
      ensures HasStrictPath(g.adj, a, b, 1) <==> a != b
    {
      StrictPathOneStep(g.adj, a, b);
    }
  }

  /** Every edge of the reduction is in the closure: the reduction only drops edges. */
  lemma ReductionWithinClosure<V(!new)>(g: Shape<V>, a: V, b: V)
    requires WellFormed(g) && (a, b) in EdgePairs(ReductionOf(g).adj)
    ensures (a, b) in EdgePairs(ClosureOf(g).adj)
  {
    ReductionFacts(g);
    ClosureKeepsEdges(g, a, b);
  }

  function Max(a: int, b: int): int {
    if a >= b then a else b
  }

  /** Every non-negative entry of `lp` is the length of some walk from `v` without self-loops. */
  ghost predicate Attained<V(!new)>(g: map<V, set<V>>, v: V, lp: map<V, int>) {
    forall x :: x in lp && lp[x] >= 0 ==> HasStrictPath(g, v, x, lp[x])
  }

  /**
   * Every walk from `v` without self-loops whose last step leaves one of the entries
   * of `ts` from `i` on is no longer than the entry of its end.
   */
  ghost predicate Dominates<V(!new)>(g: map<V, set<V>>, v: V, ts: seq<V>, i: nat, lp: map<V, int>)
    requires i <= |ts|
  {
    forall p :: StrictPath(g, p) && p[0] == v && |p| >= 2 && p[|p| - 2] in ts[i..] ==>
      Last(p) in lp && |p| - 1 <= lp[Last(p)]
  }

  /**
   * The longest-path table of `transitive_reduction` for the source `v` once the
   * entries of `ts` from `i` on have been relaxed.
   */
  ghost predicate LongestSoFar<V(!new)>(g: map<V, set<V>>, v: V, ts: seq<V>, i: nat, lp: map<V, int>)
    requires i <= |ts|
  {
    && v in lp && lp[v] >= 0
    && (forall x :: x in lp ==> lp[x] >= -1)
    && Attained(g, v, lp)
    && Dominates(g, v, ts, i, lp)
  }

  /** Before any relaxation: 0 for the source, which reaches itself in no step, -1 elsewhere. */
  lemma LongestStart<V(!new)>(g: map<V, set<V>>, vs: set<V>, v: V, ts: seq<V>)
    requires v in vs
    ensures LongestSoFar(g, v, ts, |ts|, (map u | u in vs :: -1)[v := 0])
  {
    var lp := (map u | u in vs :: -1)[v := 0];
    assert StrictPath(g, [v]);
    assert forall x :: x in lp && lp[x] >= 0 ==> x == v;
  }

  /**
   * `lp'` is `lp` after one round of the relaxation at `u`: when `u`'s entry is at
   * least 0, each successor `x` of `u` other than `u` is raised to at least one more.
   */
  ghost predicate Raised<V>(g: map<V, set<V>>, u: V, lp: map<V, int>, lp': map<V, int>) {
    && u in lp && u in g && lp'.Keys == lp.Keys
    && forall x :: x in lp ==> lp'[x] == if lp[u] >= 0 && x in g[u] && x != u then Max(lp[u] + 1, lp[x]) else lp[x]
  }

  /** One round of the relaxation, at `ts[i]`, extends the invariant to `ts[i]`. */
  lemma RelaxPreserves<V(!new)>(g: Shape<V>, v: V, ts: seq<V>, i: nat, lp: map<V, int>, lp': map<V, int>)
    requires WellFormed(g) && TopologicalOrder(g.adj, g.vs, ts) && i < |ts|
    requires lp.Keys == g.vs && LongestSoFar(g.adj, v, ts, i + 1, lp)
    requires Raised(g.adj, ts[i], lp, lp')
    ensures LongestSoFar(g.adj, v, ts, i, lp')
  {
    RelaxAttained(g, v, ts[i], lp, lp');
    RelaxDominates(g, v, ts, i, lp, lp');
  }

  /** Raising an entry to one more than a predecessor's attained entry keeps it attained. */
  lemma RelaxAttained<V(!new)>(g: Shape<V>, v: V, u: V, lp: map<V, int>, lp': map<V, int>)
    requires WellFormed(g) && u in g.vs && lp.Keys == g.vs && Attained(g.adj, v, lp)
    requires Raised(g.adj, u, lp, lp')
    ensures Attained(g.adj, v, lp')
  {
    forall x | x in lp' && lp'[x] >= 0 ensures HasStrictPath(g.adj, v, x, lp'[x]) {
      if lp'[x] != lp[x] {
        StrictPathExtend(g.adj, v, u, lp[u], x);
      }
    }
  }

  /**
   * Relaxing the out-edges of `ts[i]` accounts for every walk whose last step leaves
   * `ts[i]`: all walks into `ts[i]` end with a step from a vertex relaxed before it.
   */
  lemma RelaxDominates<V(!new)>(g: Shape<V>, v: V, ts: seq<V>, i: nat, lp: map<V, int>, lp': map<V, int>)
    requires WellFormed(g) && TopologicalOrder(g.adj, g.vs, ts) && i < |ts|
    requires lp.Keys == g.vs && v in lp && lp[v] >= 0 && Dominates(g.adj, v, ts, i + 1, lp)
    requires Raised(g.adj, ts[i], lp, lp')
    ensures Dominates(g.adj, v, ts, i, lp')
  {
    var u := ts[i];
    forall p | StrictPath(g.adj, p) && p[0] == v && |p| >= 2 && p[|p| - 2] in ts[i..]
      ensures Last(p) in lp' && |p| - 1 <= lp'[Last(p)]
    {
      var w := Last(p);
      assert p[|p| - 2] in g.adj && w in g.adj[p[|p| - 2]] && w != p[|p| - 2];
      if p[|p| - 2] == u {
        WalkIntoNext(g, v, ts, i, lp, p[..|p| - 1]);
        assert lp'[w] >= lp[u] + 1;
      } else {
        assert p[|p| - 2] in ts[i + 1..];
        assert lp'[w] >= lp[w];
      }
    }
  }

  /** A walk from `v` into `ts[i]` is accounted for in `lp[ts[i]]` before `ts[i]` is relaxed. */
  lemma WalkIntoNext<V(!new)>(g: Shape<V>, v: V, ts: seq<V>, i: nat, lp: map<V, int>, q: seq<V>)
    requires WellFormed(g) && TopologicalOrder(g.adj, g.vs, ts) && i < |ts|
    requires lp.Keys == g.vs && v in lp && lp[v] >= 0 && Dominates(g.adj, v, ts, i + 1, lp)
    requires StrictPath(g.adj, q) && q[0] == v && Last(q) == ts[i]
    ensures lp[ts[i]] >= |q| - 1
  {
    if |q| >= 2 {
      PredecessorLater(g.adj, g.vs, ts, i, q[|q| - 2]);
    }
  }

  /** Once every entry of `ts` is relaxed, each entry is the longest walk length, or -1 for none. */
  lemma LongestFinal<V(!new)>(g: Shape<V>, v: V, ts: seq<V>, lp: map<V, int>)
    requires WellFormed(g) && TopologicalOrder(g.adj, g.vs, ts)
    requires lp.Keys == g.vs && LongestSoFar(g.adj, v, ts, 0, lp)
    ensures forall x :: x in lp && lp[x] >= 0 ==> LongestStrictPath(g.adj, v, x, lp[x])
    ensures forall x, k: nat :: x in lp && lp[x] < 0 ==> !HasStrictPath(g.adj, v, x, k)
  {
    forall x, k: nat | x in lp && HasStrictPath(g.adj, v, x, k) ensures k <= lp[x] {
      var p :| StrictPath(g.adj, p) && p[0] == v && Last(p) == x && |p| == k + 1;
      if |p| >= 2 {
        assert p[|p| - 2] in ts[0..];
      }
    }
  }

  /** The targets `transitive_reduction` picks for `v` (`lp[w] == 1`) are `v`'s row of the reduction. */
  lemma ReductionRow<V(!new)>(g: Shape<V>, v: V, lp: map<V, int>)
    requires WellFormed(g) && v in g.vs && lp.Keys == g.vs
    requires forall x :: x in lp && lp[x] >= 0 ==> LongestStrictPath(g.adj, v, x, lp[x])
    requires forall x, k: nat :: x in lp && lp[x] < 0 ==> !HasStrictPath(g.adj, v, x, k)
    ensures ReductionTargets(g)[v] == set w | w in lp && lp[w] == 1
  {
    forall w | w in lp && lp[w] == 1 ensures w in g.adj[v] {
      StrictPathOneStep(g.adj, v, w);
    }
    forall w | w in g.adj[v] && LongestStrictPath(g.adj, v, w, 1) ensures lp[w] == 1 {
      if lp[w] >= 0 {
        assert LongestStrictPath(g.adj, v, w, lp[w]);
      }
    }
  }

  class DirectedAcyclicGraph<V(==,!new)> {
    var vertexSet: set<V>
    var adjacencyLists: map<V, set<V>>
    var vertexLabels: map<V, string>
    var edgeLabels: map<V, map<V, string>>

    ghost function State(): Shape<V>
      reads this
    {
      Shape(vertexSet, adjacencyLists, vertexLabels, edgeLabels)
    }

    ghost predicate Valid()
      reads this
    {
      WellFormed(State())
    }

    ghost function EdgeSet(): set<(V, V)>
      reads this
    {
      EdgePairs(adjacencyLists)
    }

    constructor ()
      ensures Valid()
      ensures State() == Shape({}, map[], map[], map[])
    {
      vertexSet := {};
      adjacencyLists := map[];
      vertexLabels := map[];
      edgeLabels := map[];
    }

    /** `add_vertex(v, label)`; see `AddVertexFacts` for what it does to the graph. */
    method AddVertex(v: V, lbl: string)
      requires Valid()
      modifies this
      ensures Valid()
      ensures State() == AddVertexTo(old(State()), v, lbl)
    {
      AddVertexFacts(State(), v, lbl);
      if v in vertexSet {
        return;
      }
      vertexSet := vertexSet + {v};
      adjacencyLists := adjacencyLists[v := {}];
      vertexLabels := vertexLabels[v := lbl];
      edgeLabels := edgeLabels[v := map[]];
    }

    /** `add_edge(u, v, label)`; see `AddEdgeFacts` for what it does to the graph. */
    method AddEdge(u: V, v: V, lbl: string)
      requires Valid()
      modifies this
      ensures Valid()
      ensures State() == AddEdgeTo(old(State()), u, v, lbl)
    {
      AddVertex(u, "");
      AddVertex(v, "");
      LinkVertices(u, v, lbl);
    }

    /** The last step of `add_edge`, once both endpoints are vertices. */
    method LinkVertices(u: V, v: V, lbl: string)
      requires Valid() && u in vertexSet && v in vertexSet
      modifies this
      ensures Valid()
      ensures State() == Link(old(State()), u, v, lbl)
    {
      ghost var h := Link(State(), u, v, lbl);
      InsertKeepsWellFormed(State(), u, v, lbl);
      adjacencyLists := adjacencyLists[u := adjacencyLists[u] + {v}];
      edgeLabels := edgeLabels[u := edgeLabels[u][v := lbl]];
      assert adjacencyLists == h.adj && edgeLabels == h.el;
    }

    /** `remove_edge(u, v)`: `KeyError`, and no change, when `u` is not a vertex. */
    method RemoveEdge(u: V, v: V) returns (r: Outcome<DagError>)
      requires Valid()
      modifies this
      ensures Valid()
      ensures r == if u in old(vertexSet) then Pass else Fail(KeyError)
      ensures r.Pass? ==> State() == RemoveEdgeFrom(old(State()), u, v)
      ensures r.Fail? ==> unchanged(this)
    {
      if u !in adjacencyLists {
        return Fail(KeyError);
      }
      RemoveEdgeFacts(State(), u, v);
      adjacencyLists := adjacencyLists[u := adjacencyLists[u] - {v}];
      edgeLabels := edgeLabels[u := edgeLabels[u] - {v}];
      r := Pass;
    }

    /** The label of `v`; `KeyError` when `v` is not a vertex. */
    function VertexLabel(v: V): (r: Result<string, DagError>)
      reads this
      requires Valid()
      ensures r.Err? <==> v !in vertexSet
      ensures r.Err? ==> r.error == KeyError
    {
      if v in vertexLabels then Ok(vertexLabels[v]) else Err(KeyError)
    }

    /** The label of the edge `u -> v`; `KeyError` exactly when there is no such edge. */
    function EdgeLabel(u: V, v: V): (r: Result<string, DagError>)
      reads this
      requires Valid()
      ensures r.Ok? <==> (u, v) in EdgeSet()
      ensures r.Err? ==> r.error == KeyError
    {
      if u in edgeLabels && v in edgeLabels[u] then Ok(edgeLabels[u][v]) else Err(KeyError)
    }

    /** The vertex set: exactly the vertices whose successors and label can be looked up, the endpoints of every edge among them. */
    function Vertices(): (r: set<V>)
      reads this
      ensures Valid() ==> forall v :: v in r <==> Adjacencies(v).Ok? && VertexLabel(v).Ok?
      ensures Valid() ==> forall u, w :: (u, w) in EdgeSet() ==> u in r && w in r
    {
      vertexSet
    }

    /** The successor set of `v`; `KeyError` when `v` is not a vertex. */
    function Adjacencies(v: V): (r: Result<set<V>, DagError>)
      reads this
      requires Valid()
      ensures r.Err? <==> v !in vertexSet
      ensures r.Ok? ==> r.value <= vertexSet
      ensures r.Ok? ==> forall w :: w in r.value <==> (v, w) in EdgeSet()
    {
      if v in adjacencyLists then Ok(adjacencyLists[v]) else Err(KeyError)
    }

    /** Every edge once, listed vertex by vertex and successor by successor. */
    method Edges() returns (es: seq<(V, V)>)
      requires Valid()
      ensures Distinct(es)
      ensures forall e :: e in es <==> e in EdgeSet()
      ensures |es| == |EdgeSet()|
    {
      es := ListEdges(adjacencyLists);
    }

    /**
     * The vertex carrying `lbl`: `None` when no vertex does, the vertex when exactly
     * one does, and `ValueError` when two or more do.
     */
    method GetVertexFromLabel(lbl: string) returns (r: Result<Option<V>, DagError>)
      requires Valid()
      ensures r == Ok(None) <==> forall v :: v in vertexSet ==> vertexLabels[v] != lbl
      ensures r == Err(ValueError) <==>
        exists a, b :: a in vertexSet && b in vertexSet && a != b && vertexLabels[a] == lbl && vertexLabels[b] == lbl
      ensures r.Ok? && r.value.Some? ==>
        && r.value.value in vertexSet && vertexLabels[r.value.value] == lbl
        && forall v :: v in vertexSet && vertexLabels[v] == lbl ==> v == r.value.value
      ensures r.Err? ==> r.error == ValueError
    {
      var matching := LabelHolders(vertexSet, vertexLabels, lbl);
      ghost var holders := set v | v in vertexSet && vertexLabels[v] == lbl;
      assert Elements(matching) == holders;
      DistinctCard(matching);
      CardAtLeastTwo(holders);
      if |matching| == 1 {
        SingletonUnique(holders);
        r := Ok(Some(matching[0]));
      } else if |matching| == 0 {
        r := Ok(None);
      } else {
        r := Err(ValueError);
      }
    }

    /**
     * A fresh graph with the same vertices and vertex labels and no edges: the vertex
     * copying loop that transpose, closure and reduction all start with.
     */
    method CopyVertices() returns (result: DirectedAcyclicGraph<V>)
      requires Valid()
      ensures fresh(result) && result.Valid()
      ensures result.State() == Bare(vertexSet, vertexLabels)
    {
      result := new DirectedAcyclicGraph();
      var rest := vertexSet;
      ghost var done := {};
      assert Bare(done, vertexLabels) == result.State();
      while rest != {}
        invariant done <= vertexSet && rest <= vertexSet && done + rest == vertexSet
        invariant result.State() == Bare(done, vertexLabels)
        invariant result.Valid()
        decreases rest
      {
        var x :| x in rest;
        BareFacts(done, vertexLabels, x);
        result.AddVertex(x, vertexLabels[x]);
        done, rest := done + {x}, rest - {x};
      }
    }

    /**
     * Adding an edge from `v` to each of `targets`, labelled by `labelOf`, between
     * existing vertices, written as one update: the successors of `v` gain `targets`, each with its label,
     * and nothing else changes (`WithEdgesFromStep` shows that adding the edges one at
     * a time gives the same graph).
     */
    method AddEdgesFrom(v: V, targets: set<V>, labelOf: map<V, string>)
      requires Valid() && v in vertexSet && targets <= vertexSet && targets <= labelOf.Keys
      modifies this
      ensures Valid()
      ensures State() == WithEdgesFrom(old(State()), v, targets, labelOf)
    {
      ghost var g := State();
      WithEdgesFromWellFormed(g, v, targets, labelOf);
      ghost var h := WithEdgesFrom(g, v, targets, labelOf);
      adjacencyLists := adjacencyLists[v := adjacencyLists[v] + targets];
      edgeLabels := edgeLabels[v := edgeLabels[v] + map u | u in targets :: labelOf[u]];
      assert adjacencyLists == h.adj && edgeLabels == h.el;
      assert State() == h;
    }

    /**
     * `transpose()`: a fresh graph with the same vertices and labels, and `v -> u`
     * carrying the label of `u -> v` for every edge `u -> v` (`TransposeFacts`).
     */
    method Transpose() returns (result: DirectedAcyclicGraph<V>)
      requires Valid()
      ensures fresh(result) && result.Valid()
      ensures result.State() == TransposeOf(State())
    {
      ghost var g := State();
      result := CopyVertices();
      TransposeNothing(g);
      var es := Edges();
      ghost var done: set<(V, V)> := {};
      var i := 0;
      while i < |es|
        invariant 0 <= i <= |es| && fresh(result)
        invariant done == Elements(es[..i])
        invariant result.State() == TransposeUpTo(g, done)
      {
        var (u, v) := es[i];
        AddReversedEdge(result, u, v, done);
        ElementsOfPrefix(es, i);
        done := done + {(u, v)};
        i := i + 1;
      }
      ElementsOfWhole(es);
      assert done == EdgePairs(g.adj);
      TransposeUpToWellFormed(g, done);
    }

    /** One round of the transpose loop: the edge `v -> u` added to the result with the label of `u -> v`. */
    method AddReversedEdge(result: DirectedAcyclicGraph<V>, u: V, v: V, ghost done: set<(V, V)>)
      requires result != this && Valid() && (u, v) in EdgeSet()
      requires result.State() == TransposeUpTo(State(), done)
      modifies result
      ensures result.State() == TransposeUpTo(State(), done + {(u, v)})
    {
      TransposeStep(State(), done, u, v);
      result.AddEdge(v, u, edgeLabels[u][v]);
    }

    /**
     * `descendants(v)`: the vertices reachable from `v`, found by a depth-first
     * worklist; `KeyError` when `v` is not a vertex.
     */
    method Descendants(v: V) returns (r: Result<set<V>, DagError>)
      requires Valid()
      ensures r.Err? <==> v !in vertexSet
      ensures r.Err? ==> r.error == KeyError
      ensures r.Ok? ==> forall w :: w in r.value <==> Reachable(adjacencyLists, v, w)
    {
      if v !in vertexSet {
        return Err(KeyError);
      }
      var adj := adjacencyLists;
      var reachable := {v};
      var workstack := [v];
      ReachableRefl(adj, v);
      while workstack != []
        invariant reachable <= vertexSet && v in reachable
        invariant Distinct(workstack) && Elements(workstack) <= reachable
        invariant AllReachable(adj, v, reachable)
        invariant Explored(adj, reachable, workstack)
        decreases vertexSet - reachable, |workstack|
      {
        reachable, workstack := ExploreTop(adj, vertexSet, v, reachable, workstack);
      }
      forall w | Reachable(adj, v, w) ensures w in reachable {
        ClosedContainsReachable(adj, reachable, v, w);
      }
      return Ok(reachable);
    }

    /**
     * The reachability pass of `transitive_closure` for one source `v`: walking a
     * topological order backwards, the successors of every vertex already reached
     * are added, which yields exactly the vertices reachable from `v`.
     */
    method ReachableInOrder(v: V, ts: seq<V>) returns (reachable: set<V>)
      requires Valid() && v in vertexSet && TopologicalOrder(adjacencyLists, vertexSet, ts)
      ensures reachable <= vertexSet
      ensures forall w :: w in reachable <==> Reachable(adjacencyLists, v, w)
    {
      reachable := {v};
      ReachableRefl(adjacencyLists, v);
      var i := |ts|;
      while i > 0
        invariant 0 <= i <= |ts|
        invariant v in reachable && reachable <= vertexSet
        invariant forall x :: x in reachable ==> Reachable(adjacencyLists, v, x)
        invariant forall x :: x in reachable && x in ts[i..] ==> adjacencyLists[x] <= reachable
      {
        i := i - 1;
        var u := ts[i];
        assert forall x :: x in ts[i..] ==> x == u || x in ts[i + 1..];
        if u in reachable {
          forall w | w in adjacencyLists[u] ensures Reachable(adjacencyLists, v, w) {
            ReachableStep(adjacencyLists, v, u, w);
          }
          forall w | w in adjacencyLists[u] && w != u ensures w !in ts[i..] {
            SuccessorNotLater(adjacencyLists, vertexSet, ts, i, w);
          }
          reachable := reachable + adjacencyLists[u];
        }
      }
      assert Closed(adjacencyLists, reachable) by {
        forall x | x in reachable && x in adjacencyLists ensures adjacencyLists[x] <= reachable {
          assert x in ts[0..];
        }
      }
      forall w | Reachable(adjacencyLists, v, w) ensures w in reachable {
        ClosedContainsReachable(adjacencyLists, reachable, v, w);
      }
    }

    /**
     * `transitive_closure()`, with the topological order `ts` as a parameter: a fresh
     * graph with the same vertices and labels and an edge from each vertex to every
     * other vertex it reaches (`ClosureFacts`).
     */
    method TransitiveClosure(ts: seq<V>) returns (result: DirectedAcyclicGraph<V>)
      requires Valid() && TopologicalOrder(adjacencyLists, vertexSet, ts)
      ensures fresh(result) && result.Valid()
      ensures result.State() == ClosureOf(State())
    {
      ghost var g := State();
      result := CopyVertices();
      BuiltNothing(g.vs, g.vl, g.el, ClosureTargets(g));
      var rest := vertexSet;
      while rest != {}
        invariant fresh(result) && rest <= vertexSet
        invariant result.State() == Built(g.vs, g.vl, g.el, ClosureTargets(g), rest)
        decreases rest
      {
        var v :| v in rest;
        AddClosureRow(result, ts, v, rest);
        rest := rest - {v};
      }
      BuiltWellFormed(g.vs, g.vl, g.el, ClosureTargets(g), {});
    }

    /** One round of the closure's outer loop: the edges from `v` to everything it reaches. */
    method AddClosureRow(result: DirectedAcyclicGraph<V>, ts: seq<V>, v: V, ghost pending: set<V>)
      requires result != this && Valid() && TopologicalOrder(adjacencyLists, vertexSet, ts)
      requires v in pending && pending <= vertexSet
      requires result.State() == Built(vertexSet, vertexLabels, edgeLabels, ClosureTargets(State()), pending)
      modifies result
      ensures result.State() == Built(vertexSet, vertexLabels, edgeLabels, ClosureTargets(State()), pending - {v})
    {
      ghost var g := State();
      BuiltWellFormed(g.vs, g.vl, g.el, ClosureTargets(g), pending);
      var reachable := ReachableInOrder(v, ts);
      var labelOf := ClosureLabels(v, reachable - {v});
      forall b | b in reachable - {v} ensures labelOf[b] == LabelOrEmpty(g.el[v], b) {
        assert b in g.el[v] <==> (v, b) in EdgeSet();
      }
      ClosureRow(g, v, reachable);
      BuiltStep(g.vs, g.vl, g.el, ClosureTargets(g), pending, v, labelOf);
      result.AddEdgesFrom(v, reachable - {v}, labelOf);
    }

    /**
     * The label each closure edge `v -> b` receives, target by target: the label of the
     * edge `v -> b` when this graph has it, and "" when looking it up fails.
     */
    method ClosureLabels(v: V, targets: set<V>) returns (labels: map<V, string>)
      requires Valid() && v in vertexSet
      ensures labels.Keys == targets
      ensures forall b :: b in targets && (v, b) in EdgeSet() ==> labels[b] == edgeLabels[v][b]
      ensures forall b :: b in targets && (v, b) !in EdgeSet() ==> labels[b] == ""
    {
      labels := map[];
      var rest := targets;
      while rest != {}
        invariant rest <= targets && labels.Keys == targets - rest
        invariant forall b :: b in labels ==> labels[b] == LabelOrEmpty(edgeLabels[v], b)
        decreases rest
      {
        var b :| b in rest;
        var lookup := EdgeLabel(v, b);
        var lbl := if lookup.Ok? then lookup.value else "";
        labels := labels[b := lbl];
        rest := rest - {b};
      }
      forall b | b in targets ensures (v, b) in EdgeSet() <==> b in edgeLabels[v] {
      }
    }

    /**
     * The longest-path pass of `transitive_reduction` for one source `v`: every
     * vertex starts at -1 and `v` at 0; walking a topological order backwards, each
     * vertex with an entry of at least 0 raises each proper successor's entry to one
     * more than its own. Each entry ends as the length of the longest walk from `v`
     * without self-loops, or -1 when there is none.
     */
    method LongestPaths(v: V, ts: seq<V>) returns (lp: map<V, int>)
      requires Valid() && v in vertexSet && TopologicalOrder(adjacencyLists, vertexSet, ts)
      ensures lp.Keys == vertexSet
      ensures forall x :: x in lp ==> lp[x] >= -1
      ensures forall x :: x in lp && lp[x] >= 0 ==> LongestStrictPath(adjacencyLists, v, x, lp[x])
      ensures forall x, k: nat :: x in lp && lp[x] < 0 ==> !HasStrictPath(adjacencyLists, v, x, k)
    {
      lp := map u | u in vertexSet :: -1;
      lp := lp[v := 0];
      LongestStart(adjacencyLists, vertexSet, v, ts);
      var i := |ts|;
      while i > 0
        invariant 0 <= i <= |ts|
        invariant lp.Keys == vertexSet
        invariant LongestSoFar(adjacencyLists, v, ts, i, lp)
      {
        i := i - 1;
        lp := RelaxAt(v, ts, i, lp);
      }
      LongestFinal(State(), v, ts, lp);
    }

    /** One round of the longest-path loop: when the entry of `ts[i]` is at least 0, the relaxation at `ts[i]`. */
    method RelaxAt(v: V, ts: seq<V>, i: nat, lp: map<V, int>) returns (lp': map<V, int>)
      requires Valid() && TopologicalOrder(adjacencyLists, vertexSet, ts) && i < |ts|
      requires lp.Keys == vertexSet && LongestSoFar(adjacencyLists, v, ts, i + 1, lp)
      ensures lp'.Keys == vertexSet && LongestSoFar(adjacencyLists, v, ts, i, lp')
    {
      var u := ts[i];
      var val := lp[u];
      lp' := lp;
      if val >= 0 {
        lp' := Relax(u, adjacencyLists[u], val, lp);
      }
      assert Raised(adjacencyLists, u, lp, lp');
      RelaxPreserves(State(), v, ts, i, lp, lp');
    }

    /**
     * `transitive_reduction()`, with the topological order `ts` as a parameter: a fresh
     * graph with the same vertices and labels, keeping the edges whose longest walk
     * has one step, with their labels (`ReductionFacts`).
     */
    method TransitiveReduction(ts: seq<V>) returns (result: DirectedAcyclicGraph<V>)
      requires Valid() && TopologicalOrder(adjacencyLists, vertexSet, ts)
      ensures fresh(result) && result.Valid()
      ensures result.State() == ReductionOf(State())
    {
      ghost var g := State();
      result := CopyVertices();
      BuiltNothing(g.vs, g.vl, g.el, ReductionTargets(g));
      var rest := vertexSet;
      while rest != {}
        invariant fresh(result) && rest <= vertexSet
        invariant result.State() == Built(g.vs, g.vl, g.el, ReductionTargets(g), rest)
        decreases rest
      {
        var v :| v in rest;
        AddReductionRow(result, ts, v, rest);
        rest := rest - {v};
      }
      BuiltWellFormed(g.vs, g.vl, g.el, ReductionTargets(g), {});
    }

    /**
     * One round of the reduction's outer loop: the edges from `v` to the vertices whose
     * entry is 1, each labelled by `edge_label(v, w)`, which always exists.
     */
    method AddReductionRow(result: DirectedAcyclicGraph<V>, ts: seq<V>, v: V, ghost pending: set<V>)
      requires result != this && Valid() && TopologicalOrder(adjacencyLists, vertexSet, ts)
      requires v in pending && pending <= vertexSet
      requires result.State() == Built(vertexSet, vertexLabels, edgeLabels, ReductionTargets(State()), pending)
      modifies result
      ensures result.State() == Built(vertexSet, vertexLabels, edgeLabels, ReductionTargets(State()), pending - {v})
    {
      ghost var g := State();
      BuiltWellFormed(g.vs, g.vl, g.el, ReductionTargets(g), pending);
      var targets := ReductionRowTargets(v, ts);
      var labelOf := map w | w in targets :: edgeLabels[v][w];
      BuiltStep(g.vs, g.vl, g.el, ReductionTargets(g), pending, v, labelOf);
      result.AddEdgesFrom(v, targets, labelOf);
    }

    /**
     * The longest-path table of `v` and the vertices whose entry is 1: exactly the
     * successors of `v` that the reduction keeps.
     */
    method ReductionRowTargets(v: V, ts: seq<V>) returns (targets: set<V>)
      requires Valid() && v in vertexSet && TopologicalOrder(adjacencyLists, vertexSet, ts)
      ensures targets == ReductionTargets(State())[v]
      ensures targets <= adjacencyLists[v]
    {
      var lp := LongestPaths(v, ts);
      targets := set w | w in lp && lp[w] == 1;
      ReductionRow(State(), v, lp);
    }

    /**
     * `graphviz()`: the vertices numbered 0..n-1 in one iteration order, one node
     * statement per vertex carrying its label, then one edge statement per edge
     * carrying the edge's label, and nothing else.
     */
    method Graphviz() returns (order: seq<V>, indices: map<V, nat>, statements: seq<GraphvizText.Statement>, gv: string)
      requires Valid()
      ensures GraphvizText.Numbering(vertexSet, order, indices)
      ensures |statements| == |vertexSet| + |EdgeSet()|
      ensures forall v :: v in vertexSet ==>
        statements[indices[v]] == GraphvizText.Node(indices[v], vertexLabels[v])
      ensures forall u, v :: (u, v) in EdgeSet() ==>
        GraphvizText.Edge(indices[u], indices[v], Some(edgeLabels[u][v])) in statements[|vertexSet|..]
      ensures forall s :: s in statements[|vertexSet|..] ==>
        exists u, v :: (u, v) in EdgeSet() && s == GraphvizText.Edge(indices[u], indices[v], Some(edgeLabels[u][v]))
      ensures Distinct(statements) && GraphvizText.DistinctLines(statements)
      ensures gv == GraphvizText.Render(statements)
    {
      var es := Edges();
      var labels := map e | e in es :: Some(edgeLabels[e.0][e.1]);
      order, indices, statements, gv := GraphvizText.Describe(vertexSet, vertexLabels, es, labels);
      var n := |vertexSet|;
      GraphvizText.EdgeSection(statements, n, indices, es, labels);
      forall v | v in vertexSet
        ensures statements[indices[v]] == GraphvizText.Node(indices[v], vertexLabels[v])
      {
        GraphvizText.NodeLineAt(vertexSet, order, indices, statements, vertexLabels, v);
      }
      forall u, v | (u, v) in EdgeSet()
        ensures GraphvizText.Edge(indices[u], indices[v], Some(edgeLabels[u][v])) in statements[n..]
      {
        assert (u, v) in es;
      }
      forall s | s in statements[n..]
        ensures exists u, v :: (u, v) in EdgeSet() && s == GraphvizText.Edge(indices[u], indices[v], Some(edgeLabels[u][v]))
      {
        var e :| e in es && s == GraphvizText.Edge(indices[e.0], indices[e.1], labels[e]);
        assert (e.0, e.1) in EdgeSet();
      }
    }
  }

  /** The vertices carrying `label`, in one iteration order of the vertices. */
  method LabelHolders<V(==)>(vs: set<V>, vl: map<V, string>, lbl: string) returns (matching: seq<V>)
    requires vs <= vl.Keys
    ensures Distinct(matching)
    ensures forall v :: v in matching <==> v in vs && vl[v] == lbl
  {
    var order := Enumerate(vs);
    matching := [];
    var i := 0;
    while i < |order|
      invariant 0 <= i <= |order|
      invariant Distinct(matching)
      invariant forall v :: v in matching <==> v in order[..i] && vl[v] == lbl
    {
      if vl[order[i]] == lbl {
        assert order[i] !in order[..i];
        matching := matching + [order[i]];
      }
      assert order[..i + 1] == order[..i] + [order[i]];
      i := i + 1;
    }
    assert order[..i] == order;
  }

  /** Every vertex in `reachable` is reachable from `v`. */
  ghost predicate AllReachable<V(!new)>(adj: map<V, set<V>>, v: V, reachable: set<V>) {
    forall x :: x in reachable ==> Reachable(adj, v, x)
  }

  /** Every reached vertex off the work stack has all its successors reached. */
  ghost predicate Explored<V>(adj: map<V, set<V>>, reachable: set<V>, workstack: seq<V>) {
    forall x :: x in reachable && x !in workstack && x in adj ==> adj[x] <= reachable
  }

  /**
   * One pass of the outer loop of `descendants`: pop the top of the work stack and
   * push its successors not yet reached. Either more vertices are reached or the
   * stack shrinks, and the worklist invariants are kept.
   */
  method ExploreTop<V(!new)>(adj: map<V, set<V>>, vs: set<V>, v: V, reachable: set<V>, workstack: seq<V>)
    returns (reachable': set<V>, workstack': seq<V>)
    requires adj.Keys == vs && forall a :: a in adj ==> adj[a] <= vs
    requires workstack != [] && reachable <= vs && v in reachable
    requires Distinct(workstack) && Elements(workstack) <= reachable
    requires AllReachable(adj, v, reachable) && Explored(adj, reachable, workstack)
    ensures reachable <= reachable' <= vs
    ensures Distinct(workstack') && Elements(workstack') <= reachable'
    ensures AllReachable(adj, v, reachable') && Explored(adj, reachable', workstack')
    ensures reachable' != reachable || |workstack'| < |workstack|
  {
    var u := workstack[|workstack| - 1];
    var rest := workstack[..|workstack| - 1];
    assert forall x :: x in workstack <==> x in rest || x == u;
    forall w | w in adj[u] ensures Reachable(adj, v, w) {
      ReachableStep(adj, v, u, w);
    }
    var successors := Enumerate(adj[u]);
    reachable', workstack' := PushUnseen(successors, reachable, rest);
  }

  /**
   * The inner loop of `descendants`: every `w` of `successors` not yet in `reachable`
   * is pushed on the work stack and marked reachable.
   */
  method PushUnseen<V(==)>(successors: seq<V>, reachable: set<V>, workstack: seq<V>)
    returns (reachable': set<V>, workstack': seq<V>)
    requires Distinct(workstack) && Elements(workstack) <= reachable
    ensures reachable' == reachable + Elements(successors)
    ensures Distinct(workstack') && Elements(workstack') <= reachable'
    ensures forall x :: x in workstack' <==> x in workstack || (x in successors && x !in reachable)
    ensures Elements(successors) <= reachable ==> workstack' == workstack
  {
    reachable', workstack' := reachable, workstack;
    var j := 0;
    while j < |successors|
      invariant 0 <= j <= |successors|
      invariant reachable' == reachable + Elements(successors[..j])
      invariant Distinct(workstack') && Elements(workstack') <= reachable'
      invariant forall x :: x in workstack' <==> x in workstack || (x in successors[..j] && x !in reachable)
      invariant reachable' == reachable ==> workstack' == workstack
    {
      var w := successors[j];
      if w !in reachable' {
        workstack' := workstack' + [w];
        reachable' := reachable' + {w};
      }
      assert successors[..j + 1] == successors[..j] + [w];
      j := j + 1;
    }
    assert successors[..j] == successors;
  }

  /**
   * The inner loop of `transitive_reduction`: every successor `w` of `u` other than
   * `u` itself has its entry raised to at least `val + 1`.
   */
  method Relax<V(==)>(u: V, successors: set<V>, val: int, lp: map<V, int>) returns (lp': map<V, int>)
    requires successors <= lp.Keys
    ensures lp'.Keys == lp.Keys
    ensures forall x :: x in lp ==> lp'[x] == if x in successors && x != u then Max(val + 1, lp[x]) else lp[x]
  {
    var order := Enumerate(successors);
    lp' := lp;
    var j := 0;
    while j < |order|
      invariant 0 <= j <= |order|
      invariant lp'.Keys == lp.Keys
      invariant forall x :: x in lp ==> lp'[x] == if x in order[..j] && x != u then Max(val + 1, lp[x]) else lp[x]
    {
      var w := order[j];
      if u != w {
        lp' := lp'[w := Max(val + 1, lp'[w])];
      }
      assert order[..j + 1] == order[..j] + [w];
      j := j + 1;
    }
    assert order[..j] == order;
  }
}
