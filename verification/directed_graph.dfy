/**
 * A mutable directed graph over caller-supplied vertex identifiers: a vertex set,
 * an adjacency list (vertex -> set of successors) and an optional label per vertex.
 */
module DirectedGraph {
  import opened Wrappers
  import opened Collections
  import opened Paths
  import GraphvizText

  /** `adjacencies` and `remove_edge` look the vertex up in a dictionary. */
  datatype GraphError = KeyError

  class DiGraph<V(==,!new)> {
    /** Python's `str(v)`, the label of a vertex that was given none. */
    const str: V -> string
    var graphVertices: set<V>
    var adjacencyLists: map<V, set<V>>
    var vertexLabels: map<V, string>

    /** Every vertex has a successor set, every successor is a vertex, only vertices are labelled. */
    ghost predicate Valid()
      reads this
    {
      && adjacencyLists.Keys == graphVertices
      && (forall u :: u in adjacencyLists ==> adjacencyLists[u] <= graphVertices)
      && vertexLabels.Keys <= graphVertices
    }

    /** The pairs `(u, v)` with `v` a successor of `u`. */
    ghost function EdgeSet(): set<(V, V)>
      reads this
      requires Valid()
    {
      EdgePairs(adjacencyLists)
    }

    constructor (str: V -> string)
      ensures Valid()
      ensures this.str == str
      ensures graphVertices == {} && adjacencyLists == map[] && vertexLabels == map[]
    {
      this.str := str;
      graphVertices := {};
      adjacencyLists := map[];
      vertexLabels := map[];
    }

    /**
     * The stored label of `v`, or `str(v)` when it has none; it never fails, and a
     * vertex that was never added is labelled `str(v)`.
     */
    function VertexLabel(v: V): (r: string)
      reads this
      ensures Valid() && v !in graphVertices ==> r == str(v)
    {
      if v in vertexLabels then vertexLabels[v] else str(v)
    }

    /** The vertex set: exactly the vertices whose successors can be looked up, the endpoints of every edge among them. */
    function Vertices(): (r: set<V>)
      reads this
      ensures Valid() ==> forall v :: v in r <==> Adjacencies(v).Ok?
      ensures Valid() ==> forall u, w :: (u, w) in EdgeSet() ==> u in r && w in r
    {
      graphVertices
    }

    /** The successor set of `v`; `KeyError` when `v` is not a vertex. */
    function Adjacencies(v: V): (r: Result<set<V>, GraphError>)
      reads this
      requires Valid()
      ensures r.Err? <==> v !in graphVertices
      ensures r.Ok? ==> r.value <= graphVertices
      ensures r.Ok? ==> forall w :: w in r.value <==> (v, w) in EdgeSet()
    {
      if v in adjacencyLists then Ok(adjacencyLists[v]) else Err(KeyError)
    }

    /**
     * Adding a vertex that is already present changes nothing, not even its label;
     * a new vertex gets no successors and a label only when one is given.
     */
    method AddVertex(v: V, lbl: Option<string>)
      requires Valid()
      modifies this
      ensures Valid()
      ensures graphVertices == old(graphVertices) + {v}
      ensures adjacencyLists == WithKey(old(adjacencyLists), v, {})
      ensures vertexLabels == if v in old(graphVertices) || lbl.None? then old(vertexLabels)
                              else old(vertexLabels)[v := lbl.value]
      ensures v in old(graphVertices) ==> unchanged(this)
      ensures VertexLabel(v) == if v in old(graphVertices) then old(VertexLabel(v))
                                else if lbl.Some? then lbl.value else str(v)
    {
      if v in graphVertices {
        return;
      }
      graphVertices := graphVertices + {v};
      adjacencyLists := adjacencyLists[v := {}];
      if lbl.Some? {
        vertexLabels := vertexLabels[v := lbl.value];
      }
    }

    /**
     * Adds both endpoints (unlabelled, when new) and then `v` to the successors of `u`;
     * nothing else changes, and adding an edge that is present is a no-op.
     */
    method AddEdge(u: V, v: V)
      requires Valid()
      modifies this
      ensures Valid()
      ensures graphVertices == old(graphVertices) + {u, v}
      ensures adjacencyLists == var a := WithKey(WithKey(old(adjacencyLists), u, {}), v, {});
                                a[u := a[u] + {v}]
      ensures vertexLabels == old(vertexLabels)
      ensures v in adjacencyLists[u]
      ensures EdgeSet() == old(EdgeSet()) + {(u, v)}
      ensures old(u in graphVertices && v in adjacencyLists[u]) ==> unchanged(this)
    {
      ghost var start := adjacencyLists;
      AddVertex(u, None);
      AddVertex(v, None);
      EdgePairsWithKey(start, u);
      EdgePairsWithKey(WithKey(start, u, {}), v);
      ghost var before := adjacencyLists;
      adjacencyLists := adjacencyLists[u := adjacencyLists[u] + {v}];
      EdgePairsInsert(before, u, v);
      if v in before[u] {
        assert before[u] + {v} == before[u];
        assert adjacencyLists == before;
      }
    }

    /**
     * Discards `v` from the successors of `u`; `KeyError`, and no change, when `u` is
     * not a vertex. The vertex set never changes, and removing an absent edge is a no-op.
     */
    method RemoveEdge(u: V, v: V) returns (r: Outcome<GraphError>)
      requires Valid()
      modifies this
      ensures Valid()
      ensures r == if u in old(graphVertices) then Pass else Fail(KeyError)
      ensures graphVertices == old(graphVertices) && vertexLabels == old(vertexLabels)
      ensures r.Pass? ==> adjacencyLists == old(adjacencyLists)[u := old(adjacencyLists)[u] - {v}]
      ensures r.Fail? ==> unchanged(this)
      ensures EdgeSet() == old(EdgeSet()) - {(u, v)}
      ensures old((u, v) !in EdgeSet()) ==> unchanged(this)
    {
      if u !in adjacencyLists {
        return Fail(KeyError);
      }
      ghost var before := adjacencyLists;
      adjacencyLists := adjacencyLists[u := adjacencyLists[u] - {v}];
      EdgePairsDelete(before, u, v);
      if v !in before[u] {
        assert before[u] - {v} == before[u];
        assert adjacencyLists == before;
      }
      r := Pass;
    }

    /** Every edge once, listed vertex by vertex and successor by successor. */
    method Edges() returns (es: seq<(V, V)>)
      requires Valid()
      ensures Distinct(es)
      ensures forall e :: e in es <==> e in EdgeSet()
      ensures |es| == |EdgeSet()|
    {
      es := ListEdges(adjacencyLists);
    }

    /**
     * The Graphviz text of the graph: every vertex numbered by its position in one
     * iteration order of the vertex set, one node statement per vertex carrying its
     * label, then one unlabelled edge statement per edge and nothing else.
     */
    method Graphviz() returns (order: seq<V>, indices: map<V, nat>, statements: seq<GraphvizText.Statement>, gv: string)
      requires Valid()
      ensures GraphvizText.Numbering(graphVertices, order, indices)
      ensures |statements| == |graphVertices| + |EdgeSet()|
      ensures forall v :: v in graphVertices ==>
        statements[indices[v]] == GraphvizText.Node(indices[v], VertexLabel(v))
      ensures forall u, v :: (u, v) in EdgeSet() ==>
        GraphvizText.Edge(indices[u], indices[v], None) in statements[|graphVertices|..]
      ensures forall s :: s in statements[|graphVertices|..] ==>
        exists u, v :: (u, v) in EdgeSet() && s == GraphvizText.Edge(indices[u], indices[v], None)
      ensures Distinct(statements) && GraphvizText.DistinctLines(statements)
      ensures gv == GraphvizText.Render(statements)
    {
      var es := Edges();
      var labels := map v | v in graphVertices :: VertexLabel(v);
      var edgeLabels := map e | e in es :: None;
      order, indices, statements, gv := GraphvizText.Describe(graphVertices, labels, es, edgeLabels);
      var n := |graphVertices|;
      GraphvizText.EdgeSection(statements, n, indices, es, edgeLabels);
      forall v | v in graphVertices
        ensures statements[indices[v]] == GraphvizText.Node(indices[v], VertexLabel(v))
      {
        GraphvizText.NodeLineAt(graphVertices, order, indices, statements, labels, v);
      }
      forall u, v | (u, v) in EdgeSet()
        ensures GraphvizText.Edge(indices[u], indices[v], None) in statements[n..]
      {
        assert (u, v) in es;
      }
      forall s | s in statements[n..]
        ensures exists u, v :: (u, v) in EdgeSet() && s == GraphvizText.Edge(indices[u], indices[v], None)
      {
        var e :| e in es && s == GraphvizText.Edge(indices[e.0], indices[e.1], edgeLabels[e]);
        assert (e.0, e.1) in EdgeSet();
      }
    }
  }
}
