# pychomp graph classes and cubical-homology front end, in Dafny

This project models three pieces of the pychomp Python package and proves what they
promise.

- **`DiGraph`** (module `DirectedGraph`) is a mutable directed graph. It holds a vertex
  set, a map from each vertex to its set of successors, and an optional label per vertex.
  It is a Dafny class whose methods update those fields in place. `Valid()` is the
  representation invariant: the adjacency keys are exactly the vertices, and every
  successor is a vertex.
- **`DirectedAcyclicGraph`** (module `DAG`) is the same kind of class plus a label on every
  vertex and on every edge. It also has the graph algorithms:
  - `get_vertex_from_label`;
  - `transpose`;
  - `descendants`, a worklist search;
  - `transitive_closure`, which collects reachable vertices along a topological order;
  - `transitive_reduction`, which computes longest paths along a topological order;
  - `graphviz`.

  Each method is proved against a specification on values. The datatype `Shape` holds a
  graph's contents, and `State()` is the object's current `Shape`. The functions
  `AddVertexTo`, `AddEdgeTo`, `RemoveEdgeFrom`, `TransposeOf`, `ClosureOf` and
  `ReductionOf` say what the result must be. The `...Facts` lemmas say what those
  functions mean, in terms of edges, reachability and longest paths.
- **`CubicalHomology`** models the pure front end of `CubicalHomology(cubes)`:
  - the space dimension;
  - the per-axis grid size and its extension by a fringe;
  - the shape code of top cells;
  - the set of listed cell indices;
  - the 0/1 grading.

  The cubical-complex engine appears only through its two queries, `cell_index` and
  `topstar`. They are function-valued fields of the `Engine` datatype.

Shared modules:
- `Paths`: edge pairs, walks, reachability, walks without self-loops, topological orders.
- `Collections`: distinctness, the element set of a sequence, and `Enumerate`. `Enumerate`
  is one arbitrary iteration order of a finite set, which is how Python iterates a set.
- `GraphvizText`: the digraph text that both classes emit.
- `Wrappers`: `Option`, `Result` and `Outcome`.

A Python exception is modelled as an `Err`/`Fail` value with the exception's name
(`KeyError`, `ValueError`, `IndexError`). Some behaviours of the code worth stating plainly:
- `DiGraph.vertex_label` of a vertex that was never added returns `str(v)`; it does not fail.
- Neither `graphviz` method escapes labels.
- An empty cube list fails with `IndexError` when `cubes[0]` is read.
- The first cube fixes the dimension. A cube shorter than the first one raises `IndexError`
  in the grid-size comprehension. The grid sizes ignore the extra coordinates of longer cubes,
  but `cell_index` receives every cube whole.

## Model

| member | source | states |
|---|---|---|
| DirectedGraph.DiGraph.constructor | src/pychomp/DirectedGraph.py:6-10 | a new graph has no vertices, no adjacency lists and no labels, and is valid |
| DirectedGraph.DiGraph.AddVertex | src/pychomp/DirectedGraph.py:12-19 | adding a vertex that is present changes nothing, its label included (the first label wins); a new vertex gets an empty successor set and a label only when one is given; the vertex's label afterwards is the old one, the given one, or `str(v)`; validity is kept |
| DirectedGraph.DiGraph.AddEdge | src/pychomp/DirectedGraph.py:21-25 | both endpoints become vertices; `v` becomes a successor of `u`; labels are untouched; the edge set gains exactly `(u, v)`; repeating the call changes nothing; validity is kept |
| DirectedGraph.DiGraph.VertexLabel | src/pychomp/DirectedGraph.py:31-35 | never fails: a vertex that was never added (so has no stored label) is labelled `str(v)`; with `AddVertex`'s contract, a vertex's label is the first label it was given, or `str(v)` when none was |
| DirectedGraph.DiGraph.Vertices | src/pychomp/DirectedGraph.py:37-39 | exactly the vertices whose successor set can be looked up without `KeyError`, and the endpoints of every edge are among them |
| DirectedGraph.DiGraph.RemoveEdge | src/pychomp/DirectedGraph.py:27-29 | `KeyError`, with no change, exactly when `u` is not a vertex; otherwise `v` is discarded from `u`'s successors; vertices and labels never change; the edge set loses exactly `(u, v)`; removing an absent edge is a no-op |
| DirectedGraph.DiGraph.Adjacencies | src/pychomp/DirectedGraph.py:41-43 | `KeyError` exactly when `v` is not a vertex; otherwise the successors of `v`, which are exactly the `w` with `(v, w)` an edge, all of them vertices |
| DirectedGraph.DiGraph.Edges | src/pychomp/DirectedGraph.py:45-47 | the list contains every edge, only edges, and each one once |
| DirectedGraph.DiGraph.Graphviz | src/pychomp/DirectedGraph.py:49-57 | the indices number the vertices bijectively 0..n-1; the statement at each vertex's index is its node statement with `vertex_label(v)`; after the n node statements comes one unlabelled edge statement per edge and nothing else; no statement and no text line repeats; the text is the rendering of the statements |
| Paths.ListEdges | src/pychomp/DirectedGraph.py:45-47 | the comprehension over vertices and their successors lists each edge pair exactly once |
| GraphvizText.DecimalString | src/pychomp/DirectedGraph.py:52 | `str(k)` of a node index is a non-empty string of decimal digits, with at least two digits from 10 on |
| GraphvizText.DecimalRoundTrip | src/pychomp/DirectedGraph.py:52 | the digits of `str(k)` spell `k` back |
| GraphvizText.DecimalStringInjective | src/pychomp/DirectedGraph.py:52 | different node indices are written as different strings |
| GraphvizText.DecimalPrefix | src/pychomp/DirectedGraph.py:52-56 | an index followed by text that does not start with a digit can be read back: equal lines give equal indices and equal remainders |
| GraphvizText.StatementTextInjective | src/pychomp/DirectedGraph.py:54-56 | a line of the text determines its statement: different node or edge statements are written as different lines |
| GraphvizText.EdgeTextInjective | src/pychomp/DirectedGraph.py:56 | two edge lines that are equal have the same source index, target index and label |
| GraphvizText.LinesDistinct | src/pychomp/DirectedGraph.py:51-57 | statements that do not repeat give text lines that do not repeat |
| GraphvizText.NumberVertices | src/pychomp/DirectedGraph.py:52 | `enumerate(vertices)` numbers the vertices by their position in one iteration order: a bijection onto 0..n-1 |
| GraphvizText.NodeStatements | src/pychomp/DirectedGraph.py:53-54 | one node statement per vertex, in iteration order, with the vertex's label; the text built so far is their rendering |
| GraphvizText.EdgeStatements | src/pychomp/DirectedGraph.py:55-56 | after the node statements, which stay unchanged, one edge statement per entry of the edge list, in order, between the two endpoint indices |
| GraphvizText.StatementsDistinct | src/pychomp/DirectedGraph.py:53-56 | node statements with distinct indices followed by the statements of a duplicate-free edge list repeat nothing |
| GraphvizText.Describe | src/pychomp/DirectedGraph.py:49-57 | the whole export: a numbering, node lines, edge lines, no repeated statement and no repeated text line, and the text `digraph {` + statements + `}` |
| GraphvizText.EdgeSection | src/pychomp/DirectedGraph.py:55-56 | every listed edge has its statement after the node statements, and every statement there comes from a listed edge |
| GraphvizText.NodeLineAt | src/pychomp/DirectedGraph.py:52-54 | each vertex's node statement sits at the vertex's own index |
| DAG.AddVertexTo | src/pychomp/DirectedAcyclicGraph.py:24-30 | the vertex set gains exactly `v`; adding a vertex that is present returns the graph unchanged, so its first label stays |
| DAG.AddEdgeTo | src/pychomp/DirectedAcyclicGraph.py:31-37 | the vertex set gains exactly `u` and `v`, and the edge set exactly `(u, v)` |
| DAG.Link | src/pychomp/DirectedAcyclicGraph.py:36-37 | on a vertex `u` already present: the edge set gains exactly `(u, v)`, the edge is labelled `label`, and vertices and vertex labels are kept |
| DAG.RemoveEdgeFrom | src/pychomp/DirectedAcyclicGraph.py:38-41 | the edge set loses exactly `(u, v)`, `v` has no edge label under `u` any more, and vertices and vertex labels are kept |
| DAG.AddVertexFacts | src/pychomp/DirectedAcyclicGraph.py:24-30 | adding a vertex keeps the graph well formed, adds exactly that vertex and no edge; a present vertex keeps its label, and a new one gets the given label (default `''`) |
| DAG.AddEdgeWellFormed | src/pychomp/DirectedAcyclicGraph.py:31-37 | `add_edge` keeps the graph well formed and adds exactly `u` and `v` to the vertices |
| DAG.AddEdgeFacts | src/pychomp/DirectedAcyclicGraph.py:31-37 | the edge set gains exactly `(u, v)`; the edge's label is the given one, so a re-added edge takes the last label; every other vertex label and edge label is kept |
| DAG.RemoveEdgeFacts | src/pychomp/DirectedAcyclicGraph.py:38-41 | removing keeps the graph well formed, keeps the vertices and their labels, removes exactly the edge `(u, v)`, and drops its label |
| DAG.RemoveAbsentEdge | src/pychomp/DirectedAcyclicGraph.py:38-41 | removing an edge that is not there changes nothing |
| DAG.AddThenRemoveEdge | src/pychomp/DirectedAcyclicGraph.py:31-41 | adding a new edge between existing vertices and then removing it restores the graph |
| DAG.WithEdgesFromStep | src/pychomp/DirectedAcyclicGraph.py:100-106 | one more `add_edge(v, u, label)` from an existing vertex extends "`v` gains these targets with these labels" by `u`, so adding edges one at a time builds the one-step union used by `AddEdgesFrom` |
| DAG.WithNoEdgesFrom | src/pychomp/DirectedAcyclicGraph.py:100-106 | adding no targets leaves the graph as it is (the base case of the same loop) |
| DAG.BuiltStep | src/pychomp/DirectedAcyclicGraph.py:92-106 | giving one more source vertex its row of edges and labels moves the partly built result one vertex closer to the finished graph |
| DAG.TransposeStep | src/pychomp/DirectedAcyclicGraph.py:74 | after the edges in `done` have been reversed, `add_edge(v, u, edge_label(u, v))` for one more edge yields the graph with that edge reversed too |
| DAG.TransposeFacts | src/pychomp/DirectedAcyclicGraph.py:70-75 | the transpose is well formed, has the same vertices and vertex labels, has `(a, b)` as an edge exactly when `(b, a)` is an edge of the original, and carries over that edge's label |
| DAG.TransposeTwice | src/pychomp/DirectedAcyclicGraph.py:70-75 | transposing twice gives back the original graph, labels included |
| DAG.ClosureFacts | src/pychomp/DirectedAcyclicGraph.py:87-107 | the closure is well formed, has the same vertices and labels, and has `a -> b` exactly when `b != a` and `b` is reachable from `a`; its label is the original edge's label, or `''` when there was no direct edge |
| DAG.ClosureTransitive | src/pychomp/DirectedAcyclicGraph.py:87-107 | the closure is transitive (except for self-loops, which it never has) |
| DAG.ClosureKeepsEdges | src/pychomp/DirectedAcyclicGraph.py:87-107 | every original edge between distinct vertices is in the closure, with its label |
| DAG.ClosureRow | src/pychomp/DirectedAcyclicGraph.py:94-106 | the closure's successors of `v` are the vertices reachable from `v`, except `v` itself |
| DAG.ReductionFacts | src/pychomp/DirectedAcyclicGraph.py:117-135 | the reduction is well formed, has the same vertices and labels, and has `a -> b` exactly when that is an original edge with `a != b` and no walk from `a` to `b` without self-loops is longer than one step; kept edges keep their labels |
| DAG.ReductionWithinClosure | src/pychomp/DirectedAcyclicGraph.py:87-135 | every edge of the reduction is an edge of the closure |
| DAG.LongestStart | src/pychomp/DirectedAcyclicGraph.py:125-126 | the initial table (0 for the source, -1 elsewhere) satisfies the longest-path loop invariant before any vertex is relaxed |
| DAG.RelaxPreserves | src/pychomp/DirectedAcyclicGraph.py:127-132 | relaxing at the next vertex of the reversed topological order keeps every entry attained by a walk without self-loops, and makes it at least as long as every such walk whose last step leaves a vertex relaxed so far |
| DAG.RelaxAttained | src/pychomp/DirectedAcyclicGraph.py:129-132 | a raised entry `val + 1` is attained by extending the walk that attains `val` |
| DAG.RelaxDominates | src/pychomp/DirectedAcyclicGraph.py:127-132 | after relaxing at `ts[i]`, walks whose last step leaves `ts[i]` are dominated too |
| DAG.LongestFinal | src/pychomp/DirectedAcyclicGraph.py:125-132 | after the whole order, each non-negative entry is the length of the longest walk without self-loops from `v`, and a negative entry means there is no such walk |
| DAG.ReductionRow | src/pychomp/DirectedAcyclicGraph.py:133-134 | the vertices whose entry is 1 are exactly the reduction's successors of `v` |
| Paths.StrictPathOneStep | src/pychomp/DirectedAcyclicGraph.py:129-133 | a one-step walk without self-loops from `a` to `b` is exactly an edge `a -> b` with `b != a` |
| DAG.DirectedAcyclicGraph.constructor | src/pychomp/DirectedAcyclicGraph.py:18-23 | a new graph is empty and well formed |
| DAG.DirectedAcyclicGraph.AddVertex | src/pychomp/DirectedAcyclicGraph.py:24-30 | the new state is `add_vertex` applied to the old one, and the graph stays well formed |
| DAG.DirectedAcyclicGraph.AddEdge | src/pychomp/DirectedAcyclicGraph.py:31-37 | the new state is `add_edge` applied to the old one: both endpoints added with label `''`, then the edge and its label |
| DAG.DirectedAcyclicGraph.LinkVertices | src/pychomp/DirectedAcyclicGraph.py:36-37 | between existing vertices, only the successor set and edge-label table of `u` change |
| DAG.DirectedAcyclicGraph.RemoveEdge | src/pychomp/DirectedAcyclicGraph.py:38-41 | `KeyError`, with no change, exactly when `u` is not a vertex; otherwise the new state is `remove_edge` applied to the old one |
| DAG.DirectedAcyclicGraph.VertexLabel | src/pychomp/DirectedAcyclicGraph.py:42-44 | `KeyError` exactly when `v` is not a vertex |
| DAG.DirectedAcyclicGraph.EdgeLabel | src/pychomp/DirectedAcyclicGraph.py:55-57 | a label exactly when `u -> v` is an edge, `KeyError` otherwise |
| DAG.DirectedAcyclicGraph.Adjacencies | src/pychomp/DirectedAcyclicGraph.py:64-66 | `KeyError` exactly when `v` is not a vertex; otherwise exactly the `w` with `(v, w)` an edge |
| DAG.DirectedAcyclicGraph.Vertices | src/pychomp/DirectedAcyclicGraph.py:58-60 | exactly the vertices whose successor set and label can be looked up without `KeyError`, and the endpoints of every edge are among them |
| DAG.DirectedAcyclicGraph.Edges | src/pychomp/DirectedAcyclicGraph.py:61-63 | every edge exactly once |
| DAG.DirectedAcyclicGraph.GetVertexFromLabel | src/pychomp/DirectedAcyclicGraph.py:45-54 | `None` exactly when no vertex has the label; `ValueError` exactly when two different vertices have it; otherwise the one vertex that has it |
| DAG.LabelHolders | src/pychomp/DirectedAcyclicGraph.py:47 | the list holds each vertex with the label exactly once, and nothing else |
| DAG.DirectedAcyclicGraph.CopyVertices | src/pychomp/DirectedAcyclicGraph.py:72-73 | a fresh graph with the same vertices and vertex labels and no edges |
| DAG.DirectedAcyclicGraph.AddEdgesFrom | src/pychomp/DirectedAcyclicGraph.py:100-106 | `v` gains the given targets as successors, each with its label, and nothing else changes |
| DAG.DirectedAcyclicGraph.Transpose | src/pychomp/DirectedAcyclicGraph.py:70-75 | a fresh well-formed graph equal to the transpose (see `DAG.TransposeFacts`) |
| DAG.DirectedAcyclicGraph.AddReversedEdge | src/pychomp/DirectedAcyclicGraph.py:74 | one round of the transpose loop reverses one more edge |
| DAG.DirectedAcyclicGraph.Descendants | src/pychomp/DirectedAcyclicGraph.py:76-86 | `KeyError` exactly when `v` is not a vertex; otherwise exactly the vertices reachable from `v` (so it contains `v` and is closed under successors) |
| DAG.ExploreTop | src/pychomp/DirectedAcyclicGraph.py:80-85 | popping the work stack and pushing unseen successors keeps the stack duplicate-free and inside `reachable`, keeps `reachable` reachable from `v`, keeps every reached vertex off the stack fully explored, and makes progress |
| DAG.PushUnseen | src/pychomp/DirectedAcyclicGraph.py:82-85 | `reachable` gains exactly the successors; the stack gains exactly those successors not reached before, with no duplicates |
| DAG.DirectedAcyclicGraph.ReachableInOrder | src/pychomp/DirectedAcyclicGraph.py:94-99 | walking a topological order backwards and adding the successors of reached vertices yields exactly the vertices reachable from `v` |
| DAG.DirectedAcyclicGraph.TransitiveClosure | src/pychomp/DirectedAcyclicGraph.py:87-107 | a fresh well-formed graph equal to the closure (see `DAG.ClosureFacts`) |
| DAG.DirectedAcyclicGraph.ClosureLabels | src/pychomp/DirectedAcyclicGraph.py:100-105 | the loop over the targets gives each one a label: the label of the edge `v -> u` when the graph has that edge, and `''` when the lookup fails |
| DAG.DirectedAcyclicGraph.AddClosureRow | src/pychomp/DirectedAcyclicGraph.py:92-106 | one round of the outer loop adds the closure row of one more source vertex |
| DAG.Relax | src/pychomp/DirectedAcyclicGraph.py:130-132 | every successor `w != u` gets `max(val + 1, lp[w])`, and every other entry is unchanged |
| DAG.DirectedAcyclicGraph.RelaxAt | src/pychomp/DirectedAcyclicGraph.py:127-132 | one round of the longest-path loop extends the invariant to one more vertex of the order |
| DAG.DirectedAcyclicGraph.LongestPaths | src/pychomp/DirectedAcyclicGraph.py:124-132 | the table covers every vertex; a non-negative entry is the length of the longest walk without self-loops from `v`; -1 means there is none |
| DAG.DirectedAcyclicGraph.TransitiveReduction | src/pychomp/DirectedAcyclicGraph.py:117-135 | a fresh well-formed graph equal to the reduction (see `DAG.ReductionFacts`) |
| DAG.DirectedAcyclicGraph.ReductionRowTargets | src/pychomp/DirectedAcyclicGraph.py:124-134 | the vertices whose longest-path entry is 1 are exactly the successors of `v` that the reduction keeps |
| DAG.DirectedAcyclicGraph.AddReductionRow | src/pychomp/DirectedAcyclicGraph.py:123-134 | one round of the outer loop adds the reduction row of one more source vertex, labels included |
| DAG.DirectedAcyclicGraph.Graphviz | src/pychomp/DirectedAcyclicGraph.py:143-150 | the numbering is a bijection onto 0..n-1; there is one node statement per vertex with its label, then one labelled edge statement per edge and nothing else; no statement and no text line repeats; the text is their rendering |
| CubicalHomology.MaxCoord | src/pychomp/CubicalHomology.py:17 | `max(cubes, key=lambda c: c[d])[d]` bounds every cube's coordinate on axis `d` and is attained by some cube |
| CubicalHomology.GridSize | src/pychomp/CubicalHomology.py:17 | one size per axis, each strictly above every cube's coordinate on that axis and equal to some cube's coordinate + 1 |
| CubicalHomology.GridSizeExt | src/pychomp/CubicalHomology.py:19 | built axis by axis, the extended grid has the same number of axes, each 2 larger |
| CubicalHomology.TopShape | src/pychomp/CubicalHomology.py:23 | the shape code is below `2^dim` |
| CubicalHomology.TopShapeBits | src/pychomp/CubicalHomology.py:23 | bit `i` of `2^dim - 1` is set exactly when `i < dim`: one bit per axis |
| CubicalHomology.CellsIndices | src/pychomp/CubicalHomology.py:25 | collected cube by cube, the set of cell indices is the image of the cubes under `cell_index(·, shape)`, with at most one index per cube |
| CubicalHomology.CellsIndicesSameCubes | src/pychomp/CubicalHomology.py:25 | the cell indices depend only on which cubes are listed, not on their order or repetition |
| CubicalHomology.AnyListed | src/pychomp/CubicalHomology.py:28 | scanning the top star, the answer is true exactly when some cell of the star is listed |
| CubicalHomology.Grading | src/pychomp/CubicalHomology.py:27-30 | through the scan of the top star, the grade is 0 or 1, and 0 exactly when some cell of the top star is listed |
| CubicalHomology.Prepare | src/pychomp/CubicalHomology.py:14-25 | `IndexError` exactly when there are no cubes or some cube is shorter than the first; otherwise the dimension is the first cube's length, the grid sizes bound and are attained by the cubes, the extended sizes add 2, `shape + 1 == 2^dim`, and the cells are the image of the cubes |
| CubicalHomology.MaxCoordSameCubes | src/pychomp/CubicalHomology.py:17 | the largest coordinate depends only on which cubes are listed |
| CubicalHomology.PrepareSameCubes | src/pychomp/CubicalHomology.py:15-25 | reordering or repeating the cubes leaves every computed value unchanged, provided the first cube keeps its length |
| CubicalHomology.FirstCubeFixesDimension | src/pychomp/CubicalHomology.py:15-17 | with cubes of different lengths the order matters: `[[1, 2], [3]]` fails while `[[3], [1, 2]]` succeeds with dimension 1 |
| CubicalHomology.GradingMonotone | src/pychomp/CubicalHomology.py:27-30 | listing more cells can only lower a grade |
| CubicalHomology.ListedCubesGradedZero | src/pychomp/CubicalHomology.py:25-30 | when the engine counts a top cell in its own top star, every listed cube's cell is graded 0 |

## Left out

- `clone` (`copy.deepcopy`) and `_repr_svg_` (rendering through the graphviz library) are not modelled: the first is a library deep copy and the second a foreign call.
- `TopologicalSort.py` is not part of this model. `transitive_closure` and `transitive_reduction` take the order as a parameter `ts`, with the precondition `Paths.TopologicalOrder`: `ts` lists every vertex once, and for every edge `u -> w` with `u != w`, `w` comes before `u` in `ts`. What the methods do on a graph with cycles is not modelled.
- The engine calls `CubicalComplex`, `GradedComplex`, `ConnectionMatrix` and `count()` belong to the compiled engine, so the Betti numbers are not computed. `cell_index` and `topstar` are arbitrary functions of the extended grid.
- `Braids.py`, the package `__init__` re-exports and the tests are not part of this model. The commented-out versions of the closure and reduction are not modelled either.
- DAG.DirectedAcyclicGraph.AddEdgesFrom: the closure's and the reduction's per-target `add_edge(v, u, label)` loops are written as one update that adds all targets and their labels at once. `DAG.WithEdgesFromStep` and `DAG.WithNoEdgesFrom` prove that adding the same edges one at a time gives the same graph, but the loop itself is not in the model.
- Python's set iteration order is unspecified. `Collections.Enumerate` stands for one arbitrary order, and every result is proved for any such order. The arbitrary `x :| x in rest` choice in the vertex loops plays the same role.
- GraphvizText.Describe: both `graphviz` methods iterate the vertex set twice, once to number the vertices and once to write the node statements. The model uses one order for both passes. It assumes that two passes over an unchanged set visit it in the same order. CPython does this, but the language does not promise it. The `Graphviz` contracts placing each node statement at its vertex's index rest on this assumption.
- CubicalHomology.Prepare: engine failures are not modelled. `CubicalComplex(grid_size_ext)` and `cell_index` could raise for a grid or cube they reject, for example a negative coordinate. The model's engine queries are total functions, so the error condition covers only the code's own `IndexError`.
- `vertices()` and `adjacencies(v)` return the graph's own Python sets, so a caller could change the graph through them. The model returns values, and that aliasing is not captured.
- `str(v)` is an arbitrary function from vertices to strings, given to the `DiGraph` constructor.
- Strings are sequences of characters. The model does not escape labels, and neither does the Python code.
- CubicalHomology.PrepareSameCubes: order and repetition are proved not to matter only when both lists are non-empty and their first cubes have the same length. `CubicalHomology.FirstCubeFixesDimension` shows that the statement fails otherwise.
- CubicalHomology.ListedCubesGradedZero: this depends on a property of the engine, namely that a top cell lies in its own top star. The model does not derive that property; it is a precondition.
