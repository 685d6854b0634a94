/**
 * The textual digraph description both graph classes export: one node statement per
 * vertex, then one edge statement per edge, nodes named by positional ids 0..n-1.
 */
module GraphvizText {
  import opened Wrappers
  import opened Collections

  /** A node with its label, or an edge between two node ids with an optional label. */
  datatype Statement =
    | Node(id: nat, text: string)
    | Edge(source: nat, target: nat, edgeText: Option<string>)

  function Digit(d: nat): (c: char)
    requires d < 10
    ensures '0' <= c <= '9'
  {
    (48 + d) as char
  }

  /** A string of decimal digits only. */
  predicate AllDigits(s: string) {
    forall i :: 0 <= i < |s| ==> '0' <= s[i] <= '9'
  }

  /** The number a string of decimal digits spells, most significant digit first. */
  function DecimalValue(s: string): nat
    requires AllDigits(s)
  {
    if s == [] then 0 else 10 * DecimalValue(s[..|s| - 1]) + (s[|s| - 1] as int - '0' as int)
  }

  /** Decimal notation of a node id, as `str(k)` writes it: non-empty digits. */
  function DecimalString(n: nat): (r: string)
    ensures |r| >= 1 && forall i :: 0 <= i < |r| ==> '0' <= r[i] <= '9'
    ensures n >= 10 ==> |r| >= 2
  {
    if n < 10 then [Digit(n)] else DecimalString(n / 10) + [Digit(n % 10)]
  }

  /** The digits of a node id spell that id. */
  lemma {:induction false} DecimalRoundTrip(n: nat)
    ensures DecimalValue(DecimalString(n)) == n
  {
    var r := DecimalString(n);
    if n < 10 {
      assert r[..0] == [];
    } else {
      assert r[..|r| - 1] == DecimalString(n / 10);
      DecimalRoundTrip(n / 10);
    }
  }

  /** Different node ids are written differently. */
  lemma DecimalStringInjective(a: nat, b: nat)
    ensures DecimalString(a) == DecimalString(b) ==> a == b
  {
    DecimalRoundTrip(a);
    DecimalRoundTrip(b);
  }

  /** Where two joined strings agree, the character after the shorter first part. */
  lemma CharAtJoin(a: string, x: string, b: string, y: string)
    requires a + x == b + y && |a| < |b| && |x| > 0
    ensures b[|a|] == x[0]
  {
    assert (a + x)[|a|] == x[0];
  }

  /**
   * A decimal number followed by text that does not start with a digit can be read back:
   * equal texts give equal numbers and equal remainders.
   */
  lemma DecimalPrefix(a: nat, b: nat, x: string, y: string)
    requires DecimalString(a) + x == DecimalString(b) + y
    requires |x| > 0 && !('0' <= x[0] <= '9') && |y| > 0 && !('0' <= y[0] <= '9')
    ensures a == b && x == y
  {
    var da, db := DecimalString(a), DecimalString(b);
    var t := da + x;
    if |da| < |db| {
      CharAtJoin(da, x, db, y);
      assert false;
    } else if |db| < |da| {
      CharAtJoin(db, y, da, x);
      assert false;
    } else {
      assert da == t[..|da|] == db;
      DecimalStringInjective(a, b);
      assert x == t[|da|..] == y;
    }
  }

  function StatementText(s: Statement): string {
    match s
    case Node(id, l) => DecimalString(id) + "[label=\"" + l + "\"];\n"
    case Edge(u, v, None) => DecimalString(u) + " -> " + DecimalString(v) + ";\n"
    case Edge(u, v, Some(l)) => DecimalString(u) + " -> " + DecimalString(v) + " [label=\"" + l + "\"];\n"
  }

  /** What follows a node's id in its statement. */
  function NodeTail(l: string): string {
    "[label=\"" + l + "\"];\n"
  }

  /** What follows the target id in an edge statement. */
  function EdgeEnd(lbl: Option<string>): string {
    match lbl
    case None => ";\n"
    case Some(l) => " [label=\"" + l + "\"];\n"
  }

  lemma NodeTailInjective(l1: string, l2: string)
    ensures NodeTail(l1) == NodeTail(l2) ==> l1 == l2
  {
    var t1, t2 := NodeTail(l1), NodeTail(l2);
    if t1 == t2 {
      assert l1 == t1[8..|t1| - 4];
      assert l2 == t2[8..|t2| - 4];
    }
  }

  lemma EdgeEndInjective(a: Option<string>, b: Option<string>)
    ensures EdgeEnd(a) == EdgeEnd(b) ==> a == b
  {
    var t1, t2 := EdgeEnd(a), EdgeEnd(b);
    if t1 == t2 {
      if a.Some? && b.Some? {
        assert a.value == t1[9..|t1| - 4];
        assert b.value == t2[9..|t2| - 4];
      } else if a.Some? || b.Some? {
        assert false;
      }
    }
  }

  lemma NodeText(i: nat, l: string)
    ensures StatementText(Node(i, l)) == DecimalString(i) + NodeTail(l)
    ensures NodeTail(l)[0] == '['
  {
  }

  lemma EdgeText(u: nat, v: nat, lbl: Option<string>)
    ensures StatementText(Edge(u, v, lbl)) == DecimalString(u) + (" -> " + (DecimalString(v) + EdgeEnd(lbl)))
  {
    match lbl {
      case None =>
      case Some(l) =>
        assert EdgeEnd(lbl) == " [label=\"" + l + "\"];\n";
    }
  }

  lemma ArrowTail(y: string)
    ensures (" -> " + y)[0] == ' ' && (" -> " + y)[4..] == y
  {
    assert (" -> " + y)[4..] == y;
  }

  lemma EdgeEndStart(lbl: Option<string>)
    ensures EdgeEnd(lbl)[0] == if lbl.None? then ';' else ' '
  {
  }

  /** Two edge statements with the same text are the same edge, with the same label. */
  lemma EdgeTextInjective(u1: nat, v1: nat, lbl1: Option<string>, u2: nat, v2: nat, lbl2: Option<string>)
    requires StatementText(Edge(u1, v1, lbl1)) == StatementText(Edge(u2, v2, lbl2))
    ensures u1 == u2 && v1 == v2 && lbl1 == lbl2
  {
    EdgeText(u1, v1, lbl1);
    EdgeText(u2, v2, lbl2);
    ArrowTail(DecimalString(v1) + EdgeEnd(lbl1));
    ArrowTail(DecimalString(v2) + EdgeEnd(lbl2));
    EdgeEndStart(lbl1);
    EdgeEndStart(lbl2);
    var x1, x2 := " -> " + (DecimalString(v1) + EdgeEnd(lbl1)), " -> " + (DecimalString(v2) + EdgeEnd(lbl2));
    DecimalPrefix(u1, u2, x1, x2);
    DecimalPrefix(v1, v2, EdgeEnd(lbl1), EdgeEnd(lbl2));
    EdgeEndInjective(lbl1, lbl2);
  }

  /**
   * The text of a statement determines the statement: two different statements, in
   * particular nodes with different ids, are written as different lines.
   */
  lemma StatementTextInjective(s1: Statement, s2: Statement)
    ensures StatementText(s1) == StatementText(s2) ==> s1 == s2
  {
    if StatementText(s1) == StatementText(s2) {
      match s1 {
        case Node(i, l1) =>
          NodeText(i, l1);
          match s2 {
            case Node(j, l2) =>
              NodeText(j, l2);
              DecimalPrefix(i, j, NodeTail(l1), NodeTail(l2));
              NodeTailInjective(l1, l2);
            case Edge(u, v, lbl) =>
              EdgeText(u, v, lbl);
              ArrowTail(DecimalString(v) + EdgeEnd(lbl));
              DecimalPrefix(i, u, NodeTail(l1), " -> " + (DecimalString(v) + EdgeEnd(lbl)));
              assert false;
          }
        case Edge(u, v, lbl) =>
          EdgeText(u, v, lbl);
          ArrowTail(DecimalString(v) + EdgeEnd(lbl));
          match s2 {
            case Node(j, l2) =>
              NodeText(j, l2);
              DecimalPrefix(u, j, " -> " + (DecimalString(v) + EdgeEnd(lbl)), NodeTail(l2));
              assert false;
            case Edge(u2, v2, lbl2) =>
              EdgeTextInjective(u, v, lbl, u2, v2, lbl2);
          }
      }
    }
  }

  /** No two statements are written as the same line. */
  ghost predicate DistinctLines(statements: seq<Statement>) {
    forall i, j :: 0 <= i < j < |statements| ==> StatementText(statements[i]) != StatementText(statements[j])
  }

  /** Distinct statements are written as distinct lines. */
  lemma LinesDistinct(statements: seq<Statement>)
    requires Distinct(statements)
    ensures DistinctLines(statements)
  {
    forall i, j | 0 <= i < j < |statements|
      ensures StatementText(statements[i]) != StatementText(statements[j])
    {
      StatementTextInjective(statements[i], statements[j]);
    }
  }

  /** The statement lines, in order. */
  function Body(ss: seq<Statement>): string {
    if ss == [] then "" else Body(ss[..|ss| - 1]) + StatementText(ss[|ss| - 1])
  }

  function Render(ss: seq<Statement>): string {
    "digraph {\n" + Body(ss) + "}\n"
  }

  lemma RenderFromBody(ss: seq<Statement>, body: string)
    requires body == Body(ss)
    ensures "digraph {\n" + body + "}\n" == Render(ss)
  {
  }

  lemma BodyAppend(ss: seq<Statement>, s: Statement)
    ensures Body(ss + [s]) == Body(ss) + StatementText(s)
  {
    assert (ss + [s])[..|ss|] == ss;
  }

  /**
   * `order` lists `vertices` once each, and `indices` numbers every vertex by its position
   * in `order`: a bijection from the vertices onto 0..|vertices|-1.
   */
  ghost predicate Numbering<V(!new)>(vertices: set<V>, order: seq<V>, indices: map<V, nat>) {
    && Distinct(order) && |order| == |vertices|
    && (forall v :: v in order <==> v in vertices)
    && (forall k :: 0 <= k < |order| ==> order[k] in indices && indices[order[k]] == k)
    && indices.Keys == vertices
    && (forall v :: v in indices ==> indices[v] < |vertices|)
    && (forall a, b :: a in indices && b in indices && a != b ==> indices[a] != indices[b])
  }

  /** The first |order| statements name the vertices of `order`, in order, with their labels. */
  ghost predicate NodeLines<V>(statements: seq<Statement>, order: seq<V>, nodeLabel: map<V, string>) {
    && |order| <= |statements|
    && forall k :: 0 <= k < |order| ==> order[k] in nodeLabel && statements[k] == Node(k, nodeLabel[order[k]])
  }

  /** After the first n statements come exactly the statements of `edges`, in order. */
  ghost predicate EdgeLines<V>(statements: seq<Statement>, n: nat, indices: map<V, nat>,
                               edges: seq<(V, V)>, edgeLabel: map<(V, V), Option<string>>) {
    && |statements| == n + |edges|
    && forall k :: 0 <= k < |edges| ==>
         && edges[k].0 in indices && edges[k].1 in indices && edges[k] in edgeLabel
         && statements[n + k] == Edge(indices[edges[k].0], indices[edges[k].1], edgeLabel[edges[k]])
  }

  /** Each vertex is numbered by its position in one iteration order of the vertex set. */
  method NumberVertices<V(==,!new)>(vertices: set<V>) returns (order: seq<V>, indices: map<V, nat>)
    ensures Numbering(vertices, order, indices)
  {
    order := Enumerate(vertices);
    indices := map[];
    var k := 0;
    while k < |order|
      invariant 0 <= k <= |order|
      invariant forall v :: v in indices <==> v in order[..k]
      invariant forall j :: 0 <= j < k ==> order[j] in indices && indices[order[j]] == j
    {
      indices := indices[order[k] := k];
      k := k + 1;
    }
    assert order[..k] == order;
    NumberingIsBijection(vertices, order, indices);
  }

  lemma NumberingIsBijection<V(!new)>(vertices: set<V>, order: seq<V>, indices: map<V, nat>)
    requires Distinct(order) && |order| == |vertices|
    requires forall v :: v in order <==> v in vertices
    requires forall v :: v in indices <==> v in order
    requires forall j :: 0 <= j < |order| ==> indices[order[j]] == j
    ensures Numbering(vertices, order, indices)
  {
    forall v | v in indices ensures indices[v] < |vertices| {
      var j :| 0 <= j < |order| && order[j] == v;
    }
    forall a, b | a in indices && b in indices && indices[a] == indices[b]
      ensures a == b
    {
      var ja :| 0 <= ja < |order| && order[ja] == a;
      var jb :| 0 <= jb < |order| && order[jb] == b;
    }
  }

  /** Node statements with distinct ids followed by edge statements over distinct id pairs repeat nothing. */
  lemma StatementsDistinct<V>(statements: seq<Statement>, order: seq<V>, nodeLabel: map<V, string>, indices: map<V, nat>,
                              edges: seq<(V, V)>, edgeLabel: map<(V, V), Option<string>>)
    requires NodeLines(statements, order, nodeLabel)
    requires EdgeLines(statements, |order|, indices, edges, edgeLabel)
    requires Distinct(edges)
    requires forall a, b :: a in indices && b in indices && a != b ==> indices[a] != indices[b]
    ensures Distinct(statements)
  {
    var n := |order|;
    forall p, q | 0 <= p < q < |statements|
      ensures statements[p] != statements[q]
    {
      if n <= p {
        var ep, eq := edges[p - n], edges[q - n];
        assert ep in edges && eq in edges;
        assert ep != eq;
        assert statements[p] == Edge(indices[ep.0], indices[ep.1], edgeLabel[ep]);
        assert statements[q] == Edge(indices[eq.0], indices[eq.1], edgeLabel[eq]);
      } else if n <= q {
        assert statements[q] == Edge(indices[edges[q - n].0], indices[edges[q - n].1], edgeLabel[edges[q - n]]);
      }
    }
  }

  /** The node loop: one node statement per vertex, in order, carrying the vertex's label. */
  method NodeStatements<V>(order: seq<V>, indices: map<V, nat>, nodeLabel: map<V, string>)
    returns (statements: seq<Statement>, body: string)
    requires forall j :: 0 <= j < |order| ==> order[j] in indices && indices[order[j]] == j && order[j] in nodeLabel
    ensures |statements| == |order|
    ensures NodeLines(statements, order, nodeLabel)
    ensures body == Body(statements)
  {
    body := "";
    statements := [];
    var i := 0;
    while i < |order|
      invariant 0 <= i <= |order|
      invariant |statements| == i
      invariant forall j :: 0 <= j < i ==> statements[j] == Node(j, nodeLabel[order[j]])
      invariant body == Body(statements)
    {
      var s := Node(indices[order[i]], nodeLabel[order[i]]);
      BodyAppend(statements, s);
      statements := statements + [s];
      body := body + StatementText(s);
      i := i + 1;
    }
  }

  /** The edge loop: after the node statements, one statement per listed edge between its endpoints' ids. */
  method EdgeStatements<V>(nodes: seq<Statement>, nodesBody: string, indices: map<V, nat>,
                           edges: seq<(V, V)>, edgeLabel: map<(V, V), Option<string>>)
    returns (statements: seq<Statement>, body: string)
    requires nodesBody == Body(nodes)
    requires forall e :: e in edges ==> e.0 in indices && e.1 in indices && e in edgeLabel
    ensures EdgeLines(statements, |nodes|, indices, edges, edgeLabel)
    ensures forall j :: 0 <= j < |nodes| ==> statements[j] == nodes[j]
    ensures body == Body(statements)
  {
    var n := |nodes|;
    statements, body := nodes, nodesBody;
    var t := 0;
    while t < |edges|
      invariant 0 <= t <= |edges|
      invariant EdgeLines(statements, n, indices, edges[..t], edgeLabel)
      invariant statements[..n] == nodes
      invariant body == Body(statements)
    {
      var e := edges[t];
      var s := Edge(indices[e.0], indices[e.1], edgeLabel[e]);
      BodyAppend(statements, s);
      EdgeLinesAppend(statements, n, indices, edges, t, edgeLabel);
      statements := statements + [s];
      body := body + StatementText(s);
      t := t + 1;
    }
    assert edges[..t] == edges;
  }

  lemma EdgeLinesAppend<V>(statements: seq<Statement>, n: nat, indices: map<V, nat>,
                           edges: seq<(V, V)>, t: nat, edgeLabel: map<(V, V), Option<string>>)
    requires t < |edges| && edges[t].0 in indices && edges[t].1 in indices && edges[t] in edgeLabel
    requires EdgeLines(statements, n, indices, edges[..t], edgeLabel)
    ensures EdgeLines(statements + [Edge(indices[edges[t].0], indices[edges[t].1], edgeLabel[edges[t]])],
                      n, indices, edges[..t + 1], edgeLabel)
    ensures (statements + [Edge(indices[edges[t].0], indices[edges[t].1], edgeLabel[edges[t]])])[..n] == statements[..n]
  {
    var s := Edge(indices[edges[t].0], indices[edges[t].1], edgeLabel[edges[t]]);
    var ss, pre := statements + [s], edges[..t + 1];
    forall k | 0 <= k < |pre|
      ensures pre[k].0 in indices && pre[k].1 in indices && pre[k] in edgeLabel
      ensures ss[n + k] == Edge(indices[pre[k].0], indices[pre[k].1], edgeLabel[pre[k]])
    {
      if k < t {
        assert pre[k] == edges[..t][k];
      }
    }
  }

  /** After the first n statements, each entry of `edges` has its statement, and nothing else is there. */
  lemma EdgeSection<V>(statements: seq<Statement>, n: nat, indices: map<V, nat>, edges: seq<(V, V)>, edgeLabel: map<(V, V), Option<string>>)
    requires EdgeLines(statements, n, indices, edges, edgeLabel)
    ensures forall e :: e in edges ==>
      e.0 in indices && e.1 in indices && e in edgeLabel && Edge(indices[e.0], indices[e.1], edgeLabel[e]) in statements[n..]
    ensures forall s :: s in statements[n..] ==>
      exists e :: e in edges && e.0 in indices && e.1 in indices && e in edgeLabel && s == Edge(indices[e.0], indices[e.1], edgeLabel[e])
  {
    forall e | e in edges
      ensures e.0 in indices && e.1 in indices && e in edgeLabel && Edge(indices[e.0], indices[e.1], edgeLabel[e]) in statements[n..]
    {
      var k :| 0 <= k < |edges| && edges[k] == e;
      assert statements[n..][k] == statements[n + k];
    }
    forall s | s in statements[n..]
      ensures exists e :: e in edges && e.0 in indices && e.1 in indices && e in edgeLabel && s == Edge(indices[e.0], indices[e.1], edgeLabel[e])
    {
      var k :| 0 <= k < |statements[n..]| && statements[n..][k] == s;
      assert s == statements[n + k];
      assert edges[k] in edges;
    }
  }

  /**
   * The export shared by both graph classes: vertices are numbered in one iteration
   * order of `vertices`, a node statement is written for each in that order, then an
   * edge statement for each entry of `edges`, in order; the statements repeat nothing.
   */
  method Describe<V(==,!new)>(vertices: set<V>, nodeLabel: map<V, string>, edges: seq<(V, V)>, edgeLabel: map<(V, V), Option<string>>)
    returns (order: seq<V>, indices: map<V, nat>, statements: seq<Statement>, gv: string)
    requires vertices <= nodeLabel.Keys
    requires Distinct(edges)
    requires forall e :: e in edges ==> e.0 in vertices && e.1 in vertices && e in edgeLabel
    ensures Numbering(vertices, order, indices)
    ensures NodeLines(statements, order, nodeLabel)
    ensures EdgeLines(statements, |vertices|, indices, edges, edgeLabel)
    ensures Distinct(statements) && DistinctLines(statements)
    ensures gv == Render(statements)
  {
    order, indices := NumberVertices(vertices);
    var nodes, nodesBody := NodeStatements(order, indices, nodeLabel);
    var body;
    statements, body := EdgeStatements(nodes, nodesBody, indices, edges, edgeLabel);
    StatementsDistinct(statements, order, nodeLabel, indices, edges, edgeLabel);
    LinesDistinct(statements);
    gv := "digraph {\n" + body + "}\n";
    RenderFromBody(statements, body);
  }

  /** Each vertex's node statement sits at its own index. */
  lemma NodeLineAt<V(!new)>(vertices: set<V>, order: seq<V>, indices: map<V, nat>, statements: seq<Statement>, nodeLabel: map<V, string>, v: V)
    requires Numbering(vertices, order, indices)
    requires NodeLines(statements, order, nodeLabel)
    requires v in vertices
    ensures indices[v] < |statements| && statements[indices[v]] == Node(indices[v], nodeLabel[v])
  {
    var j :| 0 <= j < |order| && order[j] == v;
  }
}
