/** `get_starting_nodes` and `get_sink_nodes`: the nodes without predecessor, and without successor,
    scanned in node order. */
module Topology {
  import opened Seqs
  import opened Graphs

  /** Nodes that are the head of some edge, i.e. that have a predecessor. */
  function Heads(g: Graph): set<Node> {
    set e | e in g.w.Keys :: e.1
  }

  /** Nodes that are the tail of some edge, i.e. that have a successor. */
  function Tails(g: Graph): set<Node> {
    set e | e in g.w.Keys :: e.0
  }

  lemma HeadsTails(g: Graph, v: Node)
    ensures v in Heads(g) <==> InDeg(g, v) != 0
    ensures v in Tails(g) <==> OutDeg(g, v) != 0
  {
    if v in Heads(g) {
      var e :| e in g.w.Keys && e.1 == v;
      assert e.0 in Preds(g, v);
    }
    if InDeg(g, v) != 0 {
      var u :| u in Preds(g, v);
      PredsSuccs(g, u, v);
    }
    if v in Tails(g) {
      var e :| e in g.w.Keys && e.0 == v;
      assert e.1 in Succs(g, v);
    }
    if OutDeg(g, v) != 0 {
      var u :| u in Succs(g, v);
      PredsSuccs(g, v, u);
    }
  }

  /** The entry nodes: exactly the nodes with no predecessor, in node order, each once. */
  function Sources(g: Graph): (r: seq<Node>)
    ensures forall x :: x in r <==> x in g.nodes && InDeg(g, x) == 0
    ensures Sub(r, g.nodes)
    ensures Distinct(g.nodes) ==> Distinct(r)
  {
    forall x ensures x in Heads(g) <==> InDeg(g, x) != 0 {
      HeadsTails(g, x);
    }
    FilterOut(g.nodes, Heads(g))
  }

  /** The exit nodes: exactly the nodes with no successor, in node order, each once. */
  function Sinks(g: Graph): (r: seq<Node>)
    ensures forall x :: x in r <==> x in g.nodes && OutDeg(g, x) == 0
    ensures Sub(r, g.nodes)
    ensures Distinct(g.nodes) ==> Distinct(r)
  {
    forall x ensures x in Tails(g) <==> OutDeg(g, x) != 0 {
      HeadsTails(g, x);
    }
    FilterOut(g.nodes, Tails(g))
  }

  /** `get_starting_nodes(graphique)` */
  method StartingNodes(g: DiGraph) returns (r: seq<Node>)
    ensures r == Sources(g.Value())
  {
    r := [];
    for i := 0 to |g.nodes|
      invariant r == FilterOut(g.nodes[..i], Heads(g.Value()))
    {
      var v := g.nodes[i];
      var n := g.InDegree(v);
      HeadsTails(g.Value(), v);
      if n == 0 {
        r := r + [v];
      }
      assert DropLast(g.nodes[..i + 1]) == g.nodes[..i] && Last(g.nodes[..i + 1]) == v;
    }
    assert g.nodes[..|g.nodes|] == g.nodes;
  }

  /** `get_sink_nodes(graphique)` */
  method SinkNodes(g: DiGraph) returns (r: seq<Node>)
    ensures r == Sinks(g.Value())
  {
    r := [];
    for i := 0 to |g.nodes|
      invariant r == FilterOut(g.nodes[..i], Tails(g.Value()))
    {
      var v := g.nodes[i];
      var n := g.OutDegree(v);
      HeadsTails(g.Value(), v);
      if n == 0 {
        r := r + [v];
      }
      assert DropLast(g.nodes[..i + 1]) == g.nodes[..i] && Last(g.nodes[..i + 1]) == v;
    }
    assert g.nodes[..|g.nodes|] == g.nodes;
  }

  /** A node on a self-loop is its own predecessor and successor, so it is neither an entry nor an exit. */
  lemma SelfLoopIsNeither(g: Graph, v: Node)
    requires (v, v) in g.w
    ensures v !in Sources(g) && v !in Sinks(g)
  {
    PredsSuccs(g, v, v);
  }
}
