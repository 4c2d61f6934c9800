/** The directed graph the assembler works on: the parts of networkx's `DiGraph` that
    debruijn.py relies on. Node order is insertion order; at most one weighted edge per
    ordered pair; self-loops allowed. */
module Graphs {
  import opened Seqs

  type Node = string
  type Edge = (Node, Node)
  type Path = seq<Node>

  /** A graph as a value: its nodes in insertion order, and the weight of each edge. */
  datatype Graph = Graph(nodes: seq<Node>, w: map<Edge, int>)

  /** Nodes are distinct and both ends of every edge are nodes. */
  predicate ValidGraph(g: Graph) {
    Distinct(g.nodes) && forall e :: e in g.w ==> e.0 in g.nodes && e.1 in g.nodes
  }

  /** `g.predecessors(v)`: a self-loop makes `v` its own predecessor. */
  function Preds(g: Graph, v: Node): set<Node> {
    set e | e in g.w.Keys && e.1 == v :: e.0
  }

  /** `g.successors(v)`. */
  function Succs(g: Graph, v: Node): set<Node> {
    set e | e in g.w.Keys && e.0 == v :: e.1
  }

  /** `len(list(g.predecessors(v)))` */
  function InDeg(g: Graph, v: Node): nat {
    |Preds(g, v)|
  }

  /** `len(list(g.successors(v)))` */
  function OutDeg(g: Graph, v: Node): nat {
    |Succs(g, v)|
  }

  lemma PredsSuccs(g: Graph, u: Node, v: Node)
    ensures u in Preds(g, v) <==> (u, v) in g.w
    ensures v in Succs(g, u) <==> (u, v) in g.w
  {
    if (u, v) in g.w {
      assert u in Preds(g, v);
      assert v in Succs(g, u);
    }
  }

  /** `add_edge(u, v, weight=wt)`: append `u` if new, then `v` if new, and set (or overwrite) the weight. */
  function WithEdge(g: Graph, u: Node, v: Node, wt: int): (r: Graph)
    ensures ValidGraph(g) ==> ValidGraph(r)
    ensures forall x :: x in r.nodes <==> x in g.nodes || x == u || x == v
  {
    var n1 := if u in g.nodes then g.nodes else g.nodes + [u];
    var n2 := if v in n1 then n1 else n1 + [v];
    Graph(n2, g.w[(u, v) := wt])
  }

  /** The graph after `remove_node` of every node in `S`: the remaining nodes keep their
      order, and an edge survives when neither end is removed. */
  function Without(g: Graph, S: set<Node>): (r: Graph)
    ensures ValidGraph(g) ==> ValidGraph(r)
    ensures forall x :: x in r.nodes <==> x in g.nodes && x !in S
    ensures Sub(r.nodes, g.nodes)
  {
    Graph(FilterOut(g.nodes, S), map e | e in g.w.Keys && e.0 !in S && e.1 !in S :: g.w[e])
  }

  /** Removing `S` and then `U` is removing `S + U`. */
  lemma WithoutTwice(g: Graph, S: set<Node>, U: set<Node>)
    ensures Without(Without(g, S), U) == Without(g, S + U)
  {
    FilterOutTwice(g.nodes, S, U);
  }

  /** Removing no node changes nothing, valid graph or not. */
  lemma WithoutNothing(g: Graph)
    ensures Without(g, {}) == g
  {
    FilterOutNothing(g.nodes, {});
    assert (map e | e in g.w.Keys && e.0 !in {} && e.1 !in {} :: g.w[e]) == g.w;
  }

  /** Removing nodes that are not in a valid graph changes nothing. */
  lemma WithoutAbsent(g: Graph, S: set<Node>)
    requires ValidGraph(g)
    requires forall x :: x in S ==> x !in g.nodes
    ensures Without(g, S) == g
  {
    FilterOutNothing(g.nodes, S);
  }

  /** A simple path of the graph: at least two nodes, none repeated, each linked to the next by an edge. */
  ghost predicate IsSimplePath(g: Graph, p: Path) {
    |p| >= 2 && Distinct(p) && forall i :: 0 <= i < |p| - 1 ==> (p[i], p[i + 1]) in g.w
  }

  /** `nx.all_simple_paths(graph, source, target)`, which the model does not implement: whatever
      enumeration the library performs, in its order. */
  type PathOracle = (Graph, Node, Node) -> seq<Path>

  /** Every path of `ps` is a simple path of `g` from `s` to `t`. */
  ghost predicate SimplePathsBetween(g: Graph, s: Node, t: Node, ps: seq<Path>) {
    forall p :: p in ps ==> IsSimplePath(g, p) && p[0] == s && Last(p) == t
  }

  /** Every path the oracle lists is a simple path of the given graph from the source to the
      target, and none is listed twice. */
  ghost predicate SoundOracle(paths: PathOracle) {
    forall g, s, t :: SimplePathsBetween(g, s, t, paths(g, s, t)) && Distinct(paths(g, s, t))
  }

  ghost function PickEdge(es: set<Edge>): Edge
    requires es != {}
  {
    var e :| e in es; e
  }

  /** The sum of the weights of the edges in `es`, in no particular order. */
  ghost function SumW(es: set<Edge>, w: map<Edge, int>): int
    requires es <= w.Keys
    decreases es
  {
    if es == {} then 0 else var e := PickEdge(es); w[e] + SumW(es - {e}, w)
  }

  /** The sum does not depend on which edge is taken first. */
  lemma {:induction false} SumWRemove(es: set<Edge>, w: map<Edge, int>, e: Edge)
    requires es <= w.Keys && e in es
    ensures SumW(es, w) == w[e] + SumW(es - {e}, w)
    decreases es
  {
    var f := PickEdge(es);
    if f != e {
      SumWRemove(es - {f}, w, e);
      SumWRemove(es - {e}, w, f);
      assert es - {f} - {e} == es - {e} - {f};
    }
  }

  /** Two weight maps that agree on `es` give the same sum over `es`. */
  lemma {:induction false} SumWAgree(es: set<Edge>, w: map<Edge, int>, w': map<Edge, int>)
    requires es <= w.Keys && es <= w'.Keys
    requires forall e :: e in es ==> w[e] == w'[e]
    ensures SumW(es, w) == SumW(es, w')
    decreases es
  {
    if es != {} {
      var f := PickEdge(es);
      SumWAgree(es - {f}, w, w');
    }
  }

  /** Total edge weight of a graph. */
  ghost function TotalWeight(g: Graph): int {
    SumW(g.w.Keys, g.w)
  }

  /** A networkx `DiGraph`, updated in place. */
  class DiGraph {
    var nodes: seq<Node>
    var w: map<Edge, int>

    function Value(): Graph
      reads this
    {
      Graph(nodes, w)
    }

    predicate Valid()
      reads this
    {
      ValidGraph(Value())
    }

    /** `nx.DiGraph()` */
    constructor ()
      ensures Valid() && Value() == Graph([], map[])
    {
      nodes, w := [], map[];
    }

    method AddEdge(u: Node, v: Node, wt: int)
      requires Valid()
      modifies this
      ensures Valid() && Value() == WithEdge(old(Value()), u, v, wt)
    {
      if u !in nodes {
        nodes := nodes + [u];
      }
      if v !in nodes {
        nodes := nodes + [v];
      }
      w := w[(u, v) := wt];
    }

    /** `remove_node(v)`: networkx raises an error for a node not in the graph, so callers check first. */
    method RemoveNode(v: Node)
      requires Valid() && v in nodes
      modifies this
      ensures Valid() && Value() == Without(old(Value()), {v})
    {
      var r := Without(Value(), {v});
      nodes, w := r.nodes, r.w;
    }

    /** `v in graph.nodes` */
    method HasNode(v: Node) returns (b: bool)
      ensures b <==> v in Value().nodes
    {
      b := v in nodes;
    }

    method InDegree(v: Node) returns (n: nat)
      ensures n == InDeg(Value(), v)
    {
      n := |set e | e in w.Keys && e.1 == v :: e.0|;
    }

    method OutDegree(v: Node) returns (n: nat)
      ensures n == OutDeg(Value(), v)
    {
      n := |set e | e in w.Keys && e.0 == v :: e.1|;
    }
  }
}
