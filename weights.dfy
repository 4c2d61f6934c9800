/** `path_average_weight`: the mean weight of the edges of the subgraph induced by a path's nodes,
    kept as an exact fraction. */
module Weights {
  import opened Common
  import opened Seqs
  import opened Graphs

  type Pos = n: int | n > 0 witness 1

  /** The fraction `num / den`; compared by cross-multiplication. */
  datatype Ratio = Ratio(num: int, den: Pos)

  /** `a == b` on the two averages. */
  predicate Same(a: Ratio, b: Ratio) {
    a.num * b.den == b.num * a.den
  }

  /** `a < b` on the two averages. */
  predicate Below(a: Ratio, b: Ratio) {
    a.num * b.den < b.num * a.den
  }

  lemma MulLe(x: int, y: int, z: int)
    requires x <= y && z > 0
    ensures x * z <= y * z
  {
  }

  lemma MulLt(x: int, y: int, z: int)
    requires x < y && z > 0
    ensures x * z < y * z
  {
  }

  /** a <= b < c gives a < c. */
  lemma LeBelowTrans(a: Ratio, b: Ratio, c: Ratio)
    requires !Below(b, a) && Below(b, c)
    ensures Below(a, c)
  {
    MulLe(a.num * b.den, b.num * a.den, c.den);
    MulLt(b.num * c.den, c.num * b.den, a.den);
    assert a.num * b.den * c.den == (a.num * c.den) * b.den;
    assert b.num * a.den * c.den == b.num * c.den * a.den;
    assert c.num * b.den * a.den == (c.num * a.den) * b.den;
    if a.num * c.den >= c.num * a.den {
      MulLe(c.num * a.den, a.num * c.den, b.den);
    }
  }

  /** The edges of `graph.subgraph(chemin)`: every edge with both ends among the path's nodes,
      whether or not the path uses it. */
  function InducedEdges(g: Graph, p: seq<Node>): set<Edge> {
    set e | e in g.w.Keys && e.0 in p && e.1 in p
  }

  /** The average weight: total over the induced edges divided by their number, or the
      `ZeroDivisionError` raised when there is none. */
  ghost function AverageWeight(g: Graph, p: seq<Node>): Outcome<Ratio> {
    var es := InducedEdges(g, p);
    if |es| == 0 then Crash(ZeroDivisionError) else Ok(Ratio(SumW(es, g.w), |es|))
  }

  /** `path_average_weight(graph, chemin)`: sum the weights of the induced edges one by one, then divide. */
  method PathAverageWeight(g: DiGraph, p: seq<Node>) returns (r: Outcome<Ratio>)
    ensures r == AverageWeight(g.Value(), p)
    ensures r.Crash? <==> forall u, v :: u in p && v in p ==> (u, v) !in g.w
  {
    var es := set e | e in g.w.Keys && e.0 in p && e.1 in p;
    assert es == InducedEdges(g.Value(), p);
    var rest := es;
    var poids, nbre := 0, 0;
    while rest != {}
      invariant rest <= es
      invariant poids + SumW(rest, g.w) == SumW(es, g.w)
      invariant nbre + |rest| == |es|
      decreases rest
    {
      var e :| e in rest;
      SumWRemove(rest, g.w, e);
      poids, nbre := poids + g.w[e], nbre + 1;
      rest := rest - {e};
    }
    if nbre == 0 {
      r := Crash(ZeroDivisionError);
    } else {
      r := Ok(Ratio(poids, nbre));
    }
    if r.Ok? {
      var e :| e in es;
      assert e.0 in p && e.1 in p && (e.0, e.1) in g.w;
    } else {
      forall u, v | u in p && v in p ensures (u, v) !in g.w {
        assert (u, v) in g.w ==> (u, v) in es;
      }
    }
  }

  /** A simple path has at least one induced edge (its first), so its average weight is defined. */
  lemma SimplePathHasAverage(g: Graph, p: Path)
    requires IsSimplePath(g, p)
    ensures AverageWeight(g, p).Ok?
  {
    assert (p[0], p[1]) in InducedEdges(g, p);
  }

  /** The induced subgraph counts every edge among the path's nodes: for the path a -> b in a
      graph that also has b -> a, both edges are averaged. */
  lemma InducedNotConsecutive(a: Node, b: Node, x: int, y: int)
    requires a != b
    ensures AverageWeight(Graph([a, b], map[(a, b) := x, (b, a) := y]), [a, b]) == Ok(Ratio(x + y, 2))
  {
    var g := Graph([a, b], map[(a, b) := x, (b, a) := y]);
    var es := InducedEdges(g, [a, b]);
    assert g.w.Keys == {(a, b), (b, a)};
    assert es == g.w.Keys;
    SumWRemove(es, g.w, (a, b));
    assert es - {(a, b)} == {(b, a)};
    SumWRemove({(b, a)}, g.w, (b, a));
    assert {(b, a)} - {(b, a)} == {};
    assert SumW(es, g.w) == x + y && |es| == 2;
  }
}
