/** The candidate lists `solve_bubble` and the tip functions hand to `select_best_path`: the paths
    `nx.all_simple_paths` lists between two nodes, their average weights and their lengths. */
module Candidates {
  import opened Common
  import opened Seqs
  import opened Graphs
  import opened Weights

  /** `nx.all_simple_paths(graph, source, target)`: networkx checks the source first and raises
      `NodeNotFound` for one that is not in the graph; otherwise the oracle's list. */
  function Enumerate(g: Graph, paths: PathOracle, s: Node, t: Node): (r: Outcome<seq<Path>>)
    ensures r.Crash? <==> s !in g.nodes
    ensures r.Crash? ==> r.error == NodeNotFound
    ensures r.Ok? ==> r.value == paths(g, s, t)
  {
    if s !in g.nodes then Crash(NodeNotFound) else Ok(paths(g, s, t))
  }

  /** `[path_average_weight(graph, c) for c in cs]`, stopped by the first path without an induced edge. */
  ghost function Averages(g: Graph, cs: seq<Path>): (r: Outcome<seq<Ratio>>)
    ensures r.Ok? <==> forall i :: 0 <= i < |cs| ==> AverageWeight(g, cs[i]).Ok?
    ensures r.Ok? ==> |r.value| == |cs| && forall i :: 0 <= i < |cs| ==> AverageWeight(g, cs[i]) == Ok(r.value[i])
    ensures r.Crash? ==> r.error == ZeroDivisionError
  {
    if cs == [] then Ok([])
    else
      assert forall i :: 0 <= i < |cs| - 1 ==> cs[i] == DropLast(cs)[i];
      match Averages(g, DropLast(cs))
      case Crash(e) => Crash(e)
      case Ok(ws) =>
        match AverageWeight(g, Last(cs))
        case Crash(e) => Crash(e)
        case Ok(p) =>
          assert forall i :: 0 <= i < |cs| - 1 ==> (ws + [p])[i] == ws[i];
          Ok(ws + [p])
  }

  /** `[len(c) for c in cs]` */
  function Lengths(cs: seq<Path>): (r: seq<int>)
    ensures |r| == |cs| && forall i :: 0 <= i < |cs| ==> r[i] == |cs[i]|
  {
    seq(|cs|, i requires 0 <= i < |cs| => |cs[i]|)
  }

  /** The call `nx.all_simple_paths(...)`, consumed into a list. */
  method AllSimplePaths(g: DiGraph, paths: PathOracle, s: Node, t: Node) returns (r: Outcome<seq<Path>>)
    ensures r == Enumerate(g.Value(), paths, s, t)
  {
    var present := g.HasNode(s);
    if !present {
      return Crash(NodeNotFound);
    }
    r := Ok(paths(g.Value(), s, t));
  }

  /** The loop `for chemin in ensemble_chemins: poids_moyen.append(path_average_weight(graphique, chemin))`. */
  method AverageWeights(g: DiGraph, cs: seq<Path>) returns (r: Outcome<seq<Ratio>>)
    ensures r == Averages(g.Value(), cs)
  {
    var poids: seq<Ratio> := [];
    for i := 0 to |cs|
      invariant Averages(g.Value(), cs[..i]) == Ok(poids)
    {
      var p := PathAverageWeight(g, cs[i]);
      if p.Crash? {
        assert AverageWeight(g.Value(), cs[i]).Crash?;
        return Crash(p.error);
      }
      assert DropLast(cs[..i + 1]) == cs[..i] && Last(cs[..i + 1]) == cs[i];
      poids := poids + [p.value];
    }
    assert cs[..|cs|] == cs;
    r := Ok(poids);
  }

  /** The oracle only lists simple paths, and a simple path always has an average weight, so with
      a sound oracle the weights never raise `ZeroDivisionError`. */
  lemma SoundWeights(g: Graph, paths: PathOracle, s: Node, t: Node)
    requires SoundOracle(paths)
    ensures Averages(g, paths(g, s, t)).Ok?
  {
    var cs := paths(g, s, t);
    forall i | 0 <= i < |cs| ensures AverageWeight(g, cs[i]).Ok? {
      assert cs[i] in cs;
      SimplePathHasAverage(g, cs[i]);
    }
  }

  lemma AveragesOne(g: Graph, a: Path, pa: Ratio)
    requires AverageWeight(g, a) == Ok(pa)
    ensures Averages(g, [a]) == Ok([pa])
  {
    var r := Averages(g, [a]);
    assert [a][0] == a;
    assert AverageWeight(g, [a][0]) == Ok(r.value[0]);
    assert r.value == [pa];
  }

  lemma AveragesPair(g: Graph, a: Path, b: Path, pa: Ratio, pb: Ratio)
    requires AverageWeight(g, a) == Ok(pa) && AverageWeight(g, b) == Ok(pb)
    ensures Averages(g, [a, b]) == Ok([pa, pb])
  {
    var r := Averages(g, [a, b]);
    assert [a, b][0] == a && [a, b][1] == b;
    assert AverageWeight(g, [a, b][0]) == Ok(r.value[0]);
    assert AverageWeight(g, [a, b][1]) == Ok(r.value[1]);
    assert r.value == [pa, pb];
  }
}
