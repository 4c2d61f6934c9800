/** `solve_entry_tips`, `solve_out_tips`, and the simplification sequence the program runs after
    building the graph. Every entry is paired with ONE shared bound: the last node, in node order,
    with more than one predecessor (for exits: the last with more than one successor). Without such
    a node the variable holding the bound is never assigned and Python raises `UnboundLocalError`.
    All paths from every entry to the bound, in entry order, then compete in `select_best_path`. */
module Tips {
  import opened Common
  import opened Seqs
  import opened Graphs
  import opened Weights
  import opened Editing
  import opened Selection
  import opened Candidates
  import opened Topology
  import opened Bubbles

  /** `fin` after the loop of lines 238-240 over the first `m` nodes: the last with more than one
      predecessor, or `None` while the variable is still unassigned. */
  function LastJoin(g: Graph, m: nat): (r: Option<Node>)
    requires m <= |g.nodes|
    ensures r.None? <==> forall i :: 0 <= i < m ==> InDeg(g, g.nodes[i]) <= 1
    ensures r.Some? ==> exists i :: 0 <= i < m && g.nodes[i] == r.value && InDeg(g, g.nodes[i]) > 1
                          && forall j :: i < j < m ==> InDeg(g, g.nodes[j]) <= 1
  {
    if m == 0 then None
    else if InDeg(g, g.nodes[m - 1]) > 1 then Some(g.nodes[m - 1])
    else
      var r := LastJoin(g, m - 1);
      assert r.Some? ==> exists i :: 0 <= i < m && g.nodes[i] == r.value && InDeg(g, g.nodes[i]) > 1
                          && forall j :: i < j < m ==> InDeg(g, g.nodes[j]) <= 1 by {
        if r.Some? {
          var i :| 0 <= i < m - 1 && g.nodes[i] == r.value && InDeg(g, g.nodes[i]) > 1
                     && forall j :: i < j < m - 1 ==> InDeg(g, g.nodes[j]) <= 1;
          assert forall j :: i < j < m ==> InDeg(g, g.nodes[j]) <= 1;
        }
      }
      r
  }

  /** `debut` after the loop of lines 262-264 over the first `m` nodes: the last with more than one
      successor, or `None` while the variable is still unassigned. */
  function LastFork(g: Graph, m: nat): (r: Option<Node>)
    requires m <= |g.nodes|
    ensures r.None? <==> forall i :: 0 <= i < m ==> OutDeg(g, g.nodes[i]) <= 1
    ensures r.Some? ==> exists i :: 0 <= i < m && g.nodes[i] == r.value && OutDeg(g, g.nodes[i]) > 1
                          && forall j :: i < j < m ==> OutDeg(g, g.nodes[j]) <= 1
  {
    if m == 0 then None
    else if OutDeg(g, g.nodes[m - 1]) > 1 then Some(g.nodes[m - 1])
    else
      var r := LastFork(g, m - 1);
      assert r.Some? ==> exists i :: 0 <= i < m && g.nodes[i] == r.value && OutDeg(g, g.nodes[i]) > 1
                          && forall j :: i < j < m ==> OutDeg(g, g.nodes[j]) <= 1 by {
        if r.Some? {
          var i :| 0 <= i < m - 1 && g.nodes[i] == r.value && OutDeg(g, g.nodes[i]) > 1
                     && forall j :: i < j < m - 1 ==> OutDeg(g, g.nodes[j]) <= 1;
          assert forall j :: i < j < m ==> OutDeg(g, g.nodes[j]) <= 1;
        }
      }
      r
  }

  /** `bornes_initiales` of lines 235-241: `[entree, fin]` for every entry. */
  function EntryBounds(g: Graph, entrees: seq<Node>): Outcome<seq<(Node, Node)>> {
    if entrees == [] then Ok([])
    else
      match LastJoin(g, |g.nodes|)
      case None => Crash(UnboundLocalError)
      case Some(fin) => Ok(seq(|entrees|, i requires 0 <= i < |entrees| => (entrees[i], fin)))
  }

  /** `bornes_initiales` of lines 259-265: `[debut, sortie]` for every exit. */
  function ExitBounds(g: Graph, sorties: seq<Node>): Outcome<seq<(Node, Node)>> {
    if sorties == [] then Ok([])
    else
      match LastFork(g, |g.nodes|)
      case None => Crash(UnboundLocalError)
      case Some(debut) => Ok(seq(|sorties|, i requires 0 <= i < |sorties| => (debut, sorties[i])))
  }

  /** The loops of lines 246-251 (and 270-275): for each bound, every simple path between its two
      nodes with its average weight, appended in order. */
  ghost function Collect(g: Graph, paths: PathOracle, bornes: seq<(Node, Node)>): (r: Outcome<(seq<Path>, seq<Ratio>)>)
    ensures r.Ok? ==> |r.value.0| == |r.value.1|
    ensures r.Ok? ==> forall p :: p in r.value.0 ==> exists k :: 0 <= k < |bornes| && p in paths(g, bornes[k].0, bornes[k].1)
    ensures r.Crash? ==> r.error == NodeNotFound || r.error == ZeroDivisionError
  {
    if bornes == [] then Ok(([], []))
    else
      match Collect(g, paths, DropLast(bornes))
      case Crash(e) => Crash(e)
      case Ok(acc) =>
        match Enumerate(g, paths, Last(bornes).0, Last(bornes).1)
        case Crash(e) => Crash(e)
        case Ok(ps) =>
          match Averages(g, ps)
          case Crash(e) => Crash(e)
          case Ok(ws) =>
            CollectFrom(g, paths, bornes, acc.0, ps);
            Ok((acc.0 + ps, acc.1 + ws))
  }

  /** The paths collected for the first bounds, then those of the last bound, each come from some bound. */
  lemma CollectFrom(g: Graph, paths: PathOracle, bornes: seq<(Node, Node)>, acc: seq<Path>, ps: seq<Path>)
    requires |bornes| > 0 && ps == paths(g, Last(bornes).0, Last(bornes).1)
    requires forall p :: p in acc ==> exists k :: 0 <= k < |bornes| - 1 && p in paths(g, DropLast(bornes)[k].0, DropLast(bornes)[k].1)
    ensures forall p :: p in acc + ps ==> exists k :: 0 <= k < |bornes| && p in paths(g, bornes[k].0, bornes[k].1)
  {
    forall p | p in acc + ps ensures exists k :: 0 <= k < |bornes| && p in paths(g, bornes[k].0, bornes[k].1) {
      if p in acc {
        var k :| 0 <= k < |bornes| - 1 && p in paths(g, DropLast(bornes)[k].0, DropLast(bornes)[k].1);
        assert DropLast(bornes)[k] == bornes[k];
      } else {
        assert p in paths(g, bornes[|bornes| - 1].0, bornes[|bornes| - 1].1);
      }
    }
  }

  /** Lines 243-253 (and 267-277) once the bounds are known: collect the candidates, then
      `select_best_path` with the given flags. */
  ghost function TrimTips(g: Graph, paths: PathOracle, bornes: seq<(Node, Node)>, de: bool, ds: bool): Outcome<Graph> {
    match Collect(g, paths, bornes)
    case Crash(e) => Crash(e)
    case Ok(c) =>
      match SelectBest(g, c.0, Lengths(c.0), c.1, de, ds)
      case Crash(e) => Crash(e)
      case Ok(res) => Ok(res.0)
  }

  /** `solve_entry_tips(graphique, entrees)`: the entry nodes of the lighter paths go. */
  ghost function SolveEntryTipsSpec(g: Graph, paths: PathOracle, entrees: seq<Node>): Outcome<Graph> {
    match EntryBounds(g, entrees)
    case Crash(e) => Crash(e)
    case Ok(bornes) => TrimTips(g, paths, bornes, true, false)
  }

  /** `solve_out_tips(graphique, sorties)`: the exit nodes of the lighter paths go. */
  ghost function SolveOutTipsSpec(g: Graph, paths: PathOracle, sorties: seq<Node>): Outcome<Graph> {
    match ExitBounds(g, sorties)
    case Crash(e) => Crash(e)
    case Ok(bornes) => TrimTips(g, paths, bornes, false, true)
  }

  lemma {:induction false} CollectCrashStays(g: Graph, paths: PathOracle, bornes: seq<(Node, Node)>, n: nat)
    requires n <= |bornes| && Collect(g, paths, bornes[..n]).Crash?
    ensures Collect(g, paths, bornes) == Collect(g, paths, bornes[..n])
    decreases |bornes|
  {
    if n < |bornes| {
      assert DropLast(bornes)[..n] == bornes[..n];
      CollectCrashStays(g, paths, DropLast(bornes), n);
    } else {
      assert bornes[..n] == bornes;
    }
  }

  lemma LengthsAppend(a: seq<Path>, b: seq<Path>)
    ensures Lengths(a + b) == Lengths(a) + Lengths(b)
  {
  }

  /** The loops of lines 246-251 (and 270-275): the candidate paths, their average weights and
      their lengths. */
  method CollectCandidates(g: DiGraph, paths: PathOracle, bornes: seq<(Node, Node)>)
    returns (r: Outcome<(seq<Path>, seq<Ratio>)>, longueurs: seq<int>)
    ensures r == Collect(g.Value(), paths, bornes)
    ensures r.Ok? ==> longueurs == Lengths(r.value.0)
  {
    var chemins: seq<Path> := [];
    var poids: seq<Ratio> := [];
    longueurs := [];
    for k := 0 to |bornes|
      invariant Collect(g.Value(), paths, bornes[..k]) == Ok((chemins, poids))
      invariant longueurs == Lengths(chemins)
    {
      assert DropLast(bornes[..k + 1]) == bornes[..k] && Last(bornes[..k + 1]) == bornes[k];
      var found := AllSimplePaths(g, paths, bornes[k].0, bornes[k].1);
      if found.Crash? {
        CollectCrashStays(g.Value(), paths, bornes, k + 1);
        return Crash(found.error), longueurs;
      }
      var ws := AverageWeights(g, found.value);
      if ws.Crash? {
        CollectCrashStays(g.Value(), paths, bornes, k + 1);
        return Crash(ws.error), longueurs;
      }
      LengthsAppend(chemins, found.value);
      chemins, poids, longueurs := chemins + found.value, poids + ws.value, longueurs + Lengths(found.value);
    }
    assert bornes[..|bornes|] == bornes;
    r := Ok((chemins, poids));
  }

  /** Lines 243-253 (and 267-277) once the bounds are known. */
  method TrimTipsFrom(g: DiGraph, paths: PathOracle, bornes: seq<(Node, Node)>, de: bool, ds: bool) returns (r: Outcome<()>)
    requires g.Valid()
    modifies g
    ensures g.Valid()
    ensures match TrimTips(old(g.Value()), paths, bornes, de, ds)
      case Crash(e) => r == Crash(e)
      case Ok(h) => r == Ok(()) && g.Value() == h
  {
    var c, longueurs := CollectCandidates(g, paths, bornes);
    if c.Crash? {
      return Crash(c.error);
    }
    var sel := SelectBestPath(g, c.value.0, longueurs, c.value.1, de, ds);
    if sel.Crash? {
      return Crash(sel.error);
    }
    r := Ok(());
  }

  /** The loop of lines 238-240: `fin` ends as the last node with more than one predecessor, or
      keeps the value it had before when there is none. */
  method ScanJoins(g: DiGraph, before: Option<Node>) returns (fin: Option<Node>)
    ensures fin == if LastJoin(g.Value(), |g.nodes|).Some? then LastJoin(g.Value(), |g.nodes|) else before
  {
    fin := before;
    for i := 0 to |g.nodes|
      invariant fin == if LastJoin(g.Value(), i).Some? then LastJoin(g.Value(), i) else before
    {
      var d := g.InDegree(g.nodes[i]);
      if d > 1 {
        fin := Some(g.nodes[i]);
      }
    }
  }

  /** The loop of lines 262-264, for `debut` and successors. */
  method ScanForks(g: DiGraph, before: Option<Node>) returns (debut: Option<Node>)
    ensures debut == if LastFork(g.Value(), |g.nodes|).Some? then LastFork(g.Value(), |g.nodes|) else before
  {
    debut := before;
    for i := 0 to |g.nodes|
      invariant debut == if LastFork(g.Value(), i).Some? then LastFork(g.Value(), i) else before
    {
      var d := g.OutDegree(g.nodes[i]);
      if d > 1 {
        debut := Some(g.nodes[i]);
      }
    }
  }

  /** Lines 235-241: the bound is found again for every entry, on the same graph, so it is always
      the same node; the variable keeps its value from one entry to the next. */
  method EntryBoundsOf(g: DiGraph, entrees: seq<Node>) returns (r: Outcome<seq<(Node, Node)>>)
    ensures r == EntryBounds(g.Value(), entrees)
  {
    var bornes: seq<(Node, Node)> := [];
    var fin: Option<Node> := None;
    for k := 0 to |entrees|
      invariant k > 0 ==> fin == LastJoin(g.Value(), |g.nodes|) && fin.Some?
      invariant k > 0 ==> |bornes| == k && forall i :: 0 <= i < k ==> bornes[i] == (entrees[i], fin.value)
      invariant k == 0 ==> fin.None? && bornes == []
    {
      fin := ScanJoins(g, fin);
      if fin.None? {
        return Crash(UnboundLocalError);
      }
      bornes := bornes + [(entrees[k], fin.value)];
    }
    if entrees != [] {
      assert bornes == seq(|entrees|, i requires 0 <= i < |entrees| => (entrees[i], fin.value));
    }
    r := Ok(bornes);
  }

  /** Lines 259-265, for exits. */
  method ExitBoundsOf(g: DiGraph, sorties: seq<Node>) returns (r: Outcome<seq<(Node, Node)>>)
    ensures r == ExitBounds(g.Value(), sorties)
  {
    var bornes: seq<(Node, Node)> := [];
    var debut: Option<Node> := None;
    for k := 0 to |sorties|
      invariant k > 0 ==> debut == LastFork(g.Value(), |g.nodes|) && debut.Some?
      invariant k > 0 ==> |bornes| == k && forall i :: 0 <= i < k ==> bornes[i] == (debut.value, sorties[i])
      invariant k == 0 ==> debut.None? && bornes == []
    {
      debut := ScanForks(g, debut);
      if debut.None? {
        return Crash(UnboundLocalError);
      }
      bornes := bornes + [(debut.value, sorties[k])];
    }
    if sorties != [] {
      assert bornes == seq(|sorties|, i requires 0 <= i < |sorties| => (debut.value, sorties[i]));
    }
    r := Ok(bornes);
  }

  /** `solve_entry_tips(graphique, entrees)` */
  method SolveEntryTips(g: DiGraph, paths: PathOracle, entrees: seq<Node>) returns (r: Outcome<()>)
    requires g.Valid()
    modifies g
    ensures g.Valid()
    ensures match SolveEntryTipsSpec(old(g.Value()), paths, entrees)
      case Crash(e) => r == Crash(e)
      case Ok(h) => r == Ok(()) && g.Value() == h
  {
    var bornes := EntryBoundsOf(g, entrees);
    if bornes.Crash? {
      return Crash(bornes.error);
    }
    r := TrimTipsFrom(g, paths, bornes.value, true, false);
  }

  /** `solve_out_tips(graphique, sorties)` */
  method SolveOutTips(g: DiGraph, paths: PathOracle, sorties: seq<Node>) returns (r: Outcome<()>)
    requires g.Valid()
    modifies g
    ensures g.Valid()
    ensures match SolveOutTipsSpec(old(g.Value()), paths, sorties)
      case Crash(e) => r == Crash(e)
      case Ok(h) => r == Ok(()) && g.Value() == h
  {
    var bornes := ExitBoundsOf(g, sorties);
    if bornes.Crash? {
      return Crash(bornes.error);
    }
    r := TrimTipsFrom(g, paths, bornes.value, false, true);
  }

  /** Lines 322-331: bubbles once, then entry tips if the graph has an entry, then exit tips if the
      resulting graph has an exit; no step is repeated. */
  ghost function SimplifySpec(g: Graph, paths: PathOracle): Outcome<Graph> {
    match SimplifyBubblesSpec(g, paths)
    case Crash(e) => Crash(e)
    case Ok(g1) =>
      var es := Sources(g1);
      match (if |es| > 0 then SolveEntryTipsSpec(g1, paths, es) else Ok(g1))
      case Crash(e) => Crash(e)
      case Ok(g2) =>
        var ss := Sinks(g2);
        if |ss| > 0 then SolveOutTipsSpec(g2, paths, ss) else Ok(g2)
  }

  method Simplify(g: DiGraph, paths: PathOracle) returns (r: Outcome<()>)
    requires g.Valid()
    modifies g
    ensures g.Valid()
    ensures match SimplifySpec(old(g.Value()), paths)
      case Crash(e) => r == Crash(e)
      case Ok(h) => r == Ok(()) && g.Value() == h
  {
    var b := SimplifyBubbles(g, paths);
    if b.Crash? {
      return b;
    }
    var entrees := StartingNodes(g);
    if |entrees| > 0 {
      var e := SolveEntryTips(g, paths, entrees);
      if e.Crash? {
        return e;
      }
    }
    var sorties := SinkNodes(g);
    if |sorties| > 0 {
      r := SolveOutTips(g, paths, sorties);
    } else {
      r := Ok(());
    }
  }

  // ----- Consequences -----

  /** `UnboundLocalError` comes from the bound alone: `solve_entry_tips` raises it exactly when
      there is an entry and no node has more than one predecessor. */
  lemma EntryTipsUnbound(g: Graph, paths: PathOracle, entrees: seq<Node>)
    ensures SolveEntryTipsSpec(g, paths, entrees) == Crash(UnboundLocalError) <==>
      entrees != [] && forall i :: 0 <= i < |g.nodes| ==> InDeg(g, g.nodes[i]) <= 1
  {
  }

  /** `solve_out_tips` raises it exactly when there is an exit and no node has more than one successor. */
  lemma OutTipsUnbound(g: Graph, paths: PathOracle, sorties: seq<Node>)
    ensures SolveOutTipsSpec(g, paths, sorties) == Crash(UnboundLocalError) <==>
      sorties != [] && forall i :: 0 <= i < |g.nodes| ==> OutDeg(g, g.nodes[i]) <= 1
  {
  }

  /** With a sound oracle, trimming keeps a node `x` of the graph when, for every bound, `x` is
      its first node and entries are kept, or its last node and exits are kept: every candidate
      is a simple path between the two nodes of its bound. */
  lemma TrimTipsKeeps(g: Graph, paths: PathOracle, bornes: seq<(Node, Node)>, de: bool, ds: bool, x: Node)
    requires SoundOracle(paths) && TrimTips(g, paths, bornes, de, ds).Ok? && x in g.nodes
    requires forall k :: 0 <= k < |bornes| ==> (!de && bornes[k].0 == x) || (!ds && bornes[k].1 == x)
    ensures x in TrimTips(g, paths, bornes, de, ds).value.nodes
  {
    var c := Collect(g, paths, bornes).value;
    var h := TrimTips(g, paths, bornes, de, ds).value;
    assert SelectBest(g, c.0, Lengths(c.0), c.1, de, ds).value.0 == h;
    forall p | p in c.0 ensures x !in Visited(p, de, ds) {
      var k :| 0 <= k < |bornes| && p in paths(g, bornes[k].0, bornes[k].1);
      assert SimplePathsBetween(g, bornes[k].0, bornes[k].1, paths(g, bornes[k].0, bornes[k].1));
      KeptEnd(p, de, ds, x);
    }
    PrunedKeeps(g, h, c.0, de, ds, x);
  }

  /** With a sound oracle, `solve_entry_tips` never deletes the shared bound (the last node with
      more than one predecessor): it ends every candidate path, and only the other nodes of the
      lighter paths go. */
  lemma SolveEntryTipsKeepsBound(g: Graph, paths: PathOracle, entrees: seq<Node>)
    requires SoundOracle(paths) && SolveEntryTipsSpec(g, paths, entrees).Ok? && LastJoin(g, |g.nodes|).Some?
    ensures LastJoin(g, |g.nodes|).value in SolveEntryTipsSpec(g, paths, entrees).value.nodes
  {
    var fin := LastJoin(g, |g.nodes|).value;
    var bornes := EntryBounds(g, entrees).value;
    assert forall k :: 0 <= k < |bornes| ==> bornes[k].1 == fin;
    TrimTipsKeeps(g, paths, bornes, true, false, fin);
  }

  /** With a sound oracle, `solve_out_tips` never deletes the shared bound (the last node with
      more than one successor): it starts every candidate path. */
  lemma SolveOutTipsKeepsBound(g: Graph, paths: PathOracle, sorties: seq<Node>)
    requires SoundOracle(paths) && SolveOutTipsSpec(g, paths, sorties).Ok? && LastFork(g, |g.nodes|).Some?
    ensures LastFork(g, |g.nodes|).value in SolveOutTipsSpec(g, paths, sorties).value.nodes
  {
    var debut := LastFork(g, |g.nodes|).value;
    var bornes := ExitBounds(g, sorties).value;
    assert forall k :: 0 <= k < |bornes| ==> bornes[k].0 == debut;
    TrimTipsKeeps(g, paths, bornes, false, true, debut);
  }

  lemma CollectPair(g: Graph, paths: PathOracle, e1: Node, f1: Node, e2: Node, f2: Node, a: Path, b: Path, pa: Ratio, pb: Ratio)
    requires e1 in g.nodes && e2 in g.nodes
    requires paths(g, e1, f1) == [a] && paths(g, e2, f2) == [b]
    requires AverageWeight(g, a) == Ok(pa) && AverageWeight(g, b) == Ok(pb)
    ensures Collect(g, paths, [(e1, f1), (e2, f2)]) == Ok(([a, b], [pa, pb]))
  {
    var bs := [(e1, f1), (e2, f2)];
    assert DropLast(bs) == [(e1, f1)] && Last(bs) == (e2, f2);
    assert DropLast([(e1, f1)]) == [] && Last([(e1, f1)]) == (e1, f1);
    AveragesOne(g, a, pa);
    AveragesOne(g, b, pb);
    assert [] + [a] == [a] && [] + [pa] == [pa];
    assert Collect(g, paths, [(e1, f1)]) == Ok(([a], [pa]));
    assert [a] + [b] == [a, b] && [pa] + [pb] == [pa, pb];
  }

  /** Two entries, each with one path to the bound, of different average weight: the lighter path
      goes with its entry node. */
  lemma TwoEntryTips(g: Graph, paths: PathOracle, e1: Node, e2: Node, a: Path, b: Path, pa: Ratio, pb: Ratio)
    requires e1 in g.nodes && e2 in g.nodes && LastJoin(g, |g.nodes|).Some?
    requires var fin := LastJoin(g, |g.nodes|).value; paths(g, e1, fin) == [a] && paths(g, e2, fin) == [b]
    requires a != b && AverageWeight(g, a) == Ok(pa) && AverageWeight(g, b) == Ok(pb) && !Same(pa, pb)
    ensures SolveEntryTipsSpec(g, paths, [e1, e2]) == Ok(RemovePathsSpec(g, [if Below(pa, pb) then a else b], true, false))
  {
    var fin := LastJoin(g, |g.nodes|).value;
    var bs := EntryBounds(g, [e1, e2]).value;
    assert bs[0] == (e1, fin) && bs[1] == (e2, fin);
    assert bs == [(e1, fin), (e2, fin)];
    CollectPair(g, paths, e1, fin, e2, fin, a, b, pa, pb);
    TwoCandidatesByWeight(g, a, b, Lengths([a, b]), pa, pb, true, false);
  }

  /** Two exits, each with one path from the bound, of different average weight: the lighter path
      goes with its exit node. */
  lemma TwoOutTips(g: Graph, paths: PathOracle, s1: Node, s2: Node, a: Path, b: Path, pa: Ratio, pb: Ratio)
    requires LastFork(g, |g.nodes|).Some? && LastFork(g, |g.nodes|).value in g.nodes
    requires var debut := LastFork(g, |g.nodes|).value; paths(g, debut, s1) == [a] && paths(g, debut, s2) == [b]
    requires a != b && AverageWeight(g, a) == Ok(pa) && AverageWeight(g, b) == Ok(pb) && !Same(pa, pb)
    ensures SolveOutTipsSpec(g, paths, [s1, s2]) == Ok(RemovePathsSpec(g, [if Below(pa, pb) then a else b], false, true))
  {
    var debut := LastFork(g, |g.nodes|).value;
    var bs := ExitBounds(g, [s1, s2]).value;
    assert bs[0] == (debut, s1) && bs[1] == (debut, s2);
    assert bs == [(debut, s1), (debut, s2)];
    CollectPair(g, paths, debut, s1, debut, s2, a, b, pa, pb);
    TwoCandidatesByWeight(g, a, b, Lengths([a, b]), pa, pb, false, true);
  }
}
