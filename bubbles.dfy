/** `find_bubbles`, `solve_bubble` and `simplify_bubbles`. The scan walks the node list by position:
    from a node with more than one successor it moves forward while the current node has exactly
    one predecessor, and stops at the first later node with more than one predecessor (the end of
    the bubble), at a node with none, or past the end of the list (`IndexError`). */
module Bubbles {
  import opened Common
  import opened Seqs
  import opened Graphs
  import opened Weights
  import opened Editing
  import opened Selection
  import opened Candidates

  /** `[debut, fin]`: where the two paths part, and where they meet again. */
  datatype Bubble = Bubble(start: Node, finish: Node)

  /** The `while` loop of lines 196-199 from position `t`: the value `fin` ends with (`""` when no
      end was found), or the `IndexError` of line 198. */
  function Walk(g: Graph, t: nat): (r: Outcome<Node>)
    requires t < |g.nodes|
    ensures r.Crash? ==> r.error == IndexError
    decreases |g.nodes| - t
  {
    if InDeg(g, g.nodes[t]) != 1 then Ok("")
    else if t + 1 == |g.nodes| then Crash(IndexError)
    else if InDeg(g, g.nodes[t + 1]) > 1 then Ok(g.nodes[t + 1])
    else Walk(g, t + 1)
  }

  /** The bubbles found by the first `m` iterations of the `for` loop of line 190. */
  function ScanUpTo(g: Graph, m: nat): (r: Outcome<seq<Bubble>>)
    requires m <= |g.nodes|
    ensures r.Crash? ==> r.error == IndexError
  {
    if m == 0 then Ok([])
    else
      match ScanUpTo(g, m - 1)
      case Crash(e) => Crash(e)
      case Ok(bs) =>
        if OutDeg(g, g.nodes[m - 1]) > 1 then
          match Walk(g, m - 1)
          case Crash(e) => Crash(e)
          case Ok(fin) => if fin != "" then Ok(bs + [Bubble(g.nodes[m - 1], fin)]) else Ok(bs)
        else Ok(bs)
  }

  /** What `find_bubbles(graphique)` returns or raises. */
  function FindBubblesSpec(g: Graph): Outcome<seq<Bubble>> {
    ScanUpTo(g, |g.nodes|)
  }

  /** Once an iteration raises, the scan raises that. */
  lemma {:induction false} ScanCrashStays(g: Graph, m: nat, m': nat)
    requires m <= m' <= |g.nodes| && ScanUpTo(g, m).Crash?
    ensures ScanUpTo(g, m') == ScanUpTo(g, m)
    decreases m'
  {
    if m' > m {
      ScanCrashStays(g, m, m' - 1);
    }
  }

  /** The `while` loop of lines 195-199 from the fork at position `i`: the end it records, `""`
      when it records none, or the `IndexError` of line 198 once `i + j` passes the last node. */
  method WalkFrom(g: DiGraph, i: nat) returns (r: Outcome<Node>)
    requires i < |g.nodes|
    ensures r == Walk(g.Value(), i)
  {
    var noeuds := g.nodes;
    var n := |noeuds|;
    var j := 0;
    var fin := "";
    var d := g.InDegree(noeuds[i + j]);
    while d == 1 && j < n - i
      invariant i + j < n
      invariant d == InDeg(g.Value(), noeuds[i + j])
      invariant if j > 0 && d > 1 then fin == noeuds[i + j] && Walk(g.Value(), i) == Ok(fin)
                else fin == "" && Walk(g.Value(), i) == Walk(g.Value(), i + j)
      decreases n - i - j
    {
      j := j + 1;
      if i + j >= n {
        return Crash(IndexError);
      }
      d := g.InDegree(noeuds[i + j]);
      if d > 1 {
        fin := noeuds[i + j];
      }
    }
    r := Ok(fin);
  }

  /** `find_bubbles(graphique)` */
  method FindBubbles(g: DiGraph) returns (r: Outcome<seq<Bubble>>)
    ensures r == FindBubblesSpec(g.Value())
  {
    var bulles: seq<Bubble> := [];
    var noeuds := g.nodes;
    for i := 0 to |noeuds|
      invariant ScanUpTo(g.Value(), i) == Ok(bulles)
    {
      var out := g.OutDegree(noeuds[i]);
      if out > 1 {
        var debut := noeuds[i];
        var fin := WalkFrom(g, i);
        if fin.Crash? {
          ScanCrashStays(g.Value(), i + 1, |noeuds|);
          return Crash(fin.error);
        }
        if fin.value != "" {
          bulles := bulles + [Bubble(debut, fin.value)];
        }
      }
    }
    r := Ok(bulles);
  }

  // ----- What the scan finds -----

  /** A walk that finds an end has passed only nodes with exactly one predecessor, and stopped at
      the first later node with more than one. */
  lemma {:induction false} WalkFound(g: Graph, t: nat)
    requires t < |g.nodes| && Walk(g, t).Ok? && Walk(g, t).value != ""
    ensures exists u :: t < u < |g.nodes| && g.nodes[u] == Walk(g, t).value && InDeg(g, g.nodes[u]) > 1
                        && forall v :: t <= v < u ==> InDeg(g, g.nodes[v]) == 1
    decreases |g.nodes| - t
  {
    if InDeg(g, g.nodes[t + 1]) <= 1 {
      WalkFound(g, t + 1);
      var u :| t + 1 < u < |g.nodes| && g.nodes[u] == Walk(g, t + 1).value && InDeg(g, g.nodes[u]) > 1
                && forall v :: t + 1 <= v < u ==> InDeg(g, g.nodes[v]) == 1;
      assert forall v :: t <= v < u ==> InDeg(g, g.nodes[v]) == 1;
    }
  }

  /** A walk reaches the first later node with more than one predecessor when every node before it
      has exactly one. */
  lemma {:induction false} WalkReaches(g: Graph, t: nat, u: nat)
    requires t < u < |g.nodes| && InDeg(g, g.nodes[u]) > 1
    requires forall v :: t <= v < u ==> InDeg(g, g.nodes[v]) == 1
    ensures Walk(g, t) == Ok(g.nodes[u])
    decreases u - t
  {
    if t + 1 < u {
      WalkReaches(g, t + 1, u);
    }
  }

  /** The walk raises exactly when it starts a run of nodes with one predecessor that lasts to the
      end of the node list. */
  lemma {:induction false} WalkCrash(g: Graph, t: nat)
    requires t < |g.nodes|
    ensures Walk(g, t).Crash? <==> forall v :: t <= v < |g.nodes| ==> InDeg(g, g.nodes[v]) == 1
    decreases |g.nodes| - t
  {
    if InDeg(g, g.nodes[t]) == 1 && t + 1 < |g.nodes| {
      WalkCrash(g, t + 1);
      if InDeg(g, g.nodes[t + 1]) > 1 {
        assert !(forall v :: t <= v < |g.nodes| ==> InDeg(g, g.nodes[v]) == 1) by {
          assert InDeg(g, g.nodes[t + 1]) != 1;
        }
      }
      assert (forall v :: t <= v < |g.nodes| ==> InDeg(g, g.nodes[v]) == 1) <==>
             (forall v :: t + 1 <= v < |g.nodes| ==> InDeg(g, g.nodes[v]) == 1);
    }
  }

  /** The conditions a pair `[d, c]` of `find_bubbles` meets: `d` has more than one successor, `c`
      more than one predecessor, `c` comes strictly after `d` in node order, and every node from
      `d` up to just before `c` has exactly one predecessor. */
  ghost predicate IsBubble(g: Graph, b: Bubble) {
    exists i, u :: 0 <= i < u < |g.nodes| && g.nodes[i] == b.start && g.nodes[u] == b.finish
      && OutDeg(g, b.start) > 1 && InDeg(g, b.finish) > 1 && b.finish != ""
      && forall v :: i <= v < u ==> InDeg(g, g.nodes[v]) == 1
  }

  /** Every pair the first `m` iterations produce meets the conditions. */
  lemma {:induction false} ScanSound(g: Graph, m: nat)
    requires m <= |g.nodes| && ScanUpTo(g, m).Ok?
    ensures forall b :: b in ScanUpTo(g, m).value ==> IsBubble(g, b)
  {
    if m > 0 {
      ScanSound(g, m - 1);
      var i := m - 1;
      if OutDeg(g, g.nodes[i]) > 1 && Walk(g, i).value != "" {
        WalkFound(g, i);
        var u :| i < u < |g.nodes| && g.nodes[u] == Walk(g, i).value && InDeg(g, g.nodes[u]) > 1
                  && forall v :: i <= v < u ==> InDeg(g, g.nodes[v]) == 1;
        assert IsBubble(g, Bubble(g.nodes[i], Walk(g, i).value));
      }
    }
  }

  /** Every pair `[d, c]` from `find_bubbles` meets the bubble conditions. */
  lemma BubblesSound(g: Graph)
    requires FindBubblesSpec(g).Ok?
    ensures forall b :: b in FindBubblesSpec(g).value ==> IsBubble(g, b)
  {
    ScanSound(g, |g.nodes|);
  }

  /** A scan that goes on without raising keeps the bubbles it has found. */
  lemma {:induction false} ScanGrows(g: Graph, m: nat, m': nat)
    requires m <= m' <= |g.nodes| && ScanUpTo(g, m').Ok?
    ensures ScanUpTo(g, m).Ok? && ScanUpTo(g, m).value <= ScanUpTo(g, m').value
    decreases m'
  {
    if m < m' {
      ScanGrows(g, m, m' - 1);
    }
  }

  /** Conversely, every node `d` with more than one successor, followed by a run of nodes with one
      predecessor (itself included) that ends at a non-empty node `c` with more than one
      predecessor, gives the pair `[d, c]`. */
  lemma BubblesComplete(g: Graph, i: nat, u: nat)
    requires FindBubblesSpec(g).Ok?
    requires i < u < |g.nodes| && OutDeg(g, g.nodes[i]) > 1 && InDeg(g, g.nodes[u]) > 1 && g.nodes[u] != ""
    requires forall v :: i <= v < u ==> InDeg(g, g.nodes[v]) == 1
    ensures Bubble(g.nodes[i], g.nodes[u]) in FindBubblesSpec(g).value
  {
    ScanGrows(g, i + 1, |g.nodes|);
    WalkReaches(g, i, u);
    var s := ScanUpTo(g, i + 1).value;
    assert s[|s| - 1] == Bubble(g.nodes[i], g.nodes[u]);
    assert s[|s| - 1] == FindBubblesSpec(g).value[|s| - 1];
  }

  /** `find_bubbles` raises `IndexError` exactly when some node with more than one successor starts
      a run of nodes with one predecessor that lasts to the end of the node list. */
  lemma {:induction false} ScanCrash(g: Graph, m: nat)
    requires m <= |g.nodes|
    ensures ScanUpTo(g, m).Crash? <==> exists i :: 0 <= i < m && OutDeg(g, g.nodes[i]) > 1 && Walk(g, i).Crash?
  {
    if m > 0 {
      ScanCrash(g, m - 1);
    }
  }

  lemma FindBubblesCrash(g: Graph)
    ensures FindBubblesSpec(g).Crash? <==>
      exists i :: 0 <= i < |g.nodes| && OutDeg(g, g.nodes[i]) > 1
        && forall v :: i <= v < |g.nodes| ==> InDeg(g, g.nodes[v]) == 1
  {
    ScanCrash(g, |g.nodes|);
    forall i | 0 <= i < |g.nodes| {
      WalkCrash(g, i);
    }
  }

  /** The starting nodes of the pairs, in the order found. */
  function Starts(bs: seq<Bubble>): (r: seq<Node>)
    ensures |r| == |bs| && forall k :: 0 <= k < |bs| ==> r[k] == bs[k].start
  {
    if bs == [] then [] else Starts(DropLast(bs)) + [Last(bs).start]
  }

  lemma {:induction false} ScanOrder(g: Graph, m: nat)
    requires m <= |g.nodes| && ScanUpTo(g, m).Ok?
    ensures Sub(Starts(ScanUpTo(g, m).value), g.nodes[..m])
  {
    if m > 0 {
      ScanOrder(g, m - 1);
      var bs := ScanUpTo(g, m - 1).value;
      assert DropLast(g.nodes[..m]) == g.nodes[..m - 1] && Last(g.nodes[..m]) == g.nodes[m - 1];
      if ScanUpTo(g, m).value == bs {
        SubSnoc(Starts(bs), g.nodes[..m - 1], g.nodes[m - 1]);
      } else {
        var b := Bubble(g.nodes[m - 1], Walk(g, m - 1).value);
        assert ScanUpTo(g, m).value == bs + [b];
        assert DropLast(bs + [b]) == bs && Last(bs + [b]) == b;
        assert Starts(bs + [b]) == Starts(bs) + [g.nodes[m - 1]];
      }
    }
  }

  /** At most one pair per starting node, in node order: the starting nodes are a subsequence of
      the node list, so with distinct nodes they are distinct. */
  lemma BubblesInNodeOrder(g: Graph)
    requires FindBubblesSpec(g).Ok?
    ensures Sub(Starts(FindBubblesSpec(g).value), g.nodes)
  {
    ScanOrder(g, |g.nodes|);
    assert g.nodes[..|g.nodes|] == g.nodes;
  }

  // ----- Solving the bubbles -----

  /** `solve_bubble(graphique, debut, fin)`: every simple path between the two ends, then
      `select_best_path` with both ends kept. The pair is not re-checked: a start node removed by
      an earlier bubble makes networkx raise `NodeNotFound`. */
  ghost function SolveBubbleSpec(g: Graph, paths: PathOracle, debut: Node, fin: Node): Outcome<Graph> {
    match Enumerate(g, paths, debut, fin)
    case Crash(e) => Crash(e)
    case Ok(cs) =>
      match Averages(g, cs)
      case Crash(e) => Crash(e)
      case Ok(poids) =>
        match SelectBest(g, cs, Lengths(cs), poids, false, false)
        case Crash(e) => Crash(e)
        case Ok(res) => Ok(res.0)
  }

  method SolveBubble(g: DiGraph, paths: PathOracle, debut: Node, fin: Node) returns (r: Outcome<()>)
    requires g.Valid()
    modifies g
    ensures g.Valid()
    ensures match SolveBubbleSpec(old(g.Value()), paths, debut, fin)
      case Crash(e) => r == Crash(e)
      case Ok(h) => r == Ok(()) && g.Value() == h
  {
    var found := AllSimplePaths(g, paths, debut, fin);
    if found.Crash? {
      return Crash(found.error);
    }
    var cs := found.value;
    var poids := AverageWeights(g, cs);
    if poids.Crash? {
      return Crash(poids.error);
    }
    var sel := SelectBestPath(g, cs, Lengths(cs), poids.value, false, false);
    if sel.Crash? {
      return Crash(sel.error);
    }
    r := Ok(());
  }

  /** The loop of lines 227-228 over the first `|bs|` bubbles found. */
  ghost function SolveAll(g: Graph, paths: PathOracle, bs: seq<Bubble>): Outcome<Graph> {
    if bs == [] then Ok(g)
    else
      match SolveAll(g, paths, DropLast(bs))
      case Crash(e) => Crash(e)
      case Ok(h) => SolveBubbleSpec(h, paths, Last(bs).start, Last(bs).finish)
  }

  /** `simplify_bubbles(graphique)`: the bubbles are found once, on the graph as given, and then
      solved one after the other. */
  ghost function SimplifyBubblesSpec(g: Graph, paths: PathOracle): Outcome<Graph> {
    match FindBubblesSpec(g)
    case Crash(e) => Crash(e)
    case Ok(bs) => SolveAll(g, paths, bs)
  }

  lemma {:induction false} SolveAllCrashStays(g: Graph, paths: PathOracle, bs: seq<Bubble>, n: nat)
    requires n <= |bs| && SolveAll(g, paths, bs[..n]).Crash?
    ensures SolveAll(g, paths, bs) == SolveAll(g, paths, bs[..n])
    decreases |bs|
  {
    if n < |bs| {
      assert DropLast(bs)[..n] == bs[..n];
      SolveAllCrashStays(g, paths, DropLast(bs), n);
    } else {
      assert bs[..n] == bs;
    }
  }

  method SimplifyBubbles(g: DiGraph, paths: PathOracle) returns (r: Outcome<()>)
    requires g.Valid()
    modifies g
    ensures g.Valid()
    ensures match SimplifyBubblesSpec(old(g.Value()), paths)
      case Crash(e) => r == Crash(e)
      case Ok(h) => r == Ok(()) && g.Value() == h
  {
    ghost var g0 := g.Value();
    var liste := FindBubbles(g);
    if liste.Crash? {
      return Crash(liste.error);
    }
    var bulles := liste.value;
    for i := 0 to |bulles|
      invariant g.Valid()
      invariant SolveAll(g0, paths, bulles[..i]) == Ok(g.Value())
    {
      assert DropLast(bulles[..i + 1]) == bulles[..i] && Last(bulles[..i + 1]) == bulles[i];
      var step := SolveBubble(g, paths, bulles[i].start, bulles[i].finish);
      if step.Crash? {
        SolveAllCrashStays(g0, paths, bulles, i + 1);
        return Crash(step.error);
      }
    }
    assert bulles[..|bulles|] == bulles;
    r := Ok(());
  }

  // ----- Consequences -----

  /** A graph where no node has more than one successor has no bubble, and `simplify_bubbles`
      leaves it as it is. */
  lemma NoForkNoBubbles(g: Graph, paths: PathOracle)
    requires forall i :: 0 <= i < |g.nodes| ==> OutDeg(g, g.nodes[i]) <= 1
    ensures FindBubblesSpec(g) == Ok([])
    ensures SimplifyBubblesSpec(g, paths) == Ok(g)
  {
    NoForkScan(g, |g.nodes|);
  }

  lemma {:induction false} NoForkScan(g: Graph, m: nat)
    requires m <= |g.nodes|
    requires forall i :: 0 <= i < |g.nodes| ==> OutDeg(g, g.nodes[i]) <= 1
    ensures ScanUpTo(g, m) == Ok([])
  {
    if m > 0 {
      NoForkScan(g, m - 1);
    }
  }

  /** With a sound oracle, a bubble with at most one path between its ends changes nothing. */
  lemma SinglePathBubble(g: Graph, paths: PathOracle, debut: Node, fin: Node)
    requires SoundOracle(paths) && debut in g.nodes && |paths(g, debut, fin)| <= 1
    ensures SolveBubbleSpec(g, paths, debut, fin) == Ok(g)
  {
    SoundWeights(g, paths, debut, fin);
  }

  /** Two distinct paths of different average weight: the lighter one's interior is removed. */
  lemma TwoPathBubbleByWeight(g: Graph, paths: PathOracle, debut: Node, fin: Node, a: Path, b: Path, pa: Ratio, pb: Ratio)
    requires debut in g.nodes && paths(g, debut, fin) == [a, b] && a != b
    requires AverageWeight(g, a) == Ok(pa) && AverageWeight(g, b) == Ok(pb) && !Same(pa, pb)
    ensures SolveBubbleSpec(g, paths, debut, fin) == Ok(RemovePathsSpec(g, [if Below(pa, pb) then a else b], false, false))
  {
    AveragesPair(g, a, b, pa, pb);
    TwoCandidatesByWeight(g, a, b, Lengths([a, b]), pa, pb, false, false);
  }

  /** Removing a simple path with both ends kept leaves both ends in the graph. */
  lemma RemoveInteriorKeepsEnds(g: Graph, l: Path)
    requires ValidGraph(g) && IsSimplePath(g, l)
    ensures l[0] in RemovePathsSpec(g, [l], false, false).nodes
    ensures Last(l) in RemovePathsSpec(g, [l], false, false).nodes
  {
    var n := |l|;
    assert (l[0], l[1]) in g.w && (l[n - 2], l[n - 1]) in g.w;
    assert l[0] in g.nodes && Last(l) in g.nodes;
    InteriorExcludesEnds(l);
    var D := Doomed([l], false, false);
    assert Visited([l][0], false, false) == l[1..n - 1];
    assert l[0] !in D && Last(l) !in D;
  }

  /** In that case both ends of a bubble found with a sound oracle survive: only interior nodes of
      the lighter path go. */
  lemma TwoPathBubbleKeepsEnds(g: Graph, paths: PathOracle, debut: Node, fin: Node, a: Path, b: Path, pa: Ratio, pb: Ratio)
    requires ValidGraph(g) && SoundOracle(paths)
    requires debut in g.nodes && paths(g, debut, fin) == [a, b] && a != b
    requires AverageWeight(g, a) == Ok(pa) && AverageWeight(g, b) == Ok(pb) && !Same(pa, pb)
    ensures SolveBubbleSpec(g, paths, debut, fin).Ok?
    ensures debut in SolveBubbleSpec(g, paths, debut, fin).value.nodes
    ensures fin in SolveBubbleSpec(g, paths, debut, fin).value.nodes
  {
    TwoPathBubbleByWeight(g, paths, debut, fin, a, b, pa, pb);
    var lighter := if Below(pa, pb) then a else b;
    assert SimplePathsBetween(g, debut, fin, paths(g, debut, fin));
    assert lighter in paths(g, debut, fin);
    RemoveInteriorKeepsEnds(g, lighter);
  }

  /** With a sound oracle, a bubble solved without an exception keeps its start node, and its end
      node when that is a node, whatever the number of candidate paths: `select_best_path` only
      deletes interior nodes of the candidates, and a simple path does not pass through its own
      ends. Every node that goes is interior to a candidate path. */
  lemma SolveBubbleKeepsEnds(g: Graph, paths: PathOracle, debut: Node, fin: Node)
    requires SoundOracle(paths) && SolveBubbleSpec(g, paths, debut, fin).Ok?
    ensures debut in SolveBubbleSpec(g, paths, debut, fin).value.nodes
    ensures fin in g.nodes ==> fin in SolveBubbleSpec(g, paths, debut, fin).value.nodes
    ensures forall x :: x in g.nodes && x !in SolveBubbleSpec(g, paths, debut, fin).value.nodes ==>
      exists p :: p in paths(g, debut, fin) && x in p[1..|p| - 1]
  {
    var cs := paths(g, debut, fin);
    var h := SolveBubbleSpec(g, paths, debut, fin).value;
    var poids := Averages(g, cs).value;
    assert SelectBest(g, cs, Lengths(cs), poids, false, false).value.0 == h;
    assert SimplePathsBetween(g, debut, fin, cs);
    forall p | p in cs ensures debut !in Visited(p, false, false) && fin !in Visited(p, false, false) {
      KeptEnd(p, false, false, debut);
      KeptEnd(p, false, false, fin);
    }
    PrunedKeeps(g, h, cs, false, false, debut);
    PrunedKeeps(g, h, cs, false, false, fin);
    forall x | x in g.nodes && x !in h.nodes ensures exists p :: p in cs && x in p[1..|p| - 1] {
      PrunedKeeps(g, h, cs, false, false, x);
      var p :| p in cs && x in Visited(p, false, false);
      assert x in p[1..|p| - 1];
    }
  }

  /** Two paths of equal average weight and equal length reach `random.seed`: `NameError`. */
  lemma TwoPathBubbleTie(g: Graph, paths: PathOracle, debut: Node, fin: Node, a: Path, b: Path, pa: Ratio, pb: Ratio)
    requires debut in g.nodes && paths(g, debut, fin) == [a, b] && a != b && |a| == |b|
    requires AverageWeight(g, a) == Ok(pa) && AverageWeight(g, b) == Ok(pb) && Same(pa, pb)
    ensures SolveBubbleSpec(g, paths, debut, fin) == Crash(NameError)
  {
    AveragesPair(g, a, b, pa, pb);
    assert Enumerate(g, paths, debut, fin) == Ok([a, b]);
    assert Lengths([a, b]) == [|a|, |b|];
    TwoCandidatesTie(g, a, b, |a|, |b|, pa, pb, false, false);
  }
}
