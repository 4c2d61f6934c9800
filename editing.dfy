/** `remove_paths`: delete a batch of paths from the graph in place. Interior nodes always go;
    the first node too when `delete_entry_node`, the last when `delete_sink_node`. */
module Editing {
  import opened Seqs
  import opened Graphs

  /** The nodes `remove_paths` visits for one path, one Python slice per flag combination. */
  function Visited(c: Path, de: bool, ds: bool): seq<Node> {
    if !de && !ds then (if |c| >= 2 then c[1..|c| - 1] else [])   // chemin[1:-1]
    else if de && !ds then (if |c| >= 1 then c[..|c| - 1] else [])  // chemin[:-1]
    else if !de && ds then (if |c| >= 1 then c[1..] else [])        // chemin[1:]
    else c                                                          // chemin[:]
  }

  /** For a path of at least two nodes the visited nodes are the interior, plus the first node
      iff `de`, plus the last node iff `ds`. */
  lemma VisitedOfPath(c: Path, de: bool, ds: bool, x: Node)
    requires |c| >= 2
    ensures x in Visited(c, de, ds) <==>
              x in c[1..|c| - 1] || (de && x == c[0]) || (ds && x == c[|c| - 1])
  {
    assert c == [c[0]] + c[1..|c| - 1] + [c[|c| - 1]];
    assert c[..|c| - 1] == [c[0]] + c[1..|c| - 1];
    assert c[1..] == c[1..|c| - 1] + [c[|c| - 1]];
  }

  /** Every node visited for some path of the batch. */
  function Doomed(cs: seq<Path>, de: bool, ds: bool): (r: set<Node>)
    ensures forall x :: x in r <==> exists i :: 0 <= i < |cs| && x in Visited(cs[i], de, ds)
  {
    if cs == [] then {}
    else
      var r := Doomed(DropLast(cs), de, ds) + Elems(Visited(Last(cs), de, ds));
      assert forall i :: 0 <= i < |cs| - 1 ==> cs[i] == DropLast(cs)[i];
      r
  }

  /** The graph `remove_paths` leaves: every visited node and its edges removed. */
  function RemovePathsSpec(g: Graph, cs: seq<Path>, de: bool, ds: bool): Graph {
    Without(g, Doomed(cs, de, ds))
  }

  /** A `graph.remove_node` guarded by `if noeud in graph.nodes`: removing one more node, or
      skipping a node already gone, both give the graph without the larger set. */
  lemma RemoveOneMore(g: Graph, D: set<Node>, v: Node)
    requires ValidGraph(g)
    ensures v in Without(g, D).nodes ==> Without(Without(g, D), {v}) == Without(g, D + {v})
    ensures v !in Without(g, D).nodes ==> Without(g, D) == Without(g, D + {v})
  {
    WithoutTwice(g, D, {v});
    if v !in Without(g, D).nodes {
      WithoutAbsent(Without(g, D), {v});
    }
  }

  /** One turn of the inner loop of `remove_paths`, on values: removing `visit[j]` when it is
      still present, or skipping it, extends the removed set by `visit[j]`. */
  lemma ListedStep(g1: Graph, visit: seq<Node>, j: nat, h: Graph)
    requires ValidGraph(g1) && j < |visit| && h == Without(g1, Elems(visit[..j]))
    ensures visit[j] in h.nodes ==> Without(h, {visit[j]}) == Without(g1, Elems(visit[..j + 1]))
    ensures visit[j] !in h.nodes ==> h == Without(g1, Elems(visit[..j + 1]))
  {
    assert visit[..j + 1] == visit[..j] + [visit[j]];
    ElemsSnoc(visit[..j], visit[j]);
    RemoveOneMore(g1, Elems(visit[..j]), visit[j]);
  }

  /** The inner loop of `remove_paths`: remove each listed node that is still in the graph. */
  method RemoveListed(g: DiGraph, visit: seq<Node>)
    requires g.Valid()
    modifies g
    ensures g.Valid() && g.Value() == Without(old(g.Value()), Elems(visit))
  {
    ghost var g1 := g.Value();
    WithoutAbsent(g1, {});
    assert Elems(visit[..0]) == {};
    for j := 0 to |visit|
      invariant g.Valid() && g.Value() == Without(g1, Elems(visit[..j]))
    {
      var noeud := visit[j];
      ListedStep(g1, visit, j, g.Value());
      var present := g.HasNode(noeud);
      if present {
        g.RemoveNode(noeud);
      }
    }
    assert visit[..|visit|] == visit;
  }

  /** `remove_paths(graph, liste_chemins, delete_entry_node, delete_sink_node)` */
  method RemovePaths(g: DiGraph, cs: seq<Path>, de: bool, ds: bool)
    requires g.Valid()
    modifies g
    ensures g.Valid() && g.Value() == RemovePathsSpec(old(g.Value()), cs, de, ds)
  {
    ghost var g0 := g.Value();
    WithoutAbsent(g0, {});
    for i := 0 to |cs|
      invariant g.Valid() && g.Value() == Without(g0, Doomed(cs[..i], de, ds))
    {
      var chemin := cs[i];
      var visit: seq<Node>;
      if !de && !ds {
        visit := if |chemin| >= 2 then chemin[1..|chemin| - 1] else [];
      } else if de && !ds {
        visit := if |chemin| >= 1 then chemin[..|chemin| - 1] else [];
      } else if !de && ds {
        visit := if |chemin| >= 1 then chemin[1..] else [];
      } else {
        visit := chemin;
      }
      assert visit == Visited(chemin, de, ds);
      WithoutTwice(g0, Doomed(cs[..i], de, ds), Elems(visit));
      RemoveListed(g, visit);
      assert DropLast(cs[..i + 1]) == cs[..i] && Last(cs[..i + 1]) == chemin;
    }
    assert cs[..|cs|] == cs;
  }

  /** What `remove_paths` leaves, for a batch of paths of at least two nodes each: a node survives
      iff it is not interior to some path, not the first node of one when `de`, and not the last
      node of one when `ds`. The survivors keep their order and exactly the edges among them. */
  lemma RemovePathsResult(g: Graph, cs: seq<Path>, de: bool, ds: bool)
    requires ValidGraph(g)
    requires forall i :: 0 <= i < |cs| ==> |cs[i]| >= 2
    ensures var r := RemovePathsSpec(g, cs, de, ds);
      && ValidGraph(r)
      && Sub(r.nodes, g.nodes)
      && (forall x :: x in r.nodes <==> x in g.nodes && forall i :: 0 <= i < |cs| ==>
            !(x in cs[i][1..|cs[i]| - 1] || (de && x == cs[i][0]) || (ds && x == cs[i][|cs[i]| - 1])))
      && (forall e :: e in r.w <==> e in g.w && e.0 in r.nodes && e.1 in r.nodes)
      && (forall e :: e in r.w ==> r.w[e] == g.w[e])
  {
    forall x, i | 0 <= i < |cs| {
      VisitedOfPath(cs[i], de, ds, x);
    }
  }

  /** The interior of a path without repeats holds neither end. */
  lemma InteriorExcludesEnds(p: Path)
    requires |p| >= 2 && Distinct(p)
    ensures p[0] !in p[1..|p| - 1] && p[|p| - 1] !in p[1..|p| - 1]
  {
    var mid := p[1..|p| - 1];
    forall k | 0 <= k < |mid| ensures mid[k] != p[0] && mid[k] != p[|p| - 1] {
      assert mid[k] == p[k + 1];
    }
  }

  /** On a path without repeats, the first node is not visited unless `de`, and the last node is
      not visited unless `ds`. */
  lemma KeptEnd(p: Path, de: bool, ds: bool, x: Node)
    requires |p| >= 2 && Distinct(p)
    ensures !de && x == p[0] ==> x !in Visited(p, de, ds)
    ensures !ds && x == Last(p) ==> x !in Visited(p, de, ds)
  {
    VisitedOfPath(p, de, ds, x);
    InteriorExcludesEnds(p);
    assert p[0] != p[|p| - 1];
  }

  /** The nodes of two batches, one after the other, are those of the joined batch. */
  lemma DoomedAppend(a: seq<Path>, b: seq<Path>, de: bool, ds: bool)
    ensures Doomed(a + b, de, ds) == Doomed(a, de, ds) + Doomed(b, de, ds)
  {
    forall x ensures x in Doomed(a + b, de, ds) <==> x in Doomed(a, de, ds) || x in Doomed(b, de, ds) {
      if x in Doomed(a + b, de, ds) {
        var i :| 0 <= i < |a + b| && x in Visited((a + b)[i], de, ds);
        if i < |a| {
          assert (a + b)[i] == a[i];
        } else {
          assert (a + b)[i] == b[i - |a|];
        }
      }
      if x in Doomed(a, de, ds) {
        var i :| 0 <= i < |a| && x in Visited(a[i], de, ds);
        assert (a + b)[i] == a[i];
      }
      if x in Doomed(b, de, ds) {
        var i :| 0 <= i < |b| && x in Visited(b[i], de, ds);
        assert (a + b)[|a| + i] == b[i];
      }
    }
  }

  /** Two calls of `remove_paths` with the same flags are one call on the joined batch. */
  lemma RemovePathsTwice(g: Graph, a: seq<Path>, b: seq<Path>, de: bool, ds: bool)
    ensures RemovePathsSpec(RemovePathsSpec(g, a, de, ds), b, de, ds) == RemovePathsSpec(g, a + b, de, ds)
  {
    DoomedAppend(a, b, de, ds);
    WithoutTwice(g, Doomed(a, de, ds), Doomed(b, de, ds));
  }

  /** `h` is what `remove_paths` leaves of `g` for some batch of paths drawn from `cs`. */
  ghost predicate PrunedBy(g: Graph, h: Graph, cs: seq<Path>, de: bool, ds: bool) {
    exists b :: (forall p :: p in b ==> p in cs) && h == RemovePathsSpec(g, b, de, ds)
  }

  /** Removing nothing is a pruning. */
  lemma PrunedByNothing(g: Graph, cs: seq<Path>, de: bool, ds: bool)
    ensures PrunedBy(g, g, cs, de, ds)
  {
    var none: seq<Path> := [];
    assert Doomed(none, de, ds) == {};
    WithoutNothing(g);
    assert g == RemovePathsSpec(g, none, de, ds);
  }

  /** A batch from `cs` followed by a pruning by a list drawn from `cs` is a pruning by `cs`. */
  lemma PrunedByThen(g: Graph, a: seq<Path>, left: seq<Path>, cs: seq<Path>, h: Graph, de: bool, ds: bool)
    requires forall p :: p in a ==> p in cs
    requires forall p :: p in left ==> p in cs
    requires PrunedBy(RemovePathsSpec(g, a, de, ds), h, left, de, ds)
    ensures PrunedBy(g, h, cs, de, ds)
  {
    var b :| (forall p :: p in b ==> p in left) && h == RemovePathsSpec(RemovePathsSpec(g, a, de, ds), b, de, ds);
    RemovePathsTwice(g, a, b, de, ds);
    assert forall p :: p in a + b ==> p in cs;
  }

  /** What a pruning by `cs` may do to one node: it never adds it; it keeps it when no path of
      `cs` visits it; and when it deletes it, some path of `cs` visits it. */
  lemma PrunedKeeps(g: Graph, h: Graph, cs: seq<Path>, de: bool, ds: bool, x: Node)
    requires PrunedBy(g, h, cs, de, ds)
    ensures x in h.nodes ==> x in g.nodes
    ensures x in g.nodes && (forall p :: p in cs ==> x !in Visited(p, de, ds)) ==> x in h.nodes
    ensures x in g.nodes && x !in h.nodes ==> exists p :: p in cs && x in Visited(p, de, ds)
  {
    var b :| (forall p :: p in b ==> p in cs) && h == RemovePathsSpec(g, b, de, ds);
    if x in Doomed(b, de, ds) {
      var i :| 0 <= i < |b| && x in Visited(b[i], de, ds);
      assert b[i] in cs;
    }
  }

  /** A path already deleted changes nothing when it comes again. */
  lemma RemovePathsIdempotent(g: Graph, cs: seq<Path>, de: bool, ds: bool)
    requires ValidGraph(g)
    ensures RemovePathsSpec(RemovePathsSpec(g, cs, de, ds), cs, de, ds) == RemovePathsSpec(g, cs, de, ds)
  {
    var D := Doomed(cs, de, ds);
    WithoutAbsent(Without(g, D), D);
  }
}
