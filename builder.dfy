/** `build_graph`: one edge `kmer[:-1] -> kmer[1:]` per key of the k-mer dict, weighted by its count. */
module Builder {
  import opened Seqs
  import opened Kmers
  import opened Graphs

  /** `kmer[:-1]` */
  function Prefix(x: string): string {
    if |x| == 0 then "" else x[..|x| - 1]
  }

  /** `kmer[1:]` */
  function Suffix(x: string): string {
    if |x| == 0 then "" else x[1..]
  }

  function EdgeOf(x: string): Edge {
    (Prefix(x), Suffix(x))
  }

  /** The graph `build_graph` returns when the dict's keys, in insertion order,
      are `order`: one `add_edge` per key. */
  function GraphOf(order: seq<string>, count: map<string, nat>): (g: Graph)
    requires forall x :: x in order ==> x in count
    ensures ValidGraph(g)
  {
    if order == [] then Graph([], map[])
    else WithEdge(GraphOf(DropLast(order), count), Prefix(Last(order)), Suffix(Last(order)), count[Last(order)])
  }

  /** `build_graph(dico_kmers)` */
  method BuildGraph(d: KmerDict) returns (g: DiGraph)
    requires WellFormed(d)
    ensures fresh(g) && g.Valid() && g.Value() == GraphOf(d.order, d.count)
  {
    g := new DiGraph();
    for i := 0 to |d.order|
      invariant g.Valid() && g.Value() == GraphOf(d.order[..i], d.count)
    {
      var kmer := d.order[i];
      assert DropLast(d.order[..i + 1]) == d.order[..i] && Last(d.order[..i + 1]) == kmer;
      g.AddEdge(Prefix(kmer), Suffix(kmer), d.count[kmer]);
    }
    assert d.order[..|d.order|] == d.order;
  }

  /** Every endpoint mentioned by the keys, prefix before suffix, key after key. */
  function Mentions(order: seq<string>): seq<Node> {
    if order == [] then [] else Mentions(DropLast(order)) + [Prefix(Last(order)), Suffix(Last(order))]
  }

  /** Nodes appear in order of first mention, prefix before suffix. */
  lemma {:induction false} NodesInFirstMentionOrder(order: seq<string>, count: map<string, nat>)
    requires forall x :: x in order ==> x in count
    ensures GraphOf(order, count).nodes == Dedup(Mentions(order))
  {
    if order != [] {
      var o, x := DropLast(order), Last(order);
      NodesInFirstMentionOrder(o, count);
      var m := Mentions(o);
      assert Mentions(order) == (m + [Prefix(x)]) + [Suffix(x)];
      DedupSnoc(m, Prefix(x));
      DedupSnoc(m + [Prefix(x)], Suffix(x));
    }
  }

  /** Every node of a graph built from k-mers is a (k-1)-mer. */
  lemma {:induction false} NodeLengths(order: seq<string>, count: map<string, nat>, k: nat)
    requires forall x :: x in order ==> x in count && |x| == k
    requires k >= 1
    ensures forall v :: v in GraphOf(order, count).nodes ==> |v| == k - 1
  {
    if order != [] {
      SplitLast(order);
      NodeLengths(DropLast(order), count, k);
    }
  }

  /** For k-mers of one length k >= 2, the edge determines the k-mer. */
  lemma EdgeOfInjective(x: string, y: string)
    requires |x| == |y| >= 2 && EdgeOf(x) == EdgeOf(y)
    ensures x == y
  {
    var n := |x|;
    assert x == Prefix(x) + [Suffix(x)[n - 2]];
    assert y == Prefix(y) + [Suffix(y)[n - 2]];
  }

  /** Distinct keys of one length k >= 2 give distinct edges, so `add_edge` never overwrites:
      the edges are exactly those of the keys, each weighted by the key's count. */
  lemma {:induction false} EdgesAreKmers(order: seq<string>, count: map<string, nat>, k: nat)
    requires forall x :: x in order ==> x in count && |x| == k
    requires Distinct(order) && k >= 2
    ensures GraphOf(order, count).w.Keys == set x | x in order :: EdgeOf(x)
    ensures forall x :: x in order ==> GraphOf(order, count).w[EdgeOf(x)] == count[x]
  {
    if order != [] {
      var o, x := DropLast(order), Last(order);
      SplitLast(order);
      EdgesAreKmers(o, count, k);
      forall y | y in o ensures EdgeOf(y) != EdgeOf(x) {
        if EdgeOf(y) == EdgeOf(x) {
          EdgeOfInjective(x, y);
        }
      }
    }
  }

  /** The last key adds a new edge: its (prefix, suffix) pair is not yet an edge. */
  lemma LastEdgeIsNew(order: seq<string>, count: map<string, nat>, k: nat)
    requires forall x :: x in order ==> x in count && |x| == k
    requires Distinct(order) && k >= 2 && order != []
    ensures EdgeOf(Last(order)) !in GraphOf(DropLast(order), count).w
    ensures GraphOf(order, count).w == GraphOf(DropLast(order), count).w[EdgeOf(Last(order)) := count[Last(order)]]
  {
    var o, x := DropLast(order), Last(order);
    SplitLast(order);
    DistinctSplit(order);
    EdgesAreKmers(o, count, k);
    forall y | y in o ensures EdgeOf(y) != EdgeOf(x) {
      if EdgeOf(y) == EdgeOf(x) {
        EdgeOfInjective(x, y);
      }
    }
  }

  /** Total edge weight equals the sum of the counts. */
  lemma {:induction false} TotalWeightIsTotalCount(order: seq<string>, count: map<string, nat>, k: nat)
    requires forall x :: x in order ==> x in count && |x| == k
    requires Distinct(order) && k >= 2
    ensures TotalWeight(GraphOf(order, count)) == SumOver(order, count)
  {
    if order != [] {
      var o, x := DropLast(order), Last(order);
      SplitLast(order);
      DistinctSplit(order);
      TotalWeightIsTotalCount(o, count, k);
      LastEdgeIsNew(order, count, k);
      var w, w' := GraphOf(o, count).w, GraphOf(order, count).w;
      assert w'.Keys - {EdgeOf(x)} == w.Keys;
      SumWRemove(w'.Keys, w', EdgeOf(x));
      SumWAgree(w.Keys, w, w');
    }
  }

  /** For the reads' k-mer dict (k >= 2): every node is a (k-1)-mer, every counted k-mer is an
      edge weighted by its number of occurrences, and the total edge weight is the number of
      k-mers cut, the sum over the reads of max(0, |read| - k + 1). */
  lemma BuiltGraphFromReads(rs: seq<string>, k: nat)
    requires k >= 2
    ensures var d := KmerCounts(rs, k);
      && WellFormed(d)
      && var g := GraphOf(d.order, d.count);
      && (forall v :: v in g.nodes ==> |v| == k - 1)
      && (forall x :: x in Stream(rs, k) ==> EdgeOf(x) in g.w && g.w[EdgeOf(x)] == CountIn(Stream(rs, k), x))
      && TotalWeight(g) == TotalWindows(rs, k)
  {
    var d := KmerCounts(rs, k);
    KmerCountsShape(rs, k);
    CountsSumToKmers(rs, k);
    NodeLengths(d.order, d.count, k);
    EdgesAreKmers(d.order, d.count, k);
    TotalWeightIsTotalCount(d.order, d.count, k);
  }
}
