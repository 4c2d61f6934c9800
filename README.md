# debruijn — a Dafny model of a de Bruijn sequence assembler

`debruijn/debruijn.py` is a short genome assembler. It cuts each read into k-mers and counts
them. It builds a weighted de Bruijn graph: nodes are (k−1)-mers, and each k-mer is an edge from
its prefix to its suffix, weighted by its count. From that graph it lists entry and exit nodes
and spells contigs along the simple paths between them. It then simplifies the graph: it
resolves "bubbles" (parallel paths between a fork and a join) and "tips" (unwanted entry and
exit branches). In both cases it is meant to keep the path with the highest average edge weight,
then the longest one, and to delete the nodes of the others. As written it does that only in some
cases. A tie in both weight and length raises `NameError`. Later passes of its loop read the
weights by stale positions; for example, with three candidates and the heaviest last, the second
pass raises `NameError` instead of keeping that path (`Selection.ThreeCandidatesHeaviestLast`).

This project models that core in Dafny and proves properties of the model:

- `common.dfy` defines `Outcome<T>` (a value or a Python exception kind). `seqs.dfy` holds
  sequence helpers: `Dedup` (first-occurrence order), `CountIn`, `FilterOut`, `Sub`.
- `kmers.dfy` covers `cut_kmer` and the counting loop of `build_kmer_dict`. A Python `dict`
  keeps insertion order, so it is modelled as a key order plus a map.
- `graphs.dfy` models the networkx `DiGraph`:
  - the value `Graph(nodes, w)`: a node list in insertion order and an edge-weight map;
  - class `DiGraph`, whose methods (`AddEdge`, `RemoveNode`, degree and membership queries) are
    each proved against a function on `Graph`.
- `builder.dfy` covers `build_graph`. `topology.dfy` covers `get_starting_nodes` and
  `get_sink_nodes`.
- `weights.dfy` covers `path_average_weight`, and `editing.dfy` covers `remove_paths`.
- `candidates.dfy` collects the candidate paths, weights and lengths.
- `selection.dfy` covers `select_best_path`, exactly as written.
- `bubbles.dfy` covers `find_bubbles`, `solve_bubble` and `simplify_bubbles`.
- `tips.dfy` covers `solve_entry_tips`, `solve_out_tips` and the simplification steps of
  `main`.
- `contigs.dfy` covers `get_contigs` and `fill`.
- `scenarios.dfy` is a worked example: the graph of the reads `ACGTA, ACGTC, ACGTC` with
  k = 3.

Conventions:

- Each loop of the source becomes a `method` with a `while` or `for` loop. Its `ensures` ties the
  result, or the new graph, to a specification function. The properties are lemmas about those
  functions.
- Each Python exception the code can raise is an explicit `Crash` with its kind:
  - `IndexError`: the forward scan of `find_bubbles`, `prep_contig[0]`, and positional
    indexing in `select_best_path`;
  - `ValueError`: `max` of an empty list in `select_best_path`, `list.remove` of a missing item,
    and `range` with step 0;
  - `NameError`: `random` is never imported;
  - `ZeroDivisionError`: a path with no induced edge;
  - `UnboundLocalError`: `fin` or `debut` never assigned in the tip functions;
  - `NodeNotFound`: networkx, for a source that is not a node.
- `nx.all_simple_paths` is an oracle parameter, `paths: (Graph, Node, Node) -> seq<Path>`. Where
  a lemma needs it, `SoundOracle` states that the oracle lists only simple paths from the source
  to the target.
- Average weights are exact rationals `Ratio(num, den)`. `Same` and `Below` compare them by
  cross-multiplication.

Behaviour of the code that the model keeps as written:

- On the reads `ACGTA, ACGTC, ACGTC` with k = 3, `find_bubbles` raises `IndexError`. The counted
  dict builds the nodes AC, CG, GT, TA and TC (`Scenarios.ReadsCounted`,
  `Scenarios.ReadsGraphBuilt`). Node `GT` has two successors, so the forward walk starts there. It
  passes `GT`, `TA` and `TC`, which each have exactly one predecessor, and indexes past the end of
  the node list (`Scenarios.ReadsGraphBubbleScanCrashes`).
- Bubble and tip boundaries are found by a positional scan of the node list, not by
  reachability. The model keeps the positional scan.
- A tie in both average weight and length reaches `random.seed`, which raises `NameError`
  because `random` is never imported (`Selection.TwoCandidatesTie`, `Bubbles.TwoPathBubbleTie`).

## Model

| member | source | states |
|---|---|---|
| Kmers.CutKmer | debruijn/debruijn.py:30-34 | for k ≥ 2 yields `max(0, len−k+1)` k-mers; none for k = 1; one empty k-mer for k = 0 and a non-empty read; the i-th is the slice starting at i, of length k |
| Kmers.Stream | debruijn/debruijn.py:43-44 | the k-mers of all reads, in order: their number is the sum of the per-read window counts, each of length k |
| Kmers.ShortReadContributesNothing | debruijn/debruijn.py:33-34 | a read shorter than k adds no k-mer and raises nothing |
| Kmers.TallyStep | debruijn/debruijn.py:45-48 | one update (increment a present key, else insert it with 1) keeps the dict an exact tally of the k-mers seen |
| Kmers.CountKmers | debruijn/debruijn.py:44-48 | the inner loop extends the tally by the k-mers of one read |
| Kmers.BuildKmerDict | debruijn/debruijn.py:42-49 | key order is first-occurrence order; keys are exactly the k-mers that occur; each value is the number of occurrences |
| Kmers.KmerCountsShape | debruijn/debruijn.py:42-49 | keys are distinct and match the map, have length k, and have count at least 1 |
| Kmers.CountsSumToKmers | debruijn/debruijn.py:42-49 | the counts sum to the total number of k-mers cut from the reads |
| Graphs.WithEdge | debruijn/debruijn.py:56 | `add_edge` keeps the graph well formed; nodes afterwards are the old ones plus both endpoints |
| Graphs.Without | debruijn/debruijn.py:129-131 | deleting a node set keeps the graph well formed and keeps exactly the nodes outside the set, in order |
| Graphs.WithoutTwice | debruijn/debruijn.py:126-142 | deleting S then U equals deleting S ∪ U |
| Graphs.DiGraph.constructor | debruijn/debruijn.py:54 | `nx.DiGraph()` is the empty graph |
| Graphs.DiGraph.AddEdge | debruijn/debruijn.py:56 | the new graph value is `WithEdge` of the old one |
| Graphs.DiGraph.RemoveNode | debruijn/debruijn.py:131 | the new graph value is the old one without that node and its incident edges |
| Graphs.DiGraph.HasNode | debruijn/debruijn.py:130 | true iff the node is in the graph |
| Graphs.DiGraph.InDegree | debruijn/debruijn.py:64 | the number of distinct predecessors |
| Graphs.DiGraph.OutDegree | debruijn/debruijn.py:72 | the number of distinct successors |
| Graphs.PredsSuccs | debruijn/debruijn.py:64-72 | u is a predecessor of v iff v is a successor of u iff edge (u, v) exists |
| Builder.GraphOf | debruijn/debruijn.py:51-57 | the graph built from the dict, in its key order, is well formed (distinct nodes; edges between nodes) |
| Builder.BuildGraph | debruijn/debruijn.py:51-57 | the loop over the dict builds a fresh graph whose value is `GraphOf` of the dict |
| Builder.NodesInFirstMentionOrder | debruijn/debruijn.py:55-56 | nodes are the prefixes and suffixes in first-mention order, without duplicates |
| Builder.NodeLengths | debruijn/debruijn.py:56 | every node is a (k−1)-mer |
| Builder.EdgeOfInjective | debruijn/debruijn.py:56 | two k-mers with the same prefix and suffix are equal, so no edge weight is overwritten |
| Builder.EdgesAreKmers | debruijn/debruijn.py:55-56 | edges are exactly the (prefix, suffix) pairs of the keys; each weight is that k-mer's count |
| Builder.TotalWeightIsTotalCount | debruijn/debruijn.py:55-56 | the sum of the edge weights equals the sum of the counts |
| Builder.BuiltGraphFromReads | debruijn/debruijn.py:42-57 | from reads: nodes are (k−1)-mers; every k-mer that occurs is an edge weighted by its occurrences; total weight is the number of k-mers |
| Topology.HeadsTails | debruijn/debruijn.py:64-72 | a node has an incoming edge iff its in-degree is non-zero, and likewise for outgoing edges |
| Topology.Sources | debruijn/debruijn.py:60-66 | x is listed iff x is a node with no predecessor; order follows the node list; no duplicates |
| Topology.Sinks | debruijn/debruijn.py:68-74 | x is listed iff x is a node with no successor; order follows the node list; no duplicates |
| Topology.StartingNodes | debruijn/debruijn.py:60-66 | the loop returns `Sources` of the graph |
| Topology.SinkNodes | debruijn/debruijn.py:68-74 | the loop returns `Sinks` of the graph |
| Topology.SelfLoopIsNeither | debruijn/debruijn.py:60-74 | a node with a self-loop is neither an entry nor an exit |
| Contigs.ContigOf | debruijn/debruijn.py:84-89 | spelling fails iff the path is empty, with `IndexError` |
| Contigs.SpellStartsWithFirst | debruijn/debruijn.py:86 | the contig starts with the first node |
| Contigs.SpellLastChars | debruijn/debruijn.py:86-88 | the contig has length `len(p[0]) + len(p) − 1`; its character at `len(p[0]) + i − 1` is the last character of `p[i]` |
| Contigs.SpellCoversNodes | debruijn/debruijn.py:84-89 | along a path of overlapping nodes, the i-th node is the contig's slice at offset i |
| Contigs.KmerEdgeOverlaps | debruijn/debruijn.py:56 | the prefix and suffix of a k-mer overlap in k−2 characters |
| Contigs.BuiltEdgesOverlap | debruijn/debruijn.py:55-56 | every edge of the built graph joins overlapping (k−1)-mers |
| Contigs.OverlapContigCoversNodes | debruijn/debruijn.py:82-89 | on a simple path of a graph whose edges overlap, the contig spells every node at its offset |
| Contigs.BuiltContigCoversNodes | debruijn/debruijn.py:82-89 | a contig from a simple path of the built graph has length `k−1 + len(path) − 1` and contains node i at offset i |
| Contigs.WriteContig | debruijn/debruijn.py:84-89 | the character loop computes `ContigOf` of the path |
| Contigs.CellUpTo | debruijn/debruijn.py:82-90 | one contig per path, in order, each paired with its length |
| Contigs.PathContigs | debruijn/debruijn.py:82-90 | the loop over one path list computes `CellUpTo` of the whole list |
| Contigs.RowContigs | debruijn/debruijn.py:81-90 | the loop over the exits, for one entry, computes that entry's row (`RowUpTo`) |
| Contigs.GetContigs | debruijn/debruijn.py:76-91 | the loop over the entries computes the contig list of `GetContigsSpec` |
| Contigs.SoundRow | debruijn/debruijn.py:81-90 | with a sound oracle and an entry that is a node, one entry's row never raises |
| Contigs.GridErrors | debruijn/debruijn.py:80-90 | with a sound oracle and exits present, the call succeeds iff every entry is a node; otherwise `NodeNotFound` |
| Contigs.RowNotFound | debruijn/debruijn.py:82-83 | an entry that is not a node raises `NodeNotFound` |
| Contigs.GridContents | debruijn/debruijn.py:76-91 | c is in the result iff some (entry, exit) pair has a path whose contig is c.0, with c.1 == len(c.0) |
| Contigs.NoPathNoContig | debruijn/debruijn.py:76-91 | the result is empty and no error iff there are no exits, or every entry is a node with no path to any exit |
| Contigs.Fill | debruijn/debruijn.py:93-95 | width 0 raises `ValueError`; a negative width or empty text gives "" |
| Contigs.ChunksShape | debruijn/debruijn.py:95 | every chunk but the last has exactly `width` characters; the last has 1 to `width` |
| Contigs.ChunksConcat | debruijn/debruijn.py:95 | the chunks concatenate back to the text |
| Contigs.FillNoSeparator | debruijn/debruijn.py:95 | with an empty separator, `fill` returns the text unchanged |
| Contigs.FillLength | debruijn/debruijn.py:95 | the output length is the text length plus one separator per chunk boundary |
| Weights.PathAverageWeight | debruijn/debruijn.py:110-121 | the loop over induced edges yields `AverageWeight`; it raises `ZeroDivisionError` iff no edge joins two nodes of the path |
| Weights.SimplePathHasAverage | debruijn/debruijn.py:115-119 | a simple path always has an average weight |
| Weights.InducedNotConsecutive | debruijn/debruijn.py:115 | the average counts every induced edge, including a back edge between path nodes |
| Weights.LeBelowTrans | debruijn/debruijn.py:150-153 | an average not below the maximum and the maximum below another average imply the first is below it |
| Editing.VisitedOfPath | debruijn/debruijn.py:126-142 | the four flag branches visit the interior, plus the first node iff `delete_entry_node`, plus the last iff `delete_sink_node` |
| Editing.Doomed | debruijn/debruijn.py:126-142 | a node is deleted iff some listed path visits it |
| Editing.RemoveListed | debruijn/debruijn.py:128-131 | the loop "remove if still present" deletes exactly the listed nodes |
| Editing.RemovePaths | debruijn/debruijn.py:123-143 | the new graph is `RemovePathsSpec` of the old one |
| Editing.RemovePathsResult | debruijn/debruijn.py:123-143 | the result is well formed; nodes are the old ones no path deletes, in order; edges are the old edges between kept nodes, with unchanged weights |
| Editing.KeptEnd | debruijn/debruijn.py:126-142 | on a path without repeats the first node is not visited unless `delete_entry_node`, and the last not unless `delete_sink_node` |
| Editing.RemovePathsTwice | debruijn/debruijn.py:123-143 | two calls with the same flags equal one call on the joined batch |
| Editing.PrunedKeeps | debruijn/debruijn.py:123-143 | after `remove_paths` of a batch drawn from some paths, no node is added, a node no path visits survives, and a deleted node is visited by one of them |
| Editing.RemovePathsIdempotent | debruijn/debruijn.py:123-143 | removing the same paths twice equals removing them once |
| Candidates.Enumerate | debruijn/debruijn.py:207-209 | `NodeNotFound` iff the source is not a node; otherwise the oracle's list |
| Candidates.AllSimplePaths | debruijn/debruijn.py:207-209 | the call computes `Enumerate` on the current graph |
| Candidates.Averages | debruijn/debruijn.py:210-212 | succeeds iff every path has an average; then one average per path, in order; otherwise `ZeroDivisionError` |
| Candidates.AverageWeights | debruijn/debruijn.py:210-212 | the loop computes `Averages` on the current graph |
| Candidates.Lengths | debruijn/debruijn.py:214-216 | one length per path, in order |
| Candidates.SoundWeights | debruijn/debruijn.py:210-212 | with a sound oracle the averages never raise |
| Selection.MaxRatio | debruijn/debruijn.py:150 | `max(poids_moyen)` is one of the weights and no weight is above it |
| Selection.MaxInt | debruijn/debruijn.py:162 | `max(ensemble_longueurs)` is one of the lengths and no length is above it |
| Selection.Pick | debruijn/debruijn.py:152-154 | filtering by a positional mask never lengthens the list |
| Selection.PickMembers | debruijn/debruijn.py:152-154 | x is picked iff it sits at a position whose mask bit is set |
| Selection.RemoveFirst | debruijn/debruijn.py:156 | `list.remove` drops one element: the multiset loses exactly one occurrence of it |
| Selection.RemoveFirstPosition | debruijn/debruijn.py:156 | the occurrence dropped is the first: the result is the list with the first position holding the item cut out |
| Selection.RemoveEach | debruijn/debruijn.py:155-156 | every `list.remove` succeeds iff the list holds each item at least as often as the items to remove; then the multiset of what is left is the difference; otherwise `ValueError` |
| Selection.PickComplement | debruijn/debruijn.py:151-157 | on distinct candidates, removing the picked ones leaves exactly those of the complementary mask |
| Selection.Lighter | debruijn/debruijn.py:151-157 | the paths left after the heaviest are removed are exactly those below the maximum weight |
| Selection.PickMatching | debruijn/debruijn.py:152-154 | the indexed filter raises `IndexError` when there are more paths than weights, else it filters |
| Selection.RemoveAll | debruijn/debruijn.py:155-156 | the removal loop computes `RemoveEach` |
| Selection.LongestOf | debruijn/debruijn.py:161-180 | succeeds iff there are lengths, at least as many as heaviest paths, and exactly one of the first `len(fort)` lengths is the maximum; the batch is then the heaviest paths without that one, followed by the rest, and the rest stays the candidate list; otherwise `ValueError` (no length), `IndexError` (too few lengths) or `NameError` (a tie) |
| Selection.PickMultiset | debruijn/debruijn.py:152-156 | the picked paths are a sub-multiset of the list, so the removals of lines 155-156 never fail |
| Selection.SelectPass | debruijn/debruijn.py:147-180 | one pass strictly shrinks the candidate list; both what is left and the batch are drawn from the candidates; or it raises `ValueError`, `IndexError` or `NameError` |
| Selection.RunPass | debruijn/debruijn.py:148-176 | the loop body computes `SelectPass` |
| Selection.SelectBest | debruijn/debruijn.py:145-181 | at most one candidate: nothing changes; on success at most one candidate is left, drawn from the input; the final graph is the given one with `remove_paths` applied to some batch of the candidates (so no node is added and validity is kept); errors are `ValueError`, `IndexError` or `NameError` |
| Selection.SelectBestPath | debruijn/debruijn.py:145-181 | the while loop leaves the graph equal to `SelectBest` |
| Selection.SelectBestStep | debruijn/debruijn.py:147-181 | with more than one candidate, one pass's error is the final error; otherwise the result is the selection restarted on the pruned graph and the remaining list |
| Selection.FirstPass | debruijn/debruijn.py:148-159 | on distinct candidates, the first removal leaves the lighter ones; with a unique heaviest path the pass deletes them |
| Selection.TwoCandidatesByWeight | debruijn/debruijn.py:145-159 | of two paths with different averages, the lighter is removed and kept as the remaining candidate |
| Selection.TwoCandidatesByLength | debruijn/debruijn.py:160-170 | of two equally heavy paths with different lengths, the shorter is removed |
| Selection.TwoCandidatesTie | debruijn/debruijn.py:171-173 | two paths of equal weight and length raise `NameError` |
| Selection.EmptyPass | debruijn/debruijn.py:160-173 | when no remaining position carries the maximum weight, the pass reaches `random` and raises `NameError` |
| Selection.ThreeCandidatesHeaviestLast | debruijn/debruijn.py:147-173 | with three candidates and the heaviest last, the second pass finds no heaviest position and raises `NameError` |
| Bubbles.Walk | debruijn/debruijn.py:196-199 | the forward walk fails only with `IndexError` |
| Bubbles.WalkFound | debruijn/debruijn.py:196-199 | a non-empty end is the first later node with more than one predecessor, and every node before it has exactly one |
| Bubbles.WalkReaches | debruijn/debruijn.py:196-199 | conversely, that first join after a run of single-predecessor nodes is what the walk returns |
| Bubbles.WalkCrash | debruijn/debruijn.py:196-198 | the walk raises iff every node from the start to the end of the list has exactly one predecessor |
| Bubbles.WalkFrom | debruijn/debruijn.py:195-199 | the `while` loop from a fork computes `Walk` |
| Bubbles.FindBubbles | debruijn/debruijn.py:183-202 | the scan computes `FindBubblesSpec` |
| Bubbles.BubblesSound | debruijn/debruijn.py:183-202 | each reported pair is a fork (out-degree > 1) before a join (in-degree > 1), with only single-predecessor nodes between them in list order |
| Bubbles.BubblesComplete | debruijn/debruijn.py:183-202 | every such fork and join pair is reported |
| Bubbles.FindBubblesCrash | debruijn/debruijn.py:192-198 | the call raises iff some fork is followed, to the end of the list, only by single-predecessor nodes |
| Bubbles.BubblesInNodeOrder | debruijn/debruijn.py:192-201 | bubble starts appear in node-list order |
| Bubbles.SolveBubble | debruijn/debruijn.py:204-219 | the new graph is `SolveBubbleSpec`: enumerate, weigh, measure, select with both ends kept |
| Bubbles.SolveBubbleKeepsEnds | debruijn/debruijn.py:204-219 | with a sound oracle and any number of candidates, a solved bubble keeps its start node, and its end node when that is a node; every deleted node is interior to a candidate path |
| Bubbles.SimplifyBubbles | debruijn/debruijn.py:221-230 | the new graph is the bubbles found on the original graph, solved in order |
| Bubbles.NoForkNoBubbles | debruijn/debruijn.py:192-230 | a graph without forks has no bubble, and simplification leaves it unchanged |
| Bubbles.SinglePathBubble | debruijn/debruijn.py:204-219 | a boundary pair with at most one path leaves the graph unchanged |
| Bubbles.TwoPathBubbleByWeight | debruijn/debruijn.py:204-219 | with two paths of different weight, the lighter path's interior is deleted |
| Bubbles.RemoveInteriorKeepsEnds | debruijn/debruijn.py:128-131 | deleting a simple path's interior keeps both ends |
| Bubbles.TwoPathBubbleKeepsEnds | debruijn/debruijn.py:204-219 | resolving a two-path bubble keeps both boundary nodes |
| Bubbles.TwoPathBubbleTie | debruijn/debruijn.py:204-219 | two paths of equal weight and length make `solve_bubble` raise `NameError` |
| Tips.LastJoin | debruijn/debruijn.py:238-240 | unassigned iff no node has more than one predecessor; otherwise the last such node in node-list order |
| Tips.LastFork | debruijn/debruijn.py:262-264 | unassigned iff no node has more than one successor; otherwise the last such node in node-list order |
| Tips.ScanJoins | debruijn/debruijn.py:238-240 | the loop leaves `fin` as `LastJoin`, or unchanged when there is no join |
| Tips.ScanForks | debruijn/debruijn.py:262-264 | the loop leaves `debut` as `LastFork`, or unchanged when there is no fork |
| Tips.EntryBoundsOf | debruijn/debruijn.py:235-241 | the loop computes `EntryBounds`: each entry paired with the last join |
| Tips.ExitBoundsOf | debruijn/debruijn.py:259-265 | the loop computes `ExitBounds`: the last fork paired with each exit |
| Tips.Collect | debruijn/debruijn.py:244-251 | one weight per path collected; every collected path was listed by the oracle for one of the bounds; errors are `NodeNotFound` or `ZeroDivisionError` |
| Tips.CollectCandidates | debruijn/debruijn.py:244-251 | the nested loop computes `Collect`, with lengths in step |
| Tips.CollectPair | debruijn/debruijn.py:244-251 | two boundary pairs with one path each collect both paths and weights in order |
| Tips.TrimTipsFrom | debruijn/debruijn.py:244-253 | collecting and then selecting changes the graph as `TrimTips` says |
| Tips.SolveEntryTips | debruijn/debruijn.py:232-254 | the new graph is `SolveEntryTipsSpec`: bounds, candidates, then selection deleting entry nodes |
| Tips.TrimTipsKeeps | debruijn/debruijn.py:243-253 | with a sound oracle, trimming keeps every node that is the kept end (first without `delete_entry_node`, last without `delete_sink_node`) of every bound |
| Tips.SolveEntryTipsKeepsBound | debruijn/debruijn.py:232-254 | with a sound oracle, the shared bound (the last join) survives `solve_entry_tips` |
| Tips.SolveOutTips | debruijn/debruijn.py:256-278 | the new graph is `SolveOutTipsSpec`: bounds, candidates, then selection deleting exit nodes |
| Tips.SolveOutTipsKeepsBound | debruijn/debruijn.py:256-278 | with a sound oracle, the shared bound (the last fork) survives `solve_out_tips` |
| Tips.EntryTipsUnbound | debruijn/debruijn.py:235-241 | `UnboundLocalError` iff there is an entry and no node has more than one predecessor |
| Tips.OutTipsUnbound | debruijn/debruijn.py:259-265 | `UnboundLocalError` iff there is an exit and no node has more than one successor |
| Tips.TwoEntryTips | debruijn/debruijn.py:232-254 | two entry tips into the last join: the lighter tip is deleted with its entry node |
| Tips.TwoOutTips | debruijn/debruijn.py:256-278 | two exit tips from the last fork: the lighter tip is deleted with its exit node |
| Tips.Simplify | debruijn/debruijn.py:322-331 | bubbles, then entry tips when there are entries, then exit tips when there are exits, as `SimplifySpec` |
| Scenarios.ReadsStream | debruijn/debruijn.py:30-34 | the k-mers of `ACGTA, ACGTC, ACGTC` (k = 3) are ACG CGT GTA, then ACG CGT GTC twice |
| Scenarios.ReadsCounted | debruijn/debruijn.py:42-49 | the dict of those reads has keys ACG, CGT, GTA, GTC in that order, with counts 3, 3, 1, 2 |
| Scenarios.ReadsGraphBuilt | debruijn/debruijn.py:51-57 | that dict builds nodes AC, CG, GT, TA, TC with edges AC→CG 3, CG→GT 3, GT→TA 1, GT→TC 2 |
| Scenarios.ReadsGraphBubbleScanCrashes | debruijn/debruijn.py:183-202 | `find_bubbles` on that graph raises `IndexError` |

## Left out

- `read_fastq`, `save_contigs` and `main`'s argument parsing and file output are I/O, so they are not modelled. The model starts from a list of reads; `main`'s graph steps are `Tips.Simplify`.
- `std` and the matplotlib import are unused by the core.
- `nx.all_simple_paths` is an oracle parameter. The model does not enumerate paths itself. A target that is not a node is left to the oracle: networkx would read such a target as a collection of targets.
- `random.seed` and `random.randint` are never reached: `random` is not imported, so the tie-break raises `NameError` first. The random generator is not modelled.
- `path_average_weight` returns a Python float. The model uses the exact rational, so float rounding in the `==` comparisons of `select_best_path` is not modelled.
- After an exception, the model records only the error, not the partly edited graph.
- `Kmers.CutKmer`: k is a natural number; a negative k (a negative window length) is not modelled. The graph lemmas assume k ≥ 2, since for smaller k no edge joins two (k−1)-mers.
- `Contigs.Fill`: the separator `os.linesep` is a parameter, and so is the width (default 80). The number of chunks is not stated in closed form.
- `Selection.RemoveEach`: in `select_best_path` the `ValueError` of `list.remove` is unreachable, because the removed paths are always picked from the list (`Selection.PickMultiset`); no lemma exhibits it on other inputs.
- `Selection.SelectBest`: the contract says which nodes may go (those visited by some candidate), not which path survives in general; the two- and three-candidate lemmas say that.
- `Editing.RemovePaths`: only paths of length at least 2 get the membership characterisation (`Editing.RemovePathsResult`), which is what the oracle's simple paths have.
- Node deletion by networkx also drops incident edges; the model does the same. The position of later-added nodes after a deletion is not modelled, because nothing in the core adds nodes after deleting them.
