/** `get_contigs` and `fill`: spelling a path of (k-1)-mers as one sequence, collecting those
    sequences for every start node, end node and path between them, and cutting a sequence into
    fixed-width lines. */
module Contigs {
  import opened Common
  import opened Seqs
  import opened Graphs
  import opened Builder
  import opened Candidates

  /** `prep_contig[i][-1:]`: the last character of a node as a string, empty for an empty node. */
  function LastChar(s: string): string {
    if s == [] then [] else [s[|s| - 1]]
  }

  /** `contig_ecrit` joined after the loop has reached node `m`: the first node, then the last
      character of each of the nodes `1 .. m-1`. */
  function SpellUpTo(p: Path, m: nat): string
    requires 1 <= m <= |p|
  {
    if m == 1 then p[0] else SpellUpTo(p, m - 1) + LastChar(p[m - 1])
  }

  /** The contig of one path: `prep_contig[0]` raises `IndexError` on an empty path. */
  function ContigOf(p: Path): (r: Outcome<string>)
    ensures r.Crash? <==> p == []
    ensures r.Crash? ==> r.error == IndexError
  {
    if p == [] then Crash(IndexError) else Ok(SpellUpTo(p, |p|))
  }

  /** The first node is the start of the spelled sequence. */
  lemma {:induction false} SpellStartsWithFirst(p: Path, m: nat)
    requires 1 <= m <= |p|
    ensures p[0] <= SpellUpTo(p, m)
  {
    if m > 1 {
      SpellStartsWithFirst(p, m - 1);
    }
  }

  /** With non-empty nodes, one character is added per later node: `len(first) + (n - 1)`. */
  lemma {:induction false} SpellLength(p: Path, m: nat)
    requires 1 <= m <= |p|
    requires forall i :: 1 <= i < m ==> p[i] != []
    ensures |SpellUpTo(p, m)| == |p[0]| + m - 1
  {
    if m > 1 {
      SpellLength(p, m - 1);
    }
  }

  /** With non-empty nodes, the character at `len(first) + i - 1` is the last character of node `i`. */
  lemma {:induction false} SpellLastChars(p: Path, m: nat)
    requires 1 <= m <= |p|
    requires forall i :: 1 <= i < m ==> p[i] != []
    ensures |SpellUpTo(p, m)| == |p[0]| + m - 1
    ensures forall i :: 1 <= i < m ==> SpellUpTo(p, m)[|p[0]| + i - 1] == p[i][|p[i]| - 1]
  {
    SpellLength(p, m);
    if m > 1 {
      SpellLastChars(p, m - 1);
      var s := SpellUpTo(p, m - 1);
      assert SpellUpTo(p, m) == s + [p[m - 1][|p[m - 1]| - 1]];
    }
  }

  /** Two nodes of a de Bruijn graph overlap when they have one length `L >= 1` and the second
      starts with all but the first character of the first. */
  predicate Overlaps(u: Node, v: Node) {
    |u| == |v| >= 1 && u[1..] == v[..|v| - 1]
  }

  /** Appending the last character of `v` to a sequence ending in `u` gives one ending in `v`. */
  lemma OverlapStep(s: string, u: Node, v: Node, j: nat)
    requires Overlaps(u, v) && j + |u| == |s| && s[j..] == u
    ensures (s + [v[|v| - 1]])[j + 1..] == v
  {
    var t := s + [v[|v| - 1]];
    assert t[j + 1..] == s[j + 1..] + [v[|v| - 1]];
    assert s[j + 1..] == u[1..];
    assert v == v[..|v| - 1] + [v[|v| - 1]];
  }

  /** All nodes up to `m` have the first node's length. */
  ghost predicate Spelled(p: Path, m: nat, s: string)
    requires m <= |p| && p != []
  {
    forall i :: 0 <= i < m ==> |p[i]| == |p[0]| && i + |p[0]| <= |s| && s[i..i + |p[0]|] == p[i]
  }

  lemma SpelledSnoc(p: Path, m: nat, s: string)
    requires 2 <= m <= |p| && Spelled(p, m - 1, s) && |s| == |p[0]| + m - 2
    requires Overlaps(p[m - 2], p[m - 1])
    ensures Spelled(p, m, s + [p[m - 1][|p[0]| - 1]])
  {
    var u, v, L := p[m - 2], p[m - 1], |p[0]|;
    var t := s + [v[L - 1]];
    assert s[m - 2..] == s[m - 2..m - 2 + L] == u;
    OverlapStep(s, u, v, m - 2);
    forall i | 0 <= i < m
      ensures |p[i]| == L && i + L <= |t| && t[i..i + L] == p[i]
    {
      if i < m - 1 {
        assert t[i..i + L] == s[i..i + L];
      } else {
        assert t[i..i + L] == t[m - 1..];
      }
    }
  }

  /** When consecutive nodes overlap, the contig spells every node of the path: node `i` is the
      contig's slice starting at `i`. */
  lemma {:induction false} SpellCoversNodes(p: Path, m: nat)
    requires 1 <= m <= |p|
    requires forall i :: 0 <= i < m - 1 ==> Overlaps(p[i], p[i + 1])
    ensures |SpellUpTo(p, m)| == |p[0]| + m - 1
    ensures Spelled(p, m, SpellUpTo(p, m))
  {
    if m > 1 {
      SpellCoversNodes(p, m - 1);
      assert Overlaps(p[m - 2], p[m - 1]);
      SpelledSnoc(p, m, SpellUpTo(p, m - 1));
    }
  }

  /** An edge `kmer[:-1] -> kmer[1:]` of a k-mer with `k >= 2` joins two overlapping nodes. */
  lemma KmerEdgeOverlaps(x: string)
    requires |x| >= 2
    ensures Overlaps(Prefix(x), Suffix(x))
  {
    assert Prefix(x)[1..] == x[1..|x| - 1] == Suffix(x)[..|x| - 2];
  }

  /** Every edge of the graph `build_graph` makes from k-mers of one length `k >= 2` joins two
      overlapping nodes of length `k - 1`. */
  lemma BuiltEdgesOverlap(order: seq<string>, count: map<string, nat>, k: nat)
    requires forall x :: x in order ==> x in count && |x| == k
    requires Distinct(order) && k >= 2
    ensures forall e :: e in GraphOf(order, count).w ==> Overlaps(e.0, e.1) && |e.0| == k - 1
  {
    EdgesAreKmers(order, count, k);
    forall e | e in GraphOf(order, count).w
      ensures Overlaps(e.0, e.1) && |e.0| == k - 1
    {
      var x :| x in order && EdgeOf(x) == e;
      KmerEdgeOverlaps(x);
    }
  }

  /** In a graph whose edges all join overlapping nodes, the contig of a simple path spells every
      node of it. */
  lemma OverlapContigCoversNodes(g: Graph, p: Path)
    requires forall e :: e in g.w ==> Overlaps(e.0, e.1)
    requires IsSimplePath(g, p)
    ensures ContigOf(p).Ok? && |ContigOf(p).value| == |p[0]| + |p| - 1
    ensures forall i :: 0 <= i < |p| ==> ContigOf(p).value[i..i + |p[0]|] == p[i]
  {
    forall i | 0 <= i < |p| - 1
      ensures Overlaps(p[i], p[i + 1])
    {
      assert (p[i], p[i + 1]) in g.w;
    }
    SpellCoversNodes(p, |p|);
  }

  /** Hence in a graph built from k-mers, a contig of `n` nodes has `k - 1 + n - 1` characters and
      its slice at `i` is node `i`. */
  lemma BuiltContigCoversNodes(order: seq<string>, count: map<string, nat>, k: nat, p: Path)
    requires forall x :: x in order ==> x in count && |x| == k
    requires Distinct(order) && k >= 2
    requires IsSimplePath(GraphOf(order, count), p)
    ensures ContigOf(p).Ok? && |ContigOf(p).value| == k - 1 + |p| - 1
    ensures forall i :: 0 <= i < |p| ==> ContigOf(p).value[i..i + k - 1] == p[i]
  {
    BuiltEdgesOverlap(order, count, k);
    UniformContigCoversNodes(GraphOf(order, count), p, k - 1);
  }

  lemma UniformContigCoversNodes(g: Graph, p: Path, n: nat)
    requires forall e :: e in g.w ==> Overlaps(e.0, e.1) && |e.0| == n
    requires IsSimplePath(g, p)
    ensures ContigOf(p).Ok? && |ContigOf(p).value| == n + |p| - 1
    ensures forall i :: 0 <= i < |p| ==> ContigOf(p).value[i..i + n] == p[i]
  {
    assert (p[0], p[1]) in g.w;
    OverlapContigCoversNodes(g, p);
  }

  /** The loop of lines 84-88 over one path: `contig_ecrit.append(prep_contig[0])`, then the last
      character of each later node, then the join. */
  method WriteContig(p: Path) returns (r: Outcome<string>)
    ensures r == ContigOf(p)
  {
    if |p| == 0 {
      return Crash(IndexError);
    }
    var contig := p[0];
    for i := 1 to |p|
      invariant contig == SpellUpTo(p, i)
    {
      contig := contig + LastChar(p[i]);
    }
    r := Ok(contig);
  }

  /** One contig as `get_contigs` records it: the sequence and its length. */
  type Contig = (string, nat)

  /** Every record carries the length of its own sequence. */
  ghost predicate Measured(cs: seq<Contig>) {
    forall c :: c in cs ==> c.1 == |c.0|
  }

  /** The contigs of the first `m` paths of one `all_simple_paths` list, in the list's order. */
  function CellUpTo(ps: seq<Path>, m: nat): (r: Outcome<seq<Contig>>)
    requires m <= |ps|
    ensures r.Ok? ==> |r.value| == m && Measured(r.value)
    ensures r.Ok? ==> forall i :: 0 <= i < m ==> ContigOf(ps[i]) == Ok(r.value[i].0)
    ensures r.Crash? ==> r.error == IndexError
  {
    if m == 0 then Ok([])
    else
      match CellUpTo(ps, m - 1)
      case Crash(e) => Crash(e)
      case Ok(acc) =>
        match ContigOf(ps[m - 1])
        case Crash(e) => Crash(e)
        case Ok(c) => Ok(acc + [(c, |c|)])
  }

  /** The contigs for one start node and the first `m` end nodes. */
  ghost function RowUpTo(g: Graph, paths: PathOracle, d: Node, fs: seq<Node>, m: nat): (r: Outcome<seq<Contig>>)
    requires m <= |fs|
    ensures r.Ok? ==> Measured(r.value)
    ensures r.Crash? ==> r.error == IndexError || r.error == NodeNotFound
  {
    if m == 0 then Ok([])
    else
      match RowUpTo(g, paths, d, fs, m - 1)
      case Crash(e) => Crash(e)
      case Ok(acc) =>
        match Enumerate(g, paths, d, fs[m - 1])
        case Crash(e) => Crash(e)
        case Ok(ps) =>
          match CellUpTo(ps, |ps|)
          case Crash(e) => Crash(e)
          case Ok(cell) => Ok(acc + cell)
  }

  /** The contigs for the first `m` start nodes and every end node. */
  ghost function GridUpTo(g: Graph, paths: PathOracle, ds: seq<Node>, fs: seq<Node>, m: nat): (r: Outcome<seq<Contig>>)
    requires m <= |ds|
    ensures r.Ok? ==> Measured(r.value)
    ensures r.Crash? ==> r.error == IndexError || r.error == NodeNotFound
  {
    if m == 0 then Ok([])
    else
      match GridUpTo(g, paths, ds, fs, m - 1)
      case Crash(e) => Crash(e)
      case Ok(acc) =>
        match RowUpTo(g, paths, ds[m - 1], fs, |fs|)
        case Crash(e) => Crash(e)
        case Ok(row) => Ok(acc + row)
  }

  /** `get_contigs(graphique, debuts, fins)` */
  ghost function GetContigsSpec(g: Graph, paths: PathOracle, ds: seq<Node>, fs: seq<Node>): Outcome<seq<Contig>> {
    GridUpTo(g, paths, ds, fs, |ds|)
  }

  lemma {:induction false} CellCrashStays(ps: seq<Path>, m: nat, m': nat)
    requires m <= m' <= |ps| && CellUpTo(ps, m).Crash?
    ensures CellUpTo(ps, m') == CellUpTo(ps, m)
    decreases m'
  {
    if m' > m {
      CellCrashStays(ps, m, m' - 1);
    }
  }

  lemma {:induction false} RowCrashStays(g: Graph, paths: PathOracle, d: Node, fs: seq<Node>, m: nat, m': nat)
    requires m <= m' <= |fs| && RowUpTo(g, paths, d, fs, m).Crash?
    ensures RowUpTo(g, paths, d, fs, m') == RowUpTo(g, paths, d, fs, m)
    decreases m'
  {
    if m' > m {
      RowCrashStays(g, paths, d, fs, m, m' - 1);
    }
  }

  lemma {:induction false} GridCrashStays(g: Graph, paths: PathOracle, ds: seq<Node>, fs: seq<Node>, m: nat, m': nat)
    requires m <= m' <= |ds| && GridUpTo(g, paths, ds, fs, m).Crash?
    ensures GridUpTo(g, paths, ds, fs, m') == GridUpTo(g, paths, ds, fs, m)
    decreases m'
  {
    if m' > m {
      GridCrashStays(g, paths, ds, fs, m, m' - 1);
    }
  }

  /** The innermost loop: one record per path of one `all_simple_paths` list. */
  method PathContigs(ps: seq<Path>) returns (r: Outcome<seq<Contig>>)
    ensures r == CellUpTo(ps, |ps|)
  {
    var cell: seq<Contig> := [];
    for k := 0 to |ps|
      invariant CellUpTo(ps, k) == Ok(cell)
    {
      var contig := WriteContig(ps[k]);
      if contig.Crash? {
        CellCrashStays(ps, k + 1, |ps|);
        return Crash(contig.error);
      }
      cell := cell + [(contig.value, |contig.value|)];
    }
    r := Ok(cell);
  }

  /** The loop over the end nodes, for one start node. */
  method RowContigs(g: DiGraph, paths: PathOracle, d: Node, fins: seq<Node>) returns (r: Outcome<seq<Contig>>)
    ensures r == RowUpTo(g.Value(), paths, d, fins, |fins|)
  {
    var row: seq<Contig> := [];
    for j := 0 to |fins|
      invariant RowUpTo(g.Value(), paths, d, fins, j) == Ok(row)
    {
      var chemins := AllSimplePaths(g, paths, d, fins[j]);
      if chemins.Crash? {
        RowCrashStays(g.Value(), paths, d, fins, j + 1, |fins|);
        return Crash(chemins.error);
      }
      var cell := PathContigs(chemins.value);
      if cell.Crash? {
        RowCrashStays(g.Value(), paths, d, fins, j + 1, |fins|);
        return Crash(cell.error);
      }
      row := row + cell.value;
    }
    r := Ok(row);
  }

  /** `get_contigs(graphique, debuts, fins)`: the loop over the start nodes. */
  method GetContigs(g: DiGraph, paths: PathOracle, debuts: seq<Node>, fins: seq<Node>) returns (r: Outcome<seq<Contig>>)
    ensures r == GetContigsSpec(g.Value(), paths, debuts, fins)
  {
    var contigs: seq<Contig> := [];
    for i := 0 to |debuts|
      invariant GridUpTo(g.Value(), paths, debuts, fins, i) == Ok(contigs)
    {
      var row := RowContigs(g, paths, debuts[i], fins);
      if row.Crash? {
        GridCrashStays(g.Value(), paths, debuts, fins, i + 1, |debuts|);
        return Crash(row.error);
      }
      contigs := contigs + row.value;
    }
    r := Ok(contigs);
  }

  /** A sound oracle never lists an empty path, so the only error left is a start node that is
      not in the graph. */
  lemma {:induction false} SoundCell(g: Graph, s: Node, t: Node, ps: seq<Path>, m: nat)
    requires SimplePathsBetween(g, s, t, ps) && m <= |ps|
    ensures CellUpTo(ps, m).Ok?
  {
    if m > 0 {
      SoundCell(g, s, t, ps, m - 1);
      assert ps[m - 1] in ps;
    }
  }

  lemma {:induction false} SoundRow(g: Graph, paths: PathOracle, d: Node, fs: seq<Node>, m: nat)
    requires SoundOracle(paths) && d in g.nodes && m <= |fs|
    ensures RowUpTo(g, paths, d, fs, m).Ok?
  {
    if m > 0 {
      SoundRow(g, paths, d, fs, m - 1);
      SoundCell(g, d, fs[m - 1], paths(g, d, fs[m - 1]), |paths(g, d, fs[m - 1])|);
    }
  }

  /** With a sound oracle and a non-empty end list, one start node's row fails exactly when the
      node is not in the graph, and then with `NodeNotFound`. */
  lemma RowErrors(g: Graph, paths: PathOracle, d: Node, fs: seq<Node>)
    requires SoundOracle(paths) && fs != []
    ensures d in g.nodes ==> RowUpTo(g, paths, d, fs, |fs|).Ok?
    ensures d !in g.nodes ==> RowUpTo(g, paths, d, fs, |fs|) == Crash(NodeNotFound)
  {
    if d in g.nodes {
      SoundRow(g, paths, d, fs, |fs|);
    } else {
      RowNotFound(g, paths, d, fs, |fs|);
    }
  }

  /** With a sound oracle and a non-empty end list, `get_contigs` fails exactly when some start
      node is not in the graph, and then with `NodeNotFound`. */
  lemma GridErrors(g: Graph, paths: PathOracle, ds: seq<Node>, fs: seq<Node>, m: nat)
    requires SoundOracle(paths) && fs != [] && m <= |ds|
    ensures GridUpTo(g, paths, ds, fs, m).Ok? <==> forall i :: 0 <= i < m ==> ds[i] in g.nodes
    ensures GridUpTo(g, paths, ds, fs, m).Crash? ==> GridUpTo(g, paths, ds, fs, m).error == NodeNotFound
  {
    GridErrorKind(g, paths, ds, fs, m);
    if forall i :: 0 <= i < m ==> ds[i] in g.nodes {
      GridPresent(g, paths, ds, fs, m);
    } else {
      var i :| 0 <= i < m && ds[i] !in g.nodes;
      GridAbsent(g, paths, ds, fs, m, i);
    }
  }

  lemma {:induction false} GridPresent(g: Graph, paths: PathOracle, ds: seq<Node>, fs: seq<Node>, m: nat)
    requires SoundOracle(paths) && m <= |ds| && forall i :: 0 <= i < m ==> ds[i] in g.nodes
    ensures GridUpTo(g, paths, ds, fs, m).Ok?
  {
    if m > 0 {
      GridPresent(g, paths, ds, fs, m - 1);
      SoundRow(g, paths, ds[m - 1], fs, |fs|);
    }
  }

  lemma {:induction false} GridAbsent(g: Graph, paths: PathOracle, ds: seq<Node>, fs: seq<Node>, m: nat, i: nat)
    requires fs != [] && i < m <= |ds| && ds[i] !in g.nodes
    ensures GridUpTo(g, paths, ds, fs, m).Crash?
  {
    if m - 1 == i {
      if GridUpTo(g, paths, ds, fs, m - 1).Ok? {
        RowNotFound(g, paths, ds[i], fs, |fs|);
      }
    } else {
      GridAbsent(g, paths, ds, fs, m - 1, i);
    }
  }

  lemma {:induction false} GridErrorKind(g: Graph, paths: PathOracle, ds: seq<Node>, fs: seq<Node>, m: nat)
    requires SoundOracle(paths) && fs != [] && m <= |ds|
    ensures GridUpTo(g, paths, ds, fs, m).Crash? ==> GridUpTo(g, paths, ds, fs, m).error == NodeNotFound
  {
    if m > 0 {
      GridErrorKind(g, paths, ds, fs, m - 1);
      RowErrors(g, paths, ds[m - 1], fs);
    }
  }

  /** A start node not in the graph fails at its first end node. */
  lemma {:induction false} RowNotFound(g: Graph, paths: PathOracle, d: Node, fs: seq<Node>, m: nat)
    requires d !in g.nodes && 1 <= m <= |fs|
    ensures RowUpTo(g, paths, d, fs, m) == Crash(NodeNotFound)
  {
    if m > 1 {
      RowNotFound(g, paths, d, fs, m - 1);
    }
  }

  /** `c` is the record of a path listed between `d` and `f`. */
  ghost predicate FromPair(g: Graph, paths: PathOracle, d: Node, f: Node, c: Contig) {
    exists p :: p in paths(g, d, f) && ContigOf(p) == Ok(c.0) && c.1 == |c.0|
  }

  /** The records of one path list are the records of its paths. */
  lemma CellContents(ps: seq<Path>)
    requires CellUpTo(ps, |ps|).Ok?
    ensures forall c :: c in CellUpTo(ps, |ps|).value <==> exists p :: p in ps && ContigOf(p) == Ok(c.0) && c.1 == |c.0|
  {
    var cell := CellUpTo(ps, |ps|).value;
    forall c
      ensures c in cell <==> exists p :: p in ps && ContigOf(p) == Ok(c.0) && c.1 == |c.0|
    {
      if c in cell {
        var i :| 0 <= i < |cell| && cell[i] == c;
        assert ps[i] in ps && ContigOf(ps[i]) == Ok(c.0) && c.1 == |c.0|;
      }
      if exists p :: p in ps && ContigOf(p) == Ok(c.0) && c.1 == |c.0| {
        var p :| p in ps && ContigOf(p) == Ok(c.0) && c.1 == |c.0|;
        var i :| 0 <= i < |ps| && ps[i] == p;
        assert cell[i] in cell && cell[i].0 == c.0;
        assert cell[i] == c;
      }
    }
  }

  /** Every record of one start node's row comes from a path listed for it and one of the end
      nodes, and every such path gives its record. */
  lemma {:induction false} RowContents(g: Graph, paths: PathOracle, d: Node, fs: seq<Node>, m: nat)
    requires m <= |fs| && RowUpTo(g, paths, d, fs, m).Ok?
    ensures forall c :: c in RowUpTo(g, paths, d, fs, m).value <==> exists j :: 0 <= j < m && FromPair(g, paths, d, fs[j], c)
  {
    if m > 0 {
      RowContents(g, paths, d, fs, m - 1);
      var ps := paths(g, d, fs[m - 1]);
      CellContents(ps);
      var acc := RowUpTo(g, paths, d, fs, m - 1).value;
      var cell := CellUpTo(ps, |ps|).value;
      assert RowUpTo(g, paths, d, fs, m).value == acc + cell;
      forall c
        ensures c in acc + cell <==> exists j :: 0 <= j < m && FromPair(g, paths, d, fs[j], c)
      {
        if c in acc {
          var j :| 0 <= j < m - 1 && FromPair(g, paths, d, fs[j], c);
          assert 0 <= j < m && FromPair(g, paths, d, fs[j], c);
        } else if c in cell {
          assert FromPair(g, paths, d, fs[m - 1], c);
        }
        if exists j :: 0 <= j < m && FromPair(g, paths, d, fs[j], c) {
          var j :| 0 <= j < m && FromPair(g, paths, d, fs[j], c);
          if j == m - 1 {
            assert c in cell;
          } else {
            assert c in acc;
          }
        }
      }
    }
  }

  /** The same for the whole result: a record is in it exactly when it is the record of a path
      listed for some start node and some end node. */
  lemma {:induction false} GridContents(g: Graph, paths: PathOracle, ds: seq<Node>, fs: seq<Node>, m: nat)
    requires m <= |ds| && GridUpTo(g, paths, ds, fs, m).Ok?
    ensures forall c :: c in GridUpTo(g, paths, ds, fs, m).value <==>
      exists i, j :: 0 <= i < m && 0 <= j < |fs| && FromPair(g, paths, ds[i], fs[j], c)
  {
    if m > 0 {
      GridContents(g, paths, ds, fs, m - 1);
      RowContents(g, paths, ds[m - 1], fs, |fs|);
      var acc := GridUpTo(g, paths, ds, fs, m - 1).value;
      var row := RowUpTo(g, paths, ds[m - 1], fs, |fs|).value;
      assert GridUpTo(g, paths, ds, fs, m).value == acc + row;
      forall c
        ensures c in acc + row <==> exists i, j :: 0 <= i < m && 0 <= j < |fs| && FromPair(g, paths, ds[i], fs[j], c)
      {
        if exists i, j :: 0 <= i < m && 0 <= j < |fs| && FromPair(g, paths, ds[i], fs[j], c) {
          var i, j :| 0 <= i < m && 0 <= j < |fs| && FromPair(g, paths, ds[i], fs[j], c);
          if i == m - 1 {
            assert c in row;
          }
        }
      }
    }
  }

  /** `get_contigs` returns `[]` without error exactly when every start node is in the graph (or
      there is no end node) and no pair has a path. */
  lemma {:induction false} NoPathNoContig(g: Graph, paths: PathOracle, ds: seq<Node>, fs: seq<Node>, m: nat)
    requires m <= |ds|
    ensures GridUpTo(g, paths, ds, fs, m) == Ok([]) <==>
      fs == [] || forall i, j :: 0 <= i < m && 0 <= j < |fs| ==> ds[i] in g.nodes && paths(g, ds[i], fs[j]) == []
  {
    if m > 0 {
      NoPathNoContig(g, paths, ds, fs, m - 1);
      RowEmpty(g, paths, ds[m - 1], fs, |fs|);
      var prev := GridUpTo(g, paths, ds, fs, m - 1);
      var row := RowUpTo(g, paths, ds[m - 1], fs, |fs|);
      if prev.Ok? && row.Ok? {
        assert GridUpTo(g, paths, ds, fs, m) == Ok(prev.value + row.value);
        assert |prev.value + row.value| == |prev.value| + |row.value|;
      }
    }
  }

  lemma {:induction false} RowEmpty(g: Graph, paths: PathOracle, d: Node, fs: seq<Node>, m: nat)
    requires m <= |fs|
    ensures RowUpTo(g, paths, d, fs, m) == Ok([]) <==>
      m == 0 || (d in g.nodes && forall j :: 0 <= j < m ==> paths(g, d, fs[j]) == [])
  {
    if m > 0 {
      RowEmpty(g, paths, d, fs, m - 1);
      if d !in g.nodes {
        RowNotFound(g, paths, d, fs, m);
      } else {
        var prev := RowUpTo(g, paths, d, fs, m - 1);
        var ps := paths(g, d, fs[m - 1]);
        var cell := CellUpTo(ps, |ps|);
        if prev.Ok? && cell.Ok? {
          assert RowUpTo(g, paths, d, fs, m) == Ok(prev.value + cell.value);
          assert |prev.value + cell.value| == |prev.value| + |ps|;
        }
      }
    }
  }

  /** `[text[i:i+width] for i in range(0, len(text), width)]` for a positive width. */
  function Chunks(text: string, width: nat): (r: seq<string>)
    requires width > 0
    ensures text == [] <==> r == []
    decreases |text|
  {
    if text == [] then []
    else if |text| <= width then [text]
    else [text[..width]] + Chunks(text[width..], width)
  }

  /** `sep.join(parts)` */
  function Join(parts: seq<string>, sep: string): string {
    if parts == [] then ""
    else if |parts| == 1 then parts[0]
    else parts[0] + sep + Join(parts[1..], sep)
  }

  /** Concatenation of all parts, a join with no separator. */
  function Concat(parts: seq<string>): string {
    if parts == [] then "" else parts[0] + Concat(parts[1..])
  }

  /** `fill(text, width)` with `os.linesep` given as `sep`: `range` raises `ValueError` for a zero
      step and is empty for a negative one. */
  function Fill(text: string, width: int, sep: string): (r: Outcome<string>)
    ensures r.Crash? <==> width == 0
    ensures r.Crash? ==> r.error == ValueError
    ensures width < 0 ==> r == Ok("")
    ensures text == [] && width != 0 ==> r == Ok("")
  {
    if width == 0 then Crash(ValueError)
    else if width < 0 then Ok("")
    else
      assert text == [] ==> Chunks(text, width) == [];
      Ok(Join(Chunks(text, width), sep))
  }

  /** Every chunk but the last has exactly `width` characters and the last has 1 to `width`. */
  lemma {:induction false} ChunksShape(text: string, width: nat)
    requires width > 0
    ensures var cs := Chunks(text, width);
      && (forall i :: 0 <= i < |cs| - 1 ==> |cs[i]| == width)
      && (cs != [] ==> 1 <= |Last(cs)| <= width)
    decreases |text|
  {
    if |text| > width {
      ChunksShape(text[width..], width);
      var rest := Chunks(text[width..], width);
      var cs := Chunks(text, width);
      assert cs == [text[..width]] + rest;
      assert forall i :: 1 <= i < |cs| ==> cs[i] == rest[i - 1];
    }
  }

  /** The chunks put back together give the text. */
  lemma {:induction false} ChunksConcat(text: string, width: nat)
    requires width > 0
    ensures Concat(Chunks(text, width)) == text
    decreases |text|
  {
    if |text| > width {
      ChunksConcat(text[width..], width);
      var cs := Chunks(text, width);
      assert cs[1..] == Chunks(text[width..], width);
      assert text == text[..width] + text[width..];
    } else if text != [] {
      assert Chunks(text, width)[1..] == [];
    }
  }

  /** With an empty separator, `fill` gives the text back. */
  lemma {:induction false} JoinEmptyIsConcat(parts: seq<string>)
    ensures Join(parts, "") == Concat(parts)
  {
    if |parts| > 1 {
      JoinEmptyIsConcat(parts[1..]);
      assert Concat(parts[1..]) == parts[1] + Concat(parts[2..]);
    } else if |parts| == 1 {
      assert Concat(parts[1..]) == "";
    }
  }

  lemma FillNoSeparator(text: string, width: int)
    requires width > 0
    ensures Fill(text, width, "") == Ok(text)
  {
    JoinEmptyIsConcat(Chunks(text, width));
    ChunksConcat(text, width);
  }

  /** The joined text is the text plus one separator between each pair of chunks. */
  lemma {:induction false} JoinLength(parts: seq<string>, sep: string)
    requires parts != []
    ensures |Join(parts, sep)| == |Concat(parts)| + (|parts| - 1) * |sep|
  {
    if |parts| > 1 {
      JoinLength(parts[1..], sep);
      assert Concat(parts) == parts[0] + Concat(parts[1..]);
    } else {
      assert Concat(parts[1..]) == "";
    }
  }

  lemma FillLength(text: string, width: int, sep: string)
    requires width > 0 && text != []
    ensures |Fill(text, width, sep).value| == |text| + (|Chunks(text, width)| - 1) * |sep|
  {
    ChunksConcat(text, width);
    JoinLength(Chunks(text, width), sep);
  }
}
