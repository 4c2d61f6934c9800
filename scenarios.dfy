/** The k-mer dict of the reads "ACGTA", "ACGTC", "ACGTC" with k = 3, the graph `build_graph`
    makes of it, and what `find_bubbles` does on that graph. */
module Scenarios {
  import opened Common
  import opened Seqs
  import opened Graphs
  import opened Kmers
  import opened Builder
  import opened Bubbles

  const Reads: seq<string> := ["ACGTA", "ACGTC", "ACGTC"]

  /** The counts of the three reads, in insertion order: ACG 3, CGT 3, GTA 1, GTC 2. */
  const Order: seq<string> := ["ACG", "CGT", "GTA", "GTC"]
  const Count: map<string, nat> := map["ACG" := 3, "CGT" := 3, "GTA" := 1, "GTC" := 2]

  const FirstKmers: seq<string> := ["ACG", "CGT", "GTA"]
  const OtherKmers: seq<string> := ["ACG", "CGT", "GTC"]

  lemma CutReads()
    ensures CutKmer("ACGTA", 3) == FirstKmers && CutKmer("ACGTC", 3) == OtherKmers
  {
    var a, c := CutKmer("ACGTA", 3), CutKmer("ACGTC", 3);
    assert a[0] == "ACG" && a[1] == "CGT" && a[2] == "GTA";
    assert c[0] == "ACG" && c[1] == "CGT" && c[2] == "GTC";
  }

  lemma StreamSnoc(rs: seq<string>, r: string, k: nat)
    ensures Stream(rs + [r], k) == Stream(rs, k) + CutKmer(r, k)
  {
    assert DropLast(rs + [r]) == rs && Last(rs + [r]) == r;
  }

  /** The k-mers the counting loop meets: those of the first read, then twice those of the others. */
  lemma ReadsStream()
    ensures Stream(Reads, 3) == FirstKmers + OtherKmers + OtherKmers
  {
    CutReads();
    StreamThree("ACGTA", "ACGTC", 3);
  }

  /** Three reads, the last two equal: stream by stream, in read order. */
  lemma StreamThree(a: string, c: string, k: nat)
    ensures Stream([a, c, c], k) == CutKmer(a, k) + CutKmer(c, k) + CutKmer(c, k)
  {
    var s1: seq<string> := [a];
    var s2 := s1 + [c];
    StreamOne(a, k);
    StreamSnoc(s1, c, k);
    StreamSnoc(s2, c, k);
    assert s2 + [c] == [a, c, c];
  }

  lemma StreamOne(a: string, k: nat)
    ensures Stream([a], k) == CutKmer(a, k)
  {
    assert DropLast([a]) == [] && Last([a]) == a;
  }

  /** The key order of a stream shaped like that of the reads: `p q r p q t p q t`. */
  lemma DedupPattern<T(!new)>(p: T, q: T, r: T, t: T)
    requires p != q && p != r && p != t && q != r && q != t && r != t
    ensures Dedup([p, q, r] + [p, q, t] + [p, q, t]) == [p, q, r, t]
  {
    var s6 := [p, q, r] + [p, q, t];
    DedupSecond(p, q, r, t);
    DedupStays(s6, p);
    DedupStays(s6 + [p], q);
    DedupStays(s6 + [p] + [q], t);
    assert s6 + [p] + [q] + [t] == [p, q, r] + [p, q, t] + [p, q, t];
  }

  /** The first six k-mers: only `t` is new. */
  lemma DedupSecond<T(!new)>(p: T, q: T, r: T, t: T)
    requires p != q && p != r && p != t && q != r && q != t && r != t
    ensures Dedup([p, q, r] + [p, q, t]) == [p, q, r, t]
  {
    var s3 := [p, q, r];
    DedupFirst(p, q, r);
    DedupStays(s3, p);
    DedupStays(s3 + [p], q);
    DedupSnoc(s3 + [p] + [q], t);
    assert s3 + [p] + [q] + [t] == [p, q, r] + [p, q, t];
  }

  lemma DedupFirst<T(!new)>(p: T, q: T, r: T)
    requires p != q && q != r && p != r
    ensures Dedup([p, q, r]) == [p, q, r]
  {
    var none: seq<T> := [];
    var s1 := none + [p];
    var s2 := s1 + [q];
    DedupSnoc(none, p);
    DedupSnoc(s1, q);
    DedupSnoc(s2, r);
    assert s2 + [r] == [p, q, r];
  }

  /** A k-mer seen before leaves the key order as it is. */
  lemma DedupStays<T(!new)>(s: seq<T>, x: T)
    requires x in s
    ensures Dedup(s + [x]) == Dedup(s)
  {
    DedupSnoc(s, x);
  }

  lemma {:induction false} CountAppend<T>(a: seq<T>, b: seq<T>, x: T)
    ensures CountIn(a + b, x) == CountIn(a, x) + CountIn(b, x)
    decreases |b|
  {
    if b != [] {
      var o, y := DropLast(b), Last(b);
      assert a + b == (a + o) + [y];
      assert b == o + [y];
      CountSnoc(a + o, y, x);
      CountAppend(a, o, x);
      CountSnoc(o, y, x);
    } else {
      assert a + b == a;
    }
  }

  lemma CountThree<T>(p: T, q: T, r: T, x: T)
    ensures CountIn([p, q, r], x) == (if p == x then 1 else 0) + (if q == x then 1 else 0) + (if r == x then 1 else 0)
  {
    var none: seq<T> := [];
    assert [p, q, r] == none + [p] + [q] + [r];
    CountSnoc(none, p, x);
    CountSnoc(none + [p], q, x);
    CountSnoc(none + [p] + [q], r, x);
  }

  /** The counts of a stream shaped like that of the reads: `p q r p q t p q t`. */
  lemma CountsPattern<T>(p: T, q: T, r: T, t: T)
    requires p != q && p != r && p != t && q != r && q != t && r != t
    ensures var st := [p, q, r] + [p, q, t] + [p, q, t];
      (map x | x in st :: CountIn(st, x)) == map[p := 3, q := 3, r := 1, t := 2]
  {
    var st := [p, q, r] + [p, q, t] + [p, q, t];
    var m, want := map x | x in st :: CountIn(st, x), map[p := 3, q := 3, r := 1, t := 2];
    assert m.Keys == want.Keys by {
      assert forall x :: x in st <==> x == p || x == q || x == r || x == t;
    }
    forall x | x in st ensures m[x] == want[x] {
      CountPatternAt(p, q, r, t, x);
    }
  }

  lemma CountPatternAt<T>(p: T, q: T, r: T, t: T, x: T)
    requires p != q && p != r && p != t && q != r && q != t && r != t
    ensures CountIn([p, q, r] + [p, q, t] + [p, q, t], x)
      == if x == p || x == q then 3 else if x == r then 1 else if x == t then 2 else 0
  {
    var a, b := [p, q, r], [p, q, t];
    CountAppend(a + b, b, x);
    CountAppend(a, b, x);
    CountThree(p, q, r, x);
    CountThree(p, q, t, x);
  }

  /** Any reads whose stream has that shape are counted as `p` 3, `q` 3, `r` 1, `t` 2, in that order. */
  lemma CountedPattern(rs: seq<string>, k: nat, p: string, q: string, r: string, t: string)
    requires p != q && p != r && p != t && q != r && q != t && r != t
    requires Stream(rs, k) == [p, q, r] + [p, q, t] + [p, q, t]
    ensures KmerCounts(rs, k) == KmerDict([p, q, r, t], map[p := 3, q := 3, r := 1, t := 2])
  {
    DedupPattern(p, q, r, t);
    CountsPattern(p, q, r, t);
  }

  /** `build_kmer_dict` on the three reads with k = 3 gives exactly the dict above. */
  lemma ReadsCounted()
    ensures KmerCounts(Reads, 3) == KmerDict(Order, Count)
  {
    ReadsStream();
    CountedPattern(Reads, 3, "ACG", "CGT", "GTA", "GTC");
  }

  /** AC -> CG -> GT, then GT -> TA and GT -> TC. */
  function ReadsGraph(): Graph {
    Graph(["AC", "CG", "GT", "TA", "TC"],
      map[("AC", "CG") := 3, ("CG", "GT") := 3, ("GT", "TA") := 1, ("GT", "TC") := 2])
  }

  lemma GraphOfSnoc(o: seq<string>, x: string)
    requires forall y :: y in o + [x] ==> y in Count
    ensures GraphOf(o + [x], Count) == WithEdge(GraphOf(o, Count), Prefix(x), Suffix(x), Count[x])
  {
    assert DropLast(o + [x]) == o && Last(o + [x]) == x;
  }

  /** The graph after the first `n` keys; `WithEdge` applied once more gives the next. */
  function Partial(n: nat): Graph
    requires n <= 4
  {
    if n == 0 then Graph([], map[])
    else if n == 1 then Graph(["AC", "CG"], map[("AC", "CG") := 3])
    else if n == 2 then Graph(["AC", "CG", "GT"], map[("AC", "CG") := 3, ("CG", "GT") := 3])
    else if n == 3 then Graph(["AC", "CG", "GT", "TA"], map[("AC", "CG") := 3, ("CG", "GT") := 3, ("GT", "TA") := 1])
    else ReadsGraph()
  }

  lemma AddFirst()
    ensures WithEdge(Partial(0), Prefix(Order[0]), Suffix(Order[0]), Count[Order[0]]) == Partial(1)
  {
    assert Order[0] == "ACG" && Count["ACG"] == 3;
    assert Prefix("ACG") == "AC" && Suffix("ACG") == "CG";
  }

  lemma AddSecond()
    ensures WithEdge(Partial(1), Prefix(Order[1]), Suffix(Order[1]), Count[Order[1]]) == Partial(2)
  {
    assert Order[1] == "CGT" && Count["CGT"] == 3;
    assert Prefix("CGT") == "CG" && Suffix("CGT") == "GT";
    assert "CG" in Partial(1).nodes;
  }

  lemma AddThird()
    ensures WithEdge(Partial(2), Prefix(Order[2]), Suffix(Order[2]), Count[Order[2]]) == Partial(3)
  {
    assert Order[2] == "GTA" && Count["GTA"] == 1;
    assert Prefix("GTA") == "GT" && Suffix("GTA") == "TA";
    assert "GT" in Partial(2).nodes;
  }

  lemma AddFourth()
    ensures WithEdge(Partial(3), Prefix(Order[3]), Suffix(Order[3]), Count[Order[3]]) == Partial(4)
  {
    assert Order[3] == "GTC" && Count["GTC"] == 2;
    assert Prefix("GTC") == "GT" && Suffix("GTC") == "TC";
    assert "GT" in Partial(3).nodes;
  }

  lemma PartialStep(n: nat)
    requires n < 4
    ensures WithEdge(Partial(n), Prefix(Order[n]), Suffix(Order[n]), Count[Order[n]]) == Partial(n + 1)
  {
    if n == 0 {
      AddFirst();
    } else if n == 1 {
      AddSecond();
    } else if n == 2 {
      AddThird();
    } else {
      AddFourth();
    }
  }

  lemma OrderCounted()
    ensures forall y :: y in Order ==> y in Count
  {
    assert Count.Keys == {"ACG", "CGT", "GTA", "GTC"};
  }

  /** One more key of the dict: the graph of the first `n + 1` keys. */
  lemma PartialNext(n: nat)
    requires n < 4 && GraphOf(Order[..n], Count) == Partial(n)
    ensures GraphOf(Order[..n + 1], Count) == Partial(n + 1)
  {
    var o, x := Order[..n], Order[n];
    assert Order[..n + 1] == o + [x];
    OrderCounted();
    assert forall y :: y in o + [x] ==> y in Order;
    GraphOfSnoc(o, x);
    PartialStep(n);
  }

  lemma {:induction false} PartialBuilt(n: nat)
    requires n <= 4
    ensures GraphOf(Order[..n], Count) == Partial(n)
  {
    if n > 0 {
      PartialBuilt(n - 1);
      PartialNext(n - 1);
    } else {
      assert Order[..n] == [];
    }
  }

  /** The dict of the reads (`ReadsCounted`) builds this graph: `build_graph` adds the four edges
      in key order, so the nodes come in first-mention order. */
  lemma ReadsGraphBuilt()
    ensures GraphOf(Order, Count) == ReadsGraph()
  {
    PartialBuilt(4);
    assert Order[..4] == Order;
  }

  lemma OnePred(g: Graph, u: Node, v: Node)
    requires (u, v) in g.w && forall e :: e in g.w && e.1 == v ==> e.0 == u
    ensures InDeg(g, v) == 1
  {
    PredsSuccs(g, u, v);
    assert Preds(g, v) == {u};
  }

  /** GT has two successors, and GT, TA and TC each have one predecessor up to the end of the
      node list: the scan of `find_bubbles` walks past the last node and raises `IndexError`. */
  lemma ReadsGraphBubbleScanCrashes()
    ensures FindBubblesSpec(ReadsGraph()) == Crash(IndexError)
  {
    var g := ReadsGraph();
    PredsSuccs(g, "GT", "TA");
    PredsSuccs(g, "GT", "TC");
    assert Succs(g, "GT") == {"TA", "TC"};
    assert OutDeg(g, g.nodes[2]) > 1;
    OnePred(g, "CG", "GT");
    OnePred(g, "GT", "TA");
    OnePred(g, "GT", "TC");
    assert forall v :: 2 <= v < |g.nodes| ==> InDeg(g, g.nodes[v]) == 1;
    FindBubblesCrash(g);
  }
}
