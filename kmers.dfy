/** K-mer extraction (`cut_kmer`) and counting (the loop of `build_kmer_dict`).
    The reads are given as a sequence of strings; reading them from a FASTQ file is not modelled. */
module Kmers {
  import opened Seqs

  /** `cut_kmer`: the windows `s[i:i+k]` for `i` in `range(len(s[:-k+1]))`. For k >= 2 that
      range has `max(0, |s| - k + 1)` elements; for k = 1 the slice `s[:-0]` is empty; for k = 0
      it is `s[:1]`, so a non-empty read yields one empty string. */
  function CutKmer(s: string, k: nat): (r: seq<string>)
    ensures k >= 2 ==> |r| == if |s| >= k then |s| - k + 1 else 0
    ensures k == 1 ==> r == []
    ensures k == 0 ==> r == if s == [] then [] else [""]
    ensures forall i :: 0 <= i < |r| ==> i + k <= |s| && r[i] == s[i..i + k]
  {
    if k == 1 then [] else if k == 0 then (if s == [] then [] else [s[..0]]) else Windows(s, k)
  }

  function Windows(s: string, k: nat): (r: seq<string>)
    requires k >= 2
    ensures |r| == if |s| >= k then |s| - k + 1 else 0
    ensures forall i :: 0 <= i < |r| ==> r[i] == s[i..i + k]
    decreases |s|
  {
    if |s| < k then [] else [s[..k]] + Windows(s[1..], k)
  }

  /** How many k-mers one read contributes. */
  function WindowCount(s: string, k: nat): nat {
    if k == 1 then 0 else if k == 0 then (if |s| > 0 then 1 else 0)
    else if |s| >= k then |s| - k + 1 else 0
  }

  function TotalWindows(rs: seq<string>, k: nat): nat {
    if rs == [] then 0 else TotalWindows(DropLast(rs), k) + WindowCount(Last(rs), k)
  }

  /** Every k-mer cut from the reads, read after read, in the order the counting loop meets them. */
  function Stream(rs: seq<string>, k: nat): (r: seq<string>)
    ensures |r| == TotalWindows(rs, k)
    ensures forall x :: x in r ==> |x| == k
  {
    if rs == [] then []
    else
      var r := Stream(DropLast(rs), k) + CutKmer(Last(rs), k);
      assert forall x :: x in CutKmer(Last(rs), k) ==> |x| == k;
      r
  }

  /** A Python dict from k-mer to count: its keys in insertion order, and the counts. */
  datatype KmerDict = KmerDict(order: seq<string>, count: map<string, nat>)

  predicate WellFormed(d: KmerDict) {
    Distinct(d.order) && d.count.Keys == set x | x in d.order
  }

  /** Sum of the counts, in key order. */
  function TotalCount(d: KmerDict): int
    requires WellFormed(d)
  {
    SumOver(d.order, d.count)
  }

  function SumOver(o: seq<string>, m: map<string, nat>): int
    requires forall x :: x in o ==> x in m
  {
    if o == [] then 0 else SumOver(DropLast(o), m) + m[Last(o)]
  }

  /** `order` and `count` are the dict built from the k-mers `seen` so far. */
  ghost predicate Tallies(order: seq<string>, count: map<string, nat>, seen: seq<string>) {
    && order == Dedup(seen)
    && (forall x :: x in count <==> x in seen)
    && (forall x :: x in count ==> count[x] == CountIn(seen, x))
  }

  /** One step of the counting loop: bump an existing key, or insert a new key with count 1. */
  lemma TallyStep(order: seq<string>, count: map<string, nat>, seen: seq<string>, kmer: string)
    requires Tallies(order, count, seen)
    ensures kmer in count ==> Tallies(order, count[kmer := count[kmer] + 1], seen + [kmer])
    ensures kmer !in count ==> Tallies(order + [kmer], count[kmer := 1], seen + [kmer])
  {
    if kmer in count {
      TallyBump(order, count, seen, kmer);
    } else {
      TallyInsert(order, count, seen, kmer);
    }
  }

  lemma TallyBump(order: seq<string>, count: map<string, nat>, seen: seq<string>, kmer: string)
    requires Tallies(order, count, seen) && kmer in count
    ensures Tallies(order, count[kmer := count[kmer] + 1], seen + [kmer])
  {
    var seen', count' := seen + [kmer], count[kmer := count[kmer] + 1];
    assert kmer in Dedup(seen);
    DedupSnoc(seen, kmer);
    assert Dedup(seen') == order;
    forall x ensures x in count' <==> x in seen' {
      assert x in seen' <==> x in seen || x == kmer;
    }
    forall x | x in count' ensures count'[x] == CountIn(seen', x) {
      CountSnoc(seen, kmer, x);
      if x == kmer {
        assert count'[x] == count[x] + 1;
      } else {
        assert count'[x] == count[x];
      }
    }
  }

  lemma TallyInsert(order: seq<string>, count: map<string, nat>, seen: seq<string>, kmer: string)
    requires Tallies(order, count, seen) && kmer !in count
    ensures Tallies(order + [kmer], count[kmer := 1], seen + [kmer])
  {
    var seen', count' := seen + [kmer], count[kmer := 1];
    assert kmer !in Dedup(seen);
    DedupSnoc(seen, kmer);
    assert Dedup(seen') == order + [kmer];
    forall x ensures x in count' <==> x in seen' {
      assert x in seen' <==> x in seen || x == kmer;
    }
    forall x | x in count' ensures count'[x] == CountIn(seen', x) {
      CountSnoc(seen, kmer, x);
      if x == kmer {
        assert CountIn(seen, x) == 0;
      } else {
        assert count'[x] == count[x];
      }
    }
  }

  /** The inner loop of `build_kmer_dict`: add the k-mers of one read to the dict. */
  method CountKmers(order: seq<string>, count: map<string, nat>, ghost seen: seq<string>, kmers: seq<string>)
    returns (order': seq<string>, count': map<string, nat>)
    requires Tallies(order, count, seen)
    ensures Tallies(order', count', seen + kmers)
  {
    order', count' := order, count;
    assert seen + kmers[..0] == seen;
    for j := 0 to |kmers|
      invariant Tallies(order', count', seen + kmers[..j])
    {
      var kmer := kmers[j];
      ghost var before := seen + kmers[..j];
      assert seen + kmers[..j + 1] == before + [kmer];
      TallyStep(order', count', before, kmer);
      if kmer in count' {
        count' := count'[kmer := count'[kmer] + 1];
      } else {
        count' := count'[kmer := 1];
        order' := order' + [kmer];
      }
    }
    assert kmers[..|kmers|] == kmers;
  }

  /** `build_kmer_dict` after the reads are read: count every k-mer of every read. Keys are
      inserted at first sight, so the key order is the order of first occurrence in the stream. */
  method BuildKmerDict(rs: seq<string>, k: nat) returns (d: KmerDict)
    ensures d.order == Dedup(Stream(rs, k))
    ensures forall x :: x in d.count <==> x in Stream(rs, k)
    ensures forall x :: x in d.count ==> d.count[x] == CountIn(Stream(rs, k), x)
  {
    var order: seq<string> := [];
    var count: map<string, nat> := map[];
    for i := 0 to |rs|
      invariant Tallies(order, count, Stream(rs[..i], k))
    {
      order, count := CountKmers(order, count, Stream(rs[..i], k), CutKmer(rs[i], k));
      assert DropLast(rs[..i + 1]) == rs[..i] && Last(rs[..i + 1]) == rs[i];
    }
    assert rs[..|rs|] == rs;
    d := KmerDict(order, count);
  }

  /** The dict `build_kmer_dict` returns, as a value. */
  function KmerCounts(rs: seq<string>, k: nat): KmerDict
  {
    var st := Stream(rs, k);
    KmerDict(Dedup(st), map x | x in st :: CountIn(st, x))
  }

  /** The counted dict is well formed and every key is a k-mer. */
  lemma KmerCountsShape(rs: seq<string>, k: nat)
    ensures WellFormed(KmerCounts(rs, k))
    ensures forall x :: x in KmerCounts(rs, k).count ==> |x| == k && KmerCounts(rs, k).count[x] >= 1
  {
  }

  function SumCounts(o: seq<string>, st: seq<string>): int {
    if o == [] then 0 else SumCounts(DropLast(o), st) + CountIn(st, Last(o))
  }

  lemma {:induction false} SumCountsSnoc(o: seq<string>, s: seq<string>, y: string)
    ensures SumCounts(o, s + [y]) == SumCounts(o, s) + CountIn(o, y)
  {
    if o != [] {
      SumCountsSnoc(DropLast(o), s, y);
      CountSnoc(s, y, Last(o));
      SplitLast(o);
      CountSnoc(DropLast(o), Last(o), y);
    }
  }

  /** Each element of a stream is counted once: summing the counts over the distinct keys gives the length. */
  lemma {:induction false} DedupCountsSum(st: seq<string>)
    ensures SumCounts(Dedup(st), st) == |st|
  {
    if st != [] {
      var s, y := DropLast(st), Last(st);
      SplitLast(st);
      DedupCountsSum(s);
      if y in Dedup(s) {
        SeenAgainSum(s, y);
      } else {
        FirstSeenSum(s, y);
      }
    }
  }

  lemma SeenAgainSum(s: seq<string>, y: string)
    requires SumCounts(Dedup(s), s) == |s| && y in Dedup(s)
    ensures SumCounts(Dedup(s + [y]), s + [y]) == |s| + 1
  {
    var d := Dedup(s);
    DedupSnoc(s, y);
    SumCountsSnoc(d, s, y);
    CountDistinct(d, y);
  }

  lemma FirstSeenSum(s: seq<string>, y: string)
    requires SumCounts(Dedup(s), s) == |s| && y !in Dedup(s)
    ensures SumCounts(Dedup(s + [y]), s + [y]) == |s| + 1
  {
    var d, st := Dedup(s), s + [y];
    DedupSnoc(s, y);
    SumCountsSnoc(d, s, y);
    assert CountIn(d, y) == 0 && y !in s;
    var o := d + [y];
    assert DropLast(o) == d && Last(o) == y;
    assert SumCounts(o, st) == SumCounts(d, st) + CountIn(st, y);
    CountSnoc(s, y, y);
  }

  lemma {:induction false} SumOverCounts(o: seq<string>, st: seq<string>, m: map<string, nat>)
    requires forall x :: x in o ==> x in m && m[x] == CountIn(st, x)
    ensures SumOver(o, m) == SumCounts(o, st)
  {
    if o != [] {
      SplitLast(o);
      SumOverCounts(DropLast(o), st, m);
    }
  }

  /** The counts sum to the number of k-mers cut, i.e. the sum over the reads of max(0, |read| - k + 1). */
  lemma CountsSumToKmers(rs: seq<string>, k: nat)
    ensures WellFormed(KmerCounts(rs, k))
    ensures TotalCount(KmerCounts(rs, k)) == TotalWindows(rs, k)
  {
    var st := Stream(rs, k);
    var d := KmerCounts(rs, k);
    SumOverCounts(d.order, st, d.count);
    DedupCountsSum(st);
  }

  /** A read shorter than k contributes no k-mer and does not fail. */
  lemma ShortReadContributesNothing(rs: seq<string>, r: string, k: nat)
    requires |r| < k
    ensures Stream(rs + [r], k) == Stream(rs, k)
  {
    assert DropLast(rs + [r]) == rs;
  }
}
