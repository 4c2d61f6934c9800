/** Sequence helpers shared by the model: distinctness, first occurrences, counting,
    order-preserving filtering and the subsequence relation. */
module Seqs {

  predicate Distinct<T(==)>(s: seq<T>) {
    forall i, j :: 0 <= i < j < |s| ==> s[i] != s[j]
  }

  function Last<T>(s: seq<T>): T
    requires |s| > 0
  {
    s[|s| - 1]
  }

  function DropLast<T>(s: seq<T>): seq<T>
    requires |s| > 0
  {
    s[..|s| - 1]
  }

  lemma SplitLast<T>(s: seq<T>)
    requires |s| > 0
    ensures s == DropLast(s) + [Last(s)]
    ensures forall x :: x in s <==> x in DropLast(s) || x == Last(s)
  {
  }

  lemma DistinctSplit<T>(s: seq<T>)
    requires |s| > 0 && Distinct(s)
    ensures Distinct(DropLast(s)) && Last(s) !in DropLast(s)
  {
    var o := DropLast(s);
    forall i, j | 0 <= i < j < |o| ensures o[i] != o[j] {
      assert o[i] == s[i] && o[j] == s[j];
    }
  }

  /** The elements of `s`, as a set. */
  function Elems<T>(s: seq<T>): set<T> {
    set x | x in s
  }

  lemma ElemsSnoc<T>(s: seq<T>, x: T)
    ensures Elems(s + [x]) == Elems(s) + {x}
  {
  }

  /** `r` is obtained from `s` by deleting elements: the elements of `r` occur in `s` in the same order. */
  predicate Sub<T(==)>(r: seq<T>, s: seq<T>)
    decreases |s|
  {
    if r == [] then true
    else if s == [] then false
    else if Last(r) == Last(s) then Sub(DropLast(r), DropLast(s))
    else Sub(r, DropLast(s))
  }

  /** Appending to the longer sequence keeps a subsequence one. */
  lemma {:induction false} SubSnoc<T>(r: seq<T>, s: seq<T>, x: T)
    requires Sub(r, s)
    ensures Sub(r, s + [x])
    decreases |s|, 1
  {
    assert DropLast(s + [x]) == s && Last(s + [x]) == x;
    if r != [] && Last(r) == x {
      SubDropLast(r, s);
    }
  }

  /** Dropping the last element of a subsequence keeps it one. */
  lemma {:induction false} SubDropLast<T>(r: seq<T>, s: seq<T>)
    requires r != [] && Sub(r, s)
    ensures Sub(DropLast(r), s)
    decreases |s|, 0
  {
    SplitLast(s);
    if Last(r) == Last(s) {
      SubSnoc(DropLast(r), DropLast(s), Last(s));
    } else {
      SubDropLast(r, DropLast(s));
      SubSnoc(DropLast(r), DropLast(s), Last(s));
    }
  }

  /** The elements of `s` in the order of their first occurrence, each once. */
  function Dedup<T(==,!new)>(s: seq<T>): (r: seq<T>)
    ensures Distinct(r)
    ensures forall x :: x in r <==> x in s
  {
    if s == [] then []
    else
      var d := Dedup(DropLast(s));
      SplitLast(s);
      if Last(s) in d then d else d + [Last(s)]
  }

  lemma DedupSnoc<T(!new)>(s: seq<T>, x: T)
    ensures Dedup(s + [x]) == if x in Dedup(s) then Dedup(s) else Dedup(s) + [x]
  {
    assert DropLast(s + [x]) == s;
  }

  /** Number of occurrences of `x` in `s`. */
  function CountIn<T(==)>(s: seq<T>, x: T): (n: nat)
    ensures n <= |s|
    ensures n == 0 <==> x !in s
  {
    if s == [] then 0
    else
      SplitLast(s);
      CountIn(DropLast(s), x) + (if Last(s) == x then 1 else 0)
  }

  lemma CountSnoc<T>(s: seq<T>, x: T, y: T)
    ensures CountIn(s + [x], y) == CountIn(s, y) + (if x == y then 1 else 0)
  {
    assert DropLast(s + [x]) == s;
  }

  lemma {:induction false} CountDistinct<T>(s: seq<T>, x: T)
    requires Distinct(s) && x in s
    ensures CountIn(s, x) == 1
  {
    SplitLast(s);
    if Last(s) != x {
      CountDistinct(DropLast(s), x);
    } else {
      assert x !in DropLast(s);
    }
  }

  /** The elements of `s` that are not in `S`, in their order in `s`. */
  function FilterOut<T(==,!new)>(s: seq<T>, S: set<T>): (r: seq<T>)
    ensures forall x :: x in r <==> x in s && x !in S
    ensures |r| <= |s|
    ensures Sub(r, s)
    ensures Distinct(s) ==> Distinct(r)
  {
    if s == [] then []
    else
      var f := FilterOut(DropLast(s), S);
      SplitLast(s);
      if Last(s) in S then
        assert f == [] || Last(f) != Last(s);
        f
      else
        assert f + [Last(s)] != [] && Last(f + [Last(s)]) == Last(s) && DropLast(f + [Last(s)]) == f;
        f + [Last(s)]
  }

  lemma {:induction false} FilterOutTwice<T(!new)>(s: seq<T>, S: set<T>, U: set<T>)
    ensures FilterOut(FilterOut(s, S), U) == FilterOut(s, S + U)
  {
    if s != [] {
      FilterOutTwice(DropLast(s), S, U);
      var f := FilterOut(DropLast(s), S);
      var g := FilterOut(DropLast(s), S + U);
      assert FilterOut(f, U) == g;
      if Last(s) in S {
        assert FilterOut(s, S) == f;
        assert FilterOut(s, S + U) == g;
      } else {
        var fl := f + [Last(s)];
        assert FilterOut(s, S) == fl;
        assert fl != [] && DropLast(fl) == f && Last(fl) == Last(s);
        assert FilterOut(fl, U) == if Last(s) in U then g else g + [Last(s)];
      }
    }
  }

  lemma {:induction false} FilterOutNothing<T(!new)>(s: seq<T>, S: set<T>)
    requires forall x :: x in s ==> x !in S
    ensures FilterOut(s, S) == s
  {
    if s != [] {
      SplitLast(s);
      FilterOutNothing(DropLast(s), S);
    }
  }
}
