/** `select_best_path`: the tie-break between candidate paths, as the code runs it. Each pass keeps
    the candidates whose average weight equals the maximum of ALL averages, indexing the averages by
    position in the current (possibly shrunken) list; among several heaviest it keeps those whose
    length equals the maximum of ALL lengths, indexed by position in the heaviest list; a remaining
    tie reaches `random.seed`, and `random` is never imported. */
module Selection {
  import opened Common
  import opened Seqs
  import opened Graphs
  import opened Weights
  import opened Editing

  /** Python `max` of the averages (the first of the largest). */
  function MaxRatio(s: seq<Ratio>): (m: Ratio)
    requires |s| > 0
    ensures m in s
    ensures forall i :: 0 <= i < |s| ==> !Below(m, s[i])
  {
    if |s| == 1 then s[0]
    else
      var m := MaxRatio(DropLast(s));
      SplitLast(s);
      if Below(m, Last(s)) then
        assert forall i :: 0 <= i < |s| - 1 ==> !Below(m, s[i]) by {
          forall i | 0 <= i < |s| - 1 ensures !Below(m, s[i]) {
            assert s[i] == DropLast(s)[i];
          }
        }
        forall i | 0 <= i < |s| - 1 ensures !Below(Last(s), s[i]) {
          LeBelowTrans(s[i], m, Last(s));
        }
        Last(s)
      else
        assert forall i :: 0 <= i < |s| - 1 ==> s[i] == DropLast(s)[i];
        m
  }

  /** Python `max` of the lengths. */
  function MaxInt(s: seq<int>): (m: int)
    requires |s| > 0
    ensures m in s
    ensures forall i :: 0 <= i < |s| ==> s[i] <= m
  {
    if |s| == 1 then s[0]
    else
      var m := MaxInt(DropLast(s));
      SplitLast(s);
      assert forall i :: 0 <= i < |s| - 1 ==> s[i] == DropLast(s)[i];
      if m < Last(s) then Last(s) else m
  }

  /** `[s[i] for i in range(len(s)) if keep[i]]` */
  function Pick<T>(s: seq<T>, keep: seq<bool>): (r: seq<T>)
    requires |s| <= |keep|
    ensures |r| <= |s|
  {
    if s == [] then []
    else Pick(DropLast(s), keep) + (if keep[|s| - 1] then [Last(s)] else [])
  }

  /** Python `s.remove(x)` on a list that holds `x`: drop its first occurrence. */
  function RemoveFirst<T(==)>(s: seq<T>, x: T): (r: seq<T>)
    requires x in s
    ensures |r| == |s| - 1
    ensures multiset(r) == multiset(s) - multiset{x}
  {
    assert s == [s[0]] + s[1..];
    if s[0] == x then s[1..]
    else
      assert x in s[1..];
      [s[0]] + RemoveFirst(s[1..], x)
  }

  /** The occurrence dropped is the first one: `s` with position `i` cut out, where `s[i] == x`
      and no earlier position holds `x`. */
  lemma {:induction false} RemoveFirstPosition<T>(s: seq<T>, x: T)
    requires x in s
    ensures exists i :: 0 <= i < |s| && s[i] == x && x !in s[..i] && RemoveFirst(s, x) == s[..i] + s[i + 1..]
  {
    if s[0] == x {
      assert s[..0] + s[0 + 1..] == s[1..];
    } else {
      var t := s[1..];
      assert s == [s[0]] + t;
      assert x in t;
      RemoveFirstPosition(t, x);
      var i :| 0 <= i < |t| && t[i] == x && x !in t[..i] && RemoveFirst(t, x) == t[..i] + t[i + 1..];
      ConsCut(s[0], t, i, x);
    }
  }

  /** Cutting position `i + 1` out of `[h] + t` is `h` before `t` with position `i` cut out. */
  lemma ConsCut<T>(h: T, t: seq<T>, i: nat, x: T)
    requires i < |t| && t[i] == x && x !in t[..i] && h != x
    ensures var s := [h] + t; s[i + 1] == x && x !in s[..i + 1]
    ensures var s := [h] + t; [h] + (t[..i] + t[i + 1..]) == s[..i + 1] + s[i + 2..]
  {
    var s := [h] + t;
    assert s[..i + 1] == [h] + t[..i];
    assert s[i + 2..] == t[i + 1..];
  }

  lemma MultisetSnoc<T>(s: seq<T>)
    requires |s| > 0
    ensures multiset(s) == multiset(DropLast(s)) + multiset{Last(s)}
  {
    SplitLast(s);
  }

  /** `for x in xs: s.remove(x)`: the list left, or the `ValueError` of a `remove` that finds
      nothing. Every `remove` succeeds iff `s` holds each item at least as often as `xs` does,
      and then exactly one occurrence per item is gone. */
  function RemoveEach<T(==)>(s: seq<T>, xs: seq<T>): (r: Outcome<seq<T>>)
    ensures r.Ok? <==> multiset(xs) <= multiset(s)
    ensures r.Ok? ==> multiset(r.value) == multiset(s) - multiset(xs)
    ensures r.Ok? ==> |r.value| == |s| - |xs|
    ensures r.Crash? ==> r.error == ValueError
  {
    if xs == [] then Ok(s)
    else
      match RemoveEach(s, DropLast(xs))
      case Crash(e) =>
        RemoveStep(s, xs, None);
        Crash(e)
      case Ok(t) =>
        RemoveStep(s, xs, Some(t));
        if Last(xs) in t then Ok(RemoveFirst(t, Last(xs))) else Crash(ValueError)
  }

  /** The multiset arithmetic of one more `remove`: `before` is the list left by the earlier
      removals, or `None` when one of them failed. */
  lemma RemoveStep<T>(s: seq<T>, xs: seq<T>, before: Option<seq<T>>)
    requires |xs| > 0
    requires before.None? <==> !(multiset(DropLast(xs)) <= multiset(s))
    requires before.Some? ==> multiset(before.value) == multiset(s) - multiset(DropLast(xs))
    ensures before.None? ==> !(multiset(xs) <= multiset(s))
    ensures before.Some? ==> (Last(xs) in before.value <==> multiset(xs) <= multiset(s))
    ensures before.Some? && Last(xs) in before.value ==>
      multiset(before.value) - multiset{Last(xs)} == multiset(s) - multiset(xs)
  {
    MultisetSnoc(xs);
    if before.Some? {
      assert Last(xs) in before.value <==> multiset(before.value)[Last(xs)] > 0;
    }
  }

  /** One pass of the `while` loop: the candidates left in `ensemble_chemins` and the batch handed
      to `remove_paths`. */
  datatype Pass = Pass(left: seq<Path>, batch: seq<Path>)

  /** Positions `i` where `poids_moyen[i] == taille_max`. */
  function HeavyMask(poids: seq<Ratio>): seq<bool>
    requires |poids| > 0
  {
    var m := MaxRatio(poids);
    seq(|poids|, i requires 0 <= i < |poids| => Same(poids[i], m))
  }

  /** Positions `i` where `ensemble_longueurs[i] == longueur_max`. */
  function LongMask(lens: seq<int>): seq<bool>
    requires |lens| > 0
  {
    var m := MaxInt(lens);
    seq(|lens|, i requires 0 <= i < |lens| => lens[i] == m)
  }

  /** Exactly one of the first `n` lengths equals the maximum of all the lengths. */
  ghost predicate SingleLongest(lens: seq<int>, n: nat)
    requires 0 < |lens| && n <= |lens|
  {
    exists i :: 0 <= i < n && lens[i] == MaxInt(lens) && forall j :: 0 <= j < n && j != i ==> lens[j] != MaxInt(lens)
  }

  /** The tie-break among several heaviest candidates `fort` (lines 162-180), once `rest` is known.
      It succeeds exactly when one of the first `|fort|` lengths is the longest; the batch is then
      `fort` without that path, followed by `rest`. The removals never fail: an `IndexError` comes
      from `ensemble_longueurs` being shorter than `fort`, a `ValueError` only from `max` of no
      length, and a remaining tie reaches `random`. */
  function LongestOf(fort: seq<Path>, rest: seq<Path>, lens: seq<int>): (r: Outcome<Pass>)
    ensures r.Ok? <==> 0 < |lens| && |fort| <= |lens| && SingleLongest(lens, |fort|)
    ensures r.Ok? ==> r.value.left == rest
    ensures r.Ok? ==> 0 < |lens| && (exists i :: 0 <= i < |fort| && lens[i] == MaxInt(lens) &&
                                        r.value.batch == RemoveFirst(fort, fort[i]) + rest)
    ensures r.Ok? ==> forall p :: p in r.value.batch ==> p in fort || p in rest
    ensures r.Crash? ==> r.error == if |lens| == 0 then ValueError else if |fort| > |lens| then IndexError else NameError
  {
    if |lens| == 0 then Crash(ValueError)                 // max(ensemble_longueurs)
    else if |fort| > |lens| then Crash(IndexError)        // ensemble_longueurs[i]
    else
      var grands := Pick(fort, LongMask(lens));
      LongestPick(fort, lens);
      match RemoveEach(fort, grands)
      case Crash(e) => Crash(e)
      case Ok(others) =>
        if |grands| == 1 then
          assert forall p :: p in others ==> p in fort by {
            forall p | p in others ensures p in fort {
              assert multiset(others)[p] > 0;
            }
          }
          Ok(Pass(rest, others + rest))
        else Crash(NameError)                             // random.seed(9001)
  }

  /** One pass of lines 149-180. Every pass that does not crash drops at least one candidate, and
      both what is left and the batch are drawn from the candidates. */
  function SelectPass(cs: seq<Path>, lens: seq<int>, poids: seq<Ratio>): (r: Outcome<Pass>)
    ensures r.Ok? ==> |r.value.left| < |cs|
    ensures r.Ok? ==> (forall p :: p in r.value.left ==> p in cs) && (forall p :: p in r.value.batch ==> p in cs)
    ensures r.Crash? ==> r.error in {ValueError, IndexError, NameError}
  {
    if |poids| == 0 then Crash(ValueError)                // max(poids_moyen)
    else if |cs| > |poids| then Crash(IndexError)         // poids_moyen[i]
    else
      var fort := Pick(cs, HeavyMask(poids));
      match RemoveEach(cs, fort)
      case Crash(e) => Crash(e)
      case Ok(rest) =>
        assert forall p :: p in rest ==> p in cs by {
          forall p | p in rest ensures p in cs {
            assert multiset(rest)[p] > 0;
          }
        }
        assert forall p :: p in fort ==> p in cs by {
          forall p | p in fort ensures p in cs {
            PickIn(cs, HeavyMask(poids), p);
          }
        }
        if |fort| == 1 then Ok(Pass(rest, rest)) else LongestOf(fort, rest, lens)
  }

  /** The whole `while len(ensemble_chemins) > 1` loop: the final graph and the final contents
      of the caller's list, or the exception that ends it. The final graph is the given one pruned
      by `remove_paths` of a batch of the candidates, with the caller's flags. */
  function SelectBest(g: Graph, cs: seq<Path>, lens: seq<int>, poids: seq<Ratio>, de: bool, ds: bool)
    : (r: Outcome<(Graph, seq<Path>)>)
    ensures |cs| <= 1 ==> r == Ok((g, cs))
    ensures r.Ok? ==> |r.value.1| <= 1 && forall p :: p in r.value.1 ==> p in cs
    ensures r.Ok? ==> PrunedBy(g, r.value.0, cs, de, ds)
    ensures r.Ok? ==> forall x :: x in r.value.0.nodes ==> x in g.nodes
    ensures r.Ok? && ValidGraph(g) ==> ValidGraph(r.value.0)
    ensures r.Crash? ==> r.error in {ValueError, IndexError, NameError}
    decreases |cs|
  {
    if |cs| <= 1 then
      PrunedByNothing(g, cs, de, ds);
      Ok((g, cs))
    else
      match SelectPass(cs, lens, poids)
      case Crash(e) => Crash(e)
      case Ok(p) =>
        var r := SelectBest(RemovePathsSpec(g, p.batch, de, ds), p.left, lens, poids, de, ds);
        if r.Ok? then
          PrunedByThen(g, p.batch, p.left, cs, r.value.0, de, ds);
          r
        else r
  }

  /** The loops of lines 152-154 and 164-166: collect `s[i]` where the value at position `i`
      matches; positions beyond the value list raise `IndexError`. */
  method PickMatching(s: seq<Path>, keep: seq<bool>) returns (r: Outcome<seq<Path>>)
    ensures r == if |s| > |keep| then Crash(IndexError) else Ok(Pick(s, keep))
  {
    var acc: seq<Path> := [];
    for i := 0 to |s|
      invariant i <= |keep| && acc == Pick(s[..i], keep)
    {
      if i >= |keep| {
        return Crash(IndexError);
      }
      assert DropLast(s[..i + 1]) == s[..i] && Last(s[..i + 1]) == s[i];
      if keep[i] {
        acc := acc + [s[i]];
      }
    }
    assert s[..|s|] == s;
    r := Ok(acc);
  }

  /** The loops of lines 155-156 and 167-168: `for chemin in xs: s.remove(chemin)`. */
  method RemoveAll(s: seq<Path>, xs: seq<Path>) returns (r: Outcome<seq<Path>>)
    ensures r == RemoveEach(s, xs)
  {
    var cur := s;
    for j := 0 to |xs|
      invariant RemoveEach(s, xs[..j]) == Ok(cur)
    {
      assert DropLast(xs[..j + 1]) == xs[..j] && Last(xs[..j + 1]) == xs[j];
      if xs[j] !in cur {
        RemoveEachCrashStays(s, xs, j + 1);
        return Crash(ValueError);
      }
      cur := RemoveFirst(cur, xs[j]);
    }
    assert xs[..|xs|] == xs;
    r := Ok(cur);
  }

  /** Once a `remove` fails, the later ones are never reached. */
  lemma {:induction false} RemoveEachCrashStays<T>(s: seq<T>, xs: seq<T>, n: nat)
    requires n <= |xs| && RemoveEach(s, xs[..n]).Crash?
    ensures RemoveEach(s, xs) == RemoveEach(s, xs[..n])
    decreases |xs|
  {
    if n < |xs| {
      assert DropLast(xs)[..n] == xs[..n];
      RemoveEachCrashStays(s, DropLast(xs), n);
    } else {
      assert xs[..n] == xs;
    }
  }

  /** One pass of the loop body, without the graph update. */
  method RunPass(cs: seq<Path>, lens: seq<int>, poids: seq<Ratio>) returns (r: Outcome<Pass>)
    ensures r == SelectPass(cs, lens, poids)
  {
    if |poids| == 0 {
      return Crash(ValueError);
    }
    var heavy := PickMatching(cs, HeavyMask(poids));
    if heavy.Crash? {
      return Crash(heavy.error);
    }
    var fort := heavy.value;
    var removed := RemoveAll(cs, fort);
    if removed.Crash? {
      return Crash(removed.error);
    }
    var rest := removed.value;
    if |fort| == 1 {
      return Ok(Pass(rest, rest));
    }
    if |lens| == 0 {
      return Crash(ValueError);
    }
    var long := PickMatching(fort, LongMask(lens));
    if long.Crash? {
      return Crash(long.error);
    }
    var grands := long.value;
    var kept := RemoveAll(fort, grands);
    if kept.Crash? {
      return Crash(kept.error);
    }
    if |grands| == 1 {
      return Ok(Pass(rest, kept.value + rest));
    }
    return Crash(NameError);
  }

  /** `select_best_path(graph, ensemble_chemins, ensemble_longueurs, poids_moyen, ...)`: returns the
      final contents of the caller's list, which the source mutates in place. */
  method SelectBestPath(g: DiGraph, cs: seq<Path>, lens: seq<int>, poids: seq<Ratio>, de: bool, ds: bool)
    returns (r: Outcome<seq<Path>>)
    requires g.Valid()
    modifies g
    ensures g.Valid()
    ensures match SelectBest(old(g.Value()), cs, lens, poids, de, ds)
      case Crash(e) => r == Crash(e)
      case Ok(res) => r == Ok(res.1) && g.Value() == res.0
  {
    var ensemble := cs;
    while |ensemble| > 1
      invariant g.Valid()
      invariant SelectBest(old(g.Value()), cs, lens, poids, de, ds) == SelectBest(g.Value(), ensemble, lens, poids, de, ds)
      decreases |ensemble|
    {
      var pass := RunPass(ensemble, lens, poids);
      if pass.Crash? {
        return Crash(pass.error);
      }
      RemovePaths(g, pass.value.batch, de, ds);
      ensemble := pass.value.left;
    }
    r := Ok(ensemble);
  }

  // ----- What the first pass does -----

  /** Positions `i` where `poids_moyen[i] < taille_max`. */
  function LightMask(poids: seq<Ratio>): seq<bool>
    requires |poids| > 0
  {
    var m := MaxRatio(poids);
    seq(|poids|, i requires 0 <= i < |poids| => Below(poids[i], m))
  }

  /** No average exceeds the maximum, so each is either equal to it or below it, never both. */
  lemma MasksComplement(poids: seq<Ratio>)
    requires |poids| > 0
    ensures |HeavyMask(poids)| == |LightMask(poids)| == |poids|
    ensures forall i :: 0 <= i < |poids| ==> LightMask(poids)[i] == !HeavyMask(poids)[i]
  {
    var m := MaxRatio(poids);
    forall i | 0 <= i < |poids| ensures LightMask(poids)[i] == !HeavyMask(poids)[i] {
      assert !Below(m, poids[i]);
    }
  }

  lemma PickLast<T>(s: seq<T>, keep: seq<bool>)
    requires 0 < |s| <= |keep|
    ensures Pick(s, keep) == if keep[|s| - 1] then Pick(DropLast(s), keep) + [Last(s)] else Pick(DropLast(s), keep)
  {
    assert Pick(DropLast(s), keep) + [] == Pick(DropLast(s), keep);
  }

  lemma {:induction false} PickMembers<T>(s: seq<T>, keep: seq<bool>, x: T)
    requires |s| <= |keep|
    ensures x in Pick(s, keep) <==> exists i :: 0 <= i < |s| && keep[i] && s[i] == x
  {
    if s != [] {
      SplitLast(s);
      PickLast(s, keep);
      PickMembers(DropLast(s), keep, x);
      if x in Pick(s, keep) && x !in Pick(DropLast(s), keep) {
        assert keep[|s| - 1] && s[|s| - 1] == x;
      }
      if exists i :: 0 <= i < |s| && keep[i] && s[i] == x {
        var i :| 0 <= i < |s| && keep[i] && s[i] == x;
        if i < |s| - 1 {
          assert DropLast(s)[i] == x;
        }
      }
    }
  }

  /** `remove` of an element found before the last position leaves the last one where it is. */
  lemma {:induction false} RemoveFirstSnoc<T>(s: seq<T>, x: T, y: T)
    requires y in s
    ensures RemoveFirst(s + [x], y) == RemoveFirst(s, y) + [x]
  {
    assert (s + [x])[0] == s[0];
    assert (s + [x])[1..] == s[1..] + [x];
    if s[0] != y {
      assert s == [s[0]] + s[1..];
      RemoveFirstSnoc(s[1..], x, y);
    }
  }

  /** `remove` of an element found only in the last position drops that position. */
  lemma {:induction false} RemoveFirstLast<T>(t: seq<T>, x: T)
    requires x !in t
    ensures RemoveFirst(t + [x], x) == t
  {
    if t != [] {
      assert (t + [x])[0] == t[0];
      assert (t + [x])[1..] == t[1..] + [x];
      assert t == [t[0]] + t[1..];
      RemoveFirstLast(t[1..], x);
    }
  }

  /** An element appended to the list is not touched by removals that succeed without it. */
  lemma {:induction false} RemoveEachSnoc<T>(s: seq<T>, xs: seq<T>, x: T)
    requires RemoveEach(s, xs).Ok?
    ensures RemoveEach(s + [x], xs) == Ok(RemoveEach(s, xs).value + [x])
  {
    if xs != [] {
      var o, y := DropLast(xs), Last(xs);
      RemoveEachSnoc(s, o, x);
      var t := RemoveEach(s, o).value;
      RemoveFirstSnoc(t, x, y);
    }
  }

  /** The same, for the last element of `s`. */
  lemma RemoveEachLast<T>(s: seq<T>, xs: seq<T>)
    requires |s| > 0 && RemoveEach(DropLast(s), xs).Ok?
    ensures RemoveEach(s, xs) == Ok(RemoveEach(DropLast(s), xs).value + [Last(s)])
  {
    SplitLast(s);
    RemoveEachSnoc(DropLast(s), xs, Last(s));
  }

  /** One more `remove`, at the end of the batch. */
  lemma RemoveEachOneMore<T>(s: seq<T>, xs: seq<T>, y: T)
    requires RemoveEach(s, xs).Ok? && y in RemoveEach(s, xs).value
    ensures RemoveEach(s, xs + [y]) == Ok(RemoveFirst(RemoveEach(s, xs).value, y))
  {
    assert DropLast(xs + [y]) == xs && Last(xs + [y]) == y;
  }

  /** Only elements of `s` are picked. */
  lemma {:induction false} PickIn<T>(s: seq<T>, keep: seq<bool>, x: T)
    requires |s| <= |keep| && x in Pick(s, keep)
    ensures x in s
  {
    SplitLast(s);
    PickLast(s, keep);
    if x in Pick(DropLast(s), keep) {
      PickIn(DropLast(s), keep, x);
    }
  }

  /** The picked elements are a sub-multiset of the list, so removing them never fails. */
  lemma {:induction false} PickMultiset<T>(s: seq<T>, keep: seq<bool>)
    requires |s| <= |keep|
    ensures multiset(Pick(s, keep)) <= multiset(s)
  {
    if s != [] {
      MultisetSnoc(s);
      PickLast(s, keep);
      PickMultiset(DropLast(s), keep);
    }
  }

  lemma {:induction false} PickNone<T>(s: seq<T>, keep: seq<bool>)
    requires |s| <= |keep|
    ensures Pick(s, keep) == [] <==> forall j :: 0 <= j < |s| ==> !keep[j]
  {
    if s != [] {
      PickLast(s, keep);
      PickNone(DropLast(s), keep);
    }
  }

  /** Exactly one position among the first `n` of the mask is set. */
  ghost predicate OneSet(keep: seq<bool>, n: nat)
    requires n <= |keep|
  {
    exists i :: 0 <= i < n && keep[i] && forall j :: 0 <= j < n && j != i ==> !keep[j]
  }

  /** Exactly one element is picked iff exactly one position of the mask is set. */
  lemma {:induction false} PickOne<T>(s: seq<T>, keep: seq<bool>)
    requires |s| <= |keep|
    ensures |Pick(s, keep)| == 1 <==> OneSet(keep, |s|)
  {
    if s != [] {
      var d, n := DropLast(s), |s|;
      PickLast(s, keep);
      PickOne(d, keep);
      assert |d| == n - 1;
      if keep[n - 1] {
        assert |Pick(s, keep)| == |Pick(d, keep)| + 1;
        PickNone(d, keep);
        OneSetLastSet(keep, n);
      } else {
        assert Pick(s, keep) == Pick(d, keep);
        OneSetLastClear(keep, n);
      }
    }
  }

  /** When position `n - 1` is set, it is the only one iff none before it is. */
  lemma OneSetLastSet(keep: seq<bool>, n: nat)
    requires 0 < n <= |keep| && keep[n - 1]
    ensures OneSet(keep, n) <==> forall j :: 0 <= j < n - 1 ==> !keep[j]
  {
    if OneSet(keep, n) {
      var i :| 0 <= i < n && keep[i] && forall j :: 0 <= j < n && j != i ==> !keep[j];
      assert i == n - 1;
    }
    if forall j :: 0 <= j < n - 1 ==> !keep[j] {
      assert forall j :: 0 <= j < n && j != n - 1 ==> !keep[j];
    }
  }

  /** When position `n - 1` is clear, the set position, if unique, comes before it. */
  lemma OneSetLastClear(keep: seq<bool>, n: nat)
    requires 0 < n <= |keep| && !keep[n - 1]
    ensures OneSet(keep, n) <==> OneSet(keep, n - 1)
  {
    if OneSet(keep, n) {
      var i :| 0 <= i < n && keep[i] && forall j :: 0 <= j < n && j != i ==> !keep[j];
      assert i < n - 1 && forall j :: 0 <= j < n - 1 && j != i ==> !keep[j];
    }
    if OneSet(keep, n - 1) {
      var i :| 0 <= i < n - 1 && keep[i] && forall j :: 0 <= j < n - 1 && j != i ==> !keep[j];
      assert forall j :: 0 <= j < n && j != i ==> !keep[j];
    }
  }

  /** The only picked element is the one at the only set position. */
  lemma PickOnly<T>(s: seq<T>, keep: seq<bool>, i: nat)
    requires |s| <= |keep| && i < |s| && keep[i] && forall j :: 0 <= j < |s| && j != i ==> !keep[j]
    ensures Pick(s, keep) == [s[i]]
  {
    PickOne(s, keep);
    assert OneSet(keep, |s|);
    var r := Pick(s, keep);
    PickMembers(s, keep, r[0]);
    assert r[0] in r;
  }

  /** `SingleLongest` read on the mask of `LongMask`. */
  lemma SingleLongestMask(lens: seq<int>, n: nat)
    requires 0 < |lens| && n <= |lens|
    ensures SingleLongest(lens, n) <==> OneSet(LongMask(lens), n)
  {
    var mask, m := LongMask(lens), MaxInt(lens);
    assert forall j :: 0 <= j < n ==> (mask[j] <==> lens[j] == m);
    if SingleLongest(lens, n) {
      var i :| 0 <= i < n && lens[i] == m && forall j :: 0 <= j < n && j != i ==> lens[j] != m;
      assert mask[i] && forall j :: 0 <= j < n && j != i ==> !mask[j];
    }
    if OneSet(mask, n) {
      var i :| 0 <= i < n && mask[i] && forall j :: 0 <= j < n && j != i ==> !mask[j];
      assert lens[i] == m && forall j :: 0 <= j < n && j != i ==> lens[j] != m;
    }
  }

  /** The length tie-break, on the mask: one longest position among the first `|fort|` picks
      exactly that path, and the removal then leaves `fort` without it. */
  lemma LongestPick(fort: seq<Path>, lens: seq<int>)
    requires 0 < |lens| && |fort| <= |lens|
    ensures RemoveEach(fort, Pick(fort, LongMask(lens))).Ok?
    ensures |Pick(fort, LongMask(lens))| == 1 <==> SingleLongest(lens, |fort|)
    ensures |Pick(fort, LongMask(lens))| == 1 ==>
      (exists i :: 0 <= i < |fort| && lens[i] == MaxInt(lens) &&
                   RemoveEach(fort, Pick(fort, LongMask(lens))) == Ok(RemoveFirst(fort, fort[i])))
  {
    var mask := LongMask(lens);
    PickMultiset(fort, mask);
    PickOne(fort, mask);
    SingleLongestMask(lens, |fort|);
    if |Pick(fort, mask)| == 1 {
      var i :| 0 <= i < |fort| && mask[i] && forall j :: 0 <= j < |fort| && j != i ==> !mask[j];
      LongestOnly(fort, lens, i);
    }
  }

  lemma LongestOnly(fort: seq<Path>, lens: seq<int>, i: nat)
    requires 0 < |lens| && |fort| <= |lens| && i < |fort|
    requires LongMask(lens)[i] && forall j :: 0 <= j < |fort| && j != i ==> !LongMask(lens)[j]
    ensures lens[i] == MaxInt(lens)
    ensures RemoveEach(fort, Pick(fort, LongMask(lens))) == Ok(RemoveFirst(fort, fort[i]))
  {
    PickOnly(fort, LongMask(lens), i);
    RemoveOne(fort, fort[i]);
  }

  /** Removing the appended element itself, after removals that succeed without it. */
  lemma RemoveEachTail<T>(s: seq<T>, xs: seq<T>, rest: seq<T>)
    requires |s| > 0 && RemoveEach(DropLast(s), xs) == Ok(rest) && Last(s) !in rest
    ensures RemoveEach(s, xs + [Last(s)]) == Ok(rest)
  {
    RemoveEachLast(s, xs);
    RemoveEachOneMore(s, xs, Last(s));
    RemoveFirstLast(rest, Last(s));
  }

  /** The last element of `s` was picked: the last `remove` takes it off the end. */
  lemma PickComplementKept<T>(s: seq<T>, keep: seq<bool>, drop: seq<bool>)
    requires |s| > 0 && |s| <= |keep| == |drop| && keep[|s| - 1] && !drop[|s| - 1]
    requires Last(s) !in DropLast(s)
    requires RemoveEach(DropLast(s), Pick(DropLast(s), keep)) == Ok(Pick(DropLast(s), drop))
    ensures RemoveEach(s, Pick(s, keep)) == Ok(Pick(s, drop))
  {
    KeptLast(s, keep, drop);
    RemoveEachTail(s, Pick(DropLast(s), keep), Pick(DropLast(s), drop));
  }

  lemma KeptLast<T>(s: seq<T>, keep: seq<bool>, drop: seq<bool>)
    requires |s| > 0 && |s| <= |keep| == |drop| && keep[|s| - 1] && !drop[|s| - 1]
    requires Last(s) !in DropLast(s)
    ensures Pick(s, keep) == Pick(DropLast(s), keep) + [Last(s)] && Pick(s, drop) == Pick(DropLast(s), drop)
    ensures Last(s) !in Pick(DropLast(s), drop)
  {
    PickLast(s, keep);
    PickLast(s, drop);
    if Last(s) in Pick(DropLast(s), drop) {
      PickIn(DropLast(s), drop, Last(s));
    }
  }

  /** The last element of `s` was not picked: it stays at the end. */
  lemma PickComplementDropped<T>(s: seq<T>, keep: seq<bool>, drop: seq<bool>)
    requires |s| > 0 && |s| <= |keep| == |drop| && !keep[|s| - 1] && drop[|s| - 1]
    requires RemoveEach(DropLast(s), Pick(DropLast(s), keep)) == Ok(Pick(DropLast(s), drop))
    ensures RemoveEach(s, Pick(s, keep)) == Ok(Pick(s, drop))
  {
    PickLast(s, keep);
    PickLast(s, drop);
    RemoveEachLast(s, Pick(DropLast(s), keep));
  }

  /** Removing from a list without repeats the elements picked by a mask never fails, and leaves
      exactly the elements picked by the complementary mask, in their order. */
  lemma {:induction false} PickComplement<T>(s: seq<T>, keep: seq<bool>, drop: seq<bool>)
    requires Distinct(s) && |s| <= |keep| == |drop|
    requires forall i :: 0 <= i < |keep| ==> drop[i] == !keep[i]
    ensures RemoveEach(s, Pick(s, keep)) == Ok(Pick(s, drop))
  {
    if s != [] {
      DistinctSplit(s);
      PickComplement(DropLast(s), keep, drop);
      if keep[|s| - 1] {
        PickComplementKept(s, keep, drop);
      } else {
        PickComplementDropped(s, keep, drop);
      }
    }
  }

  /** The candidates whose average is below the maximum of all averages, in their order. */
  function Lighter(cs: seq<Path>, poids: seq<Ratio>): (r: seq<Path>)
    requires 0 < |cs| <= |poids|
    ensures forall x :: x in r <==>
      exists i :: 0 <= i < |cs| && cs[i] == x && Below(poids[i], MaxRatio(poids))
  {
    var mask, m := LightMask(poids), MaxRatio(poids);
    var r := Pick(cs, mask);
    forall x ensures x in r <==> exists i :: 0 <= i < |cs| && cs[i] == x && Below(poids[i], m) {
      PickMembers(cs, mask, x);
      if x in r {
        var i :| 0 <= i < |cs| && mask[i] && cs[i] == x;
        assert Below(poids[i], m);
      }
      if exists i :: 0 <= i < |cs| && cs[i] == x && Below(poids[i], m) {
        var i :| 0 <= i < |cs| && cs[i] == x && Below(poids[i], m);
        assert mask[i];
      }
    }
    r
  }

  /** A pass with a single heaviest candidate removes all the others. */
  lemma SinglePass(cs: seq<Path>, lens: seq<int>, poids: seq<Ratio>, rest: seq<Path>)
    requires 0 < |cs| <= |poids| && |Pick(cs, HeavyMask(poids))| == 1
    requires RemoveEach(cs, Pick(cs, HeavyMask(poids))) == Ok(rest)
    ensures SelectPass(cs, lens, poids) == Ok(Pass(rest, rest))
  {
  }

  /** The first pass of lines 150-160 on candidates without repeats (as `nx.all_simple_paths`
      lists them): no `remove` fails, what is left of the list is exactly the lighter candidates,
      in their order, and with a single heaviest candidate that is also the batch handed to
      `remove_paths`. */
  lemma FirstPass(cs: seq<Path>, lens: seq<int>, poids: seq<Ratio>)
    requires Distinct(cs) && 0 < |cs| <= |poids|
    ensures RemoveEach(cs, Pick(cs, HeavyMask(poids))) == Ok(Lighter(cs, poids))
    ensures |Pick(cs, HeavyMask(poids))| == 1 ==>
      SelectPass(cs, lens, poids) == Ok(Pass(Lighter(cs, poids), Lighter(cs, poids)))
  {
    MasksComplement(poids);
    PickComplement(cs, HeavyMask(poids), LightMask(poids));
    if |Pick(cs, HeavyMask(poids))| == 1 {
      SinglePass(cs, lens, poids, Lighter(cs, poids));
    }
  }

  // ----- Small cases -----

  /** One pass of the loop, then the rest of the loop on the shrunken list and the edited graph. */
  lemma SelectBestStep(g: Graph, cs: seq<Path>, lens: seq<int>, poids: seq<Ratio>, de: bool, ds: bool)
    requires |cs| > 1
    ensures SelectPass(cs, lens, poids).Crash? ==>
      SelectBest(g, cs, lens, poids, de, ds) == Crash(SelectPass(cs, lens, poids).error)
    ensures SelectPass(cs, lens, poids).Ok? ==> var p := SelectPass(cs, lens, poids).value;
      SelectBest(g, cs, lens, poids, de, ds) == SelectBest(RemovePathsSpec(g, p.batch, de, ds), p.left, lens, poids, de, ds)
  {
  }

  lemma MaxRatioPair(pa: Ratio, pb: Ratio)
    ensures MaxRatio([pa, pb]) == if Below(pa, pb) then pb else pa
  {
    assert DropLast([pa, pb]) == [pa] && Last([pa, pb]) == pb;
  }

  lemma MaxIntPair(la: int, lb: int)
    ensures MaxInt([la, lb]) == if la < lb then lb else la
  {
    assert DropLast([la, lb]) == [la] && Last([la, lb]) == lb;
  }

  lemma LongPair(la: int, lb: int)
    ensures LongMask([la, lb]) == [lb <= la, la <= lb]
  {
    MaxIntPair(la, lb);
  }

  lemma HeavyPair(pa: Ratio, pb: Ratio)
    ensures HeavyMask([pa, pb]) == [!Below(pa, pb), !Below(pb, pa)]
  {
    MaxRatioPair(pa, pb);
  }

  lemma PickPair<T>(a: T, b: T, keep: seq<bool>)
    requires |keep| >= 2
    ensures Pick([a, b], keep) == (if keep[0] then [a] else []) + (if keep[1] then [b] else [])
  {
    assert DropLast([a, b]) == [a] && Last([a, b]) == b;
    assert DropLast([a]) == [] && Last([a]) == a;
  }

  lemma RemoveOne<T>(s: seq<T>, x: T)
    requires x in s
    ensures RemoveEach(s, [x]) == Ok(RemoveFirst(s, x))
  {
    assert DropLast([x]) == [] && Last([x]) == x;
  }

  /** The removals a pass on two distinct candidates can make. */
  lemma RemovePair<T>(a: T, b: T)
    requires a != b
    ensures RemoveEach([a, b], [a]) == Ok([b]) && RemoveEach([a, b], [b]) == Ok([a])
    ensures RemoveEach([a, b], [a, b]) == Ok([])
  {
    assert [a, b][1..] == [b];
    assert [b][1..] == [];
    RemoveOne([a, b], a);
    RemoveOne([a, b], b);
    assert RemoveFirst([a, b], b) == [a] + RemoveFirst([b], b);
    assert [a] + [] == [a];
    RemoveEachOneMore([a, b], [a], b);
    assert [a] + [b] == [a, b];
  }

  /** Two candidates of different average: the pass keeps the heavier and removes the lighter. */
  lemma ByWeightPass(a: Path, b: Path, lens: seq<int>, poids: seq<Ratio>, first: bool)
    requires |poids| == 2 && HeavyMask(poids) == [first, !first] && a != b
    ensures var lighter := if first then b else a;
      SelectPass([a, b], lens, poids) == Ok(Pass([lighter], [lighter]))
  {
    PickPair(a, b, HeavyMask(poids));
    RemovePair(a, b);
    var lighter := if first then b else a;
    SinglePass([a, b], lens, poids, [lighter]);
  }

  /** Two candidates of different average: the lighter one is removed (which end nodes go is
      the caller's choice), and the caller's list is left holding only the lighter one. */
  lemma TwoCandidatesByWeight(g: Graph, a: Path, b: Path, lens: seq<int>, pa: Ratio, pb: Ratio, de: bool, ds: bool)
    requires a != b && !Same(pa, pb)
    ensures var lighter := if Below(pa, pb) then a else b;
      SelectBest(g, [a, b], lens, [pa, pb], de, ds) == Ok((RemovePathsSpec(g, [lighter], de, ds), [lighter]))
  {
    HeavyPair(pa, pb);
    ByWeightPass(a, b, lens, [pa, pb], !Below(pa, pb));
    SelectBestStep(g, [a, b], lens, [pa, pb], de, ds);
  }

  /** Two candidates of different lengths: the tie-break keeps the longer. */
  lemma LongestPair(a: Path, b: Path, la: int, lb: int)
    requires a != b && la != lb
    ensures LongestOf([a, b], [], [la, lb]) == Ok(Pass([], [if la < lb then a else b]))
  {
    var shorter, longer := if la < lb then a else b, if la < lb then b else a;
    var lens, k := [la, lb], if la < lb then 1 else 0;
    SingleLongestPair(la, lb);
    var r := LongestOf([a, b], [], lens);
    var i :| 0 <= i < 2 && lens[i] == MaxInt(lens) && r.value.batch == RemoveFirst([a, b], [a, b][i]) + [];
    assert i == k && [a, b][i] == longer;
    RemoveShorter(a, b, longer, shorter);
  }

  lemma SingleLongestPair(la: int, lb: int)
    requires la != lb
    ensures SingleLongest([la, lb], 2)
    ensures forall i :: 0 <= i < 2 && [la, lb][i] == MaxInt([la, lb]) ==> i == if la < lb then 1 else 0
  {
    var lens, k := [la, lb], if la < lb then 1 else 0;
    MaxIntPair(la, lb);
    assert lens[k] == MaxInt(lens) && forall j :: 0 <= j < 2 && j != k ==> lens[j] != MaxInt(lens);
  }

  lemma RemoveShorter(a: Path, b: Path, longer: Path, shorter: Path)
    requires a != b && ((longer == a && shorter == b) || (longer == b && shorter == a))
    ensures RemoveFirst([a, b], longer) + [] == [shorter]
  {
    RemovePair(a, b);
    RemoveOne([a, b], longer);
  }

  /** Two candidates of equal average and different lengths: the pass keeps the longer. */
  lemma ByLengthPass(a: Path, b: Path, la: int, lb: int, poids: seq<Ratio>)
    requires |poids| == 2 && HeavyMask(poids) == [true, true] && a != b && la != lb
    ensures SelectPass([a, b], [la, lb], poids) == Ok(Pass([], [if la < lb then a else b]))
  {
    BothHeavyPass(a, b, [la, lb], poids);
    LongestPair(a, b, la, lb);
  }

  /** Both candidates among the heaviest: the pass is the tie-break by length over both. */
  lemma BothHeavyPass(a: Path, b: Path, lens: seq<int>, poids: seq<Ratio>)
    requires |poids| == 2 && HeavyMask(poids) == [true, true] && a != b
    ensures SelectPass([a, b], lens, poids) == LongestOf([a, b], [], lens)
  {
    PickPair(a, b, HeavyMask(poids));
    RemovePair(a, b);
    assert Pick([a, b], HeavyMask(poids)) == [a, b];
    assert RemoveEach([a, b], [a, b]) == Ok([]);
  }

  /** Two candidates of equal average and different length: the shorter one is removed, and the
      caller's list is left empty. */
  lemma TwoCandidatesByLength(g: Graph, a: Path, b: Path, la: int, lb: int, pa: Ratio, pb: Ratio, de: bool, ds: bool)
    requires a != b && Same(pa, pb) && la != lb
    ensures var shorter := if la < lb then a else b;
      SelectBest(g, [a, b], [la, lb], [pa, pb], de, ds) == Ok((RemovePathsSpec(g, [shorter], de, ds), []))
  {
    HeavyPair(pa, pb);
    ByLengthPass(a, b, la, lb, [pa, pb]);
    SelectBestStep(g, [a, b], [la, lb], [pa, pb], de, ds);
  }

  /** Two candidates of equal average and equal length reach `random.seed`: `NameError`. */
  lemma TwoCandidatesTie(g: Graph, a: Path, b: Path, la: int, lb: int, pa: Ratio, pb: Ratio, de: bool, ds: bool)
    requires a != b && Same(pa, pb) && la == lb
    ensures SelectBest(g, [a, b], [la, lb], [pa, pb], de, ds) == Crash(NameError)
  {
    HeavyPair(pa, pb);
    BothHeavyPass(a, b, [la, lb], [pa, pb]);
    TieLongest(a, b, la);
    SelectBestStep(g, [a, b], [la, lb], [pa, pb], de, ds);
  }

  /** Two paths of the same length: no single longest one, so the tie-break reaches `random`. */
  lemma TieLongest(a: Path, b: Path, l: int)
    ensures LongestOf([a, b], [], [l, l]) == Crash(NameError)
  {
    var lens := [l, l];
    MaxIntPair(l, l);
    assert lens[0] == MaxInt(lens) && lens[1] == MaxInt(lens);
  }

  lemma HeavyTriple(pa: Ratio, pb: Ratio, pc: Ratio)
    requires Below(pa, pc) && Below(pb, pc)
    ensures HeavyMask([pa, pb, pc]) == [false, false, true]
  {
    var m := MaxRatio([pa, pb, pc]);
    assert !Below(m, pc) by {
      assert [pa, pb, pc][2] == pc;
    }
  }

  lemma PickTriple<T>(a: T, b: T, c: T)
    ensures Pick([a, b, c], [false, false, true]) == [c]
    ensures Pick([a, b], [false, false, true]) == []
  {
    var m := [false, false, true];
    assert DropLast([a, b, c]) == [a, b] && Last([a, b, c]) == c;
    assert DropLast([a, b]) == [a] && DropLast([a]) == [];
    assert Pick([a], m) == [];
    assert Pick([a, b], m) == [];
    assert Pick([a, b, c], m) == [] + [c];
  }

  lemma RemoveThird<T>(a: T, b: T, c: T)
    requires a != c && b != c
    ensures RemoveEach([a, b, c], [c]) == Ok([a, b])
  {
    RemoveAppended([a, b], c);
    assert [a, b] + [c] == [a, b, c];
  }

  lemma RemoveAppended<T>(t: seq<T>, c: T)
    requires c !in t
    ensures RemoveEach(t + [c], [c]) == Ok(t)
  {
    RemoveFirstLast(t, c);
    RemoveOne(t + [c], c);
  }

  /** A pass with no heaviest candidate at all (possible only after the first pass) reaches `random.seed`. */
  lemma EmptyPass(cs: seq<Path>, lens: seq<int>, poids: seq<Ratio>)
    requires 0 < |cs| <= |poids| && Pick(cs, HeavyMask(poids)) == [] && |lens| > 0
    ensures SelectPass(cs, lens, poids) == Crash(NameError)
  {
    var none: seq<Path> := [];
    assert Pick(none, LongMask(lens)) == [];
  }

  /** The run of the loop on three candidates once the averages make only the last one heaviest. */
  lemma HeaviestLastByMask(g: Graph, a: Path, b: Path, c: Path, lens: seq<int>, poids: seq<Ratio>, de: bool, ds: bool)
    requires |poids| == 3 && HeavyMask(poids) == [false, false, true]
    requires a != c && b != c && |lens| > 0
    ensures SelectBest(g, [a, b, c], lens, poids, de, ds) == Crash(NameError)
  {
    PickTriple(a, b, c);
    RemoveThird(a, b, c);
    SinglePass([a, b, c], lens, poids, [a, b]);
    SelectBestStep(g, [a, b, c], lens, poids, de, ds);
    EmptyPass([a, b], lens, poids);
    SelectBestStep(RemovePathsSpec(g, [a, b], de, ds), [a, b], lens, poids, de, ds);
  }

  /** Three candidates whose heaviest comes last: the first pass removes the two lighter ones, and
      the second pass reads the averages by position in the shrunken list, finds no heaviest
      candidate among the first two, and reaches `random.seed`: `NameError`. */
  lemma ThreeCandidatesHeaviestLast(g: Graph, a: Path, b: Path, c: Path, lens: seq<int>,
                                    pa: Ratio, pb: Ratio, pc: Ratio, de: bool, ds: bool)
    requires a != c && b != c && Below(pa, pc) && Below(pb, pc) && |lens| > 0
    ensures SelectBest(g, [a, b, c], lens, [pa, pb, pc], de, ds) == Crash(NameError)
  {
    HeavyTriple(pa, pb, pc);
    HeaviestLastByMask(g, a, b, c, lens, [pa, pb, pc], de, ds);
  }
}
