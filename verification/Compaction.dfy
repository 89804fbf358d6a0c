/** Merging directory subtrees of equal score: compactSearchHits of search/prefix_index.go. */
module Compaction {
  import opened Order
  import opened Text

  /** A float32 score: a count of matched prefixes, or positive infinity for queries without words. */
  datatype Score = Finite(points: int) | Infinite

  function CompareScore(a: Score, b: Score): int {
    match (a, b)
    case (Finite(x), Finite(y)) => CompareInt(x, y)
    case (Finite(_), Infinite) => -1
    case (Infinite, Finite(_)) => 1
    case (Infinite, Infinite) => 0
  }

  datatype Hit = Hit(path: string, isDir: bool, size: int, modTime: int, score: Score)

  /** Higher scores first, then paths in byte order. */
  function CompareHits(a: Hit, b: Hit): int {
    var v := CompareScore(a.score, b.score);
    if v != 0 then -v else Compare(a.path, b.path)
  }

  /** A directory hit of the same score whose path is a prefix. */
  predicate Above(d: Hit, h: Hit) {
    d.isDir && d.score == h.score && d.path <= h.path
  }

  ghost predicate DistinctPaths(hits: seq<Hit>) {
    forall i, j :: 0 <= i < j < |hits| ==> hits[i].path != hits[j].path
  }

  // ------------------------------------------------------------------ the one-pass fold

  predicate CoveredBefore(s: seq<Hit>, k: nat)
    requires k < |s|
  {
    exists i | 0 <= i < k :: Above(s[i], s[k])
  }

  /** Among the first `k` hits of `s`, those that no earlier hit covers. */
  function Survivors(s: seq<Hit>, k: nat): seq<Hit>
    requires k <= |s|
  {
    if k == 0 then []
    else Survivors(s, k - 1) + if CoveredBefore(s, k - 1) then [] else [s[k - 1]]
  }

  function Compact(hits: seq<Hit>): seq<Hit> {
    var s := SortBy(CompareHits, hits);
    Survivors(s, |s|)
  }

  /** The position of the last survivor among the first `k` hits. */
  ghost function LastKept(s: seq<Hit>, k: nat): (l: nat)
    requires 0 < k <= |s|
    ensures l < k && !CoveredBefore(s, l)
    ensures forall i :: l < i < k ==> CoveredBefore(s, i)
  {
    if CoveredBefore(s, k - 1) then LastKept(s, k - 1) else k - 1
  }

  lemma {:induction false} LastSurvivor(s: seq<Hit>, k: nat)
    requires 0 < k <= |s|
    ensures var r := Survivors(s, k); |r| > 0 && r[|r| - 1] == s[LastKept(s, k)]
  {
    if CoveredBefore(s, k - 1) { LastSurvivor(s, k - 1); }
  }

  lemma HitsAreOrdered(s: seq<Hit>)
    ensures WeakOrderOn(CompareHits, s)
  {
    forall x, y, z | CompareHits(x, y) <= 0 && CompareHits(y, z) <= 0 ensures CompareHits(x, z) <= 0 {
      CharsAreOrdered();
      if x.score == y.score && y.score == z.score { LexTransitive(CompareChar, x.path, y.path, z.path); }
    }
    forall x, y ensures CompareHits(x, y) < 0 <==> CompareHits(y, x) > 0 {
      CharsAreOrdered();
      LexAntisymmetric(CompareChar, x.path, y.path);
    }
  }

  /** Between a directory and a hit below it, with the same score, there are only hits below it. */
  lemma BetweenIsBelow(d: Hit, m: Hit, h: Hit)
    requires Above(d, h) && CompareHits(d, m) <= 0 && CompareHits(m, h) <= 0
    ensures Above(d, m)
  {
    CharsAreOrdered();
    assert d.score == m.score;
    PrefixContiguous(CompareChar, d.path, m.path, h.path);
  }

  /** If any earlier hit covers a hit, the last survivor before it does. */
  lemma {:induction false} CoverIsLast(s: seq<Hit>, k: nat, i: nat)
    requires Sorted(CompareHits, s) && i < k < |s| && Above(s[i], s[k])
    ensures Above(s[LastKept(s, k)], s[k])
    decreases i
  {
    var l := LastKept(s, k);
    if i < l {
      BetweenIsBelow(s[i], s[l], s[k]);
      assert false;
    } else if i > l {
      assert CoveredBefore(s, i);
      var j :| 0 <= j < i && Above(s[j], s[i]);
      CoverIsLast(s, k, j);
    }
  }

  lemma GreedyDecides(s: seq<Hit>, k: nat)
    requires Sorted(CompareHits, s) && 0 < k < |s|
    ensures CoveredBefore(s, k) <==> Above(s[LastKept(s, k)], s[k])
  {
    if CoveredBefore(s, k) {
      var i :| 0 <= i < k && Above(s[i], s[k]);
      CoverIsLast(s, k, i);
    }
  }

  /** The pass over the sorted hits, which looks only at the last hit kept. */
  method Fold(s: seq<Hit>) returns (res: seq<Hit>)
    requires Sorted(CompareHits, s) && |s| > 0
    ensures res == Survivors(s, |s|)
  {
    res := [s[0]];
    assert Survivors(s, 1) == Survivors(s, 0) + [s[0]];
    for i := 1 to |s|
      invariant res == Survivors(s, i)
    {
      LastSurvivor(s, i);
      GreedyDecides(s, i);
      var last := res[|res| - 1];
      if last.isDir && s[i].score == last.score && last.path <= s[i].path {
        continue;
      }
      res := res + [s[i]];
    }
  }

  method CompactSearchHits(hits: seq<Hit>) returns (res: seq<Hit>)
    ensures res == Compact(hits)
  {
    if |hits| == 0 {
      return hits;
    }
    HitsAreOrdered(hits);
    SortBySorted(CompareHits, hits);
    SortByPermutes(CompareHits, hits);
    Permutation(SortBy(CompareHits, hits), hits);
    res := Fold(SortBy(CompareHits, hits));
  }

  // ------------------------------------------------------------------ what is kept

  /** Some other directory hit of the same score is above. */
  ghost predicate Covered(hits: seq<Hit>, h: Hit) {
    exists d :: d in hits && d != h && Above(d, h)
  }

  lemma {:induction false} InSurvivors(s: seq<Hit>, k: nat, h: Hit)
    requires k <= |s|
    ensures h in Survivors(s, k) <==> exists i :: 0 <= i < k && s[i] == h && !CoveredBefore(s, i)
  {
    if k > 0 {
      InSurvivors(s, k - 1, h);
    }
  }

  lemma {:induction false} SurvivorsSorted(s: seq<Hit>, k: nat)
    requires k <= |s| && Sorted(CompareHits, s) && DistinctPaths(s)
    ensures Sorted(CompareHits, Survivors(s, k)) && DistinctPaths(Survivors(s, k))
  {
    if k > 0 {
      var r := Survivors(s, k - 1);
      SurvivorsSorted(s, k - 1);
      forall i | 0 <= i < |r| ensures CompareHits(r[i], s[k - 1]) <= 0 && r[i].path != s[k - 1].path {
        InSurvivors(s, k - 1, r[i]);
        assert r[i] in r;
        var j :| 0 <= j < k - 1 && s[j] == r[i] && !CoveredBefore(s, j);
      }
    }
  }

  lemma SortedPaths(hits: seq<Hit>)
    requires DistinctPaths(hits)
    ensures var s := SortBy(CompareHits, hits); Sorted(CompareHits, s) && DistinctPaths(s) && SameElements(s, hits)
  {
    var s := SortBy(CompareHits, hits);
    HitsAreOrdered(hits);
    SortBySorted(CompareHits, hits);
    SortByPermutes(CompareHits, hits);
    assert NoDuplicates(hits);
    Permutation(hits, s);
    forall i, j | 0 <= i < j < |s| ensures s[i].path != s[j].path {
      assert s[i] in hits && s[j] in hits && s[i] != s[j];
    }
  }

  /** In a sorted sequence the covering hit, if any, comes earlier. */
  lemma CoverComesFirst(s: seq<Hit>, k: nat)
    requires Sorted(CompareHits, s) && DistinctPaths(s) && k < |s|
    ensures CoveredBefore(s, k) <==> Covered(s, s[k])
  {
    if CoveredBefore(s, k) {
      var i :| 0 <= i < k && Above(s[i], s[k]);
      assert s[i] in s && s[i] != s[k];
    }
    if Covered(s, s[k]) {
      var d :| d in s && d != s[k] && Above(d, s[k]);
      var j :| 0 <= j < |s| && s[j] == d;
      if j > k {
        CharsAreOrdered();
        assert CompareHits(s[k], s[j]) <= 0;
        PrefixIsLess(CompareChar, d.path, s[k].path);
        LexAntisymmetric(CompareChar, d.path, s[k].path);
        LexZero(CompareChar, d.path, s[k].path);
        assert false;
      }
    }
  }

  /** Of hits, some are kept. */
  lemma SomethingIsKept(hits: seq<Hit>)
    requires hits != []
    ensures Compact(hits) != []
  {
    var s := SortBy(CompareHits, hits);
    SortByPermutes(CompareHits, hits);
    Permutation(hits, s);
    LastSurvivor(s, |s|);
  }

  lemma CompactIsPart(hits: seq<Hit>, h: Hit)
    requires h in Compact(hits)
    ensures h in hits
  {
    var s := SortBy(CompareHits, hits);
    SortByPermutes(CompareHits, hits);
    Permutation(s, hits);
    InSurvivors(s, |s|, h);
  }

  /** Exactness: for hits with distinct paths, a hit is kept if and only if no other directory hit of the same
      score is a prefix of its path; the kept hits are in order. */
  lemma CompactIsExact(hits: seq<Hit>)
    requires DistinctPaths(hits)
    ensures forall h :: h in Compact(hits) <==> h in hits && !Covered(hits, h)
    ensures Sorted(CompareHits, Compact(hits)) && DistinctPaths(Compact(hits))
  {
    var s := SortBy(CompareHits, hits);
    SortedPaths(hits);
    SurvivorsSorted(s, |s|);
    forall h ensures h in Compact(hits) <==> h in hits && !Covered(hits, h) {
      InSurvivors(s, |s|, h);
      if h in s {
        var k :| 0 <= k < |s| && s[k] == h;
        CoverComesFirst(s, k);
        assert Covered(s, h) <==> Covered(hits, h);
        assert forall i :: 0 <= i < |s| && s[i] == h ==> i == k;
      }
    }
  }

  lemma DroppedIsBelowKept(s: seq<Hit>, h: Hit)
    requires Sorted(CompareHits, s) && h in s && h !in Survivors(s, |s|)
    ensures exists d :: d in Survivors(s, |s|) && d != h && Above(d, h)
  {
    InSurvivors(s, |s|, h);
    var k :| 0 <= k < |s| && s[k] == h;
    GreedyDecides(s, k);
    var l := LastKept(s, k);
    InSurvivors(s, |s|, s[l]);
    assert s[l] in Survivors(s, |s|);
  }

  /** Every dropped hit has a kept directory above it with the same score. */
  lemma DroppedIsCoveredByKept(hits: seq<Hit>, h: Hit)
    requires DistinctPaths(hits) && h in hits && h !in Compact(hits)
    ensures exists d :: d in Compact(hits) && d != h && Above(d, h)
  {
    SortedPaths(hits);
    DroppedIsBelowKept(SortBy(CompareHits, hits), h);
  }

  /** Two compactions agree as sequences as soon as they keep the same hits. */
  lemma SameKept(a: seq<Hit>, b: seq<Hit>)
    requires DistinctPaths(a) && DistinctPaths(b) && SameElements(a, b)
    requires Sorted(CompareHits, a) && Sorted(CompareHits, b)
    ensures a == b
  {
    HitsAreStrict(a);
    assert NoDuplicates(a) && NoDuplicates(b);
    SortedUnique(CompareHits, a, b);
  }

  lemma HitsAreStrict(a: seq<Hit>)
    requires DistinctPaths(a)
    ensures StrictOrderOn(CompareHits, a)
  {
    HitsAreOrdered(a);
    forall x, y | x in a && y in a && CompareHits(x, y) == 0 ensures x == y {
      CharsAreOrdered();
      LexZero(CompareChar, x.path, y.path);
      var i :| 0 <= i < |a| && a[i] == x;
      var j :| 0 <= j < |a| && a[j] == y;
    }
  }

  /** The order in which the hits arrive does not matter. */
  lemma CompactForgetsOrder(a: seq<Hit>, b: seq<Hit>)
    requires DistinctPaths(a) && DistinctPaths(b) && SameElements(a, b)
    ensures Compact(a) == Compact(b)
  {
    HitsAreStrict(a);
    assert NoDuplicates(a) && NoDuplicates(b);
    SortForgetsOrder(CompareHits, a, b);
  }

  // ------------------------------------------------------------------ compaction and filtering

  function Filter(keep: Hit -> bool, hits: seq<Hit>): seq<Hit> {
    if hits == [] then []
    else (if keep(hits[0]) then [hits[0]] else []) + Filter(keep, hits[1..])
  }

  lemma {:induction false} InFilter(keep: Hit -> bool, hits: seq<Hit>, h: Hit)
    ensures h in Filter(keep, hits) <==> h in hits && keep(h)
  {
    if hits != [] {
      InFilter(keep, hits[1..], h);
      assert hits == [hits[0]] + hits[1..];
    }
  }

  lemma FilterFirst(keep: Hit -> bool, hits: seq<Hit>)
    ensures Filter(keep, []) == []
    ensures hits != [] ==> Filter(keep, hits) == (if keep(hits[0]) then [hits[0]] else []) + Filter(keep, hits[1..])
  {}

  lemma {:induction false} FilterKeepsPaths(keep: Hit -> bool, hits: seq<Hit>)
    requires DistinctPaths(hits)
    ensures DistinctPaths(Filter(keep, hits))
  {
    hide Filter;
    FilterFirst(keep, hits);
    if hits != [] {
      var rest := Filter(keep, hits[1..]);
      FilterKeepsPaths(keep, hits[1..]);
      forall i | 0 <= i < |rest| ensures rest[i] in hits[1..] { InFilter(keep, hits[1..], rest[i]); }
    }
  }

  lemma {:induction false} FilterKeepsSorted(keep: Hit -> bool, hits: seq<Hit>)
    requires Sorted(CompareHits, hits)
    ensures Sorted(CompareHits, Filter(keep, hits))
  {
    hide Filter, CompareHits;
    FilterFirst(keep, hits);
    if hits != [] {
      var rest := Filter(keep, hits[1..]);
      FilterKeepsSorted(keep, hits[1..]);
      forall i | 0 <= i < |rest| ensures rest[i] in hits[1..] { InFilter(keep, hits[1..], rest[i]); }
    }
  }

  lemma FilterKeepsOrder(keep: Hit -> bool, hits: seq<Hit>)
    ensures DistinctPaths(hits) ==> DistinctPaths(Filter(keep, hits))
    ensures Sorted(CompareHits, hits) ==> Sorted(CompareHits, Filter(keep, hits))
  {
    hide Filter, CompareHits, DistinctPaths, Sorted;
    if DistinctPaths(hits) { FilterKeepsPaths(keep, hits); }
    if Sorted(CompareHits, hits) { FilterKeepsSorted(keep, hits); }
  }

  /** Whenever a hit passes the filter and some directory above it has its score, such a directory passes too. */
  ghost predicate CoversPass(keep: Hit -> bool, hits: seq<Hit>) {
    forall h :: h in hits && keep(h) && Covered(hits, h) ==> Covered(Filter(keep, hits), h)
  }

  lemma StillCovered(keep: Hit -> bool, hits: seq<Hit>, h: Hit)
    requires Covered(Filter(keep, hits), h)
    ensures Covered(hits, h)
  {
    var d :| d in Filter(keep, hits) && d != h && Above(d, h);
    InFilter(keep, hits, d);
  }

  /** Filtering before and after compaction give the same sequence if and only if the covering directories pass. */
  lemma FilterCommutesIff(keep: Hit -> bool, hits: seq<Hit>)
    requires DistinctPaths(hits)
    ensures Filter(keep, Compact(hits)) == Compact(Filter(keep, hits)) <==> CoversPass(keep, hits)
  {
    var kept := Filter(keep, hits);
    var a, b := Filter(keep, Compact(hits)), Compact(kept);
    FilterKeepsOrder(keep, hits);
    CompactIsExact(hits);
    CompactIsExact(kept);
    FilterKeepsOrder(keep, Compact(hits));
    forall h ensures h in a <==> h in hits && keep(h) && !Covered(hits, h) {
      InFilter(keep, Compact(hits), h);
    }
    forall h ensures h in b <==> h in hits && keep(h) && !Covered(kept, h) {
      InFilter(keep, hits, h);
    }
    if CoversPass(keep, hits) {
      forall h ensures h in a <==> h in b {
        if Covered(kept, h) { StillCovered(keep, hits, h); }
      }
      SameKept(a, b);
    } else {
      var h :| h in hits && keep(h) && Covered(hits, h) && !Covered(kept, h);
      assert h in b && h !in a;
    }
  }

  predicate HasAny(u: Unicode, phrases: seq<string>, path: string) {
    exists w | w in phrases :: Contains(u.Lower(path), w)
  }

  predicate HasAll(u: Unicode, phrases: seq<string>, path: string) {
    forall w | w in phrases :: Contains(u.Lower(path), w)
  }

  /** The filter by exact phrases, and the filter by exclusions. */
  function WithAll(u: Unicode, phrases: seq<string>): Hit -> bool {
    (h: Hit) => HasAll(u, phrases, h.path)
  }

  function WithoutAny(u: Unicode, phrases: seq<string>): Hit -> bool {
    (h: Hit) => !HasAny(u, phrases, h.path)
  }

  /** What a directory's path contains, every path below it contains. */
  lemma ContainedBelow(u: Unicode, dir: string, path: string, w: string)
    requires dir <= path && Contains(u.Lower(dir), w)
    ensures Contains(u.Lower(path), w)
  {
    var rest := u.Lower(path)[|dir|..];
    assert u.Lower(path) == u.Lower(dir) + rest;
    ContainsInExtension(u.Lower(dir), rest, w);
  }

  /** Excluding before or after compaction gives the same hits: a directory that is excluded takes everything
      below it along. */
  lemma ExclusionCommutes(u: Unicode, toExclude: seq<string>, hits: seq<Hit>)
    requires DistinctPaths(hits)
    ensures Filter(WithoutAny(u, toExclude), Compact(hits)) == Compact(Filter(WithoutAny(u, toExclude), hits))
  {
    var keep := WithoutAny(u, toExclude);
    forall h | h in hits && keep(h) && Covered(hits, h) ensures Covered(Filter(keep, hits), h) {
      var d :| d in hits && d != h && Above(d, h);
      if HasAny(u, toExclude, d.path) {
        var w :| w in toExclude && Contains(u.Lower(d.path), w);
        ContainedBelow(u, d.path, h.path, w);
      }
      InFilter(keep, hits, d);
    }
    FilterCommutesIff(keep, hits);
  }

  /** Requiring a phrase does not commute: the phrase may occur only below a directory that is merged away. */
  lemma PhrasesDoNotCommute()
    ensures var hits := [Hit("/a/", true, 0, 0, Finite(1)), Hit("/a/b", false, 0, 0, Finite(1))];
            var keep := WithAll(ASCII, ["b"]);
            DistinctPaths(hits) && Filter(keep, Compact(hits)) != Compact(Filter(keep, hits))
  {
    var dir, file := Hit("/a/", true, 0, 0, Finite(1)), Hit("/a/b", false, 0, 0, Finite(1));
    var hits, keep := [dir, file], WithAll(ASCII, ["b"]);
    AsciiLowerIs("/a/");
    AsciiLowerIs("/a/b");
    ContainsRune("/a/", 'b');
    assert "b" in ["b"] && OccursAt("/a/b", "b", 3);
    OnlyBelowPasses(keep, dir, file);
  }

  lemma OnlyBelowPasses(keep: Hit -> bool, dir: Hit, file: Hit)
    requires Above(dir, file) && dir.path != file.path && keep(file) && !keep(dir)
    ensures Filter(keep, Compact([dir, file])) != Compact(Filter(keep, [dir, file]))
  {
    var hits := [dir, file];
    assert dir in hits && Covered(hits, file);
    forall d | d in Filter(keep, hits) ensures d == file {
      InFilter(keep, hits, d);
    }
    FilterCommutesIff(keep, hits);
    assert file in hits && !Covered(Filter(keep, hits), file);
  }

  lemma EqualPath(d: Hit, h: Hit)
    requires CompareHits(h, d) <= 0 && d.score == h.score && d.path <= h.path
    ensures d.path == h.path
  {
    CharsAreOrdered();
    if d.path != h.path {
      PrefixIsLess(CompareChar, d.path, h.path);
      LexAntisymmetric(CompareChar, d.path, h.path);
      LexZero(CompareChar, d.path, h.path);
    }
  }

  /** What is kept has no other kept directory of its score above it, also if paths are repeated. */
  lemma KeptAreApart(s: seq<Hit>, d: Hit, h: Hit)
    requires Sorted(CompareHits, s) && d in Survivors(s, |s|) && h in Survivors(s, |s|)
    requires d != h && (d.path == h.path ==> d.isDir == h.isDir)
    ensures !Above(d, h)
  {
    hide CompareHits, Above, Survivors;
    InSurvivors(s, |s|, d);
    InSurvivors(s, |s|, h);
    var j: nat :| j < |s| && s[j] == d && !CoveredBefore(s, j);
    var k: nat :| k < |s| && s[k] == h && !CoveredBefore(s, k);
    if Above(d, h) && k < j {
      AboveBothWays(d, h);
    }
  }

  lemma AboveBothWays(d: Hit, h: Hit)
    requires CompareHits(h, d) <= 0 && Above(d, h) && (d.path == h.path ==> d.isDir == h.isDir)
    ensures Above(h, d)
  {
    EqualPath(d, h);
  }

  /** When scores never fall on the way down, and no directory has the path of a file, a hit is shown if and only if its
      score is strictly higher than that of every shown directory above it; paths may be repeated. */
  lemma ShownIffStrictlyBetter(hits: seq<Hit>, h: Hit)
    requires h in hits && forall d, g :: d in hits && g in hits && d.path == g.path ==> d.isDir == g.isDir
    requires forall d, g :: d in hits && g in hits && d.isDir && d.path <= g.path ==>
             CompareScore(d.score, g.score) <= 0
    ensures h in Compact(hits) <==>
            forall d :: d in Compact(hits) && d != h && d.isDir && d.path <= h.path ==>
              CompareScore(d.score, h.score) < 0
  {
    hide Survivors;
    var s := SortBy(CompareHits, hits);
    HitsAreOrdered(hits);
    SortBySorted(CompareHits, hits);
    SortByPermutes(CompareHits, hits);
    Permutation(hits, s);
    if h in Compact(hits) {
      forall d | d in Compact(hits) && d != h && d.isDir && d.path <= h.path
        ensures CompareScore(d.score, h.score) < 0
      {
        InSurvivors(s, |s|, d);
        assert d in hits;
        KeptAreApart(s, d, h);
      }
    } else {
      assert h in s;
      DroppedIsBelowKept(s, h);
    }
  }
}
