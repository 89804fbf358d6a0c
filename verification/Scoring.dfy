/** Which paths a word query matches and how many points they get: the counting of searchByPrefixes in
    search/prefix_index.go, its closed form, and how it behaves down the directory tree. */
module Scoring {
  import opened Text
  import opened Words
  import opened Query

  /** The two lengths of an index. */
  datatype Lengths = Lengths(min: nat, max: int)

  function Gen(u: Unicode, len: Lengths, path: string): seq<string> {
    GeneratePrefixes(u, path, len.min, len.max)
  }

  function CountIn(ps: seq<string>, gen: seq<string>): nat {
    if ps == [] then 0 else (if ps[0] in gen then 1 else 0) + CountIn(ps[1..], gen)
  }

  /** How often the loop over the prefixes of a word increments the counter of a path. */
  function WordPoints(u: Unicode, len: Lengths, w: string, path: string): nat {
    CountIn(Gen(u, len, w), Gen(u, len, path))
  }

  function Points(u: Unicode, len: Lengths, words: seq<string>, path: string): nat {
    if words == [] then 0
    else (if |words[0]| < len.min then 0 else WordPoints(u, len, words[0], path)) + Points(u, len, words[1..], path)
  }

  /** Every word that is long enough matches, and there is one. */
  ghost predicate MatchesAll(u: Unicode, len: Lengths, words: seq<string>, path: string) {
    && (exists w :: w in words && |w| >= len.min)
    && forall w :: w in words && |w| >= len.min ==> WordPoints(u, len, w, path) > 0
  }

  /** A word as the query parser produces it: long enough, and unchanged by splitting it again. */
  ghost predicate NormalWord(u: Unicode, len: Lengths, w: string) {
    |w| >= len.min && Split(u, w, len.min) == [w]
  }

  // ------------------------------------------------------------------ matching means sharing the first runes

  ghost predicate SharesStart(w: string, n: nat, vs: seq<string>)
    requires n <= |w|
  {
    exists v :: v in vs && w[..n] <= v
  }

  lemma {:induction false} CountPositive(ps: seq<string>, gen: seq<string>)
    ensures CountIn(ps, gen) > 0 <==> exists p :: p in ps && p in gen
  {
    if ps != [] {
      CountPositive(ps[1..], gen);
      assert ps == [ps[0]] + ps[1..];
      assert forall p :: p in ps <==> p == ps[0] || p in ps[1..];
    }
  }

  lemma GenOfWord(u: Unicode, len: Lengths, w: string)
    requires NormalWord(u, len, w)
    ensures Gen(u, len, w) == Cuts(w, len.min, len.max)
  {
    hide Cuts;
    assert CutsOf([w], len.min, len.max) == Cuts(w, len.min, len.max) + CutsOf([w][1..], len.min, len.max);
    assert [w][1..] == [];
  }

  /** A word matches a path if and only if its first `min` runes begin a word of the path. */
  lemma MatchIffSharedStart(u: Unicode, len: Lengths, w: string, path: string)
    requires NormalWord(u, len, w)
    ensures WordPoints(u, len, w, path) > 0 <==> len.min <= len.max && SharesStart(w, len.min, Split(u, path, len.min))
  {
    hide Cuts, CutsOf, Split, GeneratePrefixes;
    var vs := Split(u, path, len.min);
    GenOfWord(u, len, w);
    CountPositive(Gen(u, len, w), Gen(u, len, path));
    if WordPoints(u, len, w, path) > 0 {
      var p :| p in Gen(u, len, w) && p in Gen(u, len, path);
      InCuts(w, len.min, len.max, p);
      InGenerated(u, path, len.min, len.max, p);
      var v :| v in vs && p <= v;
      assert w[..len.min] <= v;
    }
    if len.min <= len.max && SharesStart(w, len.min, vs) {
      var p := w[..len.min];
      InCuts(w, len.min, len.max, p);
      InGenerated(u, path, len.min, len.max, p);
    }
  }

  // ------------------------------------------------------------------ closed form of the score

  function Lcp(a: string, b: string): (n: nat)
    ensures n <= |a|
  {
    if a == "" || b == "" || a[0] != b[0] then 0 else 1 + Lcp(a[1..], b[1..])
  }

  /** The longest common prefix of a word with any of the given words. */
  function Best(w: string, vs: seq<string>): (n: nat)
    ensures n <= |w|
  {
    if vs == [] then 0
    else
      var n := Best(w, vs[1..]);
      if Lcp(w, vs[0]) > n then Lcp(w, vs[0]) else n
  }

  function Min(a: int, b: int): int {
    if a < b then a else b
  }

  /** The points of one word, in closed form. */
  function Gain(len: Lengths, w: string, vs: seq<string>): int {
    if vs != [] && len.min <= len.max && Best(w, vs) >= len.min then Min(len.max, Best(w, vs)) - len.min + 1 else 0
  }

  lemma {:induction false} LcpIs(a: string, b: string, n: nat)
    requires n <= |a|
    ensures a[..n] <= b <==> n <= Lcp(a, b)
  {
    if n > 0 && b != "" && a[0] == b[0] {
      LcpIs(a[1..], b[1..], n - 1);
      assert a[..n] == [a[0]] + a[1..][..n - 1] && b == [b[0]] + b[1..];
    } else if n > 0 {
      assert a[..n][0] == a[0];
    }
  }

  lemma {:induction false} BestIs(w: string, vs: seq<string>, n: nat)
    requires n <= |w|
    ensures SharesStart(w, n, vs) <==> vs != [] && n <= Best(w, vs)
  {
    if vs != [] {
      LcpIs(w, vs[0], n);
      BestIs(w, vs[1..], n);
      assert vs[0] in vs;
      assert forall v :: v in vs <==> v == vs[0] || v in vs[1..];
      if vs[1..] == [] { assert w[..0] <= vs[0]; }
    }
  }

  lemma {:induction false} CountCuts(u: Unicode, len: Lengths, w: string, path: string, i: nat)
    requires len.min <= i
    ensures var vs := Split(u, path, len.min);
            var top := Min(len.max, Best(w, vs));
            CountIn(Cuts(w, i, len.max), Gen(u, len, path)) == if vs != [] && top >= i then top - i + 1 else 0
    decreases |w| + 1 - i
  {
    hide Split, GeneratePrefixes, CutsOf, Best;
    var vs := Split(u, path, len.min);
    if i <= len.max && i <= |w| {
      CountCuts(u, len, w, path, i + 1);
      InGenerated(u, path, len.min, len.max, w[..i]);
      BestIs(w, vs, i);
      assert Cuts(w, i, len.max)[1..] == Cuts(w, i + 1, len.max);
    }
  }

  /** One word: the longest common prefix with a word of the path, cut to `max`, counted from `min`. */
  lemma WordPointsClosedForm(u: Unicode, len: Lengths, w: string, path: string)
    requires NormalWord(u, len, w)
    ensures WordPoints(u, len, w, path) == Gain(len, w, Split(u, path, len.min))
  {
    hide Split, GeneratePrefixes, Cuts, Best, CountIn;
    GenOfWord(u, len, w);
    CountCuts(u, len, w, path, len.min);
  }

  /** In other words: a word has a point for each length from `min` on, up to `max` and its own, that it shares with a
      word of the path. */
  lemma PointsCountLengths(u: Unicode, len: Lengths, w: string, path: string, n: nat)
    requires NormalWord(u, len, w) && len.min <= n <= len.max && n <= |w|
    ensures WordPoints(u, len, w, path) > n - len.min <==> SharesStart(w, n, Split(u, path, len.min))
    ensures WordPoints(u, len, w, path) <= Min(len.max, |w|) - len.min + 1
  {
    hide Split, Best, WordPoints, NormalWord;
    WordPointsClosedForm(u, len, w, path);
    BestIs(w, Split(u, path, len.min), n);
    BestIs(w, Split(u, path, len.min), len.min);
  }

  /** The points of a query are those of its words together. */
  lemma {:induction false} PointsAreSummed(u: Unicode, len: Lengths, a: seq<string>, w: string, path: string)
    requires |w| >= len.min
    ensures Points(u, len, [], path) == 0
    ensures Points(u, len, a + [w], path) == Points(u, len, a, path) + WordPoints(u, len, w, path)
  {
    hide WordPoints;
    if a == [] {
      assert [w][1..] == [] && [] + [w] == [w];
    } else {
      PointsAreSummed(u, len, a[1..], w, path);
      assert (a + [w])[1..] == a[1..] + [w];
    }
  }

  function TotalGain(len: Lengths, words: seq<string>, vs: seq<string>): int {
    if words == [] then 0 else Gain(len, words[0], vs) + TotalGain(len, words[1..], vs)
  }

  function MaxGain(len: Lengths, words: seq<string>): int {
    if words == [] then 0 else Min(len.max, |words[0]|) - len.min + 1 + MaxGain(len, words[1..])
  }

  /** The score of a query is the sum of its words' gains. */
  lemma {:induction false} ScoreClosedForm(u: Unicode, len: Lengths, words: seq<string>, path: string)
    requires forall w :: w in words ==> NormalWord(u, len, w)
    ensures Points(u, len, words, path) == TotalGain(len, words, Split(u, path, len.min))
  {
    if words != [] {
      hide Split, Gain, WordPoints;
      assert words[0] in words;
      WordPointsClosedForm(u, len, words[0], path);
      ScoreClosedForm(u, len, words[1..], path);
    }
  }

  /** A matching path scores at least one point a word, and reaches the maximum exactly when every word, cut to
      `max`, begins a word of the path. */
  lemma {:induction false} ScoreBounds(u: Unicode, len: Lengths, words: seq<string>, path: string)
    requires forall w :: w in words ==> NormalWord(u, len, w) && WordPoints(u, len, w, path) > 0
    ensures |words| <= Points(u, len, words, path) <= MaxGain(len, words)
    ensures Points(u, len, words, path) == MaxGain(len, words) <==>
            forall w :: w in words ==>
              0 <= Min(len.max, |w|) && SharesStart(w, Min(len.max, |w|), Split(u, path, len.min))
  {
    if words != [] {
      hide Split, WordPoints, Best;
      var w, vs := words[0], Split(u, path, len.min);
      assert w in words;
      assert forall x :: x in words <==> x == w || x in words[1..];
      WordPointsClosedForm(u, len, w, path);
      MatchIffSharedStart(u, len, w, path);
      BestIs(w, vs, Min(len.max, |w|));
      ScoreBounds(u, len, words[1..], path);
    }
  }

  // ------------------------------------------------------------------ down the tree

  ghost predicate Subtree(dir: string, path: string) {
    |dir| > 0 && dir[|dir| - 1] == '/' && dir <= path
  }

  lemma {:induction false} CountGrows(ps: seq<string>, a: seq<string>, b: seq<string>)
    requires forall p :: p in ps && p in a ==> p in b
    ensures CountIn(ps, a) <= CountIn(ps, b)
  {
    if ps != [] {
      assert ps[0] in ps;
      CountGrows(ps[1..], a, b);
    }
  }

  lemma WordPointsGrow(u: Unicode, len: Lengths, w: string, dir: string, path: string)
    requires u.Standard() && Subtree(dir, path)
    ensures WordPoints(u, len, w, dir) <= WordPoints(u, len, w, path)
  {
    hide GeneratePrefixes;
    forall p | p in Gen(u, len, w) && p in Gen(u, len, dir) ensures p in Gen(u, len, path) {
      PrefixesBelow(u, dir, path, len.min, len.max, p);
    }
    CountGrows(Gen(u, len, w), Gen(u, len, dir), Gen(u, len, path));
  }

  /** If a directory matches, every path below it matches, with at least the same score. */
  lemma {:induction false} ScoresGrowDownTheTree(u: Unicode, len: Lengths, words: seq<string>, dir: string,
      path: string)
    requires u.Standard() && Subtree(dir, path)
    ensures Points(u, len, words, dir) <= Points(u, len, words, path)
    ensures MatchesAll(u, len, words, dir) ==> MatchesAll(u, len, words, path)
  {
    hide WordPoints;
    forall w ensures WordPoints(u, len, w, dir) <= WordPoints(u, len, w, path) {
      WordPointsGrow(u, len, w, dir, path);
    }
    if words != [] {
      ScoresGrowDownTheTree(u, len, words[1..], dir, path);
    }
  }

  // ------------------------------------------------------------------ the words of a parsed query

  lemma {:induction false} JoinedWords(rs: seq<Request>, w: string)
    ensures w in JoinAll(rs).words ==> exists k :: 0 <= k < |rs| && w in rs[k].words
  {
    if |rs| > 0 && w in JoinAll(rs).words && w !in rs[0].words {
      JoinedWords(rs[1..], w);
      var k :| 0 <= k < |rs[1..]| && w in rs[1..][k].words;
      assert w in rs[k + 1].words;
    }
  }

  /** The words of a parsed query are normal: searching splits them again without changing them. */
  lemma ParsedWordsAreNormal(u: Unicode, len: Lengths, search: string, w: string)
    requires u.Standard() && w in Parse(u, search, len.min).words
    ensures NormalWord(u, len, w)
  {
    var s, spans, rd := u.Lower(search), Spans(u.Lower(search), 0), Reader(u, len.min);
    hide Spans, Split, JoinAll;
    var rs := seq(|spans|, k requires 0 <= k < |spans| => Contribution(rd, s, spans[k]));
    JoinedWords(rs, w);
    var k :| 0 <= k < |rs| && w in rs[k].words;
    ResplitIsIdentity(u, rd.trim(TextOf(s, spans[k])), len.min, w);
  }
}
