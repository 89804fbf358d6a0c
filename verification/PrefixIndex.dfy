/** The inverted index: newPrefixIndex, prepare, searchByPrefixes and Search of search/prefix_index.go. */
module PrefixIndex {
  import opened Order
  import opened Text
  import opened Words
  import opened Query
  import opened Compaction
  import opened Scoring
  import opened Entries
  import opened Wrappers

  datatype IndexEntry = IndexEntry(path: string, isDir: bool, size: int, modTime: int)

  /** Ids are uint32 and wrap around. */
  const ID_LIMIT: nat := 0x1_0000_0000

  function IdOf(i: nat): nat {
    i % ID_LIMIT
  }

  function EntryOf(e: DirEntry): IndexEntry {
    IndexEntry(e.url, e.isDir, e.size, e.modTime)
  }

  /** A missing key reads as the empty list, as in Go. */
  function Ids(prefixes: map<string, seq<nat>>, p: string): seq<nat> {
    if p in prefixes then prefixes[p] else []
  }

  /** One of the first `n` listed entries got the id `k` and generates the prefix `p`. */
  ghost predicate Posted(u: Unicode, len: Lengths, list: seq<DirEntry>, n: nat, p: string, k: nat)
    requires n <= |list|
  {
    exists i :: 0 <= i < n && IdOf(i) == k && p in Gen(u, len, list[i].url)
  }

  ghost predicate StrictlyIncreasing(s: seq<nat>) {
    forall i, j :: 0 <= i < j < |s| ==> s[i] < s[j]
  }

  // ------------------------------------------------------------------ construction

  method AddPrefixes(prefixes: map<string, seq<nat>>, ps: seq<string>, id: nat) returns (r: map<string, seq<nat>>)
    ensures forall p, k :: k in Ids(r, p) <==> k in Ids(prefixes, p) || (k == id && p in ps)
  {
    r := prefixes;
    for j := 0 to |ps|
      invariant forall p, k :: k in Ids(r, p) <==> k in Ids(prefixes, p) || (k == id && p in ps[..j])
    {
      ghost var before := r;
      r := r[ps[j] := Ids(r, ps[j]) + [id]];
      assert ps[..j + 1] == ps[..j] + [ps[j]];
      assert forall p :: Ids(r, p) == if p == ps[j] then Ids(before, p) + [id] else Ids(before, p);
    }
    assert ps[..|ps|] == ps;
  }

  /** What the construction makes of any listing, whether or not its ids wrap around: an id is listed under a prefix
      if and only if some entry with that id generates it, and an id belongs to the last entry it was given to. */
  ghost predicate Built(u: Unicode, len: Lengths, list: seq<DirEntry>, n: nat,
                        entries: map<nat, IndexEntry>, prefixes: map<string, seq<nat>>)
    requires n <= |list|
  {
    (forall p, k :: k in Ids(prefixes, p) <==> Posted(u, len, list, n, p, k)) && EntriesBuilt(list, n, entries)
  }

  ghost predicate EntriesBuilt(list: seq<DirEntry>, n: nat, entries: map<nat, IndexEntry>)
    requires n <= |list|
  {
    && (forall k :: k in entries <==> exists i :: 0 <= i < n && IdOf(i) == k)
    && (forall i :: 0 <= i < n && n <= i + ID_LIMIT ==> entries[IdOf(i)] == EntryOf(list[i]))
  }

  method CollectEntries(u: Unicode, len: Lengths, list: seq<DirEntry>)
    returns (entries: map<nat, IndexEntry>, prefixes: map<string, seq<nat>>)
    ensures Built(u, len, list, |list|, entries, prefixes)
  {
    hide GeneratePrefixes;
    var id := 0;
    entries, prefixes := map[], map[];
    for n := 0 to |list|
      invariant id == IdOf(n)
      invariant Built(u, len, list, n, entries, prefixes)
    {
      entries := entries[id := EntryOf(list[n])];
      prefixes := AddPrefixes(prefixes, Gen(u, len, list[n].url), id);
      PostedStep(u, len, list, n);
      IdsAhead(n);
      id := (id + 1) % ID_LIMIT;
    }
  }

  lemma PostedStep(u: Unicode, len: Lengths, list: seq<DirEntry>, n: nat)
    requires n < |list|
    ensures forall p, k :: Posted(u, len, list, n + 1, p, k) <==>
              Posted(u, len, list, n, p, k) || (k == IdOf(n) && p in Gen(u, len, list[n].url))
  {
    hide GeneratePrefixes;
    forall p | p in Gen(u, len, list[n].url) ensures Posted(u, len, list, n + 1, p, IdOf(n)) {
      assert 0 <= n < n + 1;
    }
  }

  /** The last ids given out are all different. */
  lemma IdsAhead(n: nat)
    ensures forall i :: 0 <= i < n && n < i + ID_LIMIT ==> IdOf(i) != IdOf(n)
    ensures IdOf(n + 1) == (IdOf(n) + 1) % ID_LIMIT
  {
    forall i | 0 <= i < n && n < i + ID_LIMIT ensures IdOf(i) != IdOf(n) {
      var q, r := i / ID_LIMIT, n / ID_LIMIT;
      assert i == q * ID_LIMIT + IdOf(i) && n == r * ID_LIMIT + IdOf(n);
    }
  }

  function CompareIds(a: nat, b: nat): int {
    if a < b then -1 else if a > b then 1 else 0
  }

  /** `slices.Compact`. */
  function CompactIds(s: seq<nat>): seq<nat> {
    if |s| <= 1 then s
    else if s[0] == s[1] then CompactIds(s[1..])
    else [s[0]] + CompactIds(s[1..])
  }

  lemma {:induction false} CompactIdsFacts(s: seq<nat>)
    requires Sorted(CompareIds, s)
    ensures StrictlyIncreasing(CompactIds(s)) && SameElements(CompactIds(s), s)
    ensures |s| > 0 ==> |CompactIds(s)| > 0 && CompactIds(s)[0] == s[0]
  {
    if |s| > 1 {
      var t := s[1..];
      assert Sorted(CompareIds, t) && CompareIds(s[0], s[1]) <= 0;
      CompactIdsFacts(t);
      assert forall x :: x in s <==> x == s[0] || x in t;
      assert t[0] in t;
    }
  }

  lemma SortedIds(ids: seq<nat>)
    ensures var r := CompactIds(SortBy(CompareIds, ids)); StrictlyIncreasing(r) && SameElements(r, ids)
  {
    var s := SortBy(CompareIds, ids);
    SortBySorted(CompareIds, ids);
    SortByPermutes(CompareIds, ids);
    Permutation(s, ids);
    CompactIdsFacts(s);
  }

  /** The second loop of the constructor: sort and compact every list. */
  method SortLists(prefixes: map<string, seq<nat>>) returns (r: map<string, seq<nat>>)
    ensures forall p :: StrictlyIncreasing(Ids(r, p)) && SameElements(Ids(r, p), Ids(prefixes, p))
  {
    r := prefixes;
    var todo := prefixes.Keys;
    while todo != {}
      invariant todo <= r.Keys == prefixes.Keys
      invariant forall p :: p in todo ==> r[p] == prefixes[p]
      invariant forall p :: p !in todo ==> StrictlyIncreasing(Ids(r, p)) && SameElements(Ids(r, p), Ids(prefixes, p))
      decreases |todo|
    {
      var p :| p in todo;
      SortedIds(r[p]);
      r := r[p := CompactIds(SortBy(CompareIds, r[p]))];
      todo := todo - {p};
    }
  }

  /** `prepare`. */
  method LowerPaths(u: Unicode, entries: map<nat, IndexEntry>) returns (lower: map<nat, string>)
    ensures lower.Keys == entries.Keys && forall id :: id in lower ==> lower[id] == u.Lower(entries[id].path)
  {
    lower := map[];
    var todo := entries.Keys;
    while todo != {}
      invariant todo <= entries.Keys && lower.Keys == entries.Keys - todo
      invariant forall id :: id in lower ==> lower[id] == u.Lower(entries[id].path)
      decreases |todo|
    {
      var id :| id in todo;
      lower := lower[id := u.Lower(entries[id].path)];
      todo := todo - {id};
    }
  }

  /** The exported fields of an index. */
  datatype Fields = Fields(len: Lengths, entries: map<nat, IndexEntry>, prefixes: map<string, seq<nat>>)

  // ------------------------------------------------------------------ when an index is exact

  /** The index is exact: an id is listed under a prefix if and only if the path of the entry with that id generates
      the prefix, every list is strictly increasing, and exactly the entries have their lower-case paths. */
  ghost predicate ExactIndex(u: Unicode, len: Lengths, entries: map<nat, IndexEntry>, prefixes: map<string, seq<nat>>,
                             lower: map<nat, string>)
  {
    && (forall p :: StrictlyIncreasing(Ids(prefixes, p)))
    && (forall p, k :: k in Ids(prefixes, p) <==> k in entries && p in Gen(u, len, entries[k].path))
    && LowerOk(u, entries, lower)
  }

  ghost predicate LowerOk(u: Unicode, entries: map<nat, IndexEntry>, lower: map<nat, string>) {
    lower.Keys == entries.Keys && forall id :: id in entries ==> lower[id] == u.Lower(entries[id].path)
  }

  /** What a search relies on: only entries are listed, once under each prefix. */
  ghost predicate SoundFields(f: Fields) {
    forall p :: StrictlyIncreasing(Ids(f.prefixes, p)) && forall k :: k in Ids(f.prefixes, p) ==> k in f.entries
  }

  /** Entry `i` is the `i`-th listed one. */
  ghost predicate Faithful(list: seq<DirEntry>, entries: map<nat, IndexEntry>) {
    && (forall k :: k in entries <==> 0 <= k < |list|)
    && (forall i :: 0 <= i < |list| ==> entries[i] == EntryOf(list[i]))
  }

  /** Of the `n` listed entries the last one with the id of the `i`-th one. */
  function Last(n: nat, i: nat): (l: nat)
    requires i < n
    ensures i <= l < n && n <= l + ID_LIMIT && IdOf(l) == IdOf(i)
  {
    i + (n - 1 - i) / ID_LIMIT * ID_LIMIT
  }

  /** The entries of an index over the listing: each id belongs to the last entry it was given to. */
  function EntriesOf(list: seq<DirEntry>): map<nat, IndexEntry> {
    map id: nat | id < |list| && id < ID_LIMIT :: EntryOf(list[Last(|list|, id)])
  }

  /** Whatever prefix a listed path generates, the last path listed with its id generates too. */
  ghost predicate IdsAgree(u: Unicode, len: Lengths, list: seq<DirEntry>) {
    forall i, p :: 0 <= i < |list| && p in Gen(u, len, list[i].url) ==> p in Gen(u, len, list[Last(|list|, i)].url)
  }

  lemma BuiltEntry(list: seq<DirEntry>, entries: map<nat, IndexEntry>, i: nat)
    requires EntriesBuilt(list, |list|, entries) && i < |list|
    ensures IdOf(i) in entries && entries[IdOf(i)] == EntryOf(list[Last(|list|, i)])
  {
    var l := Last(|list|, i);
    hide Last, IdOf;
    assert IdOf(l) == IdOf(i);
  }

  lemma BuiltKey(list: seq<DirEntry>, entries: map<nat, IndexEntry>, id: nat)
    requires EntriesBuilt(list, |list|, entries)
    ensures id in entries <==> id < |list| && id < ID_LIMIT
  {
    if id in entries {
      var i :| 0 <= i < |list| && IdOf(i) == id;
    }
    if id < |list| && id < ID_LIMIT { SmallIds(id); }
  }

  lemma BuiltMap(list: seq<DirEntry>, entries: map<nat, IndexEntry>)
    requires EntriesBuilt(list, |list|, entries)
    ensures entries == EntriesOf(list)
  {
    hide Last, IdOf, EntriesBuilt;
    forall id: nat ensures id in entries <==> id < |list| && id < ID_LIMIT {
      BuiltKey(list, entries, id);
    }
    forall id: nat | id < |list| && id < ID_LIMIT ensures entries[id] == EntryOf(list[Last(|list|, id)]) {
      BuiltEntry(list, entries, id);
      SmallIds(id);
    }
  }

  lemma BuiltEntries(u: Unicode, len: Lengths, list: seq<DirEntry>, entries: map<nat, IndexEntry>,
      prefixes: map<string, seq<nat>>)
    requires Built(u, len, list, |list|, entries, prefixes)
    ensures entries == EntriesOf(list)
    ensures forall i :: 0 <= i < |list| ==> IdOf(i) in entries && entries[IdOf(i)] == EntryOf(list[Last(|list|, i)])
  {
    hide Posted, Last, IdOf, EntriesBuilt, EntriesOf;
    BuiltMap(list, entries);
    forall i | 0 <= i < |list| ensures IdOf(i) in entries && entries[IdOf(i)] == EntryOf(list[Last(|list|, i)]) {
      BuiltEntry(list, entries, i);
    }
  }

  lemma SmallIds(id: nat)
    requires id < ID_LIMIT
    ensures IdOf(id) == id
  {}

  /** What the construction makes of a listing, of any length, is sound. */
  lemma BuiltIsSound(u: Unicode, len: Lengths, list: seq<DirEntry>, entries: map<nat, IndexEntry>,
      prefixes: map<string, seq<nat>>)
    requires Built(u, len, list, |list|, entries, prefixes) && forall p :: StrictlyIncreasing(Ids(prefixes, p))
    ensures SoundFields(Fields(len, entries, prefixes))
  {
    hide Gen;
    forall p, k | k in Ids(prefixes, p) ensures k in entries {
      var i :| 0 <= i < |list| && IdOf(i) == k && p in Gen(u, len, list[i].url);
    }
  }

  lemma ListedIffGenerated(u: Unicode, len: Lengths, list: seq<DirEntry>,
                           entries: map<nat, IndexEntry>, prefixes: map<string, seq<nat>>, p: string, k: nat)
    requires Built(u, len, list, |list|, entries, prefixes) && IdsAgree(u, len, list)
    ensures k in Ids(prefixes, p) <==> k in entries && p in Gen(u, len, entries[k].path)
  {
    hide Gen, Last, IdOf;
    if k in Ids(prefixes, p) {
      var i :| 0 <= i < |list| && IdOf(i) == k && p in Gen(u, len, list[i].url);
      BuiltEntry(list, entries, i);
    }
    if k in entries && p in Gen(u, len, entries[k].path) {
      var i :| 0 <= i < |list| && IdOf(i) == k;
      var l := Last(|list|, i);
      BuiltEntry(list, entries, i);
      assert IdOf(l) == k && p in Gen(u, len, list[l].url);
      assert Posted(u, len, list, |list|, p, k);
    }
  }

  /** An id that is given out again stays listed under the prefixes of the entries it was given to before: one of them
      that the last entry lacks makes the index inexact. */
  lemma WrapAroundIsNotExact(u: Unicode, len: Lengths, list: seq<DirEntry>, i: nat, p: string,
                             entries: map<nat, IndexEntry>, prefixes: map<string, seq<nat>>, lower: map<nat, string>)
    requires Built(u, len, list, |list|, entries, prefixes) && i < |list|
    requires p in Gen(u, len, list[i].url) && p !in Gen(u, len, list[Last(|list|, i)].url)
    ensures !ExactIndex(u, len, entries, prefixes, lower)
  {
    hide Gen, Last, IdOf, EntriesBuilt;
    BuiltEntry(list, entries, i);
    assert Posted(u, len, list, |list|, p, IdOf(i));
  }

  /** The digits of a number. */
  function Digits(n: nat): (d: string)
    ensures d != "" && forall c :: c in d ==> IsDigit(c)
  {
    (if n < 10 then "" else Digits(n / 10)) + [('0' as int + n % 10) as char]
  }

  lemma {:induction false} DigitsDiffer(m: nat, n: nat)
    requires Digits(m) == Digits(n)
    ensures m == n
  {
    var a, b := Digits(m), Digits(n);
    assert a[|a| - 1] == b[|b| - 1] && m % 10 == n % 10;
    assert |a| == 1 <==> m < 10;
    assert |b| == 1 <==> n < 10;
    if m >= 10 {
      assert a[..|a| - 1] == Digits(m / 10) && b[..|b| - 1] == Digits(n / 10);
      DigitsDiffer(m / 10, n / 10);
    }
  }

  /** The file "/abc", and files named by their numbers. */
  function NumberedFiles(n: nat): (list: seq<DirEntry>)
    ensures |list| == n
  {
    seq(n, i requires i >= 0 =>
             var name := if i == 0 then "abc" else Digits(i);
             DirEntry("/" + name, name, false, 1, 0))
  }

  lemma NoLetters(d: string)
    requires forall c :: c in d ==> IsDigit(c)
    ensures !("abc" <= d)
  {
    assert d != "" ==> IsDigit(d[0]);
    assert "abc"[0] == 'a';
  }

  lemma NumberedFilesDiffer(n: nat, i: nat, j: nat)
    requires i < j < n
    ensures NumberedFiles(n)[i].url != NumberedFiles(n)[j].url
  {
    hide Digits;
    var a, b := NumberedFiles(n)[i].url, NumberedFiles(n)[j].url;
    NoLetters(Digits(j));
    assert a[1..] == (if i == 0 then "abc" else Digits(i)) && b[1..] == Digits(j);
    if i > 0 && Digits(i) == Digits(j) { DigitsDiffer(i, j); }
  }

  ghost predicate DistinctUrls(list: seq<DirEntry>) {
    forall i, j :: 0 <= i < j < |list| ==> list[i].url != list[j].url
  }

  lemma NumberedFilesAllDiffer(n: nat)
    ensures DistinctUrls(NumberedFiles(n))
  {
    forall i, j | 0 <= i < j < n ensures NumberedFiles(n)[i].url != NumberedFiles(n)[j].url {
      NumberedFilesDiffer(n, i, j);
    }
  }

  /** A word of letters or digits is split off as it is. */
  lemma OneWord(w: string, minLen: nat)
    requires AllSettled(ASCII, w) && |w| > 0 && minLen > 0
    ensures Split(ASCII, "/" + w, minLen) == if |w| >= minLen then [w] else []
  {
    AsciiIsStandard();
    SplitBelow(ASCII, "", w, minLen);
    assert "" + "/" + w == "/" + w;
    SettledIsOneField(ASCII, "");
    SettledIsOneField(ASCII, w);
    LongEnoughFirst(minLen, [""]);
    LongEnoughFirst(minLen, [w]);
  }

  lemma NumberedFilesPrefixes(len: Lengths, n: nat)
    requires 0 < len.min <= 3 <= len.max
    ensures "abc" in Gen(ASCII, len, "/abc") && "abc" !in Gen(ASCII, len, "/" + Digits(n))
  {
    hide Split, Digits;
    OneWord("abc", len.min);
    OneWord(Digits(n), len.min);
    assert "/" + "abc" == "/abc";
    assert "abc" in Split(ASCII, "/abc", len.min);
    InGenerated(ASCII, "/abc", len.min, len.max, "abc");
    InGenerated(ASCII, "/" + Digits(n), len.min, len.max, "abc");
    NoLetters(Digits(n));
  }

  /** The index over 2^32 + 1 such files, which have different paths, finds the last one under "abc". */
  lemma NumberedFilesAreNotExact(len: Lengths, entries: map<nat, IndexEntry>, prefixes: map<string, seq<nat>>,
                                 lower: map<nat, string>)
    requires 0 < len.min <= 3 <= len.max
    requires Built(ASCII, len, NumberedFiles(0x1_0000_0001), 0x1_0000_0001, entries, prefixes)
    ensures !ExactIndex(ASCII, len, entries, prefixes, lower)
    ensures 0 in Ids(prefixes, "abc") && 0 in entries && entries[0].path == "/" + Digits(0x1_0000_0000)
    ensures DistinctUrls(NumberedFiles(0x1_0000_0001))
  {
    NumberedFilesAllDiffer(ID_LIMIT + 1);
    var list := NumberedFiles(ID_LIMIT + 1);
    NumberedFilesPrefixes(len, ID_LIMIT);
    hide Gen, Digits;
    assert Last(|list|, 0) == ID_LIMIT && IdOf(0) == 0;
    assert Posted(ASCII, len, list, |list|, "abc", 0) by { assert "abc" in Gen(ASCII, len, list[0].url); }
    BuiltEntry(list, entries, 0);
    WrapAroundIsNotExact(ASCII, len, list, 0, "abc", entries, prefixes, lower);
  }

  /** For listings of any length: the index is exact if and only if entries that share an id agree in this way. */
  lemma ExactIffIdsAgree(u: Unicode, len: Lengths, list: seq<DirEntry>,
                         entries: map<nat, IndexEntry>, prefixes: map<string, seq<nat>>, lower: map<nat, string>)
    requires Built(u, len, list, |list|, entries, prefixes)
    requires (forall p :: StrictlyIncreasing(Ids(prefixes, p))) && LowerOk(u, entries, lower)
    ensures ExactIndex(u, len, entries, prefixes, lower) <==> IdsAgree(u, len, list)
  {
    hide Gen, Last, Built, StrictlyIncreasing, LowerOk;
    if IdsAgree(u, len, list) {
      hide IdsAgree;
      forall p, k ensures k in Ids(prefixes, p) <==> k in entries && p in Gen(u, len, entries[k].path) {
        ListedIffGenerated(u, len, list, entries, prefixes, p, k);
      }
    } else {
      hide ExactIndex;
      var i, p :| 0 <= i < |list| && p in Gen(u, len, list[i].url) && p !in Gen(u, len, list[Last(|list|, i)].url);
      WrapAroundIsNotExact(u, len, list, i, p, entries, prefixes, lower);
    }
  }

  lemma LastOfFew(n: nat, i: nat)
    requires i < n <= ID_LIMIT
    ensures Last(n, i) == i && IdOf(i) == i
  {}

  /** Up to 2^32 entries no id wraps around, and the index is exact. */
  lemma ExactBelowLimit(u: Unicode, len: Lengths, list: seq<DirEntry>,
                        entries: map<nat, IndexEntry>, prefixes: map<string, seq<nat>>, lower: map<nat, string>)
    requires |list| <= 0x1_0000_0000 && Built(u, len, list, |list|, entries, prefixes)
    requires (forall p :: StrictlyIncreasing(Ids(prefixes, p))) && LowerOk(u, entries, lower)
    ensures ExactIndex(u, len, entries, prefixes, lower) && Faithful(list, entries)
  {
    hide Gen, Last, IdOf, Built, LowerOk, ExactIndex;
    forall i: nat | i < |list| ensures Last(|list|, i) == i && IdOf(i) == i { LastOfFew(|list|, i); }
    BuiltEntries(u, len, list, entries, prefixes);
    ExactIffIdsAgree(u, len, list, entries, prefixes, lower);
  }

  // ------------------------------------------------------------------ counting matches

  function Count(counts: map<nat, nat>, id: nat): nat {
    if id in counts then counts[id] else 0
  }

  method AddIds(ids: seq<nat>, counts: map<nat, nat>, matches: set<nat>)
    returns (counts': map<nat, nat>, matches': set<nat>)
    requires StrictlyIncreasing(ids)
    ensures forall id :: Count(counts', id) == Count(counts, id) + if id in ids then 1 else 0
    ensures forall id :: id in matches' <==> id in matches || id in ids
  {
    counts', matches' := counts, matches;
    for j := 0 to |ids|
      invariant forall id :: Count(counts', id) == Count(counts, id) + if id in ids[..j] then 1 else 0
      invariant forall id :: id in matches' <==> id in matches || id in ids[..j]
    {
      assert ids[..j + 1] == ids[..j] + [ids[j]] && ids[j] !in ids[..j];
      counts' := counts'[ids[j] := Count(counts', ids[j]) + 1];
      matches' := matches' + {ids[j]};
    }
    assert ids[..|ids|] == ids;
  }

  /** Delete from `all` every id that is not in `matches`. */
  method Intersect(all: set<nat>, matches: set<nat>) returns (r: set<nat>)
    ensures r == all * matches
  {
    r := all;
    var todo := all;
    while todo != {}
      invariant todo <= all && r == (all * matches) + todo
      decreases |todo|
    {
      var k :| k in todo;
      todo := todo - {k};
      if k !in matches {
        r := r - {k};
      }
    }
  }

  // ------------------------------------------------------------------ what the lists say

  /** Under how many of the prefixes the id is listed. */
  function CountListed(prefixes: map<string, seq<nat>>, ps: seq<string>, id: nat): nat {
    if ps == [] then 0 else (if id in Ids(prefixes, ps[0]) then 1 else 0) + CountListed(prefixes, ps[1..], id)
  }

  function WordListed(u: Unicode, f: Fields, w: string, id: nat): nat {
    CountListed(f.prefixes, Gen(u, f.len, w), id)
  }

  function PointsListed(u: Unicode, f: Fields, words: seq<string>, id: nat): nat {
    if words == [] then 0
    else (if |words[0]| < f.len.min then 0 else WordListed(u, f, words[0], id)) + PointsListed(u, f, words[1..], id)
  }

  /** Some word so far is long enough. */
  predicate AnyRelevant(min: nat, words: seq<string>) {
    exists w | w in words :: |w| >= min
  }

  /** Every word that is long enough lists the id, and there is one. */
  ghost predicate AllListed(u: Unicode, f: Fields, words: seq<string>, id: nat) {
    AnyRelevant(f.len.min, words) && forall w :: w in words && |w| >= f.len.min ==> WordListed(u, f, w, id) > 0
  }

  lemma {:induction false} CountListedSnoc(prefixes: map<string, seq<nat>>, ps: seq<string>, p: string, id: nat)
    ensures CountListed(prefixes, ps + [p], id) == CountListed(prefixes, ps, id)
         + if id in Ids(prefixes, p) then 1 else 0
  {
    if ps == [] {
      assert [p][1..] == [];
    } else {
      CountListedSnoc(prefixes, ps[1..], p, id);
      assert (ps + [p])[1..] == ps[1..] + [p];
    }
  }

  lemma {:induction false} PointsListedSnoc(u: Unicode, f: Fields, words: seq<string>, w: string, id: nat)
    ensures PointsListed(u, f, words + [w], id) ==
            PointsListed(u, f, words, id) + if |w| < f.len.min then 0 else WordListed(u, f, w, id)
  {
    hide WordListed;
    if words == [] {
      assert [w][1..] == [];
    } else {
      PointsListedSnoc(u, f, words[1..], w, id);
      assert (words + [w])[1..] == words[1..] + [w];
    }
  }

  lemma AllListedSnoc(u: Unicode, f: Fields, words: seq<string>, w: string, id: nat)
    ensures |w| < f.len.min ==> (AllListed(u, f, words + [w], id) <==> AllListed(u, f, words, id))
    ensures |w| >= f.len.min ==> (AllListed(u, f, words + [w], id) <==>
              WordListed(u, f, w, id) > 0 && (AnyRelevant(f.len.min, words) ==> AllListed(u, f, words, id)))
  {
    hide WordListed;
    assert forall x :: x in words + [w] <==> x in words || x == w;
    assert w in words + [w];
  }

  lemma RelevantSnoc(min: nat, words: seq<string>, w: string)
    ensures AnyRelevant(min, words + [w]) <==> AnyRelevant(min, words) || |w| >= min
  {
    assert forall x :: x in words + [w] <==> x in words || x == w;
  }

  lemma {:induction false} CountedIsListed(f: Fields, ps: seq<string>, id: nat)
    requires SoundFields(f) && CountListed(f.prefixes, ps, id) > 0
    ensures id in f.entries
  {
    if id !in Ids(f.prefixes, ps[0]) { CountedIsListed(f, ps[1..], id); }
  }

  // ------------------------------------------------------------------ the meaning of a search

  /** What one id contributes to the hits of a search, if anything. */
  type Finding = nat -> Option<Hit>

  ghost predicate Passes(u: Unicode, len: Lengths, req: Request, path: string) {
    && (req.words != [] ==> MatchesAll(u, len, req.words, path))
    && HasAll(u, req.exactMatches, path)
    && !HasAny(u, req.toExclude, path)
  }

  function ScoreOf(u: Unicode, len: Lengths, req: Request, path: string): Score {
    if req.words != [] then Finite(Points(u, len, req.words, path)) else Infinite
  }

  function HitOf(u: Unicode, len: Lengths, req: Request, e: IndexEntry): Hit {
    Hit(e.path, e.isDir, e.size, e.modTime, ScoreOf(u, len, req, e.path))
  }

  /** A look at the path of the entry decides. */
  ghost function FoundByPath(u: Unicode, len: Lengths, req: Request, entries: map<nat, IndexEntry>): Finding {
    (id: nat) =>
      if id in entries && Passes(u, len, req, entries[id].path) then Some(HitOf(u, len, req, entries[id])) else None
  }

  ghost predicate PassesListed(u: Unicode, f: Fields, req: Request, id: nat)
    requires id in f.entries
  {
    && (req.words != [] ==> AllListed(u, f, req.words, id))
    && HasAll(u, req.exactMatches, f.entries[id].path)
    && !HasAny(u, req.toExclude, f.entries[id].path)
  }

  function HitListed(u: Unicode, f: Fields, req: Request, id: nat): Hit
    requires id in f.entries
  {
    var e := f.entries[id];
    Hit(e.path, e.isDir, e.size, e.modTime,
        if req.words != [] then Finite(PointsListed(u, f, req.words, id)) else Infinite)
  }

  /** The lists of the index decide about the words. */
  ghost function FoundByLists(u: Unicode, f: Fields, req: Request): Finding {
    (id: nat) => if id in f.entries && PassesListed(u, f, req, id) then Some(HitListed(u, f, req, id)) else None
  }

  function AsSeq(h: Option<Hit>): seq<Hit> {
    if h.Some? then [h.value] else []
  }

  /** The findings for the ids, in their order. */
  function Gather(found: Finding, ids: seq<nat>): seq<Hit> {
    if ids == [] then [] else AsSeq(found(ids[0])) + Gather(found, ids[1..])
  }

  /** The plain scan: the passing entries, in the given order of ids. */
  ghost function Scan(u: Unicode, len: Lengths, req: Request, entries: map<nat, IndexEntry>, ids: seq<nat>): seq<Hit> {
    Gather(FoundByPath(u, len, req, entries), ids)
  }

  /** `ids` lists the keys of the map, in some order. */
  ghost predicate Enumerates(ids: seq<nat>, entries: map<nat, IndexEntry>) {
    NoDuplicates(ids) && forall id :: id in ids <==> id in entries
  }

  ghost predicate DistinctEntries(entries: map<nat, IndexEntry>) {
    forall i, j :: i in entries && j in entries && i != j ==> entries[i].path != entries[j].path
  }

  /** Findings are for entries, under their paths. */
  ghost predicate Proper(found: Finding, entries: map<nat, IndexEntry>) {
    forall id :: found(id).Some? ==> id in entries && found(id).value.path == entries[id].path
  }

  /** Higher scores first, then names in natural order. */
  function CompareRank(u: Unicode): (Hit, Hit) -> int {
    (a: Hit, b: Hit) =>
      var v := CompareScore(a.score, b.score);
      if v != 0 then -v else CompareByName(u, Named(a.path, a.isDir), Named(b.path, b.isDir))
  }

  function Ranked(u: Unicode, hits: seq<Hit>): seq<Hit> {
    SortBy(CompareRank(u), Compact(hits))
  }

  /** Slicing with a negative limit panics. */
  datatype Outcome = Panicked | Answer(hits: seq<Hit>, total: nat)

  function Cut(ranked: seq<Hit>, limit: int): Outcome {
    if |ranked| > limit then (if limit < 0 then Panicked else Answer(ranked[..limit], |ranked|))
    else Answer(ranked, |ranked|)
  }

  function AnswerOf(u: Unicode, hits: seq<Hit>, limit: int): Outcome {
    if hits == [] then Answer([], 0) else Cut(Ranked(u, hits), limit)
  }

  predicate EmptyRequest(req: Request) {
    req.words == [] && req.exactMatches == [] && req.toExclude == []
  }

  function AnswerTo(u: Unicode, req: Request, found: Finding, ids: seq<nat>, limit: int): Outcome {
    if EmptyRequest(req) then Answer([], 0) else AnswerOf(u, Gather(found, ids), limit)
  }

  predicate HasTerms(req: Request) {
    req.words != [] || req.exactMatches != [] || req.toExclude != []
  }

  /** The hit carries the path, the kind, the length and the time of the entry; without words its score is infinite. */
  predicate IsHitOf(u: Unicode, f: Fields, req: Request, h: Hit, id: nat)
    requires id in f.entries
  {
    var e := f.entries[id];
    && h.path == e.path && h.isDir == e.isDir && h.size == e.size && h.modTime == e.modTime
    && h.score == if req.words == [] then Infinite else Finite(PointsListed(u, f, req.words, id))
  }

  /** Without terms there are no hits; a negative limit panics if and only if there is a hit; otherwise the hits are as
      many as the limit allows, and each is one of an entry that the lists and the filters let pass. */
  ghost predicate IsAnswer(u: Unicode, f: Fields, req: Request, limit: int, out: Outcome) {
    && (!HasTerms(req) ==> out == Answer([], 0))
    && (out.Panicked? <==> limit < 0 && HasTerms(req) && exists id :: id in f.entries && PassesListed(u, f, req, id))
    && (out.Answer? ==>
          && (if limit < 0 then out == Answer([], 0) else |out.hits| == Scoring.Min(limit, out.total))
          && forall h :: h in out.hits ==>
               exists id :: id in f.entries && PassesListed(u, f, req, id) && IsHitOf(u, f, req, h, id))
  }

  ghost function SearchBy(u: Unicode, len: Lengths, req: Request, entries: map<nat, IndexEntry>, ids: seq<nat>,
      limit: int): Outcome
  {
    AnswerTo(u, req, FoundByPath(u, len, req, entries), ids, limit)
  }

  ghost function SearchByLists(u: Unicode, f: Fields, req: Request, ids: seq<nat>, limit: int): Outcome {
    AnswerTo(u, req, FoundByLists(u, f, req), ids, limit)
  }

  lemma {:induction false} InGather(found: Finding, ids: seq<nat>, h: Hit)
    ensures h in Gather(found, ids) <==> exists id :: id in ids && found(id) == Some(h)
  {
    if ids != [] {
      InGather(found, ids[1..], h);
      assert forall id :: id in ids <==> id == ids[0] || id in ids[1..];
    }
  }

  lemma GatherFirst(found: Finding, ids: seq<nat>)
    ensures ids != [] ==> Gather(found, ids) == AsSeq(found(ids[0])) + Gather(found, ids[1..])
    ensures Gather(found, []) == []
  {}

  lemma Regroup(a: seq<Hit>, b: seq<Hit>, c: seq<Hit>)
    ensures a + (b + c) == (a + b) + c
  {}

  lemma {:induction false} GatherConcat(found: Finding, a: seq<nat>, b: seq<nat>)
    ensures Gather(found, a + b) == Gather(found, a) + Gather(found, b)
  {
    hide AsSeq, Gather;
    GatherFirst(found, a);
    if a == [] {
      assert a + b == b;
    } else {
      GatherConcat(found, a[1..], b);
      assert (a + b)[1..] == a[1..] + b;
      GatherFirst(found, a + b);
      Regroup(AsSeq(found(a[0])), Gather(found, a[1..]), Gather(found, b));
    }
  }

  lemma {:induction false} GatherSame(f: Finding, g: Finding, ids: seq<nat>)
    requires forall id :: id in ids ==> f(id) == g(id)
    ensures Gather(f, ids) == Gather(g, ids)
  {
    if ids != [] { GatherSame(f, g, ids[1..]); }
  }

  lemma {:induction false} GatherDistinct(found: Finding, entries: map<nat, IndexEntry>, ids: seq<nat>)
    requires Proper(found, entries) && DistinctEntries(entries) && NoDuplicates(ids)
    ensures DistinctPaths(Gather(found, ids))
  {
    if ids != [] {
      var rest := Gather(found, ids[1..]);
      GatherDistinct(found, entries, ids[1..]);
      forall i | 0 <= i < |rest| && found(ids[0]).Some? ensures rest[i].path != found(ids[0]).value.path {
        InGather(found, ids[1..], rest[i]);
        assert rest[i] in rest;
        assert ids[0] !in ids[1..];
      }
    }
  }

  lemma InScan(u: Unicode, len: Lengths, req: Request, entries: map<nat, IndexEntry>, ids: seq<nat>, h: Hit)
    ensures h in Scan(u, len, req, entries, ids) <==>
            exists id :: id in ids && id in entries && Passes(u, len, req, entries[id].path)
              && h == HitOf(u, len, req, entries[id])
  {
    hide Passes, ScoreOf, Gather;
    InGather(FoundByPath(u, len, req, entries), ids, h);
  }

  lemma ScanDistinct(u: Unicode, len: Lengths, req: Request, entries: map<nat, IndexEntry>, ids: seq<nat>)
    requires DistinctEntries(entries) && NoDuplicates(ids)
    ensures DistinctPaths(Scan(u, len, req, entries, ids))
  {
    hide Passes, ScoreOf, Gather;
    GatherDistinct(FoundByPath(u, len, req, entries), entries, ids);
  }

  /** With distinct paths any collection of all findings leads to the same answer. */
  lemma AnyScanGivesTheAnswer(u: Unicode, found: Finding, entries: map<nat, IndexEntry>, ids: seq<nat>,
      hits: seq<Hit>, limit: int)
    requires Proper(found, entries) && DistinctEntries(entries) && Enumerates(ids, entries)
    requires DistinctPaths(hits) && forall h :: h in hits <==> exists id :: id in entries && found(id) == Some(h)
    ensures AnswerOf(u, hits, limit) == AnswerOf(u, Gather(found, ids), limit)
  {
    hide Compact, SortBy, Gather;
    var all := Gather(found, ids);
    forall h ensures h in hits <==> h in all { InGather(found, ids, h); }
    GatherDistinct(found, entries, ids);
    CompactForgetsOrder(hits, all);
    NonemptyToo(hits, all);
    NonemptyToo(all, hits);
  }

  /** So any two orders of iteration give the same outcome. */
  lemma AnyOrderAnswers(u: Unicode, req: Request, found: Finding, entries: map<nat, IndexEntry>, a: seq<nat>,
      b: seq<nat>, limit: int)
    requires Proper(found, entries) && DistinctEntries(entries) && Enumerates(a, entries) && Enumerates(b, entries)
    ensures AnswerTo(u, req, found, a, limit) == AnswerTo(u, req, found, b, limit)
  {
    hide AnswerOf, Gather;
    var hits := Gather(found, a);
    forall h ensures h in hits <==> exists id :: id in entries && found(id) == Some(h) { InGather(found, a, h); }
    GatherDistinct(found, entries, a);
    AnyScanGivesTheAnswer(u, found, entries, b, hits, limit);
  }

  // ------------------------------------------------------------------ an exact index finds what the paths say

  lemma {:induction false} CountExact(u: Unicode, f: Fields, lower: map<nat, string>, ps: seq<string>, id: nat)
    requires ExactIndex(u, f.len, f.entries, f.prefixes, lower) && id in f.entries
    ensures CountListed(f.prefixes, ps, id) == CountIn(ps, Gen(u, f.len, f.entries[id].path))
  {
    hide Gen;
    if ps != [] { CountExact(u, f, lower, ps[1..], id); }
  }

  lemma {:induction false} PointsExact(u: Unicode, f: Fields, lower: map<nat, string>, words: seq<string>, id: nat)
    requires ExactIndex(u, f.len, f.entries, f.prefixes, lower) && id in f.entries
    ensures PointsListed(u, f, words, id) == Points(u, f.len, words, f.entries[id].path)
  {
    hide Gen, ExactIndex;
    if words != [] {
      PointsExact(u, f, lower, words[1..], id);
      CountExact(u, f, lower, Gen(u, f.len, words[0]), id);
    }
  }

  lemma AllExact(u: Unicode, f: Fields, lower: map<nat, string>, words: seq<string>, id: nat)
    requires ExactIndex(u, f.len, f.entries, f.prefixes, lower) && id in f.entries
    ensures AllListed(u, f, words, id) <==> MatchesAll(u, f.len, words, f.entries[id].path)
  {
    hide Gen, ExactIndex;
    forall w ensures WordListed(u, f, w, id) == WordPoints(u, f.len, w, f.entries[id].path) {
      CountExact(u, f, lower, Gen(u, f.len, w), id);
    }
  }

  /** Searching the lists of an exact index is scanning the paths of its entries, in any order. */
  lemma ListsAreScan(u: Unicode, f: Fields, lower: map<nat, string>, req: Request, ids: seq<nat>, limit: int)
    requires ExactIndex(u, f.len, f.entries, f.prefixes, lower)
    ensures SearchByLists(u, f, req, ids, limit) == SearchBy(u, f.len, req, f.entries, ids, limit)
  {
    hide ExactIndex, AllListed, MatchesAll, PointsListed, Points, HasAll, HasAny, Gather, AnswerOf;
    forall id | id in ids ensures FoundByLists(u, f, req)(id) == FoundByPath(u, f.len, req, f.entries)(id) {
      if id in f.entries {
        AllExact(u, f, lower, req.words, id);
        PointsExact(u, f, lower, req.words, id);
      }
    }
    GatherSame(FoundByLists(u, f, req), FoundByPath(u, f.len, req, f.entries), ids);
  }

  lemma SortedIsBuilt(u: Unicode, len: Lengths, list: seq<DirEntry>,
                      entries: map<nat, IndexEntry>, prefixes: map<string, seq<nat>>, sorted: map<string, seq<nat>>)
    requires Built(u, len, list, |list|, entries, prefixes)
    requires forall p :: SameElements(Ids(sorted, p), Ids(prefixes, p))
    ensures Built(u, len, list, |list|, entries, sorted)
  {
    hide Posted;
  }

  // ------------------------------------------------------------------ the index

  class Index {
    const u: Unicode
    var minPrefixLen: nat
    var maxPrefixLen: int
    var entries: map<nat, IndexEntry>
    var prefixes: map<string, seq<nat>>
    var lowerCasedPaths: map<nat, string>

    function Len(): Lengths
      reads this
    {
      Lengths(minPrefixLen, maxPrefixLen)
    }

    function Snap(): Fields
      reads this
    {
      Fields(Len(), entries, prefixes)
    }

    ghost predicate Exact()
      reads this
    {
      ExactIndex(u, Len(), entries, prefixes, lowerCasedPaths)
    }

    ghost predicate Sound()
      reads this
    {
      SoundFields(Snap()) && LowerOk(u, entries, lowerCasedPaths)
    }

    /** newPrefixIndex. */
    constructor (u: Unicode, list: seq<DirEntry>, minLen: nat, maxLen: int)
      ensures this.u == u && minPrefixLen == minLen && maxPrefixLen == maxLen && Sound()
      ensures Built(u, Lengths(minLen, maxLen), list, |list|, entries, prefixes)
      ensures Exact() <==> IdsAgree(u, Lengths(minLen, maxLen), list)
      ensures |list| <= 0x1_0000_0000 ==> Exact() && Faithful(list, entries)
    {
      hide IdsAgree, Built, ExactIndex, SoundFields, Faithful;
      var len := Lengths(minLen, maxLen);
      var es, ps := CollectEntries(u, len, list);
      var sorted := SortLists(ps);
      var lower := LowerPaths(u, es);
      this.u, minPrefixLen, maxPrefixLen := u, minLen, maxLen;
      entries, prefixes, lowerCasedPaths := es, sorted, lower;
      new;
      SortedIsBuilt(u, len, list, es, ps, sorted);
      BuiltIsSound(u, len, list, es, sorted);
      ExactIffIdsAgree(u, len, list, es, sorted, lower);
      if |list| <= ID_LIMIT {
        ExactBelowLimit(u, len, list, es, sorted, lower);
      }
    }

    /** UnmarshalJSON: an index with the fields read from a file; the lower-case paths are computed again. */
    constructor Decoded(u: Unicode, f: Fields)
      ensures this.u == u && Snap() == f && LowerOk(u, entries, lowerCasedPaths)
    {
      var lower := LowerPaths(u, f.entries);
      this.u, minPrefixLen, maxPrefixLen := u, f.len.min, f.len.max;
      this.entries, this.prefixes, this.lowerCasedPaths := f.entries, f.prefixes, lower;
    }

    /** The loops over the prefixes of one word and over the ids of each prefix. */
    method MatchWord(word: string, counts: map<nat, nat>) returns (counts': map<nat, nat>, matches: set<nat>)
      requires Sound()
      ensures forall id :: Count(counts', id) == Count(counts, id) + WordListed(u, Snap(), word, id)
      ensures forall id :: id in matches <==> WordListed(u, Snap(), word, id) > 0
    {
      hide Gen;
      var ps := Gen(u, Len(), word);
      counts', matches := counts, {};
      for j := 0 to |ps|
        invariant forall id :: Count(counts', id) == Count(counts, id) + CountListed(prefixes, ps[..j], id)
        invariant forall id :: id in matches <==> CountListed(prefixes, ps[..j], id) > 0
      {
        counts', matches := AddIds(Ids(prefixes, ps[j]), counts', matches);
        assert ps[..j + 1] == ps[..j] + [ps[j]];
        forall id
          ensures CountListed(prefixes, ps[..j + 1], id)
               == CountListed(prefixes, ps[..j], id) + if id in Ids(prefixes, ps[j]) then 1 else 0
        {
          CountListedSnoc(prefixes, ps[..j], ps[j], id);
        }
      }
      assert ps[..|ps|] == ps;
    }

    /** The counters and the set of matches say exactly what the words so far give. */
    ghost predicate Tallied(done: seq<string>, counts: map<nat, nat>, all: set<nat>)
      reads this
    {
      && (forall id :: Count(counts, id) == PointsListed(u, Snap(), done, id))
      && (forall id :: id in all <==> AllListed(u, Snap(), done, id))
    }

    /** One word that is long enough: fill the set of matches with it, or intersect the set with its matches. */
    method NextWord(word: string, counts: map<nat, nat>, all: set<nat>, ghost done: seq<string>)
      returns (counts': map<nat, nat>, all': set<nat>)
      requires Sound() && |word| >= minPrefixLen
      requires Tallied(done, counts, all) && (AnyRelevant(minPrefixLen, done) <==> all != {})
      ensures Tallied(done + [word], counts', all')
    {
      hide WordListed, PointsListed, AllListed, AnyRelevant, SoundFields;
      Snoc(done, word);
      var matches;
      counts', matches := MatchWord(word, counts);
      if matches == {} {
        return counts', {};
      }
      if all == {} {
        all' := matches;
      } else {
        all' := Intersect(all, matches);
      }
    }

    lemma Snoc(words: seq<string>, w: string)
      ensures forall id :: PointsListed(u, Snap(), words + [w], id) ==
                PointsListed(u, Snap(), words, id) + if |w| < minPrefixLen then 0 else WordListed(u, Snap(), w, id)
      ensures |w| < minPrefixLen ==> forall id :: AllListed(u, Snap(), words + [w], id) <==>
              AllListed(u, Snap(), words, id)
      ensures |w| >= minPrefixLen ==> forall id :: AllListed(u, Snap(), words + [w], id) <==>
                WordListed(u, Snap(), w, id) > 0
                  && (AnyRelevant(minPrefixLen, words) ==> AllListed(u, Snap(), words, id))
      ensures AnyRelevant(minPrefixLen, words + [w]) <==> AnyRelevant(minPrefixLen, words) || |w| >= minPrefixLen
    {
      hide WordListed, PointsListed, AllListed, AnyRelevant;
      RelevantSnoc(minPrefixLen, words, w);
      forall id
        ensures PointsListed(u, Snap(), words + [w], id) ==
                PointsListed(u, Snap(), words, id) + if |w| < minPrefixLen then 0 else WordListed(u, Snap(), w, id)
      {
        PointsListedSnoc(u, Snap(), words, w, id);
      }
      forall id
        ensures |w| < minPrefixLen ==> (AllListed(u, Snap(), words + [w], id) <==> AllListed(u, Snap(), words, id))
        ensures |w| >= minPrefixLen ==> (AllListed(u, Snap(), words + [w], id) <==>
                  WordListed(u, Snap(), w, id) > 0
                    && (AnyRelevant(minPrefixLen, words) ==> AllListed(u, Snap(), words, id)))
      {
        AllListedSnoc(u, Snap(), words, w, id);
      }
    }

    /** searchByPrefixes: the ids that match all words, and the counter of each of them.
        The set of matches is filled by the first word that is long enough and intersected by every further one;
        as soon as it is empty nothing can match. */
    method SearchByPrefixes(words: seq<string>) returns (matchesForAllWords: set<nat>, matchCounts: map<nat, nat>)
      requires Sound()
      ensures forall id :: id in matchesForAllWords <==> AllListed(u, Snap(), words, id)
      ensures forall id :: id in matchesForAllWords ==> Count(matchCounts, id) == PointsListed(u, Snap(), words, id)
    {
      hide WordListed, PointsListed, AllListed, AnyRelevant, SoundFields;
      matchCounts, matchesForAllWords := map[], {};
      NothingYet();
      for j := 0 to |words|
        invariant Tallied(words[..j], matchCounts, matchesForAllWords)
        invariant AnyRelevant(minPrefixLen, words[..j]) <==> matchesForAllWords != {}
      {
        ghost var done := words[..j];
        assert words[..j + 1] == done + [words[j]];
        Snoc(done, words[j]);
        if |words[j]| < minPrefixLen {
          continue;
        }
        matchCounts, matchesForAllWords := NextWord(words[j], matchCounts, matchesForAllWords, done);
        if matchesForAllWords == {} {
          NoneMatches(done + [words[j]], words);
          return;
        }
      }
      assert words[..|words|] == words;
    }

    lemma NothingYet()
      ensures Tallied([], map[], {}) && !AnyRelevant(minPrefixLen, [])
    {}

    /** If nothing matches some of the words, nothing matches all of them. */
    lemma NoneMatches(part: seq<string>, words: seq<string>)
      requires AnyRelevant(minPrefixLen, part) && (forall w :: w in part ==> w in words)
      requires forall id :: !AllListed(u, Snap(), part, id)
      ensures forall id :: !AllListed(u, Snap(), words, id)
    {
      hide WordListed;
      forall id ensures AllListed(u, Snap(), words, id) ==> AllListed(u, Snap(), part, id) {}
    }

    lemma ListedAreEntries(words: seq<string>, id: nat)
      requires Sound() && AllListed(u, Snap(), words, id)
      ensures id in entries
    {
      hide SoundFields, Gen;
      var w :| w in words && |w| >= minPrefixLen;
      CountedIsListed(Snap(), Gen(u, Len(), w), id);
    }

    /** The ids to look at: those matching the words or, without words, all of them. */
    method Candidates(req: Request) returns (ids: set<nat>, counts: map<nat, nat>)
      requires Sound()
      ensures forall id :: id in ids <==> id in entries && (req.words != [] ==> AllListed(u, Snap(), req.words, id))
      ensures req.words != [] ==> forall id :: id in ids ==> Count(counts, id) == PointsListed(u, Snap(), req.words, id)
    {
      hide AllListed, PointsListed, SoundFields;
      if |req.words| > 0 {
        ids, counts := SearchByPrefixes(req.words);
        forall id | id in ids ensures id in entries { ListedAreEntries(req.words, id); }
      } else {
        ids, counts := entries.Keys, map[];
      }
    }

    ghost function Found(req: Request): Finding
      reads this
    {
      FoundByLists(u, Snap(), req)
    }

    /** newSearchHit and the two filters, for one id. */
    method Consider(req: Request, id: nat, counts: map<nat, nat>) returns (pass: bool, h: Hit)
      requires Sound() && id in entries && (req.words != [] ==> AllListed(u, Snap(), req.words, id))
      requires req.words != [] ==> Count(counts, id) == PointsListed(u, Snap(), req.words, id)
      ensures Found(req)(id) == if pass then Some(h) else None
    {
      hide AllListed, PointsListed, Contains, SoundFields;
      var e, lower := entries[id], lowerCasedPaths[id];
      var score := if |req.words| > 0 then Finite(Count(counts, id)) else Infinite;
      var exact := forall w | w in req.exactMatches :: Contains(lower, w);
      var excluded := exists w | w in req.toExclude :: Contains(lower, w);
      pass, h := exact && !excluded, Hit(e.path, e.isDir, e.size, e.modTime, score);
    }

    /** What is no candidate is not found. */
    lemma OthersAreNotFound(req: Request, ids: set<nat>)
      requires forall id :: id in ids <==> id in entries && (req.words != [] ==> AllListed(u, Snap(), req.words, id))
      ensures forall id :: id !in ids ==> Found(req)(id).None?
    {
      hide AllListed, HasAll, HasAny;
    }

    /** The loop over the hits, in whatever order the maps are iterated; `order` is one order of all entries that
        yields the hits in this order. */
    method CollectHits(req: Request) returns (res: seq<Hit>, ghost order: seq<nat>)
      requires Sound()
      ensures Enumerates(order, entries) && res == Gather(Found(req), order)
    {
      hide AllListed, PointsListed, Found, Gather, SoundFields, LowerOk;
      var todo, counts := Candidates(req);
      ghost var all := todo;
      OthersAreNotFound(req, all);
      res, order := [], [];
      NothingGathered(Found(req));
      while todo != {}
        invariant todo <= all && NoDuplicates(order) && forall id :: id in order <==> id in all && id !in todo
        invariant res == Gather(Found(req), order)
        decreases |todo|
      {
        var id :| id in todo;
        todo := todo - {id};
        var pass, h := Consider(req, id, counts);
        if pass {
          res := res + [h];
        }
        GatherSnoc(Found(req), order, id);
        order := order + [id];
      }
      ghost var rest := Rest(entries, order);
      order := Completed(Found(req), entries, order, rest);
    }

    /** Search.  Whatever order the maps are iterated in, the outcome is that of a plain scan of all entries in some
        order, compacted, ranked and cut; with distinct paths it is that of a scan in any order.  An index that is not
        exact answers what its lists say. */
    method Search(search: string, limit: int) returns (out: Outcome)
      requires Sound()
      ensures exists ids ::
                Enumerates(ids, entries)
                && out == SearchByLists(u, Snap(), Parse(u, search, minPrefixLen), ids, limit)
      ensures Exact() ==>
                exists ids ::
                  Enumerates(ids, entries)
                  && out == SearchBy(u, Len(), Parse(u, search, minPrefixLen), entries, ids, limit)
      ensures Exact() && DistinctEntries(entries) ==> forall ids :: Enumerates(ids, entries) ==>
                out == SearchBy(u, Len(), Parse(u, search, minPrefixLen), entries, ids, limit)
      ensures IsAnswer(u, Snap(), Parse(u, search, minPrefixLen), limit, out)
    {
      hide SortBy, Compact, Parse, FoundByLists, Gather, SoundFields, LowerOk, ExactIndex, FoundByPath, Cut, IsAnswer;
      var req := NewSearchRequest(u, search, minPrefixLen);
      ghost var ids;
      if |req.words| == 0 && |req.exactMatches| == 0 && |req.toExclude| == 0 {
        ids := Rest(entries, []);
        out := Answer([], 0);
      } else {
        var res;
        res, ids := CollectHits(req);
        out := RankAndCut(u, res, limit);
      }
      assert out == AnswerTo(u, req, Found(req), ids, limit);
      ListsAnswer(u, Snap(), req, ids, limit);
      if Exact() {
        ExactAnswers(req, ids, limit);
      }
    }

    lemma ExactAnswers(req: Request, ids: seq<nat>, limit: int)
      requires Exact() && Enumerates(ids, entries)
      ensures var out := AnswerTo(u, req, Found(req), ids, limit);
              && out == SearchByLists(u, Snap(), req, ids, limit) == SearchBy(u, Len(), req, entries, ids, limit)
              && (DistinctEntries(entries) ==> forall a :: Enumerates(a, entries) ==>
                 out == SearchBy(u, Len(), req, entries, a, limit))
    {
      hide ExactIndex, AnswerTo, FoundByPath;
      ListsAreScan(u, Snap(), lowerCasedPaths, req, ids, limit);
      if DistinctEntries(entries) {
        forall a | Enumerates(a, entries)
          ensures SearchBy(u, Len(), req, entries, ids, limit) == SearchBy(u, Len(), req, entries, a, limit)
        {
          IterationOrderIrrelevant(u, Len(), req, entries, ids, a, limit);
        }
      }
    }
  }

  /** The last part of Search: compact, rank and cut the hits. */
  method RankAndCut(u: Unicode, hits: seq<Hit>, limit: int) returns (out: Outcome)
    ensures out == AnswerOf(u, hits, limit)
  {
    hide SortBy, Compact;
    if |hits| == 0 {
      return Answer([], 0);
    }
    var res := CompactSearchHits(hits);
    var total := |res|;
    res := SortBy(CompareRank(u), res);
    SortByPermutes(CompareRank(u), Compact(hits));
    Permutation(res, Compact(hits));
    if |res| > limit {
      if limit < 0 {
        return Panicked;
      }
      res := res[..limit];
    }
    return Answer(res, total);
  }

  lemma NothingGathered(found: Finding)
    ensures Gather(found, []) == []
  {}

  lemma GatherSnoc(found: Finding, ids: seq<nat>, id: nat)
    ensures Gather(found, ids + [id]) == Gather(found, ids) + AsSeq(found(id))
  {
    GatherConcat(found, ids, [id]);
    assert [id][1..] == [];
  }

  /** The entries that the sequence misses, in some order. */
  lemma Rest(entries: map<nat, IndexEntry>, ids: seq<nat>) returns (rest: seq<nat>)
    ensures NoDuplicates(rest) && forall id :: id in rest <==> id in entries && id !in ids
    ensures ids == [] ==> Enumerates(rest, entries)
  {
    var todo := set id | id in entries && id !in ids;
    rest := [];
    while todo != {}
      invariant NoDuplicates(rest)
      invariant forall id :: id in entries && id !in ids <==> id in todo || id in rest
      invariant forall id :: id in todo ==> id !in rest
    {
      var id :| id in todo;
      rest := rest + [id];
      todo := todo - {id};
    }
  }

  lemma Completed(found: Finding, entries: map<nat, IndexEntry>, ids: seq<nat>, rest: seq<nat>)
    returns (order: seq<nat>)
    requires NoDuplicates(ids) && NoDuplicates(rest) && (forall id :: id in ids ==> id in entries)
    requires forall id :: id in rest <==> id in entries && id !in ids
    requires forall id :: id in rest ==> found(id).None?
    ensures Enumerates(order, entries) && Gather(found, order) == Gather(found, ids)
  {
    order := ids + rest;
    GatherConcat(found, ids, rest);
    GatherNone(found, rest);
    BothDistinct(ids, rest);
    assert forall id :: id in order <==> id in ids || id in rest;
  }

  lemma BothDistinct(a: seq<nat>, b: seq<nat>)
    requires NoDuplicates(a) && NoDuplicates(b) && forall x :: x in a ==> x !in b
    ensures NoDuplicates(a + b)
  {
    forall i, j | 0 <= i < |a| && 0 <= j < |b| ensures a[i] != b[j] {
      assert a[i] in a && b[j] in b;
    }
  }

  lemma {:induction false} GatherNone(found: Finding, ids: seq<nat>)
    requires forall id :: id in ids ==> found(id).None?
    ensures Gather(found, ids) == []
  {
    if ids != [] { GatherNone(found, ids[1..]); }
  }

  // ------------------------------------------------------------------ what a search answers

  /** The hits of a query are exactly the entries in which every query word shares its first `min` runes with a
      word of the path, every exact phrase occurs in the lower-case path, and no excluded phrase does. */
  lemma ScanIsExact(u: Unicode, len: Lengths, search: string, entries: map<nat, IndexEntry>, id: nat)
    requires u.Standard() && id in entries
    ensures var req, path := Parse(u, search, len.min), entries[id].path;
            Passes(u, len, req, path) <==>
              && (forall w :: w in req.words ==>
                 len.min <= len.max && len.min <= |w| && SharesStart(w, len.min, Split(u, path, len.min)))
              && (forall p :: p in req.exactMatches ==> Contains(u.Lower(path), p))
              && (forall p :: p in req.toExclude ==> !Contains(u.Lower(path), p))
  {
    hide Parse, WordPoints, Split;
    var req, path := Parse(u, search, len.min), entries[id].path;
    forall w | w in req.words
      ensures |w| >= len.min
      ensures WordPoints(u, len, w, path) > 0 <==>
              len.min <= len.max && SharesStart(w, len.min, Split(u, path, len.min))
    {
      ParsedWordsAreNormal(u, len, search, w);
      MatchIffSharedStart(u, len, w, path);
    }
    if req.words != [] { assert req.words[0] in req.words; }
  }

  /** A hit of a query with words scores the sum over the words of how much of them, between `min` and `max` runes,
      begins a word of its path; at least one point a word, and all there are exactly if every word cut to `max`
      begins one. */
  lemma ScoreIsExact(u: Unicode, len: Lengths, search: string, path: string)
    requires u.Standard() && Parse(u, search, len.min).words != [] && Passes(u, len, Parse(u, search, len.min), path)
    ensures var req, vs := Parse(u, search, len.min), Split(u, path, len.min);
            var points := TotalGain(len, req.words, vs);
            && ScoreOf(u, len, req, path) == Finite(points) && |req.words| <= points <= MaxGain(len, req.words)
            && (points == MaxGain(len, req.words) <==>
                  forall w :: w in req.words ==> 0 <= Min(len.max, |w|) && SharesStart(w, Min(len.max, |w|), vs))
  {
    hide Parse, WordPoints, Split, TotalGain, MaxGain, Points;
    var req := Parse(u, search, len.min);
    forall w | w in req.words ensures NormalWord(u, len, w) && WordPoints(u, len, w, path) > 0 {
      ParsedWordsAreNormal(u, len, search, w);
    }
    ScoreClosedForm(u, len, req.words, path);
    ScoreBounds(u, len, req.words, path);
  }

  /** Any two iteration orders give the same outcome. */
  lemma IterationOrderIrrelevant(u: Unicode, len: Lengths, req: Request, entries: map<nat, IndexEntry>,
                                 a: seq<nat>, b: seq<nat>, limit: int)
    requires DistinctEntries(entries) && Enumerates(a, entries) && Enumerates(b, entries)
    ensures SearchBy(u, len, req, entries, a, limit) == SearchBy(u, len, req, entries, b, limit)
  {
    hide Passes, AnswerTo, ScoreOf;
    AnyOrderAnswers(u, req, FoundByPath(u, len, req, entries), entries, a, b, limit);
  }

  /** A search panics if and only if the limit is negative and there is a hit.  Otherwise the total is the number of
      hits that compaction keeps, whatever the limit; at most the limit of them are returned, all if it is not less
      than the total; and a smaller limit returns the first of what a larger one returns. */
  lemma LimitCutsTheRanking(u: Unicode, hits: seq<Hit>, limit: int, larger: int)
    requires limit <= larger
    ensures AnswerOf(u, hits, limit) == Panicked <==> limit < 0 && hits != []
    ensures 0 <= limit ==>
              var a, b := AnswerOf(u, hits, limit), AnswerOf(u, hits, larger);
              && a.Answer? && b.Answer? && a.total == b.total == |Compact(hits)|
              && |a.hits| == Scoring.Min(limit, a.total) && a.hits <= b.hits
              && (a.total <= limit ==> multiset(a.hits) == multiset(Compact(hits)))
  {
    hide SortBy, Compact;
    SortByPermutes(CompareRank(u), Compact(hits));
    Permutation(Ranked(u, hits), Compact(hits));
    if hits != [] {
      SomethingIsKept(hits);
    } else {
      CompactOfNothing();
    }
  }

  lemma CompactOfNothing()
    ensures Compact([]) == []
  {}

  /** Whatever is found, in whatever order, and also if paths are repeated: a request without words, phrases and
      exclusions has no hits.  Any other one panics if and only if the limit is negative and there is a finding;
      otherwise the total does not depend on the limit, a smaller limit returns the first of what a larger one returns,
      and a limit that is not less than the total returns what compaction keeps. */
  lemma OutcomeOfSearch(u: Unicode, req: Request, found: Finding, ids: seq<nat>, limit: int, larger: int)
    requires limit <= larger
    ensures !HasTerms(req) ==>
              AnswerTo(u, req, found, ids, limit) == AnswerTo(u, req, found, ids, larger) == Answer([], 0)
    ensures AnswerTo(u, req, found, ids, limit) == Panicked <==>
            limit < 0 && HasTerms(req) && exists id :: id in ids && found(id).Some?
    ensures 0 <= limit && HasTerms(req) ==>
              var a, b := AnswerTo(u, req, found, ids, limit), AnswerTo(u, req, found, ids, larger);
              && a.Answer? && b.Answer? && a.total == b.total == |Compact(Gather(found, ids))|
              && |a.hits| == Scoring.Min(limit, a.total) && a.hits <= b.hits
              && (a.total <= limit ==> multiset(a.hits) == multiset(Compact(Gather(found, ids))))
  {
    hide AnswerOf, Gather, Compact;
    var hits := Gather(found, ids);
    LimitCutsTheRanking(u, hits, limit, larger);
    if hits != [] {
      assert hits[0] in hits;
      InGather(found, ids, hits[0]);
    } else if id :| id in ids && found(id).Some? {
      InGather(found, ids, found(id).value);
    }
  }

  /** So of two searches with one order of iteration the one with the smaller limit returns the first hits of the other,
      and the same total. */
  lemma LimitCutsTheAnswer(u: Unicode, f: Fields, req: Request, ids: seq<nat>, limit: nat, larger: nat)
    requires limit <= larger
    ensures var a, b := SearchByLists(u, f, req, ids, limit), SearchByLists(u, f, req, ids, larger);
            && a.Answer? && b.Answer? && a.total == b.total
            && |a.hits| == Scoring.Min(limit, a.total) && a.hits <= b.hits
    ensures var a := SearchBy(u, f.len, req, f.entries, ids, limit);
            var b := SearchBy(u, f.len, req, f.entries, ids, larger);
            && a.Answer? && b.Answer? && a.total == b.total
            && |a.hits| == Scoring.Min(limit, a.total) && a.hits <= b.hits
  {
    hide AnswerTo, Gather, Compact;
    OutcomeOfSearch(u, req, FoundByLists(u, f, req), ids, limit, larger);
    OutcomeOfSearch(u, req, FoundByPath(u, f.len, req, f.entries), ids, limit, larger);
  }

  lemma {:induction false} CutIsPart(u: Unicode, hits: seq<Hit>, limit: int, h: Hit)
    requires AnswerOf(u, hits, limit).Answer? && h in AnswerOf(u, hits, limit).hits
    ensures h in hits
  {
    hide SortBy, Compact;
    var c, r := Compact(hits), Ranked(u, hits);
    SortByPermutes(CompareRank(u), c);
    Permutation(c, r);
    assert h in r;
    CompactIsPart(hits, h);
  }

  lemma AnswersAreFound(u: Unicode, req: Request, found: Finding, ids: seq<nat>, limit: int, h: Hit)
    requires var out := AnswerTo(u, req, found, ids, limit); out.Answer? && h in out.hits
    ensures exists id :: id in ids && found(id) == Some(h)
  {
    hide AnswerOf, Gather;
    CutIsPart(u, Gather(found, ids), limit, h);
    InGather(found, ids, h);
  }

  /** The answer to a request by the lists of an index is what a caller expects of one. */
  lemma ListsAnswer(u: Unicode, f: Fields, req: Request, ids: seq<nat>, limit: int)
    requires Enumerates(ids, f.entries)
    ensures IsAnswer(u, f, req, limit, SearchByLists(u, f, req, ids, limit))
  {
    hide PassesListed, PointsListed, AnswerTo, Compact, Gather;
    var found := FoundByLists(u, f, req);
    var out := AnswerTo(u, req, found, ids, limit);
    OutcomeOfSearch(u, req, found, ids, limit, limit);
    if limit < 0 && out.Answer? { NegativeLimit(u, req, found, ids, limit); }
    forall h | out.Answer? && h in out.hits
      ensures exists id :: id in f.entries && PassesListed(u, f, req, id) && IsHitOf(u, f, req, h, id)
    {
      AnswersAreFound(u, req, found, ids, limit, h);
      var id :| id in ids && found(id) == Some(h);
    }
  }

  lemma NegativeLimit(u: Unicode, req: Request, found: Finding, ids: seq<nat>, limit: int)
    requires limit < 0 && AnswerTo(u, req, found, ids, limit).Answer?
    ensures AnswerTo(u, req, found, ids, limit) == Answer([], 0)
  {
    hide Gather, Compact, SortBy;
    SortByPermutes(CompareRank(u), Compact(Gather(found, ids)));
  }

  /** Nothing is invented and nothing is lost: the ranking holds exactly the hits that compaction keeps. */
  lemma RankingIsPermutation(u: Unicode, hits: seq<Hit>)
    requires DistinctPaths(hits)
    ensures forall h :: h in Ranked(u, hits) <==> h in hits && !Covered(hits, h)
    ensures DistinctPaths(Ranked(u, hits))
  {
    hide SortBy, Compact;
    var c, r := Compact(hits), Ranked(u, hits);
    CompactIsExact(hits);
    SortByPermutes(CompareRank(u), c);
    assert NoDuplicates(c);
    Permutation(c, r);
    forall i, j | 0 <= i < j < |r| ensures r[i].path != r[j].path {
      assert r[i] in c && r[j] in c && r[i] != r[j];
    }
  }

  /** How the ranking compares the names of two hits. */
  function CompareNames(u: Unicode, g: Hit, h: Hit): int {
    CompareByName(u, Named(g.path, g.isDir), Named(h.path, h.isDir))
  }

  /** Where the comparison of names is transitive, as it is on orderly names and on names that pad their numbers in one
      way, the ranking is sorted by descending score and then by the natural order of names. */
  lemma RankingIsSorted(u: Unicode, hits: seq<Hit>)
    requires DistinctPaths(hits)
    requires forall x, y, z ::
               && x in hits && y in hits && z in hits
               && CompareNames(u, x, y) <= 0 && CompareNames(u, y, z) <= 0 ==>
                 CompareNames(u, x, z) <= 0
    ensures var r := Ranked(u, hits);
            forall i, j :: 0 <= i < j < |r| ==>
              && CompareScore(r[i].score, r[j].score) >= 0
              && (r[i].score == r[j].score ==> CompareNames(u, r[i], r[j]) <= 0)
  {
    hide SortBy, Compact, CompareByName;
    var c, cmp := Compact(hits), CompareRank(u);
    CompactIsExact(hits);
    forall x, y | x in c && y in c ensures cmp(x, y) < 0 <==> cmp(y, x) > 0 {
      NamesAreAntisymmetric(u, Named(x.path, x.isDir), Named(y.path, y.isDir));
    }
    forall x, y, z | x in c && y in c && z in c && cmp(x, y) <= 0 && cmp(y, z) <= 0 ensures cmp(x, z) <= 0 {
      assert x.score == y.score == z.score ==> CompareNames(u, x, y) <= 0 && CompareNames(u, y, z) <= 0;
    }
    SortBySorted(cmp, c);
    var r := Ranked(u, hits);
    assert forall i, j :: 0 <= i < j < |r| ==> cmp(r[i], r[j]) <= 0;
  }

  /** Directory paths end with '/', as the listing makes them. */
  ghost predicate DirsEndWithSlash(entries: map<nat, IndexEntry>) {
    forall id :: id in entries && entries[id].isDir ==>
      entries[id].path != "" && entries[id].path[|entries[id].path| - 1] == '/'
  }

  /** A directory and a file never have one path. */
  ghost predicate KindsAgree(entries: map<nat, IndexEntry>) {
    forall i, j :: i in entries && j in entries && entries[i].path == entries[j].path ==>
      entries[i].isDir == entries[j].isDir
  }

  /** In every search a hit below shown directories is shown if and only if its score is strictly higher than that
      of each of them: scores never fall on the way down the tree. */
  lemma ShownIffStrictlyBetterThanShown(u: Unicode, len: Lengths, req: Request, entries: map<nat, IndexEntry>,
                                        ids: seq<nat>, h: Hit)
    requires u.Standard() && KindsAgree(entries) && DirsEndWithSlash(entries) && Enumerates(ids, entries)
    requires h in Scan(u, len, req, entries, ids)
    ensures var shown := Ranked(u, Scan(u, len, req, entries, ids));
            h in shown <==>
            forall d :: d in shown && d != h && d.isDir && d.path <= h.path ==> CompareScore(d.score, h.score) < 0
  {
    hide Scan, Passes, Compact, SortBy, Points;
    var hits := Scan(u, len, req, entries, ids);
    forall d, g | d in hits && g in hits
      ensures d.path == g.path ==> d.isDir == g.isDir
      ensures d.isDir && d.path <= g.path ==> CompareScore(d.score, g.score) <= 0
    {
      InScan(u, len, req, entries, ids, d);
      InScan(u, len, req, entries, ids, g);
      if d.isDir && d.path <= g.path { ScoresGrowDownTheTree(u, len, req.words, d.path, g.path); }
    }
    ShownIffStrictlyBetter(hits, h);
    RankedAreKept(u, hits);
  }

  lemma RankedAreKept(u: Unicode, hits: seq<Hit>)
    ensures forall h :: h in Ranked(u, hits) <==> h in Compact(hits)
  {
    hide SortBy, Compact;
    var c := Compact(hits);
    SortByPermutes(CompareRank(u), c);
    Permutation(c, Ranked(u, hits));
  }
}
