/** The listing that the search index is built from: GetAllFiles of rclone/rclone.go, with EnsurePrefix and
    EnsureSuffix of pkg/misc/misc.go and `path.Base`; and what searches over such listings may rely on. */
module AllFiles {
  import opened Text
  import opened Query
  import opened Scoring
  import opened Compaction
  import opened Entries
  import opened PrefixIndex

  /** An entry of the backend's answer. */
  datatype Item = Item(path: string, isDir: bool, size: int, modTime: int)

  function EnsurePrefix(s: string, prefix: string): string {
    if prefix <= s then s else prefix + s
  }

  function EnsureSuffix(s: string, suffix: string): string {
    if |suffix| <= |s| && s[|s| - |suffix|..] == suffix then s else s + suffix
  }

  function TrimSlashes(p: string): string {
    if p != "" && p[|p| - 1] == '/' then TrimSlashes(p[..|p| - 1]) else p
  }

  /** What follows the last '/'. */
  function LastElement(p: string): string {
    if p == "" || p[|p| - 1] == '/' then "" else LastElement(p[..|p| - 1]) + [p[|p| - 1]]
  }

  /** `path.Base`. */
  function Base(p: string): string {
    if p == "" then "."
    else if TrimSlashes(p) == "" then "/"
    else LastElement(TrimSlashes(p))
  }

  function Url(v: Item): string {
    var p := EnsurePrefix(v.path, "/");
    if v.isDir then EnsureSuffix(p, "/") else p
  }

  function Listed(v: Item): DirEntry {
    DirEntry(Url(v), Base(Url(v)), v.isDir, if v.isDir then 0 else v.size, v.modTime)
  }

  function ListedAll(items: seq<Item>): seq<DirEntry> {
    seq(|items|, i requires 0 <= i < |items| => Listed(items[i]))
  }

  method GetAllFiles(items: seq<Item>) returns (list: seq<DirEntry>)
    ensures list == ListedAll(items)
  {
    hide EnsurePrefix, EnsureSuffix, Base;
    list := [];
    for i := 0 to |items|
      invariant |list| == i && forall k :: 0 <= k < i ==> list[k] == Listed(items[k])
    {
      var v := items[i];
      v := v.(path := EnsurePrefix(v.path, "/"));
      if v.isDir {
        v := v.(path := EnsureSuffix(v.path, "/"), size := 0);
      }
      list := list + [DirEntry(v.path, Base(v.path), v.isDir, v.size, v.modTime)];
    }
  }

  /** The backend names an entry by a path relative to its root, without a '/' at either end. */
  predicate IsRelative(p: string) {
    p != "" && p[0] != '/' && p[|p| - 1] != '/'
  }

  ghost predicate Relative(items: seq<Item>) {
    forall v :: v in items ==> IsRelative(v.path)
  }

  /** No path is listed twice. */
  ghost predicate Distinct(items: seq<Item>) {
    forall i, j :: 0 <= i < j < |items| ==> items[i].path != items[j].path
  }

  lemma UrlOfRelative(v: Item)
    requires IsRelative(v.path)
    ensures Url(v) == "/" + v.path + if v.isDir then "/" else ""
    ensures Url(v)[|Url(v)| - 1] == '/' <==> v.isDir
    ensures v.path == Url(v)[1..|v.path| + 1]
  {}

  lemma PrefixEnsured(s: string)
    ensures var p := EnsurePrefix(s, "/");
            p != "" && p[0] == '/' && (s != "" && s[0] == '/' ==> p == s)
  {}

  lemma SuffixEnsured(s: string)
    ensures var p := EnsureSuffix(s, "/");
            p != "" && p[|p| - 1] == '/' && (s != "" ==> p[0] == s[0])
            && (s != "" && s[|s| - 1] == '/' ==> p == s)
  {}

  lemma UrlIsAbsolute(v: Item)
    ensures Url(v) != "" && Url(v)[0] == '/' && (v.isDir ==> Url(v)[|Url(v)| - 1] == '/')
    ensures v.path != "" && v.path[0] == '/' && (v.isDir ==> v.path[|v.path| - 1] == '/') ==> Url(v) == v.path
  {
    PrefixEnsured(v.path);
    SuffixEnsured(EnsurePrefix(v.path, "/"));
    hide EnsurePrefix, EnsureSuffix;
  }

  /** The fields of a listed entry: an absolute path, with a '/' at its end for a directory; no length for a directory;
      and the kind and the time of the item.  A path that is absolute already, or has its '/' already, stays as it
      is. */
  lemma FieldsOfListed(v: Item)
    ensures var e := Listed(v);
            && e.isDir == v.isDir && e.modTime == v.modTime && e.size == (if v.isDir then 0 else v.size)
            && (IsRelative(v.path) ==> e.url == "/" + v.path + if v.isDir then "/" else "")
            && (v.path != "" && v.path[0] == '/' && (v.isDir ==> v.path[|v.path| - 1] == '/') ==> e.url == v.path)
            && e.url != "" && e.url[0] == '/' && (v.isDir ==> e.url[|e.url| - 1] == '/')
  {
    UrlIsAbsolute(v);
    if IsRelative(v.path) { UrlOfRelative(v); }
    hide Base, Url, IsRelative;
  }

  /** Different entries have different URLs, also a directory and a file. */
  lemma UrlDetermines(v: Item, w: Item)
    requires IsRelative(v.path) && IsRelative(w.path) && Url(v) == Url(w)
    ensures v.path == w.path && v.isDir == w.isDir
  {
    hide Url;
    UrlOfRelative(v);
    UrlOfRelative(w);
  }

  /** The text ends with the element, which has no '/', and before it there is a '/' or nothing. */
  predicate EndsWithElement(p: string, e: string) {
    && |e| <= |p| && p == p[..|p| - |e|] + e && '/' !in e
    && (p != "" && p[|p| - 1] != '/' ==> e != "")
    && (|e| < |p| ==> p[|p| - |e| - 1] == '/')
  }

  lemma OneRuneMore(q: string, d: string, c: char)
    requires EndsWithElement(q, d) && c != '/'
    ensures EndsWithElement(q + [c], d + [c])
  {
    var p, e := q + [c], d + [c];
    assert p[..|p| - |e|] == q[..|q| - |d|];
    assert p[..|p| - |e|] + e == q[..|q| - |d|] + d + [c];
    assert |e| < |p| ==> p[|p| - |e| - 1] == q[|q| - |d| - 1];
  }

  lemma LastElementIs(p: string)
    ensures p == "" || p[|p| - 1] == '/' ==> LastElement(p) == ""
    ensures p != "" && p[|p| - 1] != '/' ==> LastElement(p) == LastElement(p[..|p| - 1]) + [p[|p| - 1]]
  {}

  lemma {:induction false} LastElementSplits(p: string)
    ensures EndsWithElement(p, LastElement(p))
  {
    hide LastElement;
    LastElementIs(p);
    if p != "" && p[|p| - 1] != '/' {
      var q, c := p[..|p| - 1], p[|p| - 1];
      LastElementSplits(q);
      OneRuneMore(q, LastElement(q), c);
      assert p == q + [c];
    }
  }

  lemma HasMore(p: string, a: string, e: string)
    requires p == a + e && p != "" && p[0] !in e
    ensures a != ""
  {
    assert "" + e == e;
  }

  /** The leaf of an entry is what follows the last '/' of its path: it is not empty, has no '/', and together with its
      directory it makes up the URL. */
  lemma LeafIsLastElement(v: Item) returns (dir: string)
    requires IsRelative(v.path)
    ensures var e := Listed(v);
            e.leaf != "" && '/' !in e.leaf && e.url == dir + "/" + e.leaf + if v.isDir then "/" else ""
  {
    UrlOfRelative(v);
    BaseOfUrl(v);
    hide Url, Base, LastElement, IsRelative, EndsWithElement;
    var p := "/" + v.path;
    assert p[0] == '/' && p[|p| - 1] == v.path[|v.path| - 1];
    LastElementSplits(p);
    dir := ElementOfAbsolute(p, LastElement(p));
  }

  lemma ElementOfAbsolute(p: string, e: string) returns (dir: string)
    requires p != "" && p[0] == '/' && p[|p| - 1] != '/' && EndsWithElement(p, e)
    ensures p == dir + "/" + e && e != "" && '/' !in e
  {
    HasMore(p, p[..|p| - |e|], e);
    dir := p[..|p| - |e| - 1];
    assert p[..|p| - |e|] == dir + "/";
  }

  lemma NoSlashToTrim(p: string)
    requires p != "" && p[|p| - 1] != '/'
    ensures TrimSlashes(p) == TrimSlashes(p + "/") == p
  {
    assert (p + "/")[..|p + "/"| - 1] == p;
  }

  lemma BaseOfUrl(v: Item)
    requires IsRelative(v.path)
    ensures Base(Url(v)) == LastElement("/" + v.path)
  {
    hide LastElement, Url;
    UrlOfRelative(v);
    var p := "/" + v.path;
    assert p[|p| - 1] == v.path[|v.path| - 1];
    NoSlashToTrim(p);
    assert p + "" == p;
  }

  lemma DirUrl(v: Item)
    requires v.isDir
    ensures Url(v) != "" && Url(v)[|Url(v)| - 1] == '/'
  {}

  lemma ListedEntry(items: seq<Item>, id: nat)
    ensures id in EntriesOf(ListedAll(items)) <==> id < |items| && id < ID_LIMIT
    ensures id in EntriesOf(ListedAll(items)) ==>
              var v, e := items[Last(|items|, id)], EntriesOf(ListedAll(items))[id];
              IdOf(Last(|items|, id)) == id && e.path == Url(v) && e.isDir == v.isDir
  {
    hide Url, Base;
    if id < ID_LIMIT { SmallIds(id); }
  }

  /** For every answer of the backend the entries of an index over the listing are as searches need them: the paths of
      directories end with '/', those of files do not, and if no path is listed twice all paths differ. */
  lemma ListingFeedsSearch(items: seq<Item>)
    ensures DirsEndWithSlash(EntriesOf(ListedAll(items)))
    ensures Relative(items) ==> KindsAgree(EntriesOf(ListedAll(items)))
    ensures Relative(items) && Distinct(items) ==> DistinctEntries(EntriesOf(ListedAll(items)))
  {
    hide EntriesOf, ListedAll, Url, IsRelative;
    var list := ListedAll(items);
    var es := EntriesOf(list);
    forall id | id in es ensures id < |items| && id < ID_LIMIT { ListedEntry(items, id); }
    forall id | id in es && es[id].isDir ensures es[id].path != "" && es[id].path[|es[id].path| - 1] == '/' {
      ListedEntry(items, id);
      DirUrl(items[Last(|items|, id)]);
    }
    if Relative(items) {
      forall i, j | i in es && j in es && es[i].path == es[j].path
        ensures es[i].isDir == es[j].isDir && (Distinct(items) ==> i == j)
      {
        ListedEntry(items, i);
        ListedEntry(items, j);
        UrlDetermines(items[Last(|items|, i)], items[Last(|items|, j)]);
      }
    }
  }

  /** So in every search over what the backend lists, a hit below shown directories is shown if and only if its score is
      strictly higher than that of each of them; also if paths are listed more than once. */
  lemma ShownInListing(u: Unicode, len: Lengths, req: Request, items: seq<Item>, ids: seq<nat>, h: Hit)
    requires u.Standard() && Relative(items) && Enumerates(ids, EntriesOf(ListedAll(items)))
    requires h in Scan(u, len, req, EntriesOf(ListedAll(items)), ids)
    ensures var shown := Ranked(u, Scan(u, len, req, EntriesOf(ListedAll(items)), ids));
            h in shown <==>
            forall d :: d in shown && d != h && d.isDir && d.path <= h.path ==> CompareScore(d.score, h.score) < 0
  {
    hide EntriesOf, ListedAll, Scan, Ranked;
    ListingFeedsSearch(items);
    ShownIffStrictlyBetterThanShown(u, len, req, EntriesOf(ListedAll(items)), ids, h);
  }
}
