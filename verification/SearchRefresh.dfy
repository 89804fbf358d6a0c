/** The search service of search/service.go, run by one goroutine at a time: loading, refreshing, saving, searching. */
module SearchRefresh {
  import opened Wrappers
  import opened Text
  import opened Words
  import opened Query
  import opened Entries
  import opened Scoring
  import opened Compaction
  import opened PrefixIndex
  import opened AllFiles

  /** The index file: missing, truncated or not decodable, or whole. */
  datatype File = Missing | Broken | Saved(index: Fields, createdAt: int)

  /** Opening, writing or closing the file can fail; in the last case its content is complete. */
  datatype SaveOutcome = SaveWorks | CreateFails | WriteFails | CloseFails

  /** What the backend and the file system do during one refresh, and the time at which the index is built. */
  datatype Attempt = Attempt(fetched: Option<seq<DirEntry>>, save: SaveOutcome, now: int)
  {
    predicate Succeeds() {
      fetched.Some? && save.SaveWorks?
    }
  }

  const TRIES: nat := 6
  const REFRESH_INTERVAL: int := 24 * 60 * 60

  /** A complete index over this one listing. */
  ghost predicate IsIndexOf(u: Unicode, f: Fields, list: seq<DirEntry>) {
    Built(u, f.len, list, |list|, f.entries, f.prefixes) && forall p :: StrictlyIncreasing(Ids(f.prefixes, p))
  }

  /** The hit shows the path, the kind, the length and the time of a listed entry. */
  ghost predicate ShowsOneOf(h: Hit, list: seq<DirEntry>) {
    exists e :: e in list && h.path == e.url && h.isDir == e.isDir && h.size == e.size && h.modTime == e.modTime
  }

  lemma HitsAreListed(u: Unicode, f: Fields, req: Request, limit: int, out: Outcome, list: seq<DirEntry>)
    requires f.entries == EntriesOf(list) && IsAnswer(u, f, req, limit, out)
    ensures out.Answer? ==> forall h :: h in out.hits ==> ShowsOneOf(h, list)
  {
    hide PassesListed, PointsListed, Last;
    if out.Answer? {
      forall h | h in out.hits ensures ShowsOneOf(h, list) {
        var id :| id in f.entries && PassesListed(u, f, req, id) && IsHitOf(u, f, req, h, id);
        assert list[Last(|list|, id)] in list;
      }
    }
  }

  /** So over what the backend lists, a hit shows the path of an item, absolute and with a '/' at its end for a
      directory, its length unless it is a directory, its kind and its time. */
  lemma HitsShowItems(h: Hit, items: seq<AllFiles.Item>) returns (v: AllFiles.Item)
    requires Relative(items) && ShowsOneOf(h, ListedAll(items))
    ensures v in items && h.path == "/" + v.path + (if v.isDir then "/" else "")
    ensures h.isDir == v.isDir && h.size == (if v.isDir then 0 else v.size) && h.modTime == v.modTime
  {
    hide Listed, IsRelative;
    var e :| e in ListedAll(items) && h.path == e.url && h.isDir == e.isDir && h.size == e.size
      && h.modTime == e.modTime;
    var i :| 0 <= i < |items| && e == Listed(items[i]);
    v := items[i];
    FieldsOfListed(v);
  }

  class Service {
    const u: Unicode
    const len: Lengths
    var index: Index?
    var createdAt: int
    var file: File
    ghost var listing: seq<DirEntry>
    ghost var savedListing: seq<DirEntry>

    ghost predicate Valid()
      reads this, index
    {
      && (index != null ==> index.u == u && index.Len() == len && index.Sound() && IsIndexOf(u, index.Snap(), listing))
      && (file.Saved? ==> IsIndexOf(u, file.index, savedListing))
    }

    /** A process that starts with the file of an earlier one. */
    constructor (u: Unicode, len: Lengths, file: File, ghost savedListing: seq<DirEntry>)
      requires file.Saved? ==> IsIndexOf(u, file.index, savedListing)
      ensures Valid() && index == null
      ensures this.u == u && this.len == len && this.file == file && this.savedListing == savedListing
    {
      this.u, this.len, this.file := u, len, file;
      this.savedListing, listing := savedListing, [];
      index, createdAt := null, 0;
    }

    /** Memory and disk hold the same index. */
    ghost predicate InSync()
      reads this, index
    {
      index != null && file == Saved(index.Snap(), createdAt)
    }

    method SaveIndexToCache(i: Index, now: int, save: SaveOutcome) returns (ok: bool)
      modifies this`file
      ensures ok == save.SaveWorks?
      ensures file == match save
                      case SaveWorks => Saved(i.Snap(), now)
                      case CreateFails => old(file)
                      case WriteFails => Broken
                      case CloseFails => Saved(i.Snap(), now)
    {
      if save.CreateFails? {
        return false;
      }
      file := Broken;
      if save.WriteFails? {
        return false;
      }
      file := Saved(i.Snap(), now);
      return !save.CloseFails?;
    }

    method BuildIndex(list: seq<DirEntry>) returns (i: Index)
      ensures fresh(i) && i.u == u && i.Len() == len && i.Sound() && IsIndexOf(u, i.Snap(), list)
    {
      hide Built;
      i := new Index(u, list, len.min, len.max);
    }

    /** A refresh that succeeds leaves memory and disk with the same complete index over the fetched listing; one that
        fails leaves memory as it was, and the file too unless writing or closing it failed. */
    method RefreshIndex(a: Attempt) returns (ok: bool)
      requires Valid()
      modifies this
      ensures Valid() && ok == a.Succeeds()
      ensures ok ==> InSync() && fresh(index) && listing == savedListing == a.fetched.value && createdAt == a.now
      ensures !ok ==> index == old(index) && listing == old(listing) && createdAt == old(createdAt)
      ensures !ok && (a.fetched.None? || a.save.CreateFails?) ==> file == old(file) && savedListing == old(savedListing)
      ensures a.fetched.Some? && a.save.WriteFails? ==> file == Broken
      ensures a.fetched.Some? && a.save.CloseFails? ==>
              file.Saved? && file.createdAt == a.now && savedListing == a.fetched.value
    {
      hide IsIndexOf, SoundFields, LowerOk;
      if a.fetched.None? {
        return false;
      }
      var list := a.fetched.value;
      var i := BuildIndex(list);
      ok := SaveIndexToCache(i, a.now, a.save);
      if file.Saved? && !a.save.CreateFails? {
        savedListing := list;
      }
      if ok {
        index, createdAt, listing := i, a.now, list;
      }
    }

    /** The file holds an index that this process accepts. */
    predicate Loadable()
      reads this
    {
      file.Saved? && file.index.len == len
    }

    method LoadIndexFromCache() returns (ok: bool)
      requires Valid() && index == null
      modifies this`index, this`createdAt, this`listing
      ensures Valid() && ok == Loadable()
      ensures if ok then InSync() && fresh(index) && listing == savedListing else index == null
    {
      if !file.Saved? || file.index.len != len {
        return false;
      }
      var s := file.index;
      index := new Index.Decoded(u, s);
      createdAt, listing := file.createdAt, savedListing;
      return true;
    }

    /** Uses the file if it can; otherwise refreshes until it works, six times at most. */
    method Start(attempts: seq<Attempt>) returns (ok: bool, tries: nat)
      requires Valid() && index == null && |attempts| >= TRIES
      modifies this
      ensures Valid() && (ok ==> InSync()) && (!ok ==> index == null)
      ensures old(Loadable()) ==> ok && tries == 0 && file == old(file) && listing == savedListing == old(savedListing)
      ensures !old(Loadable()) ==>
                && 1 <= tries <= 6
                && (forall j :: 0 <= j < tries - 1 ==> !attempts[j].Succeeds())
                && ok == attempts[tries - 1].Succeeds()
                && (if ok then listing == attempts[tries - 1].fetched.value else tries == 6)
    {
      tries := 0;
      ok := LoadIndexFromCache();
      if ok {
        return;
      }
      var i := 1;
      while true
        invariant 1 <= i <= TRIES && Valid() && index == null
        invariant forall j :: 0 <= j < i - 1 ==> !attempts[j].Succeeds()
        decreases TRIES - i
      {
        ok := RefreshIndex(attempts[i - 1]);
        tries := i;
        if ok {
          return;
        }
        if i > 5 {
          return;
        }
        i := i + 1;
      }
    }

    /** One tick of the background refresh: nothing happens within a day of the creation of the index. */
    method Tick(now: int, a: Attempt)
      requires Valid() && index != null
      modifies this
      ensures Valid() && index != null
      ensures var due := now - old(createdAt) >= 86_400;
              if due && a.Succeeds() then InSync() && listing == a.fetched.value && createdAt == a.now
              else index == old(index) && listing == old(listing) && createdAt == old(createdAt)
      ensures now - old(createdAt) < 86_400 ==> file == old(file)
    {
      if now - createdAt < REFRESH_INTERVAL {
        return;
      }
      var _ := RefreshIndex(a);
    }

    /** The answer is that of a plain scan of the one listing that the index was built from, if its ids agree: in some
        order or, with distinct paths, in any.  In any case it is what the lists of the index say. */
    method Search(search: string, limit: int) returns (out: Option<Outcome>)
      requires Valid()
      ensures out.None? <==> index == null
      ensures index != null ==> exists ids ::
                Enumerates(ids, EntriesOf(listing))
                  && out == Some(SearchByLists(u, index.Snap(), Parse(u, search, len.min), ids, limit))
      ensures index != null && IdsAgree(u, len, listing) ==> exists ids ::
                Enumerates(ids, EntriesOf(listing))
                  && out == Some(SearchBy(u, len, Parse(u, search, len.min), EntriesOf(listing), ids, limit))
      ensures index != null && IdsAgree(u, len, listing) && DistinctEntries(EntriesOf(listing)) ==>
                forall ids :: Enumerates(ids, EntriesOf(listing)) ==>
                  out == Some(SearchBy(u, len, Parse(u, search, len.min), EntriesOf(listing), ids, limit))
      ensures index != null ==> IsAnswer(u, index.Snap(), Parse(u, search, len.min), limit, out.value)
      ensures index != null && out.value.Answer? ==> forall h :: h in out.value.hits ==> ShowsOneOf(h, listing)
    {
      hide SearchBy, SearchByLists, Parse, ExactIndex, Built, SoundFields, LowerOk, IdsAgree, IsAnswer, ShowsOneOf;
      if index == null {
        return None;
      }
      BuiltEntries(u, len, listing, index.entries, index.prefixes);
      ExactIffIdsAgree(u, len, listing, index.entries, index.prefixes, index.lowerCasedPaths);
      var answer := index.Search(search, limit);
      HitsAreListed(u, index.Snap(), Parse(u, search, len.min), limit, answer, listing);
      return Some(answer);
    }
  }

  lemma SameListsSameAnswer(u: Unicode, f: Fields, req: Request, a: seq<nat>, b: seq<nat>, limit: int)
    requires DistinctEntries(f.entries) && Enumerates(a, f.entries) && Enumerates(b, f.entries)
    ensures SearchByLists(u, f, req, a, limit) == SearchByLists(u, f, req, b, limit)
  {
    hide AnswerTo, PassesListed;
    AnyOrderAnswers(u, req, FoundByLists(u, f, req), f.entries, a, b, limit);
  }

  /** After a successful refresh a process that starts anew from the file has the same index, and gives the same answers
      if the paths of the listing are distinct; otherwise both answer for some order of its entries. */
  method AnswersSurviveARestart(s: Service, a: Attempt, attempts: seq<Attempt>, search: string, limit: int)
    returns (before: Option<Outcome>, after: Option<Outcome>)
    requires s.Valid() && a.Succeeds() && |attempts| >= TRIES
    modifies s
    ensures before.Some? && after.Some?
    ensures DistinctEntries(EntriesOf(a.fetched.value)) ==> after == before
    ensures IdsAgree(s.u, s.len, a.fetched.value) ==> exists ids ::
              Enumerates(ids, EntriesOf(a.fetched.value))
              && after == Some(SearchBy(s.u, s.len, Parse(s.u, search, s.len.min), EntriesOf(a.fetched.value),
                                        ids, limit))
  {
    hide IsIndexOf, SearchBy, SearchByLists, EntriesOf, Parse, SoundFields, LowerOk, IdsAgree;
    ghost var list, req := a.fetched.value, Parse(s.u, search, s.len.min);
    var _ := s.RefreshIndex(a);
    before := s.Search(search, limit);
    ghost var f := s.index.Snap();
    ghost var x :| Enumerates(x, EntriesOf(list)) && before == Some(SearchByLists(s.u, f, req, x, limit));
    var restarted := new Service(s.u, s.len, s.file, s.savedListing);
    var _, _ := restarted.Start(attempts);
    after := restarted.Search(search, limit);
    ghost var y :| Enumerates(y, EntriesOf(list)) && after == Some(SearchByLists(s.u, f, req, y, limit));
    if DistinctEntries(EntriesOf(list)) {
      IndexHasEntries(s.u, f, list);
      SameListsSameAnswer(s.u, f, req, x, y, limit);
    }
  }

  lemma IndexHasEntries(u: Unicode, f: Fields, list: seq<DirEntry>)
    requires IsIndexOf(u, f, list)
    ensures f.entries == EntriesOf(list)
  {
    BuiltEntries(u, f.len, list, f.entries, f.prefixes);
  }
}
