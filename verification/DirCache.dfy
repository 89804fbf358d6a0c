/** Directory listings and their TTL cache: GetDirInfo and getDirInfo of rclone/rclone.go, and rclone/dir_cache.go.

    Listings handed to callers are heap objects that callers sort in place; the cache holds encoded copies. */
module DirCache {
  import opened Order
  import opened Text
  import opened Entries
  import NaturalOrder
  import opened Wrappers

  /** A decoded response of the backend, as a value; also the content of the gob encoding. */
  datatype Listing = Listing(dir: string, entries: seq<DirEntry>)

  /** The backend: what a request for a path that is answered at a time returns; `None` is an error. */
  type Backend = (string, int) -> Option<Listing>

  class DirInfo {
    var dir: string
    var sort: string
    var order: string
    var entries: array<DirEntry>

    /** Decoding: a new object with a new array. */
    constructor (listing: Listing)
      ensures dir == listing.dir && fresh(entries) && entries[..] == listing.entries
    {
      dir, sort, order := listing.dir, "", "";
      var es := listing.entries;
      entries := new DirEntry[|es|](i requires 0 <= i < |es| => es[i]);
    }

    /** Encoding: a copy of the content. */
    function Content(): Listing
      reads this, entries
    {
      Listing(dir, entries[..])
    }
  }

  class CacheItem {
    const ttl: int
    var gobData: Option<Listing>
    var expiresAt: int
    ghost var fetchedAt: int
    ghost var storedAt: int

    constructor (ttl: int)
      ensures this.ttl == ttl && gobData == None
    {
      this.ttl, gobData, expiresAt, fetchedAt, storedAt := ttl, None, 0, 0, 0;
    }

    /** The data is a response of the backend for the path, and expires `ttl` after it was stored. */
    ghost predicate Coherent(backend: Backend, path: string)
      reads this
    {
      gobData.Some? ==> backend(path, fetchedAt) == gobData && fetchedAt <= storedAt && expiresAt == storedAt + ttl
    }

    predicate Servable(now: int)
      reads this
    {
      gobData.Some? && now <= expiresAt
    }

    method LoadLocked(now: int) returns (info: DirInfo?)
      ensures info != null <==> Servable(now)
      ensures info != null ==> fresh(info) && fresh(info.entries) && info.Content() == gobData.value
    {
      if gobData.None? {
        return null;
      }
      if now > expiresAt {
        return null;
      }
      info := new DirInfo(gobData.value);
    }

    method StoreLocked(info: DirInfo, now: int, ghost fetched: int)
      modifies this
      ensures gobData == Some(info.Content()) && expiresAt == now + ttl && fetchedAt == fetched && storedAt == now
    {
      gobData := Some(Listing(info.dir, info.entries[..]));
      expiresAt := now + ttl;
      fetchedAt, storedAt := fetched, now;
    }
  }

  class Cache {
    const ttl: int
    var cache: map<string, CacheItem>

    constructor (ttl: int)
      ensures this.ttl == ttl && cache == map[]
    {
      this.ttl, cache := ttl, map[];
    }

    predicate Enabled() {
      ttl > 0
    }

    /** Every item has the cache's TTL, is coherent for its path, and belongs to one path only. */
    ghost predicate Valid(backend: Backend)
      reads this, cache.Values
    {
      && (forall p :: p in cache ==> cache[p].ttl == ttl && cache[p].Coherent(backend, p))
      && (forall p, q :: p in cache && q in cache && p != q ==> cache[p] != cache[q])
    }

    method Get(path: string) returns (item: CacheItem)
      modifies this
      ensures path in cache && cache[path] == item
      ensures if path in old(cache) then cache == old(cache)
              else cache == old(cache)[path := item] && fresh(item) && item.ttl == ttl && item.gobData == None
    {
      if path !in cache {
        var res := new CacheItem(ttl);
        cache := cache[path := res];
      }
      item := cache[path];
    }
  }

  // ------------------------------------------------------------------ arranging a listing

  function KeyOf(sort: string): (string, SortKey) {
    if sort == "size" then ("size", BySize)
    else if sort == "time" then ("time", ByTime)
    else ("namedirfirst", ByName)
  }

  function Arrange(u: Unicode, sort: string, order: string, entries: seq<DirEntry>): seq<DirEntry> {
    var s := SortBy(Comparator(u, KeyOf(sort).1), entries);
    if order == "desc" then Reverse(s) else s
  }

  /** A returned listing is a permutation of the backend's; with names that can be put in order it is
      sorted by the requested comparator, or sorted the other way round. */
  lemma ArrangedIsSorted(u: Unicode, sort: string, order: string, entries: seq<DirEntry>)
    ensures multiset(Arrange(u, sort, order, entries)) == multiset(entries)
    ensures Sortable(u, entries) ==>
              var r, cmp := Arrange(u, sort, order, entries), Comparator(u, KeyOf(sort).1);
              if order == "desc" then forall i, j :: 0 <= i < j < |r| ==> cmp(r[j], r[i]) <= 0 else Sorted(cmp, r)
  {
    hide Comparator, Sortable, SortBy, Reverse;
    var cmp := Comparator(u, KeyOf(sort).1);
    SortByPermutes(cmp, entries);
    ReverseFacts(SortBy(cmp, entries));
    if Sortable(u, entries) {
      ComparatorIsWeakOrder(u, KeyOf(sort).1, entries);
      SortBySorted(cmp, entries);
    }
  }

  /** Which of two entries a request for this sorting puts first, read in ascending order. */
  ghost predicate InOrder(u: Unicode, sort: string, x: DirEntry, y: DirEntry) {
    var byName := NaturalOrder.CompareNatural(u, x.AsNamed().Name(), y.AsNamed().Name()) <= 0;
    if sort == "size" then
      && (y.isDir ==> x.isDir) && (x.isDir && y.isDir ==> byName)
      && (!x.isDir && !y.isDir ==> x.size <= y.size && (x.size == y.size ==> byName))
    else if sort == "time" then
      && x.modTime <= y.modTime
      && (x.modTime == y.modTime ==> (y.isDir ==> x.isDir) && (x.isDir == y.isDir ==> byName))
    else
      (y.isDir ==> x.isDir) && (x.isDir == y.isDir ==> byName)
  }

  lemma InOrderOf(u: Unicode, sort: string, x: DirEntry, y: DirEntry)
    requires Comparator(u, KeyOf(sort).1)(x, y) <= 0
    ensures InOrder(u, sort, x, y)
  {
    hide NaturalOrder.CompareNatural;
    ComparatorsAreAntisymmetric(u, x, y);
    ComparatorsMean(u, x, y);
    ComparatorsMean(u, y, x);
  }

  /** Every two entries are in order as requested. */
  ghost predicate ArrangedFor(u: Unicode, sort: string, order: string, r: seq<DirEntry>) {
    forall i, j :: 0 <= i < j < |r| ==>
      if order == "desc" then InOrder(u, sort, r[j], r[i]) else InOrder(u, sort, r[i], r[j])
  }

  /** What a reader of a listing with names that can be put in order sees: by name, all directories before all files
      and each group in natural order; by size, the same for directories and then the files by growing size; by time,
      older entries first; and ties by name.  In descending order it is the other way round.  Any other text sorts by
      name. */
  lemma ArrangedGroups(u: Unicode, sort: string, order: string, entries: seq<DirEntry>)
    ensures multiset(Arrange(u, sort, order, entries)) == multiset(entries)
    ensures Sortable(u, entries) ==> ArrangedFor(u, sort, order, Arrange(u, sort, order, entries))
  {
    hide Comparator, Sortable, InOrder, Arrange, KeyOf;
    var r := Arrange(u, sort, order, entries);
    ArrangedIsSorted(u, sort, order, entries);
    if Sortable(u, entries) {
      forall i, j | 0 <= i < j < |r|
        ensures if order == "desc" then InOrder(u, sort, r[j], r[i]) else InOrder(u, sort, r[i], r[j])
      {
        if order == "desc" { InOrderOf(u, sort, r[j], r[i]); } else { InOrderOf(u, sort, r[i], r[j]); }
      }
    }
  }

  /** The names of the sorting and of the order that an answer carries. */
  predicate Labelled(sort: string, order: string, infoSort: string, infoOrder: string) {
    && infoSort == (if sort == "size" then "size" else if sort == "time" then "time" else "namedirfirst")
    && infoOrder == (if order == "desc" then "desc" else "asc")
  }

  /** `slices.Reverse`. */
  method ReverseInPlace(a: array<DirEntry>)
    modifies a
    ensures a[..] == Reverse(old(a[..]))
  {
    hide Reverse;
    var i, j := 0, a.Length - 1;
    while i < j
      invariant 0 <= i <= a.Length && j == a.Length - 1 - i && i <= j + 1
      invariant forall k :: 0 <= k < i ==> a[k] == old(a[a.Length - 1 - k])
      invariant forall k :: j < k < a.Length ==> a[k] == old(a[a.Length - 1 - k])
      invariant forall k :: i <= k <= j ==> a[k] == old(a[k])
    {
      a[i], a[j] := a[j], a[i];
      i, j := i + 1, j - 1;
    }
    ReverseFacts(old(a[..]));
  }

  method ArrangeInPlace(u: Unicode, info: DirInfo, sort: string, order: string)
    modifies info, info.entries
    ensures info.entries == old(info.entries) && info.dir == old(info.dir)
    ensures Labelled(sort, order, info.sort, info.order)
    ensures info.entries[..] == Arrange(u, sort, order, old(info.entries[..]))
    ensures multiset(info.entries[..]) == multiset(old(info.entries[..]))
    ensures Sortable(u, old(info.entries[..])) ==> ArrangedFor(u, sort, order, info.entries[..])
  {
    hide SortBy, Comparator, Reverse, Sortable, ArrangedFor;
    ArrangedGroups(u, sort, order, info.entries[..]);
    info.sort := KeyOf(sort).0;
    SortInPlace(info.entries, Comparator(u, KeyOf(sort).1));
    if order == "desc" {
      info.order := "desc";
      ReverseInPlace(info.entries);
    } else {
      info.order := "asc";
    }
  }

  // ------------------------------------------------------------------ what the cache is for its callers

  /** When one call looks into the cache, gets its response and stores it. */
  datatype Times = Times(now: int, fetched: int, stored: int)

  /** One call of GetDirInfo; `response` is what the backend answers at `t.fetched`. */
  datatype Request = Request(path: string, sort: string, order: string, t: Times, response: Option<Listing>)
  {
    ghost predicate Possible(backend: Backend) {
      t.now <= t.fetched <= t.stored && response == backend(path, t.fetched)
    }
  }

  /** A listing and when it expires.  Callers cannot reach it, so it is a value. */
  datatype Kept = Kept(listing: Listing, expiresAt: int)

  type Store = map<string, Kept>

  /** The listing served from the cache, if any; with no TTL the cache is not used. */
  function Lookup(ttl: int, store: Store, path: string, now: int): Option<Listing> {
    if ttl > 0 && path in store && now <= store[path].expiresAt then Some(store[path].listing) else None
  }

  /** The listing a call works with: the cached one, or else the backend's. */
  function Served(ttl: int, store: Store, q: Request): Option<Listing> {
    Lookup(ttl, store, q.path, q.t.now).GetOr(q.response)
  }

  /** A response is stored for `ttl`. */
  function After(ttl: int, store: Store, q: Request): Store {
    if ttl <= 0 || Lookup(ttl, store, q.path, q.t.now).Some? || q.response.None? then store
    else store[q.path := Kept(q.response.value, q.t.stored + ttl)]
  }

  function AnswerTo(u: Unicode, ttl: int, store: Store, q: Request): Option<seq<DirEntry>> {
    match Served(ttl, store, q)
    case None => None
    case Some(listing) => Some(Arrange(u, q.sort, q.order, listing.entries))
  }

  /** The entries that a sequence of calls is given. */
  function Answers(u: Unicode, ttl: int, store: Store, qs: seq<Request>): seq<Option<seq<DirEntry>>>
    decreases |qs|
  {
    if qs == [] then [] else [AnswerTo(u, ttl, store, qs[0])] + Answers(u, ttl, After(ttl, store, qs[0]), qs[1..])
  }

  /** The cache before the i-th call. */
  function Before(ttl: int, store: Store, qs: seq<Request>, i: nat): Store
    requires i <= |qs|
  {
    if i == 0 then store else After(ttl, Before(ttl, store, qs, i - 1), qs[i - 1])
  }

  /** The i-th call is not served from the cache, and asks the backend. */
  predicate Asks(ttl: int, store: Store, qs: seq<Request>, i: nat)
    requires i < |qs|
  {
    Lookup(ttl, Before(ttl, store, qs, i), qs[i].path, qs[i].t.now).None?
  }

  /** The k-th call asked the backend for the path, and got this listing. */
  predicate Fetches(ttl: int, store: Store, qs: seq<Request>, k: nat, path: string, listing: Listing)
    requires k < |qs|
  {
    Asks(ttl, store, qs, k) && qs[k].path == path && qs[k].response == Some(listing)
  }

  /** The i-th call works with what the k-th one fetched: itself, or an earlier one that stored it at most `ttl` ago. */
  predicate SuppliedBy(ttl: int, store: Store, qs: seq<Request>, i: nat, listing: Listing, k: nat)
    requires i < |qs|
  {
    && k <= i && Fetches(ttl, store, qs, k, qs[i].path, listing)
    && (k == i || (!Asks(ttl, store, qs, i) && qs[i].t.now <= qs[k].t.stored + ttl))
  }

  /** The i-th call works with a listing that was there from the start and has not expired. */
  predicate SuppliedAtStart(ttl: int, store: Store, qs: seq<Request>, i: nat, listing: Listing)
    requires i < |qs|
  {
    && !Asks(ttl, store, qs, i) && qs[i].path in store
    && store[qs[i].path].listing == listing && qs[i].t.now <= store[qs[i].path].expiresAt
  }

  /** The answer of the i-th call is an arrangement of such a listing. */
  ghost predicate RecentAnswer(u: Unicode, ttl: int, store: Store, qs: seq<Request>, i: nat, answer: seq<DirEntry>)
    requires i < |qs|
  {
    exists listing: Listing ::
      && answer == Arrange(u, qs[i].sort, qs[i].order, listing.entries)
      && (SuppliedAtStart(ttl, store, qs, i, listing) || exists k :: SuppliedBy(ttl, store, qs, i, listing, k))
  }

  lemma {:induction false} BeforeTail(ttl: int, store: Store, qs: seq<Request>, i: nat)
    requires 0 < i <= |qs|
    ensures Before(ttl, store, qs, i) == Before(ttl, After(ttl, store, qs[0]), qs[1..], i - 1)
  {
    hide After;
    if i > 1 {
      BeforeTail(ttl, store, qs, i - 1);
      assert qs[1..][i - 2] == qs[i - 1];
    } else {
      assert Before(ttl, store, qs, 0) == store;
    }
  }

  lemma {:induction false} AnswerAt(u: Unicode, ttl: int, store: Store, qs: seq<Request>, i: nat)
    requires i < |qs|
    ensures |Answers(u, ttl, store, qs)| == |qs|
    ensures Answers(u, ttl, store, qs)[i] == AnswerTo(u, ttl, Before(ttl, store, qs, i), qs[i])
    decreases |qs|
  {
    hide AnswerTo, After;
    var rest := After(ttl, store, qs[0]);
    if |qs| > 1 {
      AnswerAt(u, ttl, rest, qs[1..], if i > 0 then i - 1 else 0);
      if i > 0 { BeforeTail(ttl, store, qs, i); }
    } else {
      assert Answers(u, ttl, rest, []) == [];
    }
  }

  /** What the cache keeps before the i-th call was there from the start, or an earlier call fetched and stored it. */
  ghost predicate KeptFrom(ttl: int, store: Store, qs: seq<Request>, i: nat, path: string, kept: Kept)
    requires i <= |qs|
  {
    || (path in store && kept == store[path])
    || exists k ::
         0 <= k < i && Fetches(ttl, store, qs, k, path, kept.listing) && kept.expiresAt == qs[k].t.stored + ttl
  }

  lemma {:induction false} KeptIsFrom(ttl: int, store: Store, qs: seq<Request>, i: nat, path: string)
    requires i <= |qs| && path in Before(ttl, store, qs, i)
    ensures KeptFrom(ttl, store, qs, i, path, Before(ttl, store, qs, i)[path])
  {
    if i > 0 {
      var was, now := Before(ttl, store, qs, i - 1), Before(ttl, store, qs, i);
      if path in was && now[path] == was[path] {
        KeptIsFrom(ttl, store, qs, i - 1, path);
      } else {
        assert Fetches(ttl, store, qs, i - 1, path, now[path].listing);
      }
    }
  }

  /** In every sequence of calls, on every cache: an answer arranges the response that the backend gave to this very
      call, or to an earlier one for the same path that stored it no more than `ttl` before this call, or a listing that
      the cache had from the start and that has not expired; and there is none exactly if this call asks the backend and
      is refused. */
  lemma AnswersAreRecent(u: Unicode, ttl: int, store: Store, qs: seq<Request>, i: nat)
    requires i < |qs|
    ensures |Answers(u, ttl, store, qs)| == |qs|
    ensures var a := Answers(u, ttl, store, qs)[i]; a.Some? ==> RecentAnswer(u, ttl, store, qs, i, a.value)
    ensures Answers(u, ttl, store, qs)[i].None? <==> Asks(ttl, store, qs, i) && qs[i].response.None?
  {
    hide Arrange, Answers, KeptFrom;
    AnswerAt(u, ttl, store, qs, i);
    var q, cache := qs[i], Before(ttl, store, qs, i);
    if Served(ttl, cache, q).Some? {
      var listing := Served(ttl, cache, q).value;
      if Asks(ttl, store, qs, i) {
        assert SuppliedBy(ttl, store, qs, i, listing, i);
      } else {
        KeptIsFrom(ttl, store, qs, i, q.path);
        KeptSupplies(ttl, store, qs, i);
      }
    }
  }

  lemma KeptSupplies(ttl: int, store: Store, qs: seq<Request>, i: nat)
    requires i < |qs| && !Asks(ttl, store, qs, i)
    requires var path := qs[i].path; KeptFrom(ttl, store, qs, i, path, Before(ttl, store, qs, i)[path])
    ensures var listing := Before(ttl, store, qs, i)[qs[i].path].listing;
            SuppliedAtStart(ttl, store, qs, i, listing) || exists k :: SuppliedBy(ttl, store, qs, i, listing, k)
  {
    hide Before;
    var kept := Before(ttl, store, qs, i)[qs[i].path];
    if !(qs[i].path in store && kept == store[qs[i].path]) {
      var k :| 0 <= k < i && Fetches(ttl, store, qs, k, qs[i].path, kept.listing)
        && kept.expiresAt == qs[k].t.stored + ttl;
      assert SuppliedBy(ttl, store, qs, i, kept.listing, k);
    }
  }

  /** With the cache in use, what is kept for a path is only replaced when it has expired, so its time of expiry
      grows. */
  lemma {:induction false} ExpiryGrows(ttl: int, store: Store, qs: seq<Request>, j: nat, i: nat, path: string)
    requires ttl > 0 && j <= i <= |qs| && forall k :: 0 <= k < |qs| ==> qs[k].t.now <= qs[k].t.stored
    requires path in Before(ttl, store, qs, j)
    ensures path in Before(ttl, store, qs, i)
    ensures Before(ttl, store, qs, j)[path].expiresAt <= Before(ttl, store, qs, i)[path].expiresAt
  {
    if j < i { ExpiryGrows(ttl, store, qs, j, i - 1, path); }
  }

  /** The listing that was there from the start, or that the k-th call fetched, would still serve the i-th call. */
  predicate StillGood(ttl: int, store: Store, qs: seq<Request>, i: nat, k: nat)
    requires k < i < |qs|
  {
    && Asks(ttl, store, qs, k) && qs[k].path == qs[i].path && qs[k].response.Some?
    && qs[i].t.now <= qs[k].t.stored + ttl
  }

  /** A call asks the backend if and only if the cache is off, or neither the listing of its path from the start, nor
      one that an earlier call fetched for it, is still good: nothing expires early, and nothing is served late. */
  lemma AsksBackendIff(ttl: int, store: Store, qs: seq<Request>, i: nat)
    requires i < |qs| && forall k :: 0 <= k < |qs| ==> qs[k].t.now <= qs[k].t.stored
    ensures Asks(ttl, store, qs, i) <==>
            || ttl <= 0
            || (!(qs[i].path in store && qs[i].t.now <= store[qs[i].path].expiresAt)
                && forall k :: 0 <= k < i ==> !StillGood(ttl, store, qs, i, k))
  {
    var path := qs[i].path;
    if ttl > 0 {
      if path in store {
        assert Before(ttl, store, qs, 0) == store;
        ExpiryGrows(ttl, store, qs, 0, i, path);
      }
      forall k | 0 <= k < i && StillGood(ttl, store, qs, i, k) ensures !Asks(ttl, store, qs, i) {
        StoredStays(ttl, store, qs, i, k);
      }
      if !Asks(ttl, store, qs, i) {
        hide Before;
        KeptIsFrom(ttl, store, qs, i, path);
        KeptIsGood(ttl, store, qs, i);
      }
    }
  }

  lemma StoredStays(ttl: int, store: Store, qs: seq<Request>, i: nat, k: nat)
    requires ttl > 0 && k < i < |qs| && forall j :: 0 <= j < |qs| ==> qs[j].t.now <= qs[j].t.stored
    requires StillGood(ttl, store, qs, i, k)
    ensures !Asks(ttl, store, qs, i)
  {
    assert Before(ttl, store, qs, k + 1)[qs[k].path].expiresAt == qs[k].t.stored + ttl;
    ExpiryGrows(ttl, store, qs, k + 1, i, qs[i].path);
  }

  lemma KeptIsGood(ttl: int, store: Store, qs: seq<Request>, i: nat)
    requires i < |qs| && !Asks(ttl, store, qs, i)
    requires var path := qs[i].path; KeptFrom(ttl, store, qs, i, path, Before(ttl, store, qs, i)[path])
    ensures (qs[i].path in store && qs[i].t.now <= store[qs[i].path].expiresAt)
            || exists k :: 0 <= k < i && StillGood(ttl, store, qs, i, k)
  {
    hide Before;
    var kept := Before(ttl, store, qs, i)[qs[i].path];
    if !(qs[i].path in store && kept == store[qs[i].path]) {
      var k :| 0 <= k < i && Fetches(ttl, store, qs, k, qs[i].path, kept.listing)
        && kept.expiresAt == qs[k].t.stored + ttl;
      assert StillGood(ttl, store, qs, i, k);
    }
  }

  // ------------------------------------------------------------------ the service

  class Rclone {
    const u: Unicode
    const dirCache: Cache
    ghost const backend: Backend

    ghost predicate Valid()
      reads dirCache, dirCache.cache.Values
    {
      dirCache.Valid(backend)
    }

    constructor (u: Unicode, ttl: int, ghost backend: Backend)
      ensures Valid() && dirCache.ttl == ttl && this.u == u && this.backend == backend && View() == map[]
    {
      this.u := u;
      this.dirCache := new Cache(ttl);
      this.backend := backend;
    }

    /** The cache as a value. */
    ghost function View(): Store
      reads dirCache, dirCache.cache.Values
    {
      map p | p in dirCache.cache && dirCache.cache[p].gobData.Some? ::
        Kept(dirCache.cache[p].gobData.value, dirCache.cache[p].expiresAt)
    }

    /** The item of the path, which the cache is made to have; its value stays what it was. */
    method GetItem(path: string) returns (item: CacheItem)
      requires Valid()
      modifies dirCache
      ensures Valid() && View() == old(View())
      ensures path in dirCache.cache && dirCache.cache[path] == item
      ensures dirCache.cache.Values <= old(dirCache.cache.Values) + {item}
      ensures item in old(dirCache.cache.Values) || fresh(item)
    {
      item := dirCache.Get(path);
    }

    /** The item of the path, and a new copy of its listing unless it has none or that has expired. */
    method Load(path: string, now: int) returns (item: CacheItem, info: DirInfo?)
      requires Valid()
      modifies dirCache
      ensures Valid() && View() == old(View())
      ensures path in dirCache.cache && dirCache.cache[path] == item
      ensures dirCache.cache.Values <= old(dirCache.cache.Values) + {item}
      ensures item in old(dirCache.cache.Values) || fresh(item)
      ensures info != null <==> path in View() && now <= View()[path].expiresAt
      ensures info != null ==> fresh(info) && fresh(info.entries) && info.Content() == View()[path].listing
    {
      item := GetItem(path);
      info := item.LoadLocked(now);
    }

    /** Storing a listing changes the value of its path only. */
    method StoreItem(path: string, item: CacheItem, info: DirInfo, now: int, ghost fetched: int)
      requires Valid() && path in dirCache.cache && dirCache.cache[path] == item
      requires fetched <= now && backend(path, fetched) == Some(info.Content())
      modifies item
      ensures Valid() && View() == old(View())[path := Kept(info.Content(), now + dirCache.ttl)]
      ensures dirCache.cache == old(dirCache.cache)
    {
      item.StoreLocked(info, now, fetched);
    }

    /** getDirInfo, the part under the item's lock. */
    method GetListing(q: Request) returns (info: DirInfo?)
      requires Valid() && q.Possible(backend)
      modifies dirCache, dirCache.cache.Values
      ensures Valid() && fresh(dirCache.cache.Values - old(dirCache.cache.Values))
      ensures View() == After(dirCache.ttl, old(View()), q)
      ensures info != null <==> Served(dirCache.ttl, old(View()), q).Some?
      ensures info != null ==>
              fresh(info) && fresh(info.entries) && info.Content() == Served(dirCache.ttl, old(View()), q).value
    {
      hide Rclone.View, Rclone.Valid, Cache.Valid;
      if dirCache.Enabled() {
        var item;
        item, info := Load(q.path, q.t.now);
        if info != null {
          return;
        }
        if q.response.None? {
          return null;
        }
        info := new DirInfo(q.response.value);
        StoreItem(q.path, item, info, q.t.stored, q.t.fetched);
      } else {
        if q.response.None? {
          return null;
        }
        info := new DirInfo(q.response.value);
      }
    }

    /** GetDirInfo: the listing from the cache or from the backend, sorted and reversed in place.
        The cache keeps the listing itself, whatever happens to the returned object. */
    method GetDirInfo(q: Request) returns (info: DirInfo?)
      requires Valid() && q.Possible(backend)
      modifies dirCache, dirCache.cache.Values
      ensures Valid() && fresh(dirCache.cache.Values - old(dirCache.cache.Values))
      ensures View() == After(dirCache.ttl, old(View()), q)
      ensures info != null <==> Served(dirCache.ttl, old(View()), q).Some?
      ensures info != null ==>
                && fresh(info) && fresh(info.entries)
                && info.dir == Served(dirCache.ttl, old(View()), q).value.dir
                && Labelled(q.sort, q.order, info.sort, info.order)
                && Some(info.entries[..]) == AnswerTo(u, dirCache.ttl, old(View()), q)
      ensures info != null ==>
                var listing := Served(dirCache.ttl, old(View()), q).value;
                && multiset(info.entries[..]) == multiset(listing.entries)
                && (Sortable(u, listing.entries) ==> ArrangedFor(u, q.sort, q.order, info.entries[..]))
    {
      hide Sortable, ArrangedFor;
      info := GetListing(q);
      if info != null {
        ArrangeInPlace(u, info, q.sort, q.order);
      }
    }
  }

  /** Whatever is served from the cache at a time is what the backend answered for that very path at the time at which
      its item was fetched, and the item was stored after that, and at most `ttl` before it is served. */
  lemma ServedIsRecent(r: Rclone, path: string, now: int)
    requires r.Valid() && Lookup(r.dirCache.ttl, r.View(), path, now).Some?
    ensures path in r.dirCache.cache
    ensures var item := r.dirCache.cache[path];
            && r.backend(path, item.fetchedAt) == Lookup(r.dirCache.ttl, r.View(), path, now)
            && item.fetchedAt <= item.storedAt && now <= item.storedAt + r.dirCache.ttl
  {
    var item := r.dirCache.cache[path];
    assert item.Coherent(r.backend, path);
  }

  // ------------------------------------------------------------------ callers that write into what they were given

  /** A caller overwrites the fields of the `target`-th object returned so far, and the elements of its array or the
      array itself. */
  datatype Write = Write(target: nat, dir: string, sort: string, order: string, newArray: bool,
      entries: nat -> DirEntry, length: nat)

  function Arrays(infos: seq<DirInfo>): set<array<DirEntry>>
    reads infos
  {
    set i | 0 <= i < |infos| :: infos[i].entries
  }

  method Scribble(infos: seq<DirInfo>, w: Write)
    modifies infos, Arrays(infos)
    ensures fresh(Arrays(infos) - old(Arrays(infos)))
  {
    if w.target < |infos| {
      var info := infos[w.target];
      info.dir, info.sort, info.order := w.dir, w.sort, w.order;
      if w.newArray {
        info.entries := new DirEntry[w.length](w.entries);
      } else {
        forall j | 0 <= j < info.entries.Length {
          info.entries[j] := w.entries(j);
        }
      }
    }
  }

  method ScribbleAll(infos: seq<DirInfo>, ws: seq<Write>)
    modifies infos, Arrays(infos)
    ensures fresh(Arrays(infos) - old(Arrays(infos)))
  {
    for k := 0 to |ws|
      invariant fresh(Arrays(infos) - old(Arrays(infos)))
    {
      Scribble(infos, ws[k]);
    }
  }

  /** One call, and then writes to anything returned so far. */
  method CallAndScribble(r: Rclone, q: Request, infos: seq<DirInfo>, ws: seq<Write>)
    returns (answer: Option<seq<DirEntry>>, longer: seq<DirInfo>)
    requires r.Valid() && q.Possible(r.backend)
    modifies r.dirCache, r.dirCache.cache.Values, infos, Arrays(infos)
    ensures r.Valid() && fresh(r.dirCache.cache.Values - old(r.dirCache.cache.Values))
    ensures r.View() == After(r.dirCache.ttl, old(r.View()), q)
            && answer == AnswerTo(r.u, r.dirCache.ttl, old(r.View()), q)
    ensures forall info :: info in longer ==> info in infos || fresh(info)
    ensures fresh(Arrays(longer) - old(Arrays(infos)))
  {
    hide AnswerTo, After, Served, Rclone.Valid, Rclone.View, Sortable, ArrangedFor, Labelled;
    answer, longer := None, infos;
    var info := r.GetDirInfo(q);
    if info != null {
      answer := Some(info.entries[..]);
      longer := infos + [info];
    } else {
      NoAnswer(r.u, r.dirCache.ttl, old(r.View()), q);
    }
    ScribbleAll(longer, ws);
  }

  lemma NoAnswer(u: Unicode, ttl: int, store: Store, q: Request)
    requires Served(ttl, store, q).None?
    ensures AnswerTo(u, ttl, store, q) == None
  {}

  /** Any number of calls, and between them any writes to everything that was returned so far. */
  method CallAll(r: Rclone, calls: seq<Request>, writes: seq<seq<Write>>) returns (answers: seq<Option<seq<DirEntry>>>)
    requires r.Valid() && |writes| == |calls| && forall i :: 0 <= i < |calls| ==> calls[i].Possible(r.backend)
    modifies r.dirCache, r.dirCache.cache.Values
    ensures r.Valid() && answers == Answers(r.u, r.dirCache.ttl, old(r.View()), calls)
  {
    hide AnswerTo, After, Answers, Rclone.Valid, Rclone.View;
    ghost var store := r.View();
    answers := [];
    var infos: seq<DirInfo> := [];
    assert calls[0..] == calls;
    for i := 0 to |calls|
      invariant r.Valid() && fresh(r.dirCache.cache.Values - old(r.dirCache.cache.Values))
      invariant (forall info :: info in infos ==> fresh(info)) && fresh(Arrays(infos))
      invariant answers + Answers(r.u, r.dirCache.ttl, r.View(), calls[i..])
             == Answers(r.u, r.dirCache.ttl, store, calls)
    {
      ghost var view := r.View();
      AnswersStep(r.u, r.dirCache.ttl, view, calls, i);
      assert fresh(set info | info in infos);
      var answer;
      answer, infos := CallAndScribble(r, calls[i], infos, writes[i]);
      Regroup(answers, answer, Answers(r.u, r.dirCache.ttl, r.View(), calls[i + 1..]));
      answers := answers + [answer];
    }
    AnswersEnd(r.u, r.dirCache.ttl, r.View(), calls[|calls|..]);
    assert answers + [] == answers;
  }

  lemma Regroup<T>(a: seq<T>, x: T, b: seq<T>)
    ensures a + ([x] + b) == (a + [x]) + b
  {}

  lemma AnswersEnd(u: Unicode, ttl: int, store: Store, qs: seq<Request>)
    requires |qs| == 0
    ensures Answers(u, ttl, store, qs) == []
  {}

  /** The calls are given what they would be given by a cache that is a value, which no caller can write to; and so
      their answers are recent. */
  method CallersAreIsolated(r: Rclone, calls: seq<Request>, writes: seq<seq<Write>>)
    returns (answers: seq<Option<seq<DirEntry>>>)
    requires r.Valid() && |writes| == |calls| && forall i :: 0 <= i < |calls| ==> calls[i].Possible(r.backend)
    modifies r.dirCache, r.dirCache.cache.Values
    ensures r.Valid() && answers == Answers(r.u, r.dirCache.ttl, old(r.View()), calls)
    ensures |answers| == |calls|
    ensures forall i :: 0 <= i < |calls| && answers[i].Some? ==>
              RecentAnswer(r.u, r.dirCache.ttl, old(r.View()), calls, i, answers[i].value)
  {
    hide Answers, Rclone.Valid, Rclone.View, RecentAnswer;
    AllRecent(r.u, r.dirCache.ttl, r.View(), calls);
    answers := CallAll(r, calls, writes);
  }

  lemma AllRecent(u: Unicode, ttl: int, store: Store, calls: seq<Request>)
    ensures var answers := Answers(u, ttl, store, calls);
            |answers| == |calls|
            && forall i :: 0 <= i < |calls| && answers[i].Some? ==>
               RecentAnswer(u, ttl, store, calls, i, answers[i].value)
  {
    hide RecentAnswer;
    if calls != [] { AnswersAreRecent(u, ttl, store, calls, 0); }
    forall i | 0 <= i < |calls| && Answers(u, ttl, store, calls)[i].Some?
      ensures RecentAnswer(u, ttl, store, calls, i, Answers(u, ttl, store, calls)[i].value)
    {
      AnswersAreRecent(u, ttl, store, calls, i);
    }
  }

  lemma AnswersStep(u: Unicode, ttl: int, store: Store, qs: seq<Request>, i: nat)
    requires i < |qs|
    ensures Answers(u, ttl, store, qs[i..])
            == [AnswerTo(u, ttl, store, qs[i])] + Answers(u, ttl, After(ttl, store, qs[i]), qs[i + 1..])
  {
    assert qs[i..][0] == qs[i] && qs[i..][1..] == qs[i + 1..];
  }
}
