/** Eviction from a cache directory: pkg/cache/cleaner.go. */
module Cleaner {
  import opened Order

  datatype FileInfo = FileInfo(path: string, modTime: int, size: int)

  datatype Meta = Meta(modTime: int, size: int)

  const TWO63: int := 0x8000_0000_0000_0000
  const TWO64: int := 0x1_0000_0000_0000_0000

  /** The value of an `int64` that an exact result wraps around to. */
  function Wrap(x: int): int {
    (x + TWO63) % TWO64 - TWO63
  }

  function ByTime(a: FileInfo, b: FileInfo): int {
    CompareInt(a.modTime, b.modTime)
  }

  function Total(files: seq<FileInfo>): int {
    if |files| == 0 then 0 else files[0].size + Total(files[1..])
  }

  /** How many of the files the loop takes, when it has taken the first `i` and wants more. */
  function Cut(limit: int, files: seq<FileInfo>, i: nat): (k: nat)
    requires i <= |files|
    ensures i <= k <= |files|
    decreases |files| - i
  {
    if i == |files| then i
    else if Wrap(Total(files[i + 1..])) < limit then i + 1
    else Cut(limit, files, i + 1)
  }

  /** What getFilesToRemove returns, as the code computes it. */
  function Victims(limit: int, files: seq<FileInfo>): seq<FileInfo> {
    var sorted := SortBy(ByTime, files);
    if Wrap(Total(files)) < limit then [] else sorted[..Cut(limit, sorted, 0)]
  }

  // ------------------------------------------------------------------ sums

  lemma WrapSteps(a: int, b: int)
    ensures Wrap(Wrap(a) + b) == Wrap(a + b)
  {
    assert Wrap(a) == a - TWO64 * ((a + TWO63) / TWO64);
    assert (a + b + TWO63 - TWO64 * ((a + TWO63) / TWO64)) % TWO64 == (a + b + TWO63) % TWO64;
  }

  lemma {:induction false} TotalAppend(a: seq<FileInfo>, b: seq<FileInfo>)
    ensures Total(a + b) == Total(a) + Total(b)
  {
    if |a| > 0 {
      TotalAppend(a[1..], b);
      assert (a + b)[1..] == a[1..] + b;
    } else {
      assert a + b == b;
    }
  }

  lemma {:induction false} TotalInserted(cmp: (FileInfo, FileInfo) -> int, x: FileInfo, s: seq<FileInfo>)
    ensures Total(Insert(cmp, x, s)) == x.size + Total(s)
  {
    if |s| == 0 || cmp(x, s[0]) <= 0 {
      assert ([x] + s)[1..] == s;
    } else {
      TotalInserted(cmp, x, s[1..]);
      assert ([s[0]] + Insert(cmp, x, s[1..]))[1..] == Insert(cmp, x, s[1..]);
    }
  }

  lemma {:induction false} TotalSorted(cmp: (FileInfo, FileInfo) -> int, s: seq<FileInfo>)
    ensures Total(SortBy(cmp, s)) == Total(s)
  {
    if |s| > 0 {
      TotalSorted(cmp, s[1..]);
      TotalInserted(cmp, s[0], SortBy(cmp, s[1..]));
    }
  }

  lemma {:induction false} TotalNonnegative(s: seq<FileInfo>)
    requires forall f :: f in s ==> f.size >= 0
    ensures Total(s) >= 0
  {
    if |s| > 0 { TotalNonnegative(s[1..]); }
  }

  // ------------------------------------------------------------------ getFilesToRemove

  method TotalSize(files: array<FileInfo>) returns (total: int)
    ensures total == Wrap(Total(files[..]))
  {
    total := 0;
    for i := 0 to files.Length
      invariant total == Wrap(Total(files[..i]))
    {
      WrapSteps(Total(files[..i]), files[i].size);
      assert files[..i + 1] == files[..i] + [files[i]];
      TotalAppend(files[..i], [files[i]]);
      total := Wrap(total + files[i].size);
    }
    assert files[..] == files[..files.Length];
  }

  lemma WithoutFirst(files: seq<FileInfo>, i: nat)
    requires i < |files|
    ensures Wrap(Wrap(Total(files[i..])) - files[i].size) == Wrap(Total(files[i + 1..]))
  {
    hide Wrap;
    WrapSteps(Total(files[i..]), -files[i].size);
    assert files[i..][1..] == files[i + 1..];
  }

  method GetFilesToRemove(limit: int, files: array<FileInfo>) returns (r: seq<FileInfo>)
    modifies files
    ensures r == Victims(limit, old(files[..]))
    ensures files[..] == if Wrap(Total(old(files[..]))) < limit then old(files[..]) else SortBy(ByTime, old(files[..]))
  {
    hide Wrap, Total, SortBy;
    var totalSize := TotalSize(files);
    if totalSize < limit {
      return [];
    }
    TotalSorted(ByTime, files[..]);
    SortInPlace(files, ByTime);
    ghost var sorted := files[..];
    var index := 0;
    var i := 0;
    assert sorted[0..] == sorted;
    while i < files.Length
      invariant 0 <= i <= files.Length && index == 0 && files[..] == sorted
      invariant totalSize == Wrap(Total(sorted[i..]))
      invariant Cut(limit, sorted, 0) == Cut(limit, sorted, i)
    {
      WithoutFirst(sorted, i);
      totalSize := Wrap(totalSize - files[i].size);
      if totalSize < limit {
        index := i + 1;
        break;
      }
      i := i + 1;
    }
    if index == 0 {
      index := files.Length;
    }
    assert files[..index] == sorted[..index];
    r := files[..index];
  }

  // ------------------------------------------------------------------ which files are removed

  /** No size is negative, and their sum fits an `int64`. */
  predicate Plausible(files: seq<FileInfo>) {
    (forall f :: f in files ==> f.size >= 0) && Total(files) < TWO63
  }

  lemma {:induction false} CutIsFirst(limit: int, files: seq<FileInfo>, i: nat)
    requires i <= |files|
    ensures var k := Cut(limit, files, i);
            && (i < |files| ==> i < k)
            && (forall j :: i < j < k ==> Wrap(Total(files[j..])) >= limit)
            && (k < |files| ==> Wrap(Total(files[k..])) < limit)
    decreases |files| - i
  {
    hide Wrap, Total;
    if i < |files| && Wrap(Total(files[i + 1..])) >= limit {
      CutIsFirst(limit, files, i + 1);
    }
  }

  lemma SuffixesFit(files: seq<FileInfo>, k: nat)
    requires Plausible(files) && k <= |files|
    ensures Wrap(Total(files[k..])) == Total(files[k..])
  {
    assert files == files[..k] + files[k..];
    TotalAppend(files[..k], files[k..]);
    TotalNonnegative(files[..k]);
    TotalNonnegative(files[k..]);
  }

  lemma SortedFiles(files: seq<FileInfo>) returns (sorted: seq<FileInfo>)
    ensures sorted == SortBy(ByTime, files) && Sorted(ByTime, sorted) && multiset(sorted) == multiset(files)
    ensures |sorted| == |files| && Total(sorted) == Total(files)
    ensures Plausible(files) ==> Plausible(sorted)
  {
    sorted := SortBy(ByTime, files);
    SortBySorted(ByTime, files);
    SortByPermutes(ByTime, files);
    Permutation(sorted, files);
    TotalSorted(ByTime, files);
  }

  /** Eviction is oldest first: `kept` are the other files, and none of them is older than a removed one. */
  lemma VictimsAreOldest(limit: int, files: seq<FileInfo>) returns (kept: seq<FileInfo>)
    ensures var r := Victims(limit, files);
            && multiset(r) + multiset(kept) == multiset(files)
            && forall f, g :: f in r && g in kept ==> f.modTime <= g.modTime
    ensures if Wrap(Total(files)) < limit then kept == files else Victims(limit, files) + kept == SortBy(ByTime, files)
  {
    hide Wrap, Total, SortBy, Cut;
    var sorted := SortedFiles(files);
    if Wrap(Total(files)) < limit {
      kept := files;
    } else {
      var k := Cut(limit, sorted, 0);
      kept := sorted[k..];
      assert sorted == sorted[..k] + kept;
    }
  }

  /** Without wrapping around, the loop takes the shortest part of the list that is enough. */
  lemma CutIsShortest(limit: int, files: seq<FileInfo>)
    requires Plausible(files) && Total(files) >= limit
    ensures var k := Cut(limit, files, 0);
            && (files != [] ==> k > 0) && (k < |files| ==> Total(files[k..]) < limit)
            && forall j :: 0 <= j < k ==> Total(files[j..]) >= limit
  {
    hide Wrap, Total, Cut;
    CutIsFirst(limit, files, 0);
    var k := Cut(limit, files, 0);
    assert files[0..] == files;
    forall j | 0 <= j < k ensures Total(files[j..]) >= limit { SuffixesFit(files, j); }
    SuffixesFit(files, k);
  }

  /** Eviction is minimal: nothing is removed if the total is below the limit; otherwise the removed files are the
      shortest part of the list by modification time without which the rest is below the limit, and all the files if
      there is no such part. */
  lemma VictimsAreMinimal(limit: int, files: seq<FileInfo>, kept: seq<FileInfo>)
    requires Plausible(files)
    requires Total(files) >= limit ==> Victims(limit, files) + kept == SortBy(ByTime, files)
    ensures var r := Victims(limit, files);
            && (r == [] <==> Total(files) < limit || files == [])
            && (Total(files) >= limit ==>
                  && (kept != [] ==> Total(kept) < limit)
                  && forall j :: 0 <= j < |r| ==> Total(r[j..] + kept) >= limit)
  {
    hide SortBy, Cut, Wrap, Total;
    SuffixesFit(files, 0);
    assert files[0..] == files;
    if Total(files) >= limit {
      var sorted := SortedFiles(files);
      CutIsShortest(limit, sorted);
      ShortestIsMinimal(limit, sorted, Cut(limit, sorted, 0), kept);
    }
  }

  lemma ShortestIsMinimal(limit: int, sorted: seq<FileInfo>, k: nat, kept: seq<FileInfo>)
    requires k <= |sorted| && sorted[..k] + kept == sorted
    requires (k < |sorted| ==> Total(sorted[k..]) < limit) && forall j :: 0 <= j < k ==> Total(sorted[j..]) >= limit
    ensures kept != [] ==> Total(kept) < limit
    ensures forall j :: 0 <= j < k ==> Total(sorted[..k][j..] + kept) >= limit
  {
    hide Total;
    assert kept == sorted[k..] by { assert (sorted[..k] + kept)[k..] == kept; }
    forall j | 0 <= j < k ensures Total(sorted[..k][j..] + kept) >= limit {
      assert sorted[..k][j..] + sorted[k..] == sorted[j..];
    }
  }

  /** The cleaner removes something exactly if the sum, reduced to 64 bits, is neither below the limit nor so great that
      it reads as a negative number. */
  lemma EvictsIff(limit: int, files: seq<FileInfo>)
    requires 0 <= limit && files != []
    ensures Victims(limit, files) != [] <==> limit <= Total(files) % 0x1_0000_0000_0000_0000 < 0x8000_0000_0000_0000
  {
    hide Total, SortBy;
    var sorted := SortedFiles(files);
    CutIsFirst(limit, sorted, 0);
  }

  /** Two files of 2^62 bytes each are not evicted, whatever the limit, except the least `int64`. */
  lemma HugeFilesStay(limit: int, a: FileInfo, b: FileInfo)
    requires a.size == b.size == 0x4000_0000_0000_0000
    ensures Total([a, b]) == 0x8000_0000_0000_0000
    ensures Victims(limit, [a, b]) == [] <==> limit > -0x8000_0000_0000_0000
  {
    hide SortBy;
    TotalAppend([a], [b]);
    assert [a] + [b] == [a, b] && Total([a]) == a.size && Total([b]) == b.size;
    var sorted := SortedFiles([a, b]);
    if limit <= -TWO63 { CutIsFirst(limit, sorted, 0); }
  }

  // ------------------------------------------------------------------ the files of the cache

  type Disk = map<string, Meta>

  /** The files that os.Remove deletes, in order: it fails on missing and on undeletable files. */
  function Deleted(disk: Disk, undeletable: set<string>, files: seq<FileInfo>): seq<FileInfo> {
    if |files| == 0 then []
    else if files[0].path in disk && files[0].path !in undeletable then
      [files[0]] + Deleted(disk - {files[0].path}, undeletable, files[1..])
    else Deleted(disk, undeletable, files[1..])
  }

  function Paths(files: seq<FileInfo>): set<string> {
    set f | f in files :: f.path
  }

  /** The order lists every file of the directory once. */
  ghost predicate Lists(order: seq<string>, disk: Disk) {
    NoDuplicates(order) && forall p :: p in order <==> p in disk
  }

  function Info(disk: Disk, path: string): FileInfo
    requires path in disk
  {
    FileInfo(path, disk[path].modTime, disk[path].size)
  }

  /** What a walk over the directory finds. */
  function Walk(disk: Disk, order: seq<string>): seq<FileInfo>
    requires forall p :: p in order ==> p in disk
  {
    seq(|order|, i requires 0 <= i < |order| => Info(disk, order[i]))
  }

  lemma NothingCleaned()
    ensures Wrap(Total([])) == 0
  {}

  lemma TotalSnoc(files: seq<FileInfo>, f: FileInfo)
    ensures Wrap(Wrap(Total(files)) + f.size) == Wrap(Total(files + [f]))
    ensures Paths(files + [f]) == Paths(files) + {f.path}
  {
    hide Wrap;
    WrapSteps(Total(files), f.size);
    TotalAppend(files, [f]);
  }

  class Cache {
    const limit: int
    var disk: Disk

    constructor (limit: int, disk: Disk)
      ensures this.limit == limit && this.disk == disk
    {
      this.limit := limit;
      this.disk := disk;
    }

    /** Removes the files it can, and reports how many these are and the sum of their sizes. */
    method RemoveFiles(files: seq<FileInfo>, undeletable: set<string>)
      returns (removed: nat, cleaned: int, errors: nat)
      modifies this
      ensures var gone := Deleted(old(disk), undeletable, files);
              && disk == old(disk) - Paths(gone)
              && removed == |gone| && errors == |files| - |gone| && cleaned == Wrap(Total(gone))
    {
      hide Wrap, Total;
      removed, cleaned, errors := 0, 0, 0;
      ghost var gone := [];
      NothingCleaned();
      for i := 0 to |files|
        invariant gone + Deleted(disk, undeletable, files[i..]) == Deleted(old(disk), undeletable, files)
        invariant disk == old(disk) - Paths(gone)
        invariant removed == |gone| && errors == i - |gone| && cleaned == Wrap(Total(gone))
      {
        var file := files[i];
        assert files[i..][0] == file && files[i..][1..] == files[i + 1..];
        if file.path in disk && file.path !in undeletable {
          disk := disk - {file.path};
          TotalSnoc(gone, file);
          gone := gone + [file];
          removed := removed + 1;
          cleaned := Wrap(cleaned + file.size);
        } else {
          errors := errors + 1;
        }
      }
      assert gone + [] == gone;
    }

    /** The walk over the directory, which finds its files in the given order. */
    method LoadAllFiles(order: seq<string>) returns (files: array<FileInfo>)
      requires forall p :: p in order ==> p in disk
      ensures fresh(files) && files[..] == Walk(disk, order)
    {
      var d := disk;
      files := new FileInfo[|order|](i requires 0 <= i < |order| && order[i] in d => Info(d, order[i]));
    }

    /** One pass of the cleaner; nothing happens if the walk over the directory fails. */
    method Cleanup(walks: bool, order: seq<string>, undeletable: set<string>)
      requires Lists(order, disk)
      modifies this
      ensures disk == if walks then CleanedUp(limit, old(disk), order, undeletable) else old(disk)
    {
      hide Victims;
      if !walks {
        return;
      }
      var allFiles := LoadAllFiles(order);
      var filesToRemove := GetFilesToRemove(limit, allFiles);
      if |filesToRemove| == 0 {
        return;
      }
      var _, _, _ := RemoveFiles(filesToRemove, undeletable);
    }
  }

  // ------------------------------------------------------------------ what a pass leaves

  function CleanedUp(limit: int, disk: Disk, order: seq<string>, undeletable: set<string>): Disk
    requires forall p :: p in order ==> p in disk
  {
    disk - Paths(Deleted(disk, undeletable, Victims(limit, Walk(disk, order))))
  }

  /** The files are different files of the disk. */
  ghost predicate FilesOf(files: seq<FileInfo>, disk: Disk) {
    NoDuplicates(files) && forall f :: f in files ==> f.path in disk && f == Info(disk, f.path)
  }

  lemma {:induction false} DeletedPaths(disk: Disk, undeletable: set<string>, files: seq<FileInfo>)
    requires FilesOf(files, disk)
    ensures Paths(Deleted(disk, undeletable, files)) == Paths(files) - undeletable
  {
    if |files| > 0 {
      var f, rest := files[0], files[1..];
      assert forall g :: g in rest ==> g in files && g != f;
      assert f in files;
      assert Paths(files) == {f.path} + Paths(rest);
      if f.path in undeletable {
        DeletedPaths(disk, undeletable, rest);
      } else {
        DeletedPaths(disk - {f.path}, undeletable, rest);
        assert Paths([f] + Deleted(disk - {f.path}, undeletable, rest))
            == {f.path} + Paths(Deleted(disk - {f.path}, undeletable, rest));
      }
    }
  }

  lemma WalkFindsAll(disk: Disk, order: seq<string>)
    requires Lists(order, disk)
    ensures FilesOf(Walk(disk, order), disk) && Paths(Walk(disk, order)) == disk.Keys
  {
    var files := Walk(disk, order);
    forall p | p in disk ensures p in Paths(files) {
      var i :| 0 <= i < |order| && order[i] == p;
      assert files[i] in files && files[i].path == p;
    }
  }

  /** The victims and the kept files are different files of the disk, and together all of them. */
  lemma DiskIsSplit(limit: int, disk: Disk, order: seq<string>) returns (kept: seq<FileInfo>)
    requires Lists(order, disk)
    ensures var files := Walk(disk, order); var r := Victims(limit, files);
            && multiset(r) + multiset(kept) == multiset(files)
            && (forall f, g :: f in r && g in kept ==> f.modTime <= g.modTime)
            && (if Wrap(Total(files)) < limit then kept == files else r + kept == SortBy(ByTime, files))
            && FilesOf(r, disk) && FilesOf(kept, disk) && Paths(r) !! Paths(kept) && Paths(r) + Paths(kept) == disk.Keys
  {
    hide Wrap, Total, SortBy, Victims, Walk, Info;
    var files := Walk(disk, order);
    WalkFindsAll(disk, order);
    kept := VictimsAreOldest(limit, files);
    var r := Victims(limit, files);
    assert multiset(r + kept) == multiset(files);
    Permutation(files, r + kept);
    assert forall f :: f in r || f in kept <==> f in r + kept;
    SplitDistinct(r, kept);
  }

  lemma SplitDistinct(a: seq<FileInfo>, b: seq<FileInfo>)
    requires NoDuplicates(a + b)
    ensures NoDuplicates(a) && NoDuplicates(b) && forall x :: x in a ==> x !in b
  {
    forall i, j | 0 <= i < |a| && 0 <= j < |b| ensures a[i] != b[j] {
      assert (a + b)[i] == a[i] && (a + b)[|a| + j] == b[j];
    }
    forall i, j | 0 <= i < j < |a| ensures a[i] != a[j] {
      assert (a + b)[i] == a[i] && (a + b)[j] == a[j];
    }
    forall i, j | 0 <= i < j < |b| ensures b[i] != b[j] {
      assert (a + b)[|a| + i] == b[i] && (a + b)[|a| + j] == b[j];
    }
  }

  /** After a pass in which every removal works, `removed` are the files that are gone, oldest first, and `kept` the
      ones left.  These are below the limit or none; nothing was removed if they were below it from the start; no file
      left is older than one that is gone; and stopping the removal any earlier would not have been enough. */
  lemma CleanupIsMinimal(limit: int, disk: Disk, order: seq<string>)
    returns (removed: seq<FileInfo>, kept: seq<FileInfo>)
    requires Lists(order, disk) && Plausible(Walk(disk, order))
    ensures FilesOf(removed, disk) && FilesOf(kept, disk)
    ensures CleanedUp(limit, disk, order, {}).Keys == Paths(kept) == disk.Keys - Paths(removed)
    ensures kept == [] || Total(kept) < limit
    ensures Total(Walk(disk, order)) < limit ==> removed == []
    ensures forall f, g :: f in removed && g in kept ==> f.modTime <= g.modTime
    ensures Sorted(ByTime, removed) && forall j :: 0 <= j < |removed| ==> Total(removed[j..] + kept) >= limit
  {
    hide Wrap, Total, SortBy, Victims, Walk, Info, Paths, Deleted;
    var files := Walk(disk, order);
    SuffixesFit(files, 0);
    assert files[0..] == files;
    kept := DiskIsSplit(limit, disk, order);
    removed := Victims(limit, files);
    DeletedPaths(disk, {}, removed);
    VictimsAreMinimal(limit, files, kept);
    PrefixSorted(files, removed, kept);
  }

  lemma PrefixSorted(files: seq<FileInfo>, a: seq<FileInfo>, b: seq<FileInfo>)
    requires a == [] || a + b == SortBy(ByTime, files)
    ensures Sorted(ByTime, a)
  {
    if a != [] {
      var sorted := SortedFiles(files);
      forall i, j | 0 <= i < j < |a| ensures ByTime(a[i], a[j]) <= 0 {
        assert (a + b)[i] == a[i] && (a + b)[j] == a[j];
      }
    }
  }

  /** A file that cannot be removed stays, and so do the files that were not to be removed; all others go. */
  lemma CleanupRemovesVictims(limit: int, disk: Disk, order: seq<string>, undeletable: set<string>)
    requires Lists(order, disk)
    ensures CleanedUp(limit, disk, order, undeletable).Keys
         == disk.Keys - (Paths(Victims(limit, Walk(disk, order))) - undeletable)
  {
    hide Victims;
    var _ := DiskIsSplit(limit, disk, order);
    DeletedPaths(disk, undeletable, Victims(limit, Walk(disk, order)));
  }

  lemma KeptReadsSmall(limit: int, files: seq<FileInfo>, kept: seq<FileInfo>)
    requires if Wrap(Total(files)) < limit then kept == files else Victims(limit, files) + kept == SortBy(ByTime, files)
    ensures kept == [] || Wrap(Total(kept)) < limit
  {
    hide Wrap, Total, SortBy, Cut;
    if Wrap(Total(files)) >= limit {
      var sorted := SortedFiles(files);
      CutIsFirst(limit, sorted, 0);
      var k := Cut(limit, sorted, 0);
      assert (sorted[..k] + kept)[k..] == kept;
    }
  }

  lemma NothingIsSmall()
    ensures Total([]) == 0
  {}

  lemma KeptTotals(limit: int, files: seq<FileInfo>, kept: seq<FileInfo>)
    requires 0 < limit < TWO63 && (forall f :: f in files ==> f.size >= 0) && Total(files) < TWO63
    requires if Wrap(Total(files)) < limit then kept == files else Victims(limit, files) + kept == SortBy(ByTime, files)
    ensures Total(kept) < limit
  {
    hide Total, SortBy, Victims;
    SuffixesFit(files, 0);
    assert files[0..] == files;
    VictimsAreMinimal(limit, files, kept);
    NothingIsSmall();
  }

  /** A pass in which every removal works leaves the directory at the limit or above it if and only if the files that
      are left come to 2^63 bytes or more; and in a directory of less than 2^64 bytes, if and only if it held as much
      before the pass.  The sizes are not negative, and the limit is a positive `int64`. */
  lemma PassFailsIff(limit: int, disk: Disk, order: seq<string>) returns (kept: seq<FileInfo>)
    requires Lists(order, disk) && 0 < limit < TWO63 && forall p :: p in disk ==> disk[p].size >= 0
    ensures FilesOf(kept, disk) && CleanedUp(limit, disk, order, {}).Keys == Paths(kept)
    ensures Total(kept) >= limit <==> Total(kept) >= TWO63
    ensures Total(Walk(disk, order)) < TWO64 ==> (Total(kept) >= limit <==> Total(Walk(disk, order)) >= TWO63)
  {
    hide Total, SortBy, Victims, Walk, Paths, Deleted, Wrap;
    var files := Walk(disk, order);
    kept := DiskIsSplit(limit, disk, order);
    DeletedPaths(disk, {}, Victims(limit, files));
    WalkFindsAll(disk, order);
    assert FilesOf(files, disk);
    TotalNonnegative(files);
    TotalNonnegative(kept);
    KeptReadsSmall(limit, files, kept);
    NothingIsSmall();
    if Total(files) < TWO63 { KeptTotals(limit, files, kept); }
    WrapsAround(limit, Total(kept));
    WrapsAround(limit, Total(files));
  }

  lemma WrapsAround(limit: int, total: int)
    requires 0 < limit < TWO63 && total >= 0
    ensures limit <= total < TWO63 ==> Wrap(total) >= limit
    ensures TWO63 <= total < TWO64 ==> Wrap(total) < limit
  {}
}
