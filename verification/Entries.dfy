/** The entry comparators of rclone/rclone.go: by name with directories first, by size, and by time. */
module Entries {
  import opened Order
  import opened Text
  import opened NaturalOrder

  /** What the name comparison sees of an entry: `GetPath` and `GetIsDir`. */
  datatype Named = Named(path: string, isDir: bool) {
    /** A directory's trailing '/' is not part of its name. */
    function Name(): string {
      if isDir && path != "" && path[|path| - 1] == '/' then path[..|path| - 1] else path
    }
  }

  datatype DirEntry = DirEntry(url: string, leaf: string, isDir: bool, size: int, modTime: int) {
    function AsNamed(): Named {
      Named(leaf, isDir)
    }
  }

  function CompareByName(u: Unicode, a: Named, b: Named): int {
    if a.isDir == b.isDir then CompareNatural(u, a.Name(), b.Name())
    else if a.isDir then -1
    else 1
  }

  function CompareBySize(u: Unicode, a: DirEntry, b: DirEntry): int {
    if (a.isDir && b.isDir) || a.size == b.size then CompareByName(u, a.AsNamed(), b.AsNamed())
    else if a.isDir then -1
    else if b.isDir then 1
    else CompareInt(a.size, b.size)
  }

  function CompareByTime(u: Unicode, a: DirEntry, b: DirEntry): int {
    var v := CompareInt(a.modTime, b.modTime);
    if v != 0 then v else CompareByName(u, a.AsNamed(), b.AsNamed())
  }

  /** The name, in lower case, is in the domain of the natural order. */
  predicate CanonicalName(u: Unicode, n: Named) {
    Canonical(u.Lower(n.Name()))
  }

  /** The name, in lower case, is in the largest domain on which the natural comparison is a weak order. */
  ghost predicate OrderlyName(u: Unicode, n: Named) {
    Orderly(u.Lower(n.Name()))
  }

  /** Comparing by name is a weak order on orderly names; on canonical ones it equates exactly the names of one kind
      that are equal in lower case. */
  lemma NamesAreOrdered(u: Unicode, a: Named, b: Named, c: Named)
    requires OrderlyName(u, a) && OrderlyName(u, b) && OrderlyName(u, c)
    ensures CanonicalName(u, a) && CanonicalName(u, b) ==>
              (CompareByName(u, a, b) == 0 <==> a.isDir == b.isDir && u.Lower(a.Name()) == u.Lower(b.Name()))
    ensures CompareByName(u, a, b) < 0 <==> CompareByName(u, b, a) > 0
    ensures CompareByName(u, a, b) <= 0 && CompareByName(u, b, c) <= 0 ==> CompareByName(u, a, c) <= 0
  {
    hide CompareLowered, Canonical, Orderly;
    WeakOnOrderly(u.Lower(a.Name()), u.Lower(b.Name()), u.Lower(c.Name()));
    if CanonicalName(u, a) && CanonicalName(u, b) {
      TotalOnCanonical(u.Lower(a.Name()), u.Lower(b.Name()), u.Lower(b.Name()));
    }
  }

  /** Numbers of one value are written in the same way in both names. */
  ghost predicate NamedAlike(u: Unicode, a: Named, b: Named) {
    SpelledAlike(u.Lower(a.Name()), u.Lower(b.Name()))
  }

  /** The natural comparison puts the names in order: all of them are orderly, or their numbers are written alike. */
  ghost predicate NamesFit(u: Unicode, a: Named, b: Named, c: Named) {
    || (OrderlyName(u, a) && OrderlyName(u, b) && OrderlyName(u, c))
    || (NamedAlike(u, a, b) && NamedAlike(u, b, c) && NamedAlike(u, a, c))
  }

  lemma FittingNamesAreOrdered(u: Unicode, a: Named, b: Named, c: Named)
    requires NamesFit(u, a, b, c)
    ensures CompareByName(u, a, b) < 0 <==> CompareByName(u, b, a) > 0
    ensures CompareByName(u, a, b) <= 0 && CompareByName(u, b, c) <= 0 ==> CompareByName(u, a, c) <= 0
  {
    hide CompareLowered, SpelledAlike, OrderlyName, NamedAlike;
    if OrderlyName(u, a) && OrderlyName(u, b) && OrderlyName(u, c) {
      NamesAreOrdered(u, a, b, c);
    } else {
      AlikeNamesAreOrdered(u, a, b, c);
    }
  }

  lemma AlikeNamesAreOrdered(u: Unicode, a: Named, b: Named, c: Named)
    requires NamedAlike(u, a, b) && NamedAlike(u, b, c) && NamedAlike(u, a, c)
    ensures CompareByName(u, a, b) < 0 <==> CompareByName(u, b, a) > 0
    ensures CompareByName(u, a, b) <= 0 && CompareByName(u, b, c) <= 0 ==> CompareByName(u, a, c) <= 0
  {
    hide CompareLowered, SpelledAlike;
    WeakOnAlike(u.Lower(a.Name()), u.Lower(b.Name()), u.Lower(c.Name()));
  }

  /** A directory's name is compared without the '/' at its end, a file's as it is; directories come before files. */
  lemma NamesCompare(u: Unicode, p: string, q: string)
    ensures CompareByName(u, Named(p + "/", true), Named(q + "/", true)) == CompareNatural(u, p, q)
    ensures CompareByName(u, Named(p, false), Named(q, false)) == CompareNatural(u, p, q)
    ensures CompareByName(u, Named(p, true), Named(q, false)) < 0 < CompareByName(u, Named(p, false), Named(q, true))
    ensures (p != "" ==> p[|p| - 1] != '/') ==>
              && CompareByName(u, Named(p, true), Named(q + "/", true)) == CompareNatural(u, p, q)
              && ((q != "" ==> q[|q| - 1] != '/') ==>
                    CompareByName(u, Named(p, true), Named(q, true)) == CompareNatural(u, p, q))
  {
    hide CompareNatural;
    assert (p + "/")[..|p|] == p && (q + "/")[..|q|] == q;
  }

  /** Directories come before files by name and by size, smaller files before larger ones by size, and older entries
      before newer ones by time; ties are decided by name. */
  lemma ComparatorsMean(u: Unicode, a: DirEntry, b: DirEntry)
    ensures a.isDir && !b.isDir ==> CompareByName(u, a.AsNamed(), b.AsNamed()) < 0 && CompareBySize(u, a, b) < 0
    ensures !a.isDir && !b.isDir && a.size < b.size ==> CompareBySize(u, a, b) < 0
    ensures a.isDir == b.isDir && (a.isDir || a.size == b.size) ==>
              CompareBySize(u, a, b) == CompareNatural(u, a.AsNamed().Name(), b.AsNamed().Name())
    ensures a.modTime < b.modTime ==> CompareByTime(u, a, b) < 0
    ensures a.modTime == b.modTime ==> CompareByTime(u, a, b) == CompareByName(u, a.AsNamed(), b.AsNamed())
  {
    hide CompareNatural;
  }

  lemma NamesAreAntisymmetric(u: Unicode, a: Named, b: Named)
    ensures CompareByName(u, a, b) == -CompareByName(u, b, a)
  {
    ReflexiveAndAntisymmetric(u, a.Name(), b.Name());
  }

  /** Whatever the names are, swapping two entries negates the comparison, so sorting never sees a contradiction
      between two entries; only longer cycles need the restriction to orderly names. */
  lemma ComparatorsAreAntisymmetric(u: Unicode, a: DirEntry, b: DirEntry)
    ensures CompareByName(u, a.AsNamed(), b.AsNamed()) == -CompareByName(u, b.AsNamed(), a.AsNamed())
    ensures CompareBySize(u, a, b) == -CompareBySize(u, b, a)
    ensures CompareByTime(u, a, b) == -CompareByTime(u, b, a)
  {
    ReflexiveAndAntisymmetric(u, a.AsNamed().Name(), b.AsNamed().Name());
  }

  /** Where the comparison by name is transitive, each of the three is. */
  lemma ComparatorsAreTransitive(u: Unicode, a: DirEntry, b: DirEntry, c: DirEntry)
    requires CompareByName(u, a.AsNamed(), b.AsNamed()) <= 0 && CompareByName(u, b.AsNamed(), c.AsNamed()) <= 0 ==>
               CompareByName(u, a.AsNamed(), c.AsNamed()) <= 0
    ensures CompareByName(u, a.AsNamed(), b.AsNamed()) <= 0 && CompareByName(u, b.AsNamed(), c.AsNamed()) <= 0 ==>
              CompareByName(u, a.AsNamed(), c.AsNamed()) <= 0
    ensures CompareBySize(u, a, b) <= 0 && CompareBySize(u, b, c) <= 0 ==> CompareBySize(u, a, c) <= 0
    ensures CompareByTime(u, a, b) <= 0 && CompareByTime(u, b, c) <= 0 ==> CompareByTime(u, a, c) <= 0
  {
    hide CompareNatural;
  }

  datatype SortKey = ByName | BySize | ByTime

  function Comparator(u: Unicode, key: SortKey): (DirEntry, DirEntry) -> int {
    match key
    case ByName => (a: DirEntry, b: DirEntry) => CompareByName(u, a.AsNamed(), b.AsNamed())
    case BySize => (a: DirEntry, b: DirEntry) => CompareBySize(u, a, b)
    case ByTime => (a: DirEntry, b: DirEntry) => CompareByTime(u, a, b)
  }

  /** The comparison of the names of these entries is transitive. */
  ghost predicate Sortable(u: Unicode, entries: seq<DirEntry>) {
    forall x, y, z ::
      && x in entries && y in entries && z in entries
      && CompareByName(u, x.AsNamed(), y.AsNamed()) <= 0 && CompareByName(u, y.AsNamed(), z.AsNamed()) <= 0 ==>
        CompareByName(u, x.AsNamed(), z.AsNamed()) <= 0
  }

  /** It is if all of them are orderly, or if numbers of one value are written in the same way in all of them. */
  lemma FittingEntriesAreSortable(u: Unicode, entries: seq<DirEntry>)
    requires || (forall e :: e in entries ==> OrderlyName(u, e.AsNamed()))
             || (forall e, f :: e in entries && f in entries ==> NamedAlike(u, e.AsNamed(), f.AsNamed()))
    ensures Sortable(u, entries)
  {
    hide OrderlyName, NamedAlike, CompareByName;
    forall x, y, z | x in entries && y in entries && z in entries
      && CompareByName(u, x.AsNamed(), y.AsNamed()) <= 0 && CompareByName(u, y.AsNamed(), z.AsNamed()) <= 0
      ensures CompareByName(u, x.AsNamed(), z.AsNamed()) <= 0
    {
      FittingNamesAreOrdered(u, x.AsNamed(), y.AsNamed(), z.AsNamed());
    }
  }

  lemma ComparatorIsWeakOrder(u: Unicode, key: SortKey, entries: seq<DirEntry>)
    requires Sortable(u, entries)
    ensures WeakOrderOn(Comparator(u, key), entries)
  {
    hide CompareNatural;
    var cmp := Comparator(u, key);
    forall x, y | x in entries && y in entries ensures cmp(x, y) < 0 <==> cmp(y, x) > 0 {
      ComparatorsAreAntisymmetric(u, x, y);
    }
    forall x, y, z | x in entries && y in entries && z in entries && cmp(x, y) <= 0 && cmp(y, z) <= 0
      ensures cmp(x, z) <= 0
    {
      ComparatorsAreTransitive(u, x, y, z);
    }
  }
}
