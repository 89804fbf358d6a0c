/** The file cache of pkg/cache/disk.go: which file an id has, and opening, writing and removing it. */
module DiskCache {
  import opened Wrappers
  import opened ThumbnailNames

  // ------------------------------------------------------------------ file names

  function Digit(d: nat): char
    requires d < 10
  {
    "0123456789"[d]
  }

  /** `%d`. */
  function Decimal(n: int): string {
    if n < 0 then "-" + Natural(-n) else Natural(n)
  }

  function Natural(n: nat): string {
    if n < 10 then [Digit(n)] else Natural(n / 10) + [Digit(n % 10)]
  }

  /** How ids are turned into paths: the directory, its subdirectory for a modification time, the hash of a path and
      its extension in lower case. */
  datatype Naming = Naming(dir: string, month: int -> string, hash: string -> string, ext: string -> string)

  /** All hashes have one length, and neither they nor the extensions have a slash. */
  ghost predicate Proper(n: Naming) {
    && (forall p, q :: |n.hash(p)| == |n.hash(q)|)
    && (forall p :: Lacks(n.hash(p) + n.ext(p), '/'))
  }

  /** The ids differ at most in paths whose hashes collide. */
  predicate SameUpToHash(n: Naming, a: FileID, b: FileID) {
    a.modTime == b.modTime && a.size == b.size && n.hash(a.path) == n.hash(b.path) && n.ext(a.path) == n.ext(b.path)
  }

  function Filename(n: Naming, id: FileID): string {
    "t" + Decimal(id.modTime) + ['_'] + ("s" + Decimal(id.size) + ['_'] + (n.hash(id.path) + n.ext(id.path)))
  }

  /** generateFilepath. */
  function Filepath(n: Naming, id: FileID): string {
    n.dir + "/" + n.month(id.modTime) + ['/'] + Filename(n, id)
  }

  predicate Lacks(s: string, c: char) {
    forall i :: 0 <= i < |s| ==> s[i] != c
  }

  lemma {:induction false} NaturalIsInjective(m: nat, n: nat)
    requires Natural(m) == Natural(n)
    ensures m == n
  {
    if m >= 10 && n >= 10 {
      var a, b := Natural(m / 10), Natural(n / 10);
      assert a == (a + [Digit(m % 10)])[..|a|] && b == (b + [Digit(n % 10)])[..|b|];
      assert Natural(m)[|a|] == Digit(m % 10) && Natural(n)[|b|] == Digit(n % 10);
      NaturalIsInjective(m / 10, n / 10);
    } else {
    }
  }

  lemma {:induction false} NaturalLacks(n: nat, c: char)
    requires forall d: nat :: d < 10 ==> Digit(d) != c
    ensures Lacks(Natural(n), c)
  {
    if n >= 10 { NaturalLacks(n / 10, c); }
  }

  lemma DecimalFacts(m: int, n: int)
    ensures Lacks(Decimal(m), '_') && Lacks(Decimal(m), '/')
    ensures Decimal(m) == Decimal(n) ==> m == n
  {
    var a, b := if m < 0 then -m else m, if n < 0 then -n else n;
    NaturalLacks(a, '_');
    NaturalLacks(a, '/');
    NaturalLacks(a, '-');
    NaturalLacks(b, '-');
    if Decimal(m) == Decimal(n) {
      assert Decimal(m)[0] == '-' <==> m < 0;
      assert Decimal(n)[0] == '-' <==> n < 0;
      assert ("-" + Natural(a))[1..] == Natural(a) && ("-" + Natural(b))[1..] == Natural(b);
      NaturalIsInjective(a, b);
    }
  }

  /** The text before the first separator, and the text after it, are determined. */
  lemma SplitFirst(a: string, x: string, b: string, y: string, c: char)
    requires Lacks(a, c) && Lacks(b, c) && a + [c] + x == b + [c] + y
    ensures a == b && x == y
  {
    var s := a + [c] + x;
    assert s[|a|] == c && s[|b|] == c;
    assert forall i :: 0 <= i < |a| ==> s[i] == a[i];
    assert forall i :: 0 <= i < |b| ==> s[i] == b[i];
    assert a == s[..|a|] && b == s[..|b|];
    assert x == s[|a| + 1..] && y == s[|b| + 1..];
  }

  /** Likewise for the last separator. */
  lemma SplitLast(a: string, x: string, b: string, y: string, c: char)
    requires Lacks(x, c) && Lacks(y, c) && a + [c] + x == b + [c] + y
    ensures a == b && x == y
  {
    var s := a + [c] + x;
    assert s[|a|] == c && s[|b|] == c;
    assert forall i :: 0 <= i < |x| ==> s[|a| + 1 + i] == x[i];
    assert forall i :: 0 <= i < |y| ==> s[|b| + 1 + i] == y[i];
    assert a == s[..|a|] && b == s[..|b|];
    assert x == s[|a| + 1..] && y == s[|b| + 1..];
  }

  lemma FilenameIsInjective(n: Naming, a: FileID, b: FileID)
    requires Proper(n) && Filename(n, a) == Filename(n, b)
    ensures SameUpToHash(n, a, b)
  {
    hide Decimal;
    DecimalFacts(a.modTime, b.modTime);
    DecimalFacts(b.modTime, a.modTime);
    DecimalFacts(a.size, b.size);
    DecimalFacts(b.size, a.size);
    var x, y := n.hash(a.path) + n.ext(a.path), n.hash(b.path) + n.ext(b.path);
    SplitFirst("t" + Decimal(a.modTime), "s" + Decimal(a.size) + ['_'] + x,
               "t" + Decimal(b.modTime), "s" + Decimal(b.size) + ['_'] + y, '_');
    SplitFirst("s" + Decimal(a.size), x, "s" + Decimal(b.size), y, '_');
    AfterFirst("t", Decimal(a.modTime), Decimal(b.modTime));
    AfterFirst("s", Decimal(a.size), Decimal(b.size));
    var k := |n.hash(a.path)|;
    assert k == |n.hash(b.path)|;
    assert n.hash(a.path) == x[..k] && n.hash(b.path) == y[..k] && n.ext(a.path) == x[k..] && n.ext(b.path) == y[k..];
  }

  lemma AfterFirst(p: string, a: string, b: string)
    requires p + a == p + b
    ensures a == b
  {
    assert a == (p + a)[|p|..] && b == (p + b)[|p|..];
  }

  /** Two ids have the same file exactly if they agree up to a collision of hashes. */
  lemma SameFileExactly(n: Naming, a: FileID, b: FileID)
    requires Proper(n)
    ensures Filepath(n, a) == Filepath(n, b) <==> SameUpToHash(n, a, b)
  {
    hide Decimal;
    DecimalFacts(a.modTime, a.modTime);
    DecimalFacts(b.modTime, b.modTime);
    DecimalFacts(a.size, a.size);
    DecimalFacts(b.size, b.size);
    assert Lacks(n.hash(a.path) + n.ext(a.path), '/') && Lacks(n.hash(b.path) + n.ext(b.path), '/');
    if Filepath(n, a) == Filepath(n, b) {
      SplitLast(n.dir + "/" + n.month(a.modTime), Filename(n, a),
                n.dir + "/" + n.month(b.modTime), Filename(n, b), '/');
      FilenameIsInjective(n, a, b);
    }
  }

  // ------------------------------------------------------------------ the cache

  /** What a reader delivers before it ends, or fails. */
  datatype Source = Source(data: string, fails: bool)

  /** What the file system refuses to do. */
  datatype Faults = Faults(create: bool, close: bool, remove: bool)

  class Cache {
    const naming: Naming
    var files: map<string, string>

    /** The content cached for an id. */
    function Lookup(id: FileID): Option<string>
      reads this
    {
      var path := Filepath(naming, id);
      if path in files then Some(files[path]) else None
    }

    constructor (naming: Naming, files: map<string, string>)
      ensures this.naming == naming && this.files == files
    {
      this.naming, this.files := naming, files;
    }

    method Open(id: FileID) returns (content: Option<string>)
      ensures content == Lookup(id)
    {
      var path := Filepath(naming, id);
      if path !in files {
        return None;
      }
      return Some(files[path]);
    }

    /** A write that works caches what was read; one that fails leaves nothing, unless the file could not be opened or
        the clean-up fails too.  Other ids keep their files, up to collisions of hashes. */
    method Write(id: FileID, r: Source, f: Faults) returns (ok: bool)
      requires Proper(naming)
      modifies this
      ensures ok <==> !f.create && !r.fails && !f.close
      ensures Lookup(id) == if f.create then old(Lookup(id)) else if ok || f.remove then Some(r.data) else None
      ensures forall other :: !SameUpToHash(naming, other, id) ==> Lookup(other) == old(Lookup(other))
    {
      hide Filepath;
      forall other ensures Filepath(naming, other) == Filepath(naming, id) <==> SameUpToHash(naming, other, id) {
        SameFileExactly(naming, other, id);
      }
      var path := Filepath(naming, id);
      if f.create {
        return false;
      }
      files := files[path := r.data];
      var failed := r.fails || f.close;
      if failed && !f.remove {
        files := files - {path};
      }
      return !failed;
    }

    method Remove(id: FileID, f: Faults) returns (ok: bool)
      requires Proper(naming)
      modifies this
      ensures ok <==> old(Lookup(id)).Some? && !f.remove
      ensures Lookup(id) == if f.remove then old(Lookup(id)) else None
      ensures forall other :: !SameUpToHash(naming, other, id) ==> Lookup(other) == old(Lookup(other))
    {
      hide Filepath;
      forall other ensures Filepath(naming, other) == Filepath(naming, id) <==> SameUpToHash(naming, other, id) {
        SameFileExactly(naming, other, id);
      }
      var path := Filepath(naming, id);
      if path !in files || f.remove {
        return false;
      }
      files := files - {path};
      return true;
    }
  }
}
