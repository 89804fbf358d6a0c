/** Comparators in the style of Go's `cmp` package, lexicographic order, and a sort.

    A comparator returns a negative number, zero or a positive number.  `SortBy` stands for the library's
    `slices.SortFunc`: a deterministic rearrangement of its input that is sorted whenever the comparator is a
    weak order on the input.  Nothing else about it is used. */
module Order {

  function CompareInt(a: int, b: int): int {
    if a < b then -1 else if a > b then 1 else 0
  }

  /** The comparator is a total preorder on the elements of `s`. */
  ghost predicate WeakOrderOn<T>(cmp: (T, T) -> int, s: seq<T>) {
    && (forall x, y :: x in s && y in s ==> (cmp(x, y) < 0 <==> cmp(y, x) > 0))
    && (forall x, y, z :: x in s && y in s && z in s && cmp(x, y) <= 0 && cmp(y, z) <= 0 ==> cmp(x, z) <= 0)
  }

  /** The comparator is a total preorder that tells distinct elements of `s` apart. */
  ghost predicate StrictOrderOn<T>(cmp: (T, T) -> int, s: seq<T>) {
    && WeakOrderOn(cmp, s)
    && forall x, y :: x in s && y in s && cmp(x, y) == 0 ==> x == y
  }

  /** The comparator is a total order on the whole type. */
  ghost predicate TotalOrder<T(!new)>(cmp: (T, T) -> int) {
    && (forall x, y :: cmp(x, y) < 0 <==> cmp(y, x) > 0)
    && (forall x, y :: cmp(x, y) == 0 <==> x == y)
    && (forall x, y, z :: cmp(x, y) <= 0 && cmp(y, z) <= 0 ==> cmp(x, z) <= 0)
  }

  ghost predicate Sorted<T>(cmp: (T, T) -> int, s: seq<T>) {
    forall i, j :: 0 <= i < j < |s| ==> cmp(s[i], s[j]) <= 0
  }

  ghost predicate NoDuplicates<T>(s: seq<T>) {
    forall i, j :: 0 <= i < j < |s| ==> s[i] != s[j]
  }

  ghost predicate SameElements<T>(a: seq<T>, b: seq<T>) {
    (forall x :: x in a ==> x in b) && (forall x :: x in b ==> x in a)
  }

  function Reverse<T>(s: seq<T>): seq<T> {
    if |s| == 0 then [] else Reverse(s[1..]) + [s[0]]
  }

  lemma {:induction false} ReverseFacts<T>(s: seq<T>)
    ensures |Reverse(s)| == |s| && forall i :: 0 <= i < |s| ==> Reverse(s)[i] == s[|s| - 1 - i]
    ensures multiset(Reverse(s)) == multiset(s)
  {
    if |s| > 0 {
      ReverseFacts(s[1..]);
      assert s == [s[0]] + s[1..];
    }
  }

  function Insert<T>(cmp: (T, T) -> int, x: T, s: seq<T>): seq<T> {
    if |s| == 0 || cmp(x, s[0]) <= 0 then [x] + s else [s[0]] + Insert(cmp, x, s[1..])
  }

  function SortBy<T>(cmp: (T, T) -> int, s: seq<T>): seq<T> {
    if |s| == 0 then [] else Insert(cmp, s[0], SortBy(cmp, s[1..]))
  }

  lemma {:induction false} InsertPermutes<T>(cmp: (T, T) -> int, x: T, s: seq<T>)
    ensures multiset(Insert(cmp, x, s)) == multiset{x} + multiset(s)
  {
    if |s| > 0 && cmp(x, s[0]) > 0 {
      InsertPermutes(cmp, x, s[1..]);
      assert s == [s[0]] + s[1..];
    }
  }

  lemma {:induction false} SortByPermutes<T>(cmp: (T, T) -> int, s: seq<T>)
    ensures multiset(SortBy(cmp, s)) == multiset(s)
  {
    if |s| > 0 {
      SortByPermutes(cmp, s[1..]);
      InsertPermutes(cmp, s[0], SortBy(cmp, s[1..]));
      assert s == [s[0]] + s[1..];
    }
  }

  /** Two sequences with the same multiset of elements have the same length, elements and repetitions. */
  lemma Permutation<T>(a: seq<T>, b: seq<T>)
    requires multiset(a) == multiset(b)
    ensures |a| == |b| && SameElements(a, b)
    ensures NoDuplicates(a) ==> NoDuplicates(b)
  {
    assert |a| == |multiset(a)| && |b| == |multiset(b)|;
    forall x ensures x in a <==> x in b {
      assert x in a <==> x in multiset(a);
      assert x in b <==> x in multiset(b);
    }
    if NoDuplicates(a) {
      forall i, j | 0 <= i < j < |b| ensures b[i] != b[j] {
        if b[i] == b[j] {
          Twice(b, i, j);
          Once(a, b[i]);
          assert false;
        }
      }
    }
  }

  lemma {:induction false} Once<T>(s: seq<T>, x: T)
    requires NoDuplicates(s)
    ensures multiset(s)[x] <= 1
  {
    if |s| > 0 {
      assert s == [s[0]] + s[1..];
      Once(s[1..], x);
      assert s[0] !in s[1..];
    }
  }

  lemma Twice<T>(s: seq<T>, i: int, j: int)
    requires 0 <= i < j < |s| && s[i] == s[j]
    ensures multiset(s)[s[i]] >= 2
  {
    assert s == s[..j] + s[j..];
    assert s[..j][i] == s[i] && s[j..][0] == s[j];
    assert s[i] in s[..j] && s[i] in s[j..];
  }

  lemma WeakOrderOnPart<T>(cmp: (T, T) -> int, s: seq<T>, part: seq<T>)
    requires WeakOrderOn(cmp, s)
    requires forall x :: x in part ==> x in s
    ensures WeakOrderOn(cmp, part)
  {}

  lemma StrictOrderOnPart<T>(cmp: (T, T) -> int, s: seq<T>, part: seq<T>)
    requires StrictOrderOn(cmp, s)
    requires forall x :: x in part ==> x in s
    ensures StrictOrderOn(cmp, part)
  {}

  lemma PrependSorted<T>(cmp: (T, T) -> int, x: T, s: seq<T>)
    requires Sorted(cmp, s) && forall i :: 0 <= i < |s| ==> cmp(x, s[i]) <= 0
    ensures Sorted(cmp, [x] + s)
  {}

  lemma HeadIsLeast<T>(cmp: (T, T) -> int, s: seq<T>, x: T)
    requires WeakOrderOn(cmp, s) && Sorted(cmp, s) && x in s
    ensures cmp(s[0], x) <= 0
  {
    var k :| 0 <= k < |s| && s[k] == x;
    assert s[0] in s;
  }

  /** `all` is any collection that holds both `x` and the elements of `s`. */
  lemma {:induction false} InsertSorted<T>(cmp: (T, T) -> int, all: seq<T>, x: T, s: seq<T>)
    requires WeakOrderOn(cmp, all) && x in all && forall i :: 0 <= i < |s| ==> s[i] in all
    requires Sorted(cmp, s)
    ensures Sorted(cmp, Insert(cmp, x, s))
  {
    if |s| == 0 || cmp(x, s[0]) <= 0 {
      assert forall i :: 0 < i < |s| ==> cmp(s[0], s[i]) <= 0;
      PrependSorted(cmp, x, s);
    } else {
      var tail := Insert(cmp, x, s[1..]);
      InsertSorted(cmp, all, x, s[1..]);
      InsertPermutes(cmp, x, s[1..]);
      forall j | 0 <= j < |tail| ensures cmp(s[0], tail[j]) <= 0 {
        assert tail[j] in multiset(tail);
        if tail[j] != x {
          assert tail[j] in s[1..];
          var k :| 0 <= k < |s[1..]| && s[1..][k] == tail[j];
          assert cmp(s[0], s[k + 1]) <= 0;
        }
      }
      PrependSorted(cmp, s[0], tail);
    }
  }

  lemma {:induction false} SortBySortedIn<T>(cmp: (T, T) -> int, all: seq<T>, s: seq<T>)
    requires WeakOrderOn(cmp, all) && forall i :: 0 <= i < |s| ==> s[i] in all
    ensures Sorted(cmp, SortBy(cmp, s))
  {
    if |s| > 0 {
      var rest := SortBy(cmp, s[1..]);
      SortBySortedIn(cmp, all, s[1..]);
      SortByPermutes(cmp, s[1..]);
      Permutation(rest, s[1..]);
      forall i | 0 <= i < |rest| ensures rest[i] in all {
        assert rest[i] in s[1..];
      }
      InsertSorted(cmp, all, s[0], rest);
    }
  }

  lemma SortBySorted<T>(cmp: (T, T) -> int, s: seq<T>)
    requires WeakOrderOn(cmp, s)
    ensures Sorted(cmp, SortBy(cmp, s))
  {
    SortBySortedIn(cmp, s, s);
  }

  lemma NonemptyToo<T>(a: seq<T>, b: seq<T>)
    requires forall x :: x in a ==> x in b
    ensures |a| > 0 ==> |b| > 0
  {
    if |a| > 0 { assert a[0] in a; }
  }

  lemma TailElements<T>(a: seq<T>, b: seq<T>)
    requires NoDuplicates(a) && |a| > 0 && |b| > 0 && a[0] == b[0]
    requires forall x :: x in a ==> x in b
    ensures forall x :: x in a[1..] ==> x in b[1..]
  {
    forall x | x in a[1..] ensures x in b[1..] {
      var i :| 0 <= i < |a[1..]| && a[1..][i] == x;
      assert a[i + 1] == x && a[0] != a[i + 1];
      assert x in a;
      var k :| 0 <= k < |b| && b[k] == x;
      assert b[1..][k - 1] == x;
    }
  }

  lemma TailKeeps<T>(cmp: (T, T) -> int, s: seq<T>)
    requires |s| > 0
    ensures Sorted(cmp, s) ==> Sorted(cmp, s[1..])
    ensures NoDuplicates(s) ==> NoDuplicates(s[1..])
    ensures forall x :: x in s[1..] ==> x in s
  {}

  lemma HeadsAgree<T>(cmp: (T, T) -> int, a: seq<T>, b: seq<T>)
    requires StrictOrderOn(cmp, a) && SameElements(a, b)
    requires Sorted(cmp, a) && Sorted(cmp, b) && |a| > 0
    ensures |b| > 0 && a[0] == b[0]
  {
    assert a[0] in a && a[0] in b;
    assert b[0] in b && b[0] in a;
    WeakOrderOnPart(cmp, a, b);
    HeadIsLeast(cmp, a, b[0]);
    HeadIsLeast(cmp, b, a[0]);
  }

  /** Under a strict order a sorted sequence is determined by its set of elements. */
  lemma {:induction false} SortedUnique<T>(cmp: (T, T) -> int, a: seq<T>, b: seq<T>)
    requires StrictOrderOn(cmp, a) && SameElements(a, b)
    requires NoDuplicates(a) && NoDuplicates(b) && Sorted(cmp, a) && Sorted(cmp, b)
    ensures a == b
  {
    if |a| == 0 {
      NonemptyToo(b, a);
    } else {
      HeadsAgree(cmp, a, b);
      var ta, tb := a[1..], b[1..];
      assert a == [a[0]] + ta && b == [b[0]] + tb;
      assert ta == tb by {
        TailElements(a, b);
        TailElements(b, a);
        TailKeeps(cmp, a);
        TailKeeps(cmp, b);
        StrictOrderOnPart(cmp, a, ta);
        SortedUnique(cmp, ta, tb);
      }
    }
  }

  /** Sorting under a strict order forgets the order of its input. */
  lemma SortForgetsOrder<T>(cmp: (T, T) -> int, a: seq<T>, b: seq<T>)
    requires StrictOrderOn(cmp, a) && SameElements(a, b)
    requires NoDuplicates(a) && NoDuplicates(b)
    ensures SortBy(cmp, a) == SortBy(cmp, b)
  {
    var sa, sb := SortBy(cmp, a), SortBy(cmp, b);
    WeakOrderOnPart(cmp, a, b);
    SortBySorted(cmp, a);
    SortBySorted(cmp, b);
    SortByPermutes(cmp, a);
    SortByPermutes(cmp, b);
    Permutation(a, sa);
    Permutation(b, sb);
    StrictOrderOnPart(cmp, a, sa);
    SortedUnique(cmp, sa, sb);
  }

  lemma {:induction false} InsertAt<T>(cmp: (T, T) -> int, x: T, s: seq<T>, k: nat)
    requires k <= |s| && (forall j :: 0 <= j < k ==> cmp(x, s[j]) > 0)
    requires k < |s| ==> cmp(x, s[k]) <= 0
    ensures Insert(cmp, x, s) == s[..k] + [x] + s[k..]
  {
    if k > 0 {
      var t := s[1..];
      assert forall j :: 0 <= j < k - 1 ==> t[j] == s[j + 1];
      InsertAt(cmp, x, t, k - 1);
      assert s[..k] == [s[0]] + t[..k - 1] && s[k..] == t[k - 1..];
    } else {
      assert s[..0] + [x] + s[0..] == [x] + s;
    }
  }

  /** Moves everything before which `x` does not belong one place to the left. */
  method ShiftLeft<T>(a: array<T>, i: nat, x: T, cmp: (T, T) -> int) returns (k: nat)
    requires i < a.Length
    modifies a
    ensures i <= k < a.Length
    ensures forall j :: 0 <= j < i || k < j < a.Length ==> a[j] == old(a[j])
    ensures forall j :: i <= j < k ==> a[j] == old(a[j + 1])
    ensures forall j :: i < j <= k ==> cmp(x, old(a[j])) > 0
    ensures k + 1 < a.Length ==> cmp(x, old(a[k + 1])) <= 0
  {
    k := i;
    while k + 1 < a.Length && cmp(x, a[k + 1]) > 0
      invariant i <= k < a.Length
      invariant forall j :: 0 <= j < i || k < j < a.Length ==> a[j] == old(a[j])
      invariant forall j :: i <= j < k ==> a[j] == old(a[j + 1])
      invariant forall j :: i < j <= k ==> cmp(x, old(a[j])) > 0
    {
      a[k] := a[k + 1];
      k := k + 1;
    }
  }

  lemma InsertedRow<T>(cmp: (T, T) -> int, was: seq<T>, now: seq<T>, i: nat, k: nat)
    requires i <= k < |was| == |now|
    requires now[k] == was[i] && forall j :: k < j < |was| ==> now[j] == was[j]
    requires forall j :: i <= j < k ==> now[j] == was[j + 1]
    requires forall j :: i < j <= k ==> cmp(was[i], was[j]) > 0
    requires k + 1 < |was| ==> cmp(was[i], was[k + 1]) <= 0
    ensures now[i..] == Insert(cmp, was[i], was[i + 1..])
  {
    var rest := was[i + 1..];
    assert forall j :: 0 <= j < k - i ==> rest[j] == was[i + 1 + j];
    InsertAt(cmp, was[i], rest, k - i);
    assert now[i..] == rest[..k - i] + [was[i]] + rest[k - i..];
  }

  method InsertInPlace<T>(a: array<T>, i: nat, cmp: (T, T) -> int)
    requires i < a.Length
    modifies a
    ensures a[..i] == old(a[..i])
    ensures a[i..] == Insert(cmp, old(a[i]), old(a[i + 1..]))
  {
    ghost var was := a[..];
    var x := a[i];
    var k := ShiftLeft(a, i, x, cmp);
    a[k] := x;
    InsertedRow(cmp, was, a[..], i, k);
    assert a[i..] == a[..][i..] && was[i + 1..] == old(a[i + 1..]);
  }

  /** Insertion sort from the right end, in place. */
  method SortInPlace<T>(a: array<T>, cmp: (T, T) -> int)
    modifies a
    ensures a[..] == SortBy(cmp, old(a[..]))
  {
    ghost var was := a[..];
    var i := a.Length;
    while i > 0
      invariant 0 <= i <= a.Length
      invariant a[..i] == was[..i]
      invariant a[i..] == SortBy(cmp, was[i..])
    {
      i := i - 1;
      assert a[i] == was[i] by { assert a[..i + 1][i] == was[..i + 1][i]; }
      assert a[..i] == was[..i] by { assert a[..i] == a[..i + 1][..i]; }
      assert was[i..][1..] == was[i + 1..];
      InsertInPlace(a, i, cmp);
    }
    assert a[..] == a[0..] && was == was[0..];
  }

  /** Lexicographic order of sequences. */
  function Lex<T>(cmp: (T, T) -> int, a: seq<T>, b: seq<T>): int {
    if |a| == 0 then (if |b| == 0 then 0 else -1)
    else if |b| == 0 then 1
    else
      var c := cmp(a[0], b[0]);
      if c < 0 then -1 else if c > 0 then 1 else Lex(cmp, a[1..], b[1..])
  }

  lemma {:induction false} LexAntisymmetric<T(!new)>(cmp: (T, T) -> int, a: seq<T>, b: seq<T>)
    requires TotalOrder(cmp)
    ensures Lex(cmp, a, b) == -Lex(cmp, b, a)
  {
    if |a| > 0 && |b| > 0 {
      LexAntisymmetric(cmp, a[1..], b[1..]);
    }
  }

  lemma {:induction false} LexIsSign<T>(cmp: (T, T) -> int, a: seq<T>, b: seq<T>)
    ensures -1 <= Lex(cmp, a, b) <= 1
  {
    if |a| > 0 && |b| > 0 { LexIsSign(cmp, a[1..], b[1..]); }
  }

  lemma {:induction false} LexZero<T(!new)>(cmp: (T, T) -> int, a: seq<T>, b: seq<T>)
    requires TotalOrder(cmp)
    ensures Lex(cmp, a, b) == 0 <==> a == b
  {
    if |a| > 0 && |b| > 0 {
      LexZero(cmp, a[1..], b[1..]);
      assert a == [a[0]] + a[1..] && b == [b[0]] + b[1..];
    }
  }

  lemma {:induction false} LexTransitive<T(!new)>(cmp: (T, T) -> int, a: seq<T>, b: seq<T>, c: seq<T>)
    requires TotalOrder(cmp)
    requires Lex(cmp, a, b) <= 0 && Lex(cmp, b, c) <= 0
    ensures Lex(cmp, a, c) <= 0
  {
    if |a| > 0 && |b| > 0 && |c| > 0 {
      assert cmp(a[0], b[0]) <= 0 && cmp(b[0], c[0]) <= 0;
      if cmp(a[0], c[0]) == 0 {
        assert cmp(b[0], a[0]) <= 0;
        LexTransitive(cmp, a[1..], b[1..], c[1..]);
      }
    }
  }

  lemma {:induction false} LexSkip<T(!new)>(cmp: (T, T) -> int, p: seq<T>, x: seq<T>, y: seq<T>)
    requires TotalOrder(cmp)
    ensures Lex(cmp, p + x, p + y) == Lex(cmp, x, y)
  {
    if |p| == 0 {
      assert p + x == x && p + y == y;
    } else {
      assert (p + x)[1..] == p[1..] + x && (p + y)[1..] == p[1..] + y;
      LexSkip(cmp, p[1..], x, y);
    }
  }

  /** Everything between a prefix and one of its extensions is itself an extension. */
  lemma {:induction false} PrefixContiguous<T(!new)>(cmp: (T, T) -> int, p: seq<T>, y: seq<T>, x: seq<T>)
    requires TotalOrder(cmp)
    requires p <= x && Lex(cmp, p, y) <= 0 && Lex(cmp, y, x) <= 0
    ensures p <= y
  {
    if |p| > 0 {
      assert p[0] == x[0] && |y| > 0;
      assert cmp(p[0], y[0]) <= 0 && cmp(y[0], x[0]) <= 0;
      assert p[0] == y[0];
      PrefixContiguous(cmp, p[1..], y[1..], x[1..]);
      assert p == [p[0]] + p[1..] && y == [y[0]] + y[1..];
    }
  }

  lemma {:induction false} PrefixIsLess<T(!new)>(cmp: (T, T) -> int, p: seq<T>, x: seq<T>)
    requires TotalOrder(cmp) && p <= x
    ensures Lex(cmp, p, x) <= 0
  {
    if |p| > 0 {
      PrefixIsLess(cmp, p[1..], x[1..]);
    }
  }
}
