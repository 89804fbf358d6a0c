/** Text as sequences of Unicode scalar values, which is what valid UTF-8 strings decode to.

    The Unicode tables are parameters.  `Standard` collects the only facts about them that the project relies on. */
module Text {
  import opened Order

  function CompareChar(a: char, b: char): int {
    if a < b then -1 else if a > b then 1 else 0
  }

  lemma CharsAreOrdered()
    ensures TotalOrder(CompareChar)
  {}

  /** `strings.Compare`: the order of code points is the order of UTF-8 bytes. */
  function Compare(a: string, b: string): int {
    Lex(CompareChar, a, b)
  }

  predicate OccursAt(s: string, t: string, i: nat) {
    i + |t| <= |s| && s[i..i + |t|] == t
  }

  /** `strings.Contains`. */
  predicate Contains(s: string, t: string) {
    exists i | 0 <= i <= |s| :: OccursAt(s, t, i)
  }

  lemma ContainsRune(s: string, c: char)
    ensures Contains(s, [c]) ==> c in s
  {
    if Contains(s, [c]) {
      var i :| 0 <= i <= |s| && OccursAt(s, [c], i);
      assert s[i..i + 1][0] == s[i];
    }
  }

  /** A text contains another one if it is what is before it, the other one, and what is after it. */
  lemma ContainsIff(s: string, t: string)
    ensures Contains(s, t) <==> exists a, b :: s == a + t + b
  {
    if Contains(s, t) {
      var i :| 0 <= i <= |s| && OccursAt(s, t, i);
      assert s == s[..i] + t + s[i + |t|..];
    }
    if a, b :| s == a + t + b {
      assert OccursAt(s, t, |a|);
    }
  }

  /** The first difference decides, and a beginning comes before the whole. */
  lemma CompareIs(p: string, c: char, x: string, d: char, y: string)
    ensures Compare(p, p) == 0 && Compare(p, p + ([c] + x)) < 0 < Compare(p + ([c] + x), p)
    ensures c < d ==> Compare(p + ([c] + x), p + ([d] + y)) < 0 < Compare(p + ([d] + y), p + ([c] + x))
  {
    CharsAreOrdered();
    LexSkip(CompareChar, p, [c] + x, [d] + y);
    LexSkip(CompareChar, p, [d] + y, [c] + x);
    LexSkip(CompareChar, p, "", [c] + x);
    LexSkip(CompareChar, p, [c] + x, "");
    LexZero(CompareChar, p, p);
    assert p + "" == p;
  }

  predicate IsDigit(r: char) {
    '0' <= r <= '9'
  }

  /** What indexing makes of one rune: it ends a word, it contributes a rune to a word, or it is ignored. */
  datatype Class = Separator | Keep(rune: char) | Drop

  /** `decompose` is the compatibility decomposition (NFKD) of a single rune. */
  datatype Unicode = Unicode(decompose: char -> string, isSpace: char -> bool, isLetter: char -> bool,
      toLower: char -> char) {

    function Classify(r: char): Class {
      if r == '/' || r == '.' || isSpace(r) then Separator
      else if IsDigit(r) then Keep(r)
      else if isLetter(r) then Keep(toLower(r))
      else Drop
    }

    /** Indexing leaves the rune as it is. */
    predicate Settled(r: char) {
      decompose(r) == [r] && Classify(r) == Keep(r)
    }

    /** Runes kept by indexing are settled, '/' does not decompose, and the query punctuation has no case. */
    ghost predicate Standard() {
      && decompose('/') == "/"
      && toLower(' ') == ' ' && toLower('"') == '"' && toLower('-') == '-'
      && forall x, r :: r in decompose(x) && Classify(r).Keep? ==> Settled(Classify(r).rune)
    }

    /** Lower-case ASCII letters, and '.', are in lower case. */
    ghost predicate KeepsLowerAscii() {
      forall c :: 'a' <= c <= 'z' || c == '.' ==> toLower(c) == c
    }

    /** `norm.NFKD.String`.  The canonical reordering of combining marks is not modelled: marks are not letters,
        so indexing drops them in any order. */
    function Decompose(s: string): string {
      if s == "" then "" else decompose(s[0]) + Decompose(s[1..])
    }

    /** `strings.ToLower`. */
    function Lower(s: string): string {
      seq(|s|, i requires 0 <= i < |s| => toLower(s[i]))
    }
  }

  /** A text is put into lower case rune by rune. */
  lemma LowerIs(u: Unicode, s: string)
    ensures |u.Lower(s)| == |s| && forall i :: 0 <= i < |s| ==> u.Lower(s)[i] == u.toLower(s[i])
  {}

  lemma {:induction false} DecomposeConcat(u: Unicode, a: string, b: string)
    ensures u.Decompose(a + b) == u.Decompose(a) + u.Decompose(b)
  {
    if a == "" {
      assert a + b == b;
    } else {
      DecomposeConcat(u, a[1..], b);
      assert (a + b)[1..] == a[1..] + b;
    }
  }

  lemma ContainsInExtension(a: string, b: string, t: string)
    requires Contains(a, t)
    ensures Contains(a + b, t)
  {
    var i :| 0 <= i <= |a| && OccursAt(a, t, i);
    assert OccursAt(a + b, t, i) by { assert (a + b)[i..i + |t|] == t; }
  }

  // A small instance of the tables, for concrete examples.

  predicate IsAsciiLetter(r: char) {
    'a' <= r <= 'z' || 'A' <= r <= 'Z'
  }

  function AsciiLower(r: char): char {
    if 'A' <= r <= 'Z' then (r as int + 32) as char else r
  }

  const ASCII: Unicode := Unicode(r => [r], r => r == ' ' || '\t' <= r <= '\r', IsAsciiLetter, AsciiLower)

  lemma AsciiLowerIs(s: string)
    requires forall i :: 0 <= i < |s| ==> !('A' <= s[i] <= 'Z')
    ensures ASCII.Lower(s) == s
  {}

  lemma AsciiIsStandard()
    ensures ASCII.Standard()
  {}
}
