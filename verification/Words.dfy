/** Normalised words and their prefixes: splitToNormalizedWords and generatePrefixes of search/prefix_index.go. */
module Words {
  import opened Text

  /** What the first rune does to the fields of the rest: it ends a field, begins one, or adds nothing. */
  function Push(u: Unicode, r: char, rest: seq<string>): (fs: seq<string>)
    requires |rest| > 0
    ensures |fs| > 0
  {
    match u.Classify(r)
    case Separator => [""] + rest
    case Keep(c) => [[c] + rest[0]] + rest[1..]
    case Drop => rest
  }

  /** The kept runes of every separator-delimited field of an already decomposed text. */
  function Fields(u: Unicode, s: string): (fs: seq<string>)
    ensures |fs| > 0
  {
    if s == "" then [""] else Push(u, s[0], Fields(u, s[1..]))
  }

  function Flushed(word: string, minLen: nat): seq<string> {
    if |word| >= minLen then [word] else []
  }

  function LongEnough(minLen: nat, fs: seq<string>): seq<string> {
    if fs == [] then []
    else (if |fs[0]| >= minLen then [fs[0]] else []) + LongEnough(minLen, fs[1..])
  }

  /** The words of an already decomposed text. */
  function WordsIn(u: Unicode, s: string, minLen: nat): seq<string> {
    LongEnough(minLen, Fields(u, s))
  }

  function Split(u: Unicode, v: string, minLen: nat): seq<string> {
    WordsIn(u, u.Decompose(v), minLen)
  }

  lemma LongEnoughFirst(minLen: nat, fs: seq<string>)
    ensures LongEnough(minLen, []) == []
    ensures fs != [] ==> LongEnough(minLen, fs) == Flushed(fs[0], minLen) + LongEnough(minLen, fs[1..])
  {}

  lemma Regroup(a: seq<string>, b: seq<string>, c: seq<string>)
    ensures a + (b + c) == (a + b) + c
  {}

  lemma {:induction false} LongEnoughConcat(minLen: nat, a: seq<string>, b: seq<string>)
    ensures LongEnough(minLen, a + b) == LongEnough(minLen, a) + LongEnough(minLen, b)
  {
    hide LongEnough, Flushed;
    LongEnoughFirst(minLen, a);
    if a == [] {
      assert a + b == b;
    } else {
      LongEnoughConcat(minLen, a[1..], b);
      assert (a + b)[1..] == a[1..] + b;
      LongEnoughFirst(minLen, a + b);
      Regroup(Flushed(a[0], minLen), LongEnough(minLen, a[1..]), LongEnough(minLen, b));
    }
  }

  lemma {:induction false} InLongEnough(minLen: nat, fs: seq<string>, w: string)
    ensures w in LongEnough(minLen, fs) <==> w in fs && |w| >= minLen
  {
    if fs != [] {
      InLongEnough(minLen, fs[1..], w);
      assert fs == [fs[0]] + fs[1..];
    }
  }

  lemma FieldsFirst(u: Unicode, s: string)
    ensures Fields(u, "") == [""]
    ensures s != "" ==> Fields(u, s) == Push(u, s[0], Fields(u, s[1..]))
  {
    hide Push;
  }

  lemma {:induction false} FieldsAtSeparator(u: Unicode, a: string, sep: char, b: string)
    requires u.Classify(sep) == Separator
    ensures Fields(u, a + [sep] + b) == Fields(u, a) + Fields(u, b)
  {
    hide Fields;
    var s := a + [sep] + b;
    FieldsFirst(u, a);
    FieldsFirst(u, s);
    if a == "" {
      assert s[1..] == b;
    } else {
      hide Push;
      FieldsAtSeparator(u, a[1..], sep, b);
      assert s[1..] == a[1..] + [sep] + b;
    }
  }

  ghost predicate AllSettled(u: Unicode, w: string) {
    forall c :: c in w ==> u.Settled(c)
  }

  lemma {:induction false} DecomposedFrom(u: Unicode, v: string, r: char)
    requires r in u.Decompose(v)
    ensures exists x :: r in u.decompose(x)
  {
    if r !in u.decompose(v[0]) { DecomposedFrom(u, v[1..], r); }
  }

  lemma {:induction false} FieldsAreSettled(u: Unicode, s: string)
    requires forall r :: r in s && u.Classify(r).Keep? ==> u.Settled(u.Classify(r).rune)
    ensures forall f :: f in Fields(u, s) ==> AllSettled(u, f)
  {
    if s != "" {
      FieldsAreSettled(u, s[1..]);
      var rest := Fields(u, s[1..]);
      assert s[0] in s && rest[0] in rest;
      forall f | f in Fields(u, s) ensures AllSettled(u, f) {
        if f !in rest && f != "" { assert u.Classify(s[0]).Keep? && f == [u.Classify(s[0]).rune] + rest[0]; }
      }
    }
  }

  lemma {:induction false} SettledIsOneField(u: Unicode, w: string)
    requires AllSettled(u, w)
    ensures u.Decompose(w) == w && Fields(u, w) == [w]
  {
    if w != "" {
      assert w[0] in w;
      SettledIsOneField(u, w[1..]);
      assert w == [w[0]] + w[1..];
    }
  }

  /** Splitting a normalised word gives that word alone. */
  lemma ResplitIsIdentity(u: Unicode, v: string, minLen: nat, w: string)
    requires u.Standard() && w in Split(u, v, minLen)
    ensures |w| >= minLen && Split(u, w, minLen) == [w]
  {
    var s := u.Decompose(v);
    forall r | r in s && u.Classify(r).Keep? ensures u.Settled(u.Classify(r).rune) {
      DecomposedFrom(u, v, r);
    }
    FieldsAreSettled(u, s);
    InLongEnough(minLen, Fields(u, s), w);
    SettledIsOneField(u, w);
    assert LongEnough(minLen, [w][1..]) == [];
  }

  // ------------------------------------------------------------------ any text: its words

  /** A text is decomposed rune by rune. */
  lemma DecomposesEach(u: Unicode, a: string, c: char, b: string)
    ensures u.Decompose("") == ""
    ensures u.Decompose(a + [c] + b) == u.Decompose(a) + u.decompose(c) + u.Decompose(b)
  {
    DecomposeConcat(u, a + [c], b);
    DecomposeConcat(u, a, [c]);
    assert [c][1..] == "";
  }

  predicate EndsWord(u: Unicode, c: char) {
    c == '/' || c == '.' || u.isSpace(c)
  }

  /** What is left of a text without separators: its digits, and its letters in lower case. */
  function Kept(u: Unicode, s: string): string {
    if s == "" then ""
    else (if IsDigit(s[0]) then [s[0]] else if u.isLetter(s[0]) then [u.toLower(s[0])] else "") + Kept(u, s[1..])
  }

  /** The words before and after a slash, a dot or a space are separate. */
  lemma WordsAtSeparator(u: Unicode, a: string, c: char, b: string, minLen: nat)
    requires EndsWord(u, c)
    ensures WordsIn(u, a + [c] + b, minLen) == WordsIn(u, a, minLen) + WordsIn(u, b, minLen)
  {
    FieldsAtSeparator(u, a, c, b);
    LongEnoughConcat(minLen, Fields(u, a), Fields(u, b));
  }

  lemma {:induction false} OneField(u: Unicode, s: string)
    requires forall c :: c in s ==> !EndsWord(u, c)
    ensures Fields(u, s) == [Kept(u, s)]
  {
    if s != "" {
      assert s[0] in s;
      OneField(u, s[1..]);
      assert "" + Kept(u, s[1..]) == Kept(u, s[1..]);
    }
  }

  /** Between them the digits and letters form one word, in lower case, if they are enough. */
  lemma WordBetweenSeparators(u: Unicode, s: string, minLen: nat)
    requires forall c :: c in s ==> !EndsWord(u, c)
    ensures WordsIn(u, s, minLen) == if |Kept(u, s)| >= minLen then [Kept(u, s)] else []
  {
    OneField(u, s);
    LongEnoughFirst(minLen, [Kept(u, s)]);
  }

  lemma {:induction false} RunesOfFields(u: Unicode, s: string, f: string, c: char)
    requires f in Fields(u, s) && c in f
    ensures IsDigit(c) || exists x :: x in s && u.isLetter(x) && c == u.toLower(x)
  {
    if s != "" {
      var rest := Fields(u, s[1..]);
      if f in rest {
        RunesOfFields(u, s[1..], f, c);
      } else if c in rest[0] {
        RunesOfFields(u, s[1..], rest[0], c);
      } else {
        assert s[0] in s;
      }
    }
  }

  /** Every rune of a word is a digit, or a letter of the decomposed text in lower case. */
  lemma RunesOfWords(u: Unicode, v: string, minLen: nat, w: string, c: char)
    requires w in Split(u, v, minLen) && c in w
    ensures IsDigit(c) || exists x :: x in u.Decompose(v) && u.isLetter(x) && c == u.toLower(x)
    ensures |w| >= minLen
  {
    InLongEnough(minLen, Fields(u, u.Decompose(v)), w);
    RunesOfFields(u, u.Decompose(v), w, c);
  }

  /** The runes are the same, or letters with one lower case. */
  predicate SameUpToCase(u: Unicode, c: char, d: char) {
    || c == d
    || (!EndsWord(u, c) && !EndsWord(u, d) && !IsDigit(c) && !IsDigit(d)
        && u.isLetter(c) && u.isLetter(d) && u.toLower(c) == u.toLower(d))
  }

  lemma {:induction false} SameFields(u: Unicode, s: string, t: string)
    requires |s| == |t| && forall k :: 0 <= k < |s| ==> SameUpToCase(u, s[k], t[k])
    ensures Fields(u, s) == Fields(u, t)
  {
    if s != "" { SameFields(u, s[1..], t[1..]); }
  }

  /** The case of letters does not matter. */
  lemma CaseDoesNotMatter(u: Unicode, v: string, w: string, minLen: nat)
    requires var s, t := u.Decompose(v), u.Decompose(w);
             |s| == |t| && forall k :: 0 <= k < |s| ==> SameUpToCase(u, s[k], t[k])
    ensures Split(u, v, minLen) == Split(u, w, minLen)
  {
    SameFields(u, u.Decompose(v), u.Decompose(w));
  }

  /** A separator that does not decompose separates the words of the text. */
  lemma SplitAt(u: Unicode, a: string, c: char, b: string, minLen: nat)
    requires u.decompose(c) == [c] && EndsWord(u, c)
    ensures Split(u, a + [c] + b, minLen) == Split(u, a, minLen) + Split(u, b, minLen)
  {
    DecomposesEach(u, a, c, b);
    WordsAtSeparator(u, u.Decompose(a), c, u.Decompose(b), minLen);
  }

  /** Below a directory every word is either a word of the directory's path or a word of the rest. */
  lemma SplitBelow(u: Unicode, dir: string, rest: string, minLen: nat)
    requires u.Standard()
    ensures Split(u, dir + "/" + rest, minLen) == Split(u, dir, minLen) + Split(u, rest, minLen)
  {
    SplitAt(u, dir, '/', rest, minLen);
  }

  // ------------------------------------------------------------------ the splitting loop and its buffer

  /** A Go slice: the first `len` runes of a shared buffer. */
  datatype Slice = Slice(buf: array<char>, len: nat)

  ghost predicate ValidSlice(s: Slice) {
    s.len <= s.buf.Length
  }

  ghost function SliceText(s: Slice): string
    requires ValidSlice(s)
    reads s.buf
  {
    s.buf[..s.len]
  }

  /** The texts held by `res` are `texts`. */
  ghost predicate Holds(res: seq<Slice>, texts: seq<string>)
    reads set i | 0 <= i < |res| :: res[i].buf
  {
    && |res| == |texts|
    && forall i :: 0 <= i < |res| ==> ValidSlice(res[i]) && SliceText(res[i]) == texts[i]
  }

  /** Go's `append` of one rune: in place while there is capacity, otherwise into a new buffer. */
  method AppendRune(word: Slice, r: char) returns (longer: Slice)
    requires ValidSlice(word)
    modifies word.buf
    ensures ValidSlice(longer) && SliceText(longer) == old(SliceText(word)) + [r]
    ensures longer.buf == word.buf || fresh(longer.buf)
  {
    if word.len < word.buf.Length {
      word.buf[word.len] := r;
      longer := Slice(word.buf, word.len + 1);
    } else {
      var buf := new char[2 * word.len + 1];
      forall i | 0 <= i < word.len { buf[i] := word.buf[i]; }
      buf[word.len] := r;
      longer := Slice(buf, word.len + 1);
    }
  }

  /** The words returned so far, and that the current word's buffer is none of theirs. */
  ghost predicate Building(res: seq<Slice>, texts: seq<string>, word: Slice)
    reads set i | 0 <= i < |res| :: res[i].buf
  {
    && ValidSlice(word)
    && Holds(res, texts)
    && forall k :: 0 <= k < |res| ==> res[k].buf != word.buf
  }

  /** A word that is returned gives its buffer away; a word that is too short leaves it for the next word. */
  method AppendWord(res: seq<Slice>, word: Slice, minLen: nat, ghost texts: seq<string>)
    returns (longer: seq<Slice>, next: Slice)
    requires Building(res, texts, word)
    ensures Building(longer, texts + Flushed(SliceText(word), minLen), next)
    ensures SliceText(next) == ""
    ensures next.buf == word.buf || fresh(next.buf)
  {
    if word.len >= minLen {
      var empty := new char[0];
      longer, next := res + [word], Slice(empty, 0);
    } else {
      longer, next := res, Slice(word.buf, 0);
    }
  }

  /** What the loop still has to produce: the word in the buffer continues into the first field of the rest. */
  ghost function Remaining(u: Unicode, minLen: nat, word: string, rest: string): seq<string> {
    var fs := Fields(u, rest);
    LongEnough(minLen, [word + fs[0]] + fs[1..])
  }

  lemma RemainingStep(u: Unicode, minLen: nat, word: string, s: string, i: nat)
    requires i < |s|
    ensures Remaining(u, minLen, word, s[i..]) ==
            match u.Classify(s[i])
            case Separator => Flushed(word, minLen) + Remaining(u, minLen, "", s[i + 1..])
            case Keep(c) => Remaining(u, minLen, word + [c], s[i + 1..])
            case Drop => Remaining(u, minLen, word, s[i + 1..])
  {
    var rest := Fields(u, s[i + 1..]);
    assert s[i..][1..] == s[i + 1..];
    match u.Classify(s[i])
    case Separator =>
      assert ([word + ""] + rest)[1..] == rest && word + "" == word;
      assert "" + rest[0] == rest[0] && [rest[0]] + rest[1..] == rest;
    case Keep(c) =>
      assert word + ([c] + rest[0]) == word + [c] + rest[0];
    case Drop =>
  }

  lemma RemainingEnds(u: Unicode, minLen: nat, word: string, s: string)
    ensures Remaining(u, minLen, "", s) == LongEnough(minLen, Fields(u, s))
    ensures Remaining(u, minLen, word, "") == Flushed(word, minLen)
  {
    var fs := Fields(u, s);
    assert "" + fs[0] == fs[0] && [fs[0]] + fs[1..] == fs;
    assert Fields(u, "") == [""] && word + "" == word && [word][1..] == [];
  }

  /** One turn of the loop: the switch on the class of the rune. */
  method Feed(u: Unicode, minLen: nat, res: seq<Slice>, word: Slice, ghost texts: seq<string>, text: string, i: nat)
    returns (longer: seq<Slice>, next: Slice, ghost grown: seq<string>)
    requires i < |text| && Building(res, texts, word)
    modifies word.buf
    ensures Building(longer, grown, next)
    ensures next.buf == word.buf || fresh(next.buf)
    ensures grown + Remaining(u, minLen, SliceText(next), text[i + 1..])
         == texts + Remaining(u, minLen, old(SliceText(word)), text[i..])
  {
    RemainingStep(u, minLen, SliceText(word), text, i);
    longer, next, grown := res, word, texts;
    match u.Classify(text[i])
    case Separator =>
      grown := texts + Flushed(SliceText(word), minLen);
      assert texts + (Flushed(SliceText(word), minLen) + Remaining(u, minLen, "", text[i + 1..]))
          == grown + Remaining(u, minLen, "", text[i + 1..]);
      longer, next := AppendWord(res, word, minLen, texts);
    case Keep(c) =>
      next := AppendRune(word, c);
    case Drop =>
  }

  /** The loop over the runes of the decomposed text returns the words of `Split`: reusing the buffer of a word
      that was too short never overwrites a word already returned. */
  method SplitToNormalizedWords(u: Unicode, v: string, minLen: nat) returns (res: seq<Slice>)
    ensures Holds(res, Split(u, v, minLen))
  {
    var text := u.Decompose(v);
    var empty := new char[0];
    var word := Slice(empty, 0);
    res := [];
    ghost var texts: seq<string> := [];
    assert text[0..] == text && SliceText(word) == "";
    RemainingEnds(u, minLen, "", text);
    for i := 0 to |text|
      invariant fresh(word.buf)
      invariant Building(res, texts, word)
      invariant texts + Remaining(u, minLen, SliceText(word), text[i..]) == Split(u, v, minLen)
    {
      res, word, texts := Feed(u, minLen, res, word, texts, text, i);
    }
    assert text[|text|..] == "";
    RemainingEnds(u, minLen, SliceText(word), "");
    res, word := AppendWord(res, word, minLen, texts);
  }

  // ------------------------------------------------------------------ prefixes

  /** The cuts of a word of lengths `i`, `i + 1`, ... up to `maxLen`. */
  function Cuts(w: string, i: nat, maxLen: int): seq<string>
    decreases |w| + 1 - i
  {
    if i > maxLen || i > |w| then [] else [w[..i]] + Cuts(w, i + 1, maxLen)
  }

  function CutsOf(ws: seq<string>, minLen: nat, maxLen: int): seq<string> {
    if ws == [] then [] else Cuts(ws[0], minLen, maxLen) + CutsOf(ws[1..], minLen, maxLen)
  }

  function GeneratePrefixes(u: Unicode, path: string, minLen: nat, maxLen: int): seq<string> {
    CutsOf(Split(u, path, minLen), minLen, maxLen)
  }

  lemma {:induction false} InCuts(w: string, i: nat, maxLen: int, p: string)
    ensures p in Cuts(w, i, maxLen) <==> i <= |p| <= maxLen && p <= w
    decreases |w| + 1 - i
  {
    if i <= maxLen && i <= |w| {
      InCuts(w, i + 1, maxLen, p);
      assert |p| == i && p <= w ==> p == w[..i];
    } else {
      assert Cuts(w, i, maxLen) == [];
    }
  }

  lemma {:induction false} InCutsOf(ws: seq<string>, minLen: nat, maxLen: int, p: string)
    ensures p in CutsOf(ws, minLen, maxLen) <==> minLen <= |p| <= maxLen && exists v :: v in ws && p <= v
  {
    if ws != [] {
      InCuts(ws[0], minLen, maxLen, p);
      InCutsOf(ws[1..], minLen, maxLen, p);
      assert ws == [ws[0]] + ws[1..];
      assert ws[0] in ws && forall v :: v in ws <==> v == ws[0] || v in ws[1..];
    }
  }

  /** A prefix of the index is a prefix of admissible length of some normalised word of the path. */
  lemma InGenerated(u: Unicode, path: string, minLen: nat, maxLen: int, p: string)
    ensures p in GeneratePrefixes(u, path, minLen, maxLen) <==>
            minLen <= |p| <= maxLen && exists v :: v in Split(u, path, minLen) && p <= v
  {
    InCutsOf(Split(u, path, minLen), minLen, maxLen, p);
  }

  /** Everything indexed for a directory is indexed for every path below it. */
  lemma PrefixesBelow(u: Unicode, dir: string, path: string, minLen: nat, maxLen: int, p: string)
    requires u.Standard() && |dir| > 0 && dir[|dir| - 1] == '/' && dir <= path
    requires p in GeneratePrefixes(u, dir, minLen, maxLen)
    ensures p in GeneratePrefixes(u, path, minLen, maxLen)
  {
    var stem, rest := dir[..|dir| - 1], path[|dir|..];
    assert dir == stem + "/" + "" && path == stem + "/" + rest;
    SplitBelow(u, stem, "", minLen);
    SplitBelow(u, stem, rest, minLen);
    InGenerated(u, dir, minLen, maxLen, p);
    InGenerated(u, path, minLen, maxLen, p);
    var v :| v in Split(u, dir, minLen) && p <= v;
    if v in Split(u, stem, minLen) {
      assert v in Split(u, path, minLen);
    } else {
      assert v == "" && minLen == 0 by {
        InLongEnough(minLen, [""], v);
        assert u.Decompose("") == "" && Fields(u, "") == [""];
      }
      assert p == "" && p <= Split(u, path, 0)[0] && Split(u, path, 0)[0] in Split(u, path, 0);
    }
  }
}
