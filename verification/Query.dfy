/** The query language: newSearchRequest of search/prefix_index.go. */
module Query {
  import opened Text
  import opened Words

  datatype Kind = Exact | Exclude | Plain

  /** The characters lo..hi of the query, read as one term. */
  datatype Span = Span(kind: Kind, lo: nat, hi: nat)

  datatype Request = Request(words: seq<string>, exactMatches: seq<string>, toExclude: seq<string>)

  // ------------------------------------------------------------------ specification

  /** The first occurrence of `until` at or after `i`, or the end. */
  function Find(s: string, until: char, i: nat): (r: nat)
    requires i <= |s|
    ensures i <= r <= |s|
    decreases |s| - i
  {
    if i == |s| || s[i] == until then i else Find(s, until, i + 1)
  }

  lemma {:induction false} FindFirst(s: string, until: char, i: nat)
    requires i <= |s|
    ensures var r := Find(s, until, i); (forall k :: i <= k < r ==> s[k] != until) && (r < |s| ==> s[r] == until)
    decreases |s| - i
  {
    if i < |s| && s[i] != until {
      FindFirst(s, until, i + 1);
    }
  }

  /** How a term starts at a position that is not a space: its kind, its terminator, and where its text starts. */
  function Opening(s: string, i: nat): (Kind, char, nat)
    requires i < |s|
  {
    if s[i] == '"' then (Exact, '"', i + 1)
    else if s[i] == '-' then
      if i + 1 < |s| && s[i + 1] == '"' then (Exclude, '"', i + 2) else (Exclude, ' ', i + 1)
    else (Plain, ' ', i)
  }

  /** The terms from a scanner position on; the scanner may move past the end. */
  function Spans(s: string, i: nat): seq<Span>
    decreases |s| - i
  {
    if i >= |s| then []
    else if s[i] == ' ' then Spans(s, i + 1)
    else
      var (kind, until, lo) := Opening(s, i);
      var hi := Find(s, until, lo);
      [Span(kind, lo, hi)] + Spans(s, hi + 1)
  }

  /** `strings.TrimSpace`. */
  function Trim(u: Unicode, s: string): string
    decreases |s|
  {
    if s == "" then ""
    else if u.isSpace(s[0]) then Trim(u, s[1..])
    else if u.isSpace(s[|s| - 1]) then Trim(u, s[..|s| - 1])
    else s
  }

  /** How the text of a term is trimmed and how a plain term is split into words. */
  datatype Reading = Reading(trim: string -> string, split: string -> seq<string>)

  function Reader(u: Unicode, minLen: nat): Reading {
    Reading(s => Trim(u, s), w => Split(u, w, minLen))
  }

  /** The text of a span; every span of `Spans` is in bounds (`SpansPartition`). */
  function TextOf(s: string, sp: Span): string {
    if sp.lo <= sp.hi <= |s| then s[sp.lo..sp.hi] else ""
  }

  /** What one term with a trimmed text adds to the lists; an empty one adds nothing. */
  function Adds(rd: Reading, kind: Kind, text: string): Request {
    if text == "" then Request([], [], [])
    else match kind
      case Exact => Request([], [text], [])
      case Exclude => Request([], [], [text])
      case Plain => Request(rd.split(text), [], [])
  }

  function Contribution(rd: Reading, s: string, sp: Span): Request {
    Adds(rd, sp.kind, rd.trim(TextOf(s, sp)))
  }

  function Join(a: Request, b: Request): Request {
    Request(a.words + b.words, a.exactMatches + b.exactMatches, a.toExclude + b.toExclude)
  }

  function JoinAll(rs: seq<Request>): Request {
    if |rs| == 0 then Request([], [], []) else Join(rs[0], JoinAll(rs[1..]))
  }

  function Collect(rd: Reading, s: string, spans: seq<Span>): Request {
    JoinAll(seq(|spans|, k requires 0 <= k < |spans| => Contribution(rd, s, spans[k])))
  }

  /** What the scanner reads from a position on. */
  function ParseFrom(rd: Reading, s: string, i: nat): Request {
    Collect(rd, s, Spans(s, i))
  }

  /** What a text in lower case stands for. */
  function ParseText(u: Unicode, s: string, minLen: nat): Request {
    ParseFrom(Reader(u, minLen), s, 0)
  }

  function Parse(u: Unicode, search: string, minLen: nat): Request {
    ParseText(u, u.Lower(search), minLen)
  }

  // ------------------------------------------------------------------ the scanner

  /** The closure `readUntil`: all characters before `until`, and the scanner moves after it. */
  method ReadUntil(s: string, idx: nat, until: char) returns (res: string, next: nat)
    requires idx <= |s|
    ensures res == s[idx..Find(s, until, idx)]
    ensures next == Find(s, until, idx) + 1 || next == |s| == idx
  {
    if idx == |s| {
      return "", idx;
    }
    var start := idx;
    next := idx;
    while true
      invariant start <= next <= |s|
      invariant Find(s, until, start) == Find(s, until, next)
      decreases |s| - next
    {
      var ok := next < |s|;
      if !ok {
        return s[start..], next + 1;
      }
      next := next + 1;
      if s[next - 1] == until {
        return s[start..next - 1], next;
      }
    }
  }

  lemma {:induction false} JoinAllSnoc(rs: seq<Request>, r: Request)
    ensures JoinAll(rs + [r]) == Join(JoinAll(rs), r)
  {
    if |rs| == 0 {
      assert [r][1..] == [];
    } else {
      JoinAllSnoc(rs[1..], r);
      assert (rs + [r])[1..] == rs[1..] + [r];
    }
  }

  lemma CollectSnoc(rd: Reading, s: string, spans: seq<Span>, sp: Span)
    ensures Collect(rd, s, spans + [sp]) == Join(Collect(rd, s, spans), Contribution(rd, s, sp))
  {
    var rs := seq(|spans|, k requires 0 <= k < |spans| => Contribution(rd, s, spans[k]));
    var longer := spans + [sp];
    assert seq(|longer|, k requires 0 <= k < |longer| => Contribution(rd, s, longer[k]))
        == rs + [Contribution(rd, s, sp)];
    JoinAllSnoc(rs, Contribution(rd, s, sp));
  }

  function KindOf(exact: bool, exclude: bool): Kind {
    if exact then Exact else if exclude then Exclude else Plain
  }

  method AddTerm(rd: Reading, exact: bool, exclude: bool, word: string, req: Request) returns (longer: Request)
    ensures longer == Join(req, Adds(rd, KindOf(exact, exclude), word))
  {
    longer := req;
    if |word| > 0 {
      if exact {
        longer := req.(exactMatches := req.exactMatches + [word]);
      } else if exclude {
        longer := req.(toExclude := req.toExclude + [word]);
      } else {
        longer := req.(words := req.words + rd.split(word));
      }
    }
  }

  /** One term: the switch on its first character, the text up to its terminator, and what it adds. */
  method ReadTerm(rd: Reading, s: string, at: nat, req: Request) returns (longer: Request, idx: nat, ghost sp: Span)
    requires at < |s| && s[at] != ' '
    ensures at < idx && Spans(s, at) == [sp] + Spans(s, idx)
    ensures longer == Join(req, Contribution(rd, s, sp))
  {
    hide Adds, Join, Find;
    var exclude, exact, until := false, false, ' ';
    idx := at;
    if s[idx] == '"' {
      until, exact := '"', true;
      idx := idx + 1;
    } else if s[idx] == '-' {
      exclude := true;
      idx := idx + 1;
      if idx < |s| && s[idx] == '"' {
        until := '"';
        idx := idx + 1;
      }
    }
    sp := Span(KindOf(exact, exclude), idx, Find(s, until, idx));
    assert Opening(s, at) == (sp.kind, until, idx);
    var word;
    word, idx := ReadUntil(s, idx, until);
    word := rd.trim(word);
    longer := AddTerm(rd, exact, exclude, word, req);
  }

  method NewSearchRequest(u: Unicode, search: string, minWordLen: nat) returns (req: Request)
    ensures req == Parse(u, search, minWordLen)
  {
    var s, rd := u.Lower(search), Reader(u, minWordLen);
    req := ScanTerms(rd, s);
  }

  lemma SpaceSkipped(s: string, i: nat)
    requires i < |s| ==> s[i] == ' '
    ensures Spans(s, i) == Spans(s, i + 1)
  {}

  lemma NothingScanned(rd: Reading, s: string, i: nat)
    ensures Collect(rd, s, []) == Request([], [], [])
    ensures i >= |s| ==> Spans(s, i) == []
  {}

  /** The scanner loop. */
  method ScanTerms(rd: Reading, s: string) returns (req: Request)
    ensures req == Collect(rd, s, Spans(s, 0))
  {
    hide Spans, Collect, Contribution;
    var idx := 0;
    NothingScanned(rd, s, idx);
    req := Request([], [], []);
    ghost var done: seq<Span> := [];
    while idx < |s|
      invariant done + Spans(s, idx) == Spans(s, 0)
      invariant req == Collect(rd, s, done)
      decreases |s| - idx
    {
      if s[idx] == ' ' {
        SpaceSkipped(s, idx);
        idx := idx + 1;
      } else {
        ghost var sp;
        req, idx, sp := ReadTerm(rd, s, idx, req);
        CollectSnoc(rd, s, done, sp);
        assert done + ([sp] + Spans(s, idx)) == done + [sp] + Spans(s, idx);
        done := done + [sp];
      }
    }
    NothingScanned(rd, s, idx);
    assert done + [] == done;
  }

  // ------------------------------------------------------------------ any input: the spans partition the text

  predicate IsDelimiter(c: char) {
    c == ' ' || c == '"' || c == '-'
  }

  ghost predicate InSomeSpan(spans: seq<Span>, j: nat) {
    exists sp :: sp in spans && sp.lo <= j < sp.hi
  }

  /** Positions increase strictly, so the terms are disjoint slices in the order of the text. */
  ghost predicate Ordered(s: string, i: nat, spans: seq<Span>) {
    && (forall k :: 0 <= k < |spans| ==> i <= spans[k].lo <= spans[k].hi <= |s|)
    && (forall j, k :: 0 <= j < k < |spans| ==> spans[j].hi < spans[k].lo)
  }

  /** A phrase contains no quote; a plain word contains no space and is not empty. */
  ghost predicate Delimited(s: string, sp: Span) {
    && sp.lo <= sp.hi <= |s|
    && (sp.kind == Exact ==> forall k :: sp.lo <= k < sp.hi ==> s[k] != '"')
    && (sp.kind == Plain ==> sp.lo < sp.hi && forall k :: sp.lo <= k < sp.hi ==> s[k] != ' ')
  }

  lemma {:induction false} SpansOrdered(s: string, i: nat)
    ensures Ordered(s, i, Spans(s, i))
    decreases |s| - i
  {
    if i >= |s| {
    } else if s[i] == ' ' {
      SpansOrdered(s, i + 1);
    } else {
      var (kind, until, lo) := Opening(s, i);
      SpansOrdered(s, Find(s, until, lo) + 1);
    }
  }

  lemma {:induction false} SpansDelimited(s: string, i: nat)
    ensures forall sp :: sp in Spans(s, i) ==> Delimited(s, sp)
    decreases |s| - i
  {
    if i >= |s| {
    } else if s[i] == ' ' {
      SpansDelimited(s, i + 1);
    } else {
      var (kind, until, lo) := Opening(s, i);
      var hi := Find(s, until, lo);
      FindFirst(s, until, lo);
      assert Delimited(s, Span(kind, lo, hi));
      SpansDelimited(s, hi + 1);
    }
  }

  lemma SpansFirst(s: string, i: nat)
    requires i < |s| && s[i] != ' '
    ensures var (kind, until, lo) := Opening(s, i);
            Spans(s, i) == [Span(kind, lo, Find(s, until, lo))] + Spans(s, Find(s, until, lo) + 1)
  {
    hide Find;
  }

  lemma {:induction false} SpansCover(s: string, i: nat, j: nat)
    requires i <= j < |s| && !IsDelimiter(s[j])
    ensures InSomeSpan(Spans(s, i), j)
    decreases |s| - i
  {
    hide Spans, Find;
    if s[i] == ' ' {
      SpaceSkipped(s, i);
      SpansCover(s, i + 1, j);
    } else {
      var (kind, until, lo) := Opening(s, i);
      SpansFirst(s, i);
      hide Opening;
      var hi := Find(s, until, lo);
      FindFirst(s, until, lo);
      var first := [Span(kind, lo, hi)];
      if j >= hi {
        SpansCover(s, hi + 1, j);
      } else {
        assert first[0] in first + Spans(s, hi + 1);
      }
    }
  }

  /** For every input the terms are ordered, pairwise disjoint slices of it, a phrase contains no quote and a
      plain word no space, and every character outside the terms is punctuation. */
  lemma SpansPartition(s: string)
    ensures Ordered(s, 0, Spans(s, 0))
    ensures forall sp :: sp in Spans(s, 0) ==> Delimited(s, sp)
    ensures forall j :: 0 <= j < |s| && !IsDelimiter(s[j]) ==> InSomeSpan(Spans(s, 0), j)
  {
    SpansOrdered(s, 0);
    SpansDelimited(s, 0);
    forall j | 0 <= j < |s| && !IsDelimiter(s[j]) ensures InSomeSpan(Spans(s, 0), j) {
      SpansCover(s, 0, j);
    }
  }

  // ------------------------------------------------------------------ any input: the phrases are proper

  ghost predicate AllSpace(u: Unicode, s: string) {
    forall k :: 0 <= k < |s| ==> u.isSpace(s[k])
  }

  ghost predicate Trimmed(u: Unicode, s: string) {
    s != "" && !u.isSpace(s[0]) && !u.isSpace(s[|s| - 1])
  }

  /** Trimming takes off exactly the space at both ends. */
  lemma {:induction false} TrimIsExact(u: Unicode, s: string) returns (before: string, after: string)
    ensures s == before + Trim(u, s) + after && AllSpace(u, before) && AllSpace(u, after)
    ensures Trim(u, s) == "" || Trimmed(u, Trim(u, s))
    decreases |s|
  {
    before, after := "", "";
    if s != "" {
      hide Trim;
      if u.isSpace(s[0]) {
        before, after := TrimIsExact(u, s[1..]);
        before := [s[0]] + before;
      } else if u.isSpace(s[|s| - 1]) {
        before, after := TrimIsExact(u, s[..|s| - 1]);
        after := after + [s[|s| - 1]];
      }
    }
  }

  lemma {:induction false} JoinedPhrases(rs: seq<Request>, p: string)
    ensures p in JoinAll(rs).exactMatches ==> exists k :: 0 <= k < |rs| && p in rs[k].exactMatches
    ensures p in JoinAll(rs).toExclude ==> exists k :: 0 <= k < |rs| && p in rs[k].toExclude
  {
    if |rs| > 0 {
      JoinedPhrases(rs[1..], p);
      assert forall k :: 0 <= k < |rs[1..]| ==> rs[1..][k] == rs[k + 1];
    }
  }

  /** For every input the phrases and exclusions of the query are trimmed and not empty, and occur in its lower-case
      text; a phrase contains no quote. */
  lemma ParsedPhrasesAreProper(u: Unicode, search: string, minLen: nat, p: string)
    ensures var req := Parse(u, search, minLen);
            && (p in req.exactMatches ==> Trimmed(u, p) && Contains(u.Lower(search), p) && '"' !in p)
            && (p in req.toExclude ==> Trimmed(u, p) && Contains(u.Lower(search), p))
  {
    var s, rd := u.Lower(search), Reader(u, minLen);
    var spans := Spans(s, 0);
    hide Spans, JoinAll, Trim, Split, Contains;
    var rs := seq(|spans|, k requires 0 <= k < |spans| => Contribution(rd, s, spans[k]));
    JoinedPhrases(rs, p);
    forall k | 0 <= k < |spans| && (p in rs[k].exactMatches || p in rs[k].toExclude)
      ensures Trimmed(u, p) && Contains(s, p) && (p in rs[k].exactMatches ==> '"' !in p)
    {
      SpansPartition(s);
      assert spans[k] in spans && Delimited(s, spans[k]);
      PhraseOfSpan(u, s, spans[k], p);
    }
  }

  lemma PhraseOfSpan(u: Unicode, s: string, sp: Span, p: string)
    requires Delimited(s, sp) && p == Trim(u, TextOf(s, sp)) != ""
    ensures Trimmed(u, p) && Contains(s, p) && (sp.kind == Exact ==> '"' !in p)
  {
    var text := TextOf(s, sp);
    var before, after := TrimIsExact(u, text);
    var i := sp.lo + |before|;
    assert s[i..i + |p|] == p by {
      SliceOfSlice(s, sp.lo, sp.hi, i, i + |p|);
      assert text[|before|..|before| + |p|] == p;
    }
    assert OccursAt(s, p, i);
    forall k | 0 <= k < |p| ensures p[k] == s[i + k] {
      assert s[i..i + |p|][k] == s[i + k];
    }
  }

  // ------------------------------------------------------------------ any input: the grammar

  lemma NothingParsed(rd: Reading, s: string, i: nat)
    requires i >= |s|
    ensures ParseFrom(rd, s, i) == Request([], [], [])
  {}

  lemma SpaceParsed(rd: Reading, s: string, i: nat)
    requires i < |s| && s[i] == ' '
    ensures ParseFrom(rd, s, i) == ParseFrom(rd, s, i + 1)
  {}

  lemma OneContribution(rd: Reading, s: string, kind: Kind, lo: nat, hi: nat)
    requires lo <= hi <= |s|
    ensures Contribution(rd, s, Span(kind, lo, hi)) == Adds(rd, kind, rd.trim(s[lo..hi]))
  {
    hide Adds;
  }

  lemma FirstSpanParsed(rd: Reading, s: string, i: nat, kind: Kind, lo: nat, hi: nat)
    requires lo <= hi <= |s| && Spans(s, i) == [Span(kind, lo, hi)] + Spans(s, hi + 1)
    ensures ParseFrom(rd, s, i) == Join(Adds(rd, kind, rd.trim(s[lo..hi])), ParseFrom(rd, s, hi + 1))
  {
    OneContribution(rd, s, kind, lo, hi);
    CollectFirst(rd, s, Span(kind, lo, hi), Spans(s, hi + 1));
    hide Spans, Adds, Join, Collect, Contribution;
  }

  lemma TermParsed(rd: Reading, s: string, i: nat)
    requires i < |s| && s[i] != ' '
    ensures var (kind, until, lo) := Opening(s, i);
            var hi := Find(s, until, lo);
            ParseFrom(rd, s, i) == Join(Adds(rd, kind, rd.trim(s[lo..hi])), ParseFrom(rd, s, hi + 1))
  {
    SpansFirst(s, i);
    var (kind, until, lo) := Opening(s, i);
    FirstSpanParsed(rd, s, i, kind, lo, Find(s, until, lo));
    hide Spans, Find, Opening, Adds, Join, ParseFrom;
  }

  lemma CollectFirst(rd: Reading, s: string, sp: Span, spans: seq<Span>)
    ensures Collect(rd, s, [sp] + spans) == Join(Contribution(rd, s, sp), Collect(rd, s, spans))
  {
    hide Join, Contribution;
    var all := [sp] + spans;
    var rs := seq(|all|, k requires 0 <= k < |all| => Contribution(rd, s, all[k]));
    assert rs[1..] == seq(|spans|, k requires 0 <= k < |spans| => Contribution(rd, s, spans[k]));
  }

  lemma {:induction false} FindShifted(p: string, b: string, until: char, i: nat)
    requires i <= |b|
    ensures Find(p + b, until, |p| + i) == |p| + Find(b, until, i)
    decreases |b| - i
  {
    if i < |b| && b[i] != until { FindShifted(p, b, until, i + 1); }
  }

  /** What is read does not depend on what is before it. */
  lemma {:induction false} ParseShifted(rd: Reading, p: string, b: string, i: nat)
    ensures ParseFrom(rd, p + b, |p| + i) == ParseFrom(rd, b, i)
    decreases |b| - i
  {
    hide ParseFrom, Adds, Join, Find;
    var s := p + b;
    if i >= |b| {
      NothingParsed(rd, b, i);
      NothingParsed(rd, s, |p| + i);
    } else if b[i] == ' ' {
      SpaceParsed(rd, b, i);
      SpaceParsed(rd, s, |p| + i);
      ParseShifted(rd, p, b, i + 1);
    } else {
      TermParsed(rd, b, i);
      TermParsed(rd, s, |p| + i);
      var (_, until, lo) := Opening(b, i);
      var hi := Find(b, until, lo);
      FindShifted(p, b, until, lo);
      assert s[|p| + lo..|p| + hi] == b[lo..hi];
      ParseShifted(rd, p, b, hi + 1);
    }
  }

  /** A text that starts with a term. */
  lemma StartsWithTerm(rd: Reading, open: string, t: string, close: string, b: string)
    requires var s := open + t + close + b;
             && s != "" && s[0] != ' ' && |close| <= 1 && (close == "" ==> b == "")
             && Opening(s, 0).2 == |open| && Opening(s, 0).1 !in t && (close != "" ==> close[0] == Opening(s, 0).1)
    ensures var s := open + t + close + b;
            ParseFrom(rd, s, 0) == Join(Adds(rd, Opening(s, 0).0, rd.trim(t)), ParseFrom(rd, b, 0))
  {
    hide ParseFrom, Adds, Join, Find, Opening;
    var s := open + t + close + b;
    var until := Opening(s, 0).1;
    TermParsed(rd, s, 0);
    var hi := |open| + |t|;
    assert s[|open|..hi] == t;
    NotInSlice(s, |open|, hi, until);
    FindIs(s, until, |open|, hi);
    if close == "" {
      NothingParsed(rd, b, 0);
      NothingParsed(rd, s, hi + 1);
    } else {
      assert s == (open + t + close) + b;
      ParseShifted(rd, open + t + close, b, 0);
    }
  }

  function NonEmpty(t: string): seq<string> {
    if t == "" then [] else [t]
  }

  /** Any text in lower case that starts with a quote: a phrase up to the next quote, or to the end. */
  lemma StartsWithPhrase(u: Unicode, t: string, b: string, n: nat)
    requires '"' !in t
    ensures ParseText(u, "\"" + t + "\"" + b, n) == Join(Request([], NonEmpty(Trim(u, t)), []), ParseText(u, b, n))
    ensures ParseText(u, "\"" + t, n) == Request([], NonEmpty(Trim(u, t)), [])
  {
    hide ParseFrom, Trim;
    StartsWithTerm(Reader(u, n), "\"", t, "\"", b);
    StartsWithTerm(Reader(u, n), "\"", t, "", "");
    assert "\"" + t + "" + "" == "\"" + t;
    NothingParsed(Reader(u, n), "", 0);
  }

  /** One that starts with a dash and a quote: an exclusion up to the next quote, or to the end. */
  lemma StartsWithQuotedExclusion(u: Unicode, t: string, b: string, n: nat)
    requires '"' !in t
    ensures ParseText(u, "-\"" + t + "\"" + b, n) == Join(Request([], [], NonEmpty(Trim(u, t))), ParseText(u, b, n))
    ensures ParseText(u, "-\"" + t, n) == Request([], [], NonEmpty(Trim(u, t)))
  {
    hide ParseFrom, Trim;
    StartsWithTerm(Reader(u, n), "-\"", t, "\"", b);
    StartsWithTerm(Reader(u, n), "-\"", t, "", "");
    assert "-\"" + t + "" + "" == "-\"" + t;
    NothingParsed(Reader(u, n), "", 0);
  }

  /** One that starts with another dash: an exclusion up to the next space, or to the end; nothing if that is empty. */
  lemma StartsWithExclusion(u: Unicode, t: string, b: string, n: nat)
    requires ' ' !in t && (t != "" ==> t[0] != '"')
    ensures ParseText(u, "-" + t + " " + b, n) == Join(Request([], [], NonEmpty(Trim(u, t))), ParseText(u, b, n))
    ensures ParseText(u, "-" + t, n) == Request([], [], NonEmpty(Trim(u, t)))
  {
    hide ParseFrom, Trim;
    StartsWithTerm(Reader(u, n), "-", t, " ", b);
    StartsWithTerm(Reader(u, n), "-", t, "", "");
    assert "-" + t + "" + "" == "-" + t;
    NothingParsed(Reader(u, n), "", 0);
  }

  /** One that starts with any other character but a space: the words up to the next space, or to the end. */
  lemma StartsWithWord(u: Unicode, t: string, b: string, n: nat)
    requires t != "" && ' ' !in t && t[0] != '"' && t[0] != '-'
    ensures var ws := if Trim(u, t) == "" then [] else Split(u, Trim(u, t), n);
            && ParseText(u, t + " " + b, n) == Join(Request(ws, [], []), ParseText(u, b, n))
            && ParseText(u, t, n) == Request(ws, [], [])
  {
    hide ParseFrom, Trim, Split;
    assert t[0] in t;
    StartsWithTerm(Reader(u, n), "", t, " ", b);
    StartsWithTerm(Reader(u, n), "", t, "", "");
    assert "" + t + "" + "" == t && "" + t + " " + b == t + " " + b;
    NothingParsed(Reader(u, n), "", 0);
  }

  /** And spaces before a term are skipped. */
  lemma StartsWithSpace(u: Unicode, b: string, n: nat)
    ensures ParseText(u, " " + b, n) == ParseText(u, b, n)
    ensures ParseText(u, "", n) == Request([], [], [])
  {
    hide ParseFrom;
    SpaceParsed(Reader(u, n), " " + b, 0);
    ParseShifted(Reader(u, n), " ", b, 0);
    NothingParsed(Reader(u, n), "", 0);
  }

  lemma JoinAssociates(a: Request, b: Request, c: Request)
    ensures Join(Join(a, b), c) == Join(a, Join(b, c))
    ensures Join(Request([], [], []), a) == a
  {}

  lemma {:induction false} FindBefore(a: string, b: string, i: nat)
    requires i <= |a|
    ensures Find(a + " " + b, ' ', i) == Find(a, ' ', i)
    decreases |a| - i
  {
    if i < |a| && a[i] != ' ' { FindBefore(a, b, i + 1); }
  }

  lemma OpensAlike(a: string, b: string, i: nat)
    requires i < |a| && '"' !in a
    ensures Opening(a + " " + b, i) == Opening(a, i) && Opening(a, i).1 == ' ' && i <= Opening(a, i).2 <= |a|
  {
    var s := a + " " + b;
    assert a[i] in a && s[i] == a[i];
    if i + 1 < |a| { assert a[i + 1] in a && s[i + 1] == a[i + 1]; }
  }

  lemma {:induction false} ParseBefore(rd: Reading, a: string, b: string, i: nat)
    requires i <= |a| + 1 && '"' !in a
    ensures ParseFrom(rd, a + " " + b, i) == Join(ParseFrom(rd, a, i), ParseFrom(rd, b, 0))
    decreases |a| + 1 - i
  {
    hide ParseFrom, Adds, Join, Find, Opening;
    var s := a + " " + b;
    if i >= |a| {
      NothingParsed(rd, a, i);
      JoinAssociates(ParseFrom(rd, b, 0), ParseFrom(rd, b, 0), ParseFrom(rd, b, 0));
      if i == |a| { SpaceParsed(rd, s, i); }
      assert s == (a + " ") + b;
      ParseShifted(rd, a + " ", b, 0);
    } else if a[i] == ' ' {
      SpaceParsed(rd, a, i);
      SpaceParsed(rd, s, i);
      ParseBefore(rd, a, b, i + 1);
    } else {
      TermParsed(rd, a, i);
      TermParsed(rd, s, i);
      OpensAlike(a, b, i);
      var (kind, until, lo) := Opening(a, i);
      var hi := Find(a, ' ', lo);
      FindBefore(a, b, lo);
      assert s[lo..hi] == a[lo..hi];
      ParseBefore(rd, a, b, hi + 1);
      JoinAssociates(Adds(rd, kind, rd.trim(a[lo..hi])), ParseFrom(rd, a, hi + 1), ParseFrom(rd, b, 0));
    }
  }

  /** Two queries of which the first has no quote: written one after the other they stand for what they stand for, in
      order. */
  lemma ParseConcatenates(u: Unicode, a: string, b: string, n: nat)
    requires u.Standard() && '"' !in u.Lower(a)
    ensures Parse(u, a + " " + b, n) == Join(Parse(u, a, n), Parse(u, b, n))
  {
    hide ParseFrom;
    ParseBefore(Reader(u, n), u.Lower(a), u.Lower(b), 0);
    assert u.Lower(a + " " + b) == u.Lower(a) + " " + u.Lower(b);
  }

  /** A dash that stands alone means nothing. */
  lemma LoneDashIsIgnored(u: Unicode, a: string, b: string, n: nat)
    requires u.Standard() && '"' !in u.Lower(a)
    ensures Parse(u, "-", n) == Request([], [], [])
    ensures Parse(u, a + " - " + b, n) == Join(Parse(u, a, n), Parse(u, b, n))
  {
    hide ParseText, Join;
    assert u.Lower("-") == "-";
    StartsWithExclusion(u, "", "", n);
    assert "-" + "" == "-" && Trim(u, "") == "";
    assert a + " - " + b == a + " " + ("-" + " " + b) && '"' !in u.Lower("-");
    ParseConcatenates(u, a, "-" + " " + b, n);
    ParseConcatenates(u, "-", b, n);
    JoinAssociates(Parse(u, b, n), Parse(u, b, n), Parse(u, b, n));
  }

  // ------------------------------------------------------------------ round trip

  /** A query term as a user writes it. */
  datatype Item = Phrase(text: string) | Quoted(text: string) | Bare(text: string) | Word(text: string) {

    function Kind(): Kind {
      if Phrase? then Exact else if Word? then Plain else Exclude
    }

    function Render(): string {
      match this
      case Phrase(t) => "\"" + t + "\""
      case Quoted(t) => "-\"" + t + "\""
      case Bare(t) => "-" + t
      case Word(t) => t
    }

    function OpenLen(): nat {
      match this case Phrase(_) => 1 case Quoted(_) => 2 case Bare(_) => 1 case Word(_) => 0
    }

    function Until(): char {
      if Phrase? || Quoted? then '"' else ' '
    }

    function CloseLen(): nat {
      if Phrase? || Quoted? then 1 else 0
    }

    /** Lower case, trimmed and not empty; a quoted text has no quote, an unquoted one no space and no opening. */
    ghost predicate WellFormed(u: Unicode) {
      && text != "" && !u.isSpace(text[0]) && !u.isSpace(text[|text| - 1])
      && (forall k :: 0 <= k < |text| ==> u.toLower(text[k]) == text[k])
      && (Phrase? || Quoted? ==> '"' !in text)
      && (Bare? || Word? ==> ' ' !in text && text[0] != '"')
      && (Word? ==> text[0] != '-')
    }
  }

  function RenderAll(items: seq<Item>): string {
    if items == [] then ""
    else if |items| == 1 then items[0].Render()
    else items[0].Render() + " " + RenderAll(items[1..])
  }

  /** The lists a rendered query stands for: its phrases and exclusions in order, and the words of its words. */
  function Meaning(split: string -> seq<string>, items: seq<Item>): Request {
    if items == [] then Request([], [], [])
    else
      var rest := Meaning(split, items[1..]);
      match items[0]
      case Phrase(t) => rest.(exactMatches := [t] + rest.exactMatches)
      case Quoted(t) => rest.(toExclude := [t] + rest.toExclude)
      case Bare(t) => rest.(toExclude := [t] + rest.toExclude)
      case Word(t) => rest.(words := split(t) + rest.words)
  }

  lemma {:induction false} FindIs(s: string, until: char, lo: nat, hi: nat)
    requires lo <= hi <= |s| && (forall k :: lo <= k < hi ==> s[k] != until) && (hi < |s| ==> s[hi] == until)
    ensures Find(s, until, lo) == hi
    decreases hi - lo
  {
    if lo < hi {
      FindIs(s, until, lo + 1, hi);
    }
  }

  lemma {:induction false} RenderedIsLower(u: Unicode, items: seq<Item>)
    requires u.Standard() && forall it :: it in items ==> it.WellFormed(u)
    ensures u.Lower(RenderAll(items)) == RenderAll(items)
  {
    if items != [] {
      var it := items[0];
      assert it in items;
      assert u.Lower(it.Render()) == it.Render();
      if |items| > 1 {
        RenderedIsLower(u, items[1..]);
      }
    }
  }

  /** Where the text of a term is, when its rendering starts at `at`. */
  function Position(at: nat, it: Item): Span {
    Span(it.Kind(), at + it.OpenLen(), at + it.OpenLen() + |it.text|)
  }

  /** The text stands at this place, and a space or the end follows. */
  ghost predicate TextAt(s: string, at: nat, r: string) {
    && at + |r| <= |s| && s[at..at + |r|] == r
    && (at + |r| < |s| ==> s[at + |r|] == ' ')
  }

  ghost predicate RenderedAt(s: string, at: nat, it: Item) {
    TextAt(s, at, it.Render())
  }

  lemma SliceOfSlice(s: string, a: nat, b: nat, lo: nat, hi: nat)
    requires a <= lo <= hi <= b <= |s|
    ensures s[a..b][lo - a..hi - a] == s[lo..hi]
  {
    var t := s[a..b];
    assert forall k :: lo - a <= k < hi - a ==> t[k] == s[a + k];
  }

  lemma InTheMiddle(s: string, a: string, b: string, c: string)
    requires s == a + (b + c) && (c != "" ==> c[0] == ' ')
    ensures TextAt(s, |a|, b) && |s| == |a| + |b| + |c|
  {}

  lemma Regrouped(a: string, b: string, c: string)
    ensures a + (b + " " + c) == (a + b + " ") + c
  {}

  lemma FirstIsRendered(s: string, pre: string, items: seq<Item>) returns (next: string)
    requires s == pre + RenderAll(items) && items != []
    ensures RenderedAt(s, |pre|, items[0])
    ensures |next| == |pre| + |items[0].Render()| + 1
    ensures if |items| > 1 then s == next + RenderAll(items[1..]) else |s| < |next|
  {
    hide Item.Render, TextAt;
    var r := items[0].Render();
    next := pre + r + " ";
    if |items| == 1 {
      assert s == pre + (r + "");
      InTheMiddle(s, pre, r, "");
    } else {
      RenderedTwo(items);
      hide RenderAll;
      var rest := RenderAll(items[1..]);
      assert r + " " + rest == r + (" " + rest);
      InTheMiddle(s, pre, r, " " + rest);
      Regrouped(pre, r, rest);
    }
  }

  lemma RenderedTwo(items: seq<Item>)
    requires |items| > 1
    ensures RenderAll(items) == items[0].Render() + " " + RenderAll(items[1..])
  {}

  lemma Framed(pre: string, t: string, post: string)
    requires t != ""
    ensures var r := pre + t + post;
            && |r| == |pre| + |t| + |post| && r[|pre|..|pre| + |t|] == t
            && (forall k :: 0 <= k < |pre| ==> r[k] == pre[k]) && r[|pre|] == t[0]
            && (post != "" ==> r[|r| - 1] == post[|post| - 1])
  {}

  lemma FirstIsIn(t: string)
    requires t != ""
    ensures t[0] in t
  {}

  lemma QuotedParts(u: Unicode, it: Item)
    requires it.WellFormed(u) && (it.Phrase? || it.Quoted?)
    ensures var r, k := it.Render(), it.OpenLen();
            && |r| == k + |it.text| + it.CloseLen() && r[k..k + |it.text|] == it.text
            && (it.CloseLen() == 1 ==> r[|r| - 1] == '"')
            && if it.Phrase? then r[0] == '"' else r[0] == '-' && r[1] == '"'
  {
    if it.Phrase? { Framed("\"", it.text, "\""); } else { Framed("-\"", it.text, "\""); }
  }

  lemma OpenParts(u: Unicode, it: Item)
    requires it.WellFormed(u) && (it.Bare? || it.Word?)
    ensures var r, k := it.Render(), it.OpenLen();
            && |r| == k + |it.text| + it.CloseLen() && r[k..k + |it.text|] == it.text
            && it.CloseLen() == 0
            && if it.Bare? then r[0] == '-' && r[1] == it.text[0] != '"'
               else r[0] == it.text[0] && it.text[0] != '"' && it.text[0] != '-' && it.text[0] != ' '
  {
    FirstIsIn(it.text);
    if it.Bare? {
      Framed("-", it.text, "");
      assert "-" + it.text + "" == "-" + it.text;
    }
  }

  /** Where the rendered text of an item is in its rendering, and what is before and after it. */
  lemma RenderParts(u: Unicode, it: Item)
    requires it.WellFormed(u)
    ensures var r, k := it.Render(), it.OpenLen();
            && |r| == k + |it.text| + it.CloseLen() && r[k..k + |it.text|] == it.text
            && (it.CloseLen() == 1 ==> r[|r| - 1] == '"')
            && match it
               case Phrase(_) => r[0] == '"'
               case Quoted(_) => r[0] == '-' && r[1] == '"'
               case Bare(t) => r[0] == '-' && r[1] == t[0] != '"'
               case Word(t) => r[0] == t[0] && t[0] != '"' && t[0] != '-' && t[0] != ' '
  {
    if it.Phrase? || it.Quoted? { QuotedParts(u, it); } else { OpenParts(u, it); }
    hide Item.Render, Item.WellFormed;
  }

  lemma SliceAt(s: string, a: nat, r: string, k: nat)
    requires a + |r| <= |s| && s[a..a + |r|] == r && k < |r|
    ensures s[a + k] == r[k]
  {
    assert s[a..a + |r|][k] == s[a + k];
  }

  /** The scanner recognises the opening of a rendered term. */
  lemma OpensAt(u: Unicode, s: string, at: nat, it: Item)
    requires it.WellFormed(u) && RenderedAt(s, at, it)
    ensures at < |s| && s[at] != ' ' && Opening(s, at) == (it.Kind(), it.Until(), at + it.OpenLen())
  {
    hide Item.Render, Item.WellFormed;
    assert it.text != "" by { NotEmpty(u, it); }
    RenderParts(u, it);
    SliceAt(s, at, it.Render(), 0);
    if |it.Render()| > 1 { SliceAt(s, at, it.Render(), 1); }
  }

  lemma NotEmpty(u: Unicode, it: Item)
    requires it.WellFormed(u)
    ensures it.text != ""
  {}

  /** The terminator comes right after the text. */
  lemma ClosesAt(u: Unicode, s: string, at: nat, it: Item)
    requires it.WellFormed(u) && RenderedAt(s, at, it)
    ensures |it.Render()| == it.OpenLen() + |it.text| + it.CloseLen()
    ensures var sp := Position(at, it);
            sp.lo <= sp.hi <= |s| && s[sp.lo..sp.hi] == it.text && (sp.hi < |s| ==> s[sp.hi] == it.Until())
  {
    hide Item.Render, Item.WellFormed;
    var r := it.Render();
    var sp := Position(at, it);
    RenderParts(u, it);
    SliceOfSlice(s, at, at + |r|, sp.lo, sp.hi);
    if it.CloseLen() == 1 { SliceAt(s, at, r, |r| - 1); }
  }

  lemma NotInSlice(s: string, lo: nat, hi: nat, c: char)
    requires lo <= hi <= |s| && c !in s[lo..hi]
    ensures forall k :: lo <= k < hi ==> s[k] != c
  {
    forall k | lo <= k < hi ensures s[k] != c {
      assert s[lo..hi][k - lo] == s[k];
    }
  }

  lemma FindsEnd(u: Unicode, s: string, at: nat, it: Item)
    requires it.WellFormed(u) && RenderedAt(s, at, it)
    ensures Position(at, it).lo <= |s| && Find(s, it.Until(), Position(at, it).lo) == Position(at, it).hi
  {
    hide Item.Render, RenderedAt;
    var sp := Position(at, it);
    ClosesAt(u, s, at, it);
    NotInSlice(s, sp.lo, sp.hi, it.Until());
    FindIs(s, it.Until(), sp.lo, sp.hi);
  }

  lemma OneSpan(s: string, at: nat, kind: Kind, until: char, lo: nat, hi: nat)
    requires at < |s| && s[at] != ' ' && Opening(s, at) == (kind, until, lo) && lo <= |s| && Find(s, until, lo) == hi
    ensures Spans(s, at) == [Span(kind, lo, hi)] + Spans(s, hi + 1)
  {
    SpansFirst(s, at);
    hide Opening, Find, Spans;
  }

  /** One rendered term, followed by a space or by the end, is scanned as one span. */
  lemma ScanOne(u: Unicode, s: string, at: nat, it: Item)
    requires it.WellFormed(u) && RenderedAt(s, at, it)
    ensures |Spans(s, at)| > 0 && Spans(s, at)[1..] == Spans(s, at + |it.Render()| + 1)
    ensures Fits(s, Spans(s, at)[0], it)
  {
    hide Item.Render, Item.WellFormed, Find, Opening, Spans;
    var sp, end := Position(at, it), at + |it.Render()|;
    OpensAt(u, s, at, it);
    ClosesAt(u, s, at, it);
    FindsEnd(u, s, at, it);
    OneSpan(s, at, sp.kind, it.Until(), sp.lo, sp.hi);
    assert sp.hi + 1 == end || sp.hi == end;
    SpaceSkipped(s, end);
  }

  /** The span carries the kind and the text of the item. */
  ghost predicate Fits(s: string, sp: Span, it: Item) {
    TextOf(s, sp) == it.text && sp.kind == it.Kind()
  }

  ghost predicate Placed(s: string, spans: seq<Span>, items: seq<Item>) {
    |spans| == |items| && forall k :: 0 <= k < |items| ==> Fits(s, spans[k], items[k])
  }

  lemma PlacedFirst(s: string, spans: seq<Span>, items: seq<Item>)
    requires items != [] && |spans| > 0 && Fits(s, spans[0], items[0]) && Placed(s, spans[1..], items[1..])
    ensures Placed(s, spans, items)
  {}

  /** The renderings follow one another from `at` to the end, one separator apart. */
  ghost predicate LaidOut(s: string, at: nat, items: seq<Item>)
    decreases |items|
  {
    if items == [] then at >= |s|
    else RenderedAt(s, at, items[0]) && LaidOut(s, at + |items[0].Render()| + 1, items[1..])
  }

  lemma LaidOutFirst(s: string, at: nat, items: seq<Item>)
    requires items != [] && RenderedAt(s, at, items[0]) && LaidOut(s, at + |items[0].Render()| + 1, items[1..])
    ensures LaidOut(s, at, items)
  {
    hide RenderedAt;
  }

  lemma LaidOutNone(s: string, at: nat)
    requires at >= |s|
    ensures RenderAll([]) == "" && LaidOut(s, at, [])
  {}

  lemma {:induction false} RenderingIsLaidOut(s: string, pre: string, items: seq<Item>)
    requires s == pre + RenderAll(items)
    ensures LaidOut(s, |pre|, items)
    decreases |items|
  {
    hide RenderAll, RenderedAt, LaidOut;
    if items == [] {
      LaidOutNone("", 0);
      LaidOutNone(s, |pre|);
    } else {
      var next := FirstIsRendered(s, pre, items);
      if |items| > 1 {
        RenderingIsLaidOut(s, next, items[1..]);
      } else {
        assert items[1..] == [];
        LaidOutNone(s, |next|);
      }
      LaidOutFirst(s, |pre|, items);
    }
  }

  lemma PlacedNone(s: string, at: nat)
    requires at >= |s|
    ensures Placed(s, Spans(s, at), [])
  {}

  lemma {:induction false} ScanAll(u: Unicode, s: string, at: nat, items: seq<Item>)
    requires forall k :: 0 <= k < |items| ==> items[k].WellFormed(u)
    requires LaidOut(s, at, items)
    ensures Placed(s, Spans(s, at), items)
    decreases |items|
  {
    hide Spans, RenderedAt, Fits, Placed, Item.Render, Item.WellFormed;
    if items == [] {
      PlacedNone(s, at);
    } else {
      var it := items[0];
      ScanAll(u, s, at + |it.Render()| + 1, items[1..]);
      ScanOne(u, s, at, it);
      PlacedFirst(s, Spans(s, at), items);
    }
  }

  lemma {:induction false} TermsAdded(rd: Reading, s: string, spans: seq<Span>, items: seq<Item>)
    requires Placed(s, spans, items)
    requires forall k :: 0 <= k < |items| ==> rd.trim(items[k].text) == items[k].text != ""
    ensures Collect(rd, s, spans) == Meaning(rd.split, items)
  {
    if items != [] {
      assert Fits(s, spans[0], items[0]);
      var rs := seq(|spans|, k requires 0 <= k < |spans| => Contribution(rd, s, spans[k]));
      var rest := spans[1..];
      assert rs[1..] == seq(|rest|, k requires 0 <= k < |rest| => Contribution(rd, s, rest[k]));
      TermsAdded(rd, s, rest, items[1..]);
    }
  }

  /** Writing a query out and parsing it gives back its terms, in order. */
  lemma RoundTrip(u: Unicode, minLen: nat, items: seq<Item>)
    requires u.Standard() && forall it :: it in items ==> it.WellFormed(u)
    ensures Parse(u, RenderAll(items), minLen) == Meaning(w => Split(u, w, minLen), items)
  {
    RenderedIsLower(u, items);
    var s := RenderAll(items);
    assert s == "" + s;
    RenderingIsLaidOut(s, "", items);
    ScanAll(u, s, 0, items);
    forall k | 0 <= k < |items| ensures Trim(u, items[k].text) == items[k].text != "" {
      assert items[k] in items;
    }
    TermsAdded(Reader(u, minLen), s, Spans(s, 0), items);
  }
}
