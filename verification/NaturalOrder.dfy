/** Natural comparison of names: compareStrings, extractNumber and the entry comparators of rclone/rclone.go. */
module NaturalOrder {
  import opened Order
  import opened Text

  const MAX_INT: nat := 0x7fff_ffff_ffff_ffff

  // ------------------------------------------------------------------ the comparison

  /** `len` of a Go string counts UTF-8 bytes. */
  function Utf8Width(c: char): nat {
    if c as int < 0x80 then 1 else if c as int < 0x800 then 2 else if c as int < 0x1_0000 then 3 else 4
  }

  function ByteLen(s: string): nat {
    if s == "" then 0 else Utf8Width(s[0]) + ByteLen(s[1..])
  }

  /** The length of the run of digits that starts the text. */
  function RunLen(s: string): (n: nat)
    ensures n <= |s|
  {
    if s != "" && IsDigit(s[0]) then 1 + RunLen(s[1..]) else 0
  }

  function Digit(c: char): nat {
    if IsDigit(c) then c as int - '0' as int else 0
  }

  function Value(ds: string): nat {
    if ds == "" then 0 else 10 * Value(ds[..|ds| - 1]) + Digit(ds[|ds| - 1])
  }

  /** The integer `strconv.Atoi` returns when the number does not fit is the largest one. */
  function Clamp(n: nat): nat {
    if n > MAX_INT then MAX_INT else n
  }

  /** The number that starts the text, and the length of its digits. */
  function Number(s: string): (nat, nat) {
    (Clamp(Value(s[..RunLen(s)])), RunLen(s))
  }

  function CompareFrom(a: string, b: string, i: nat, j: nat): int
    requires i <= |a| && j <= |b|
    decreases |a| - i + |b| - j
  {
    if i == |a| || j == |b| then CompareInt(ByteLen(a), ByteLen(b))
    else if IsDigit(a[i]) && IsDigit(b[j]) then
      var (x, xLen) := Number(a[i..]);
      var (y, yLen) := Number(b[j..]);
      if x != y then CompareInt(x, y) else CompareFrom(a, b, i + xLen, j + yLen)
    else if a[i] != b[j] then Compare(a, b)
    else CompareFrom(a, b, i + 1, j + 1)
  }

  /** The comparison of two texts that are already in lower case. */
  function CompareLowered(a: string, b: string): int {
    CompareFrom(a, b, 0, 0)
  }

  function CompareNatural(u: Unicode, a: string, b: string): int {
    CompareLowered(u.Lower(a), u.Lower(b))
  }

  lemma {:induction false} RunLenIs(s: string, n: nat)
    requires n <= |s| && (forall k :: 0 <= k < n ==> IsDigit(s[k])) && (n < |s| ==> !IsDigit(s[n]))
    ensures RunLen(s) == n
  {
    if n > 0 {
      RunLenIs(s[1..], n - 1);
    }
  }

  lemma {:induction false} RunIsDigits(s: string)
    ensures forall k :: 0 <= k < RunLen(s) ==> IsDigit(s[k])
    ensures RunLen(s) < |s| ==> !IsDigit(s[RunLen(s)])
  {
    if s != "" && IsDigit(s[0]) {
      RunIsDigits(s[1..]);
      forall k | 0 <= k < RunLen(s) ensures IsDigit(s[k]) {
        if k > 0 { assert s[k] == s[1..][k - 1]; }
      }
    }
  }

  method ExtractNumber(s: string) returns (n: nat, size: nat)
    requires s != "" && IsDigit(s[0])
    ensures (n, size) == Number(s) && 1 <= size <= |s|
  {
    var strN := "";
    var i := 0;
    while i < |s|
      invariant 0 <= i <= |s|
      invariant forall k :: 0 <= k < i ==> IsDigit(s[k])
      invariant strN == (if i == |s| then s else "")
    {
      if !IsDigit(s[i]) {
        strN := s[..i];
        break;
      } else if i == |s| - 1 {
        strN := s;
      }
      i := i + 1;
    }
    RunLenIs(s, i);
    assert i == |s| ==> s[..i] == s;
    n, size := Clamp(Value(strN)), |strN|;
  }

  /** The cases of the loop's switch. */
  lemma CompareStep(a: string, b: string, i: nat, j: nat)
    requires i < |a| && j < |b|
    ensures CompareFrom(a, b, i, j) ==
            if IsDigit(a[i]) && IsDigit(b[j]) then
              var (x, xLen) := Number(a[i..]);
              var (y, yLen) := Number(b[j..]);
              if x != y then CompareInt(x, y) else CompareFrom(a, b, i + xLen, j + yLen)
            else if a[i] != b[j] then Compare(a, b)
            else CompareFrom(a, b, i + 1, j + 1)
  {
    hide Number, ByteLen, Compare;
  }

  lemma CompareEnds(a: string, b: string, i: nat, j: nat)
    requires i <= |a| && j <= |b| && (i == |a| || j == |b|)
    ensures CompareFrom(a, b, i, j) == CompareInt(ByteLen(a), ByteLen(b))
  {}

  method CompareStrings(u: Unicode, a: string, b: string) returns (r: int)
    ensures r == CompareNatural(u, a, b)
  {
    hide Number, RunLen, Value, ByteLen, Compare, Clamp, CompareFrom;
    var a', b' := u.Lower(a), u.Lower(b);
    var i, j := 0, 0;
    while i < |a'| && j < |b'|
      invariant 0 <= i <= |a'| && 0 <= j <= |b'|
      invariant CompareFrom(a', b', i, j) == CompareNatural(u, a, b)
      decreases |a'| - i + |b'| - j
    {
      CompareStep(a', b', i, j);
      if IsDigit(a'[i]) && IsDigit(b'[j]) {
        var x, xLen := ExtractNumber(a'[i..]);
        var y, yLen := ExtractNumber(b'[j..]);
        var v := CompareInt(x, y);
        if v != 0 {
          return v;
        }
        i, j := i + xLen, j + yLen;
      } else if a'[i] != b'[j] {
        return Compare(a', b');
      } else {
        i, j := i + 1, j + 1;
      }
    }
    CompareEnds(a', b', i, j);
    return CompareInt(ByteLen(a'), ByteLen(b'));
  }

  // ------------------------------------------------------------------ what holds of all texts

  lemma {:induction false} FromReflexive(a: string, i: nat)
    requires i <= |a|
    ensures CompareFrom(a, a, i, i) == 0
    decreases |a| - i
  {
    if i < |a| {
      FromReflexive(a, if IsDigit(a[i]) then i + RunLen(a[i..]) else i + 1);
    }
  }

  lemma {:induction false} FromAntisymmetric(a: string, b: string, i: nat, j: nat)
    requires i <= |a| && j <= |b|
    ensures CompareFrom(a, b, i, j) == -CompareFrom(b, a, j, i)
    decreases |a| - i + |b| - j
  {
    if i < |a| && j < |b| {
      if IsDigit(a[i]) && IsDigit(b[j]) {
        var (x, xLen) := Number(a[i..]);
        var (y, yLen) := Number(b[j..]);
        if x == y { FromAntisymmetric(a, b, i + xLen, j + yLen); }
      } else if a[i] != b[j] {
        CharsAreOrdered();
        LexAntisymmetric(CompareChar, a, b);
      } else {
        FromAntisymmetric(a, b, i + 1, j + 1);
      }
    }
  }

  /** Any two texts: comparing a text with itself gives zero, and swapping the texts negates the result. */
  lemma ReflexiveAndAntisymmetric(u: Unicode, a: string, b: string)
    ensures CompareNatural(u, a, a) == 0
    ensures CompareNatural(u, a, b) == -CompareNatural(u, b, a)
  {
    FromReflexive(u.Lower(a), 0);
    FromAntisymmetric(u.Lower(a), u.Lower(b), 0, 0);
  }

  /** It is no order on all texts: leading zeros close a cycle. */
  lemma LeadingZeroCycle()
    ensures CompareNatural(ASCII, "1a", "01a") < 0
    ensures CompareNatural(ASCII, "01a", "01b") < 0
    ensures CompareNatural(ASCII, "01b", "1a") < 0
  {
    var a, b, c := "1a", "01a", "01b";
    AsciiLowerIs(a);
    AsciiLowerIs(b);
    AsciiLowerIs(c);
    assert a[0..] == a && b[0..] == b && c[0..] == c;
    RunLenIs(a, 1);
    RunLenIs(b, 2);
    RunLenIs(c, 2);
    assert a[..1] == "1" && b[..2] == "01" && c[..2] == "01";
    assert "1"[..0] == "" && "01"[..1] == "0" && "0"[..0] == "";
    assert Value("1") == 1 && Value("0") == 0 && Value("01") == 1;
    assert CompareFrom(a, b, 1, 2) == CompareFrom(a, b, 2, 3);
    assert ByteLen(a[1..]) == 1 && ByteLen(b[1..][1..]) == 1;
    assert Compare(b, c) == Compare(b[1..], c[1..]) == Compare(b[1..][1..], c[1..][1..]);
  }

  // ------------------------------------------------------------------ the domain on which it is an order

  /** Every run of digits fits in an int and has no redundant leading zero. */
  predicate Canonical(s: string)
    decreases |s|
  {
    if s == "" then true
    else if IsDigit(s[0]) then
      var n := RunLen(s);
      CanonicalRun(s[..n]) && Canonical(s[n..])
    else Canonical(s[1..])
  }

  predicate CanonicalRun(r: string) {
    r != "" && (|r| == 1 || r[0] != '0') && Value(r) <= MAX_INT
  }

  datatype Token = Num(n: nat) | Chr(c: char)

  /** Numbers compare by value, characters by code, and a number stands where its digits stand. */
  function CompareToken(s: Token, t: Token): int {
    match (s, t)
    case (Num(m), Num(n)) => CompareInt(m, n)
    case (Chr(c), Chr(d)) => CompareChar(c, d)
    case (Num(_), Chr(d)) => if d > '9' then -1 else 1
    case (Chr(c), Num(_)) => if c > '9' then 1 else -1
  }

  lemma TokensAreOrdered()
    ensures TotalOrder(CompareToken)
  {}

  function Tokens(s: string): seq<Token>
    decreases |s|
  {
    if s == "" then []
    else if IsDigit(s[0]) then [Num(Number(s).0)] + Tokens(s[RunLen(s)..])
    else [Chr(s[0])] + Tokens(s[1..])
  }

  /** The length of the first token. */
  function FirstLen(s: string): (n: nat)
    requires s != ""
    ensures 0 < n <= |s|
  {
    if IsDigit(s[0]) then RunLen(s) else 1
  }

  lemma FirstToken(s: string)
    requires s != ""
    ensures |Tokens(s)| > 0 && Tokens(s)[0] == if IsDigit(s[0]) then Num(Number(s).0) else Chr(s[0])
    ensures Tokens(s)[1..] == Tokens(s[FirstLen(s)..])
  {}

  lemma CanonicalTail(s: string)
    requires s != "" && Canonical(s)
    ensures Canonical(s[FirstLen(s)..])
  {}

  ghost predicate AllDigits(s: string) {
    forall k :: 0 <= k < |s| ==> IsDigit(s[k])
  }

  lemma {:induction false} PositiveValue(s: string)
    requires AllDigits(s) && s != "" && s[0] != '0'
    ensures Value(s) >= 1
  {
    if |s| > 1 {
      PositiveValue(s[..|s| - 1]);
    }
  }

  /** A canonical numeral is determined by its value. */
  lemma {:induction false} NumeralUnique(a: string, b: string)
    requires AllDigits(a) && AllDigits(b) && a != "" && b != "" && Value(a) == Value(b)
    requires (|a| == 1 || a[0] != '0') && (|b| == 1 || b[0] != '0')
    ensures a == b
    decreases |a|
  {
    var ia, ib := a[..|a| - 1], b[..|b| - 1];
    if |a| > 1 { PositiveValue(ia); }
    if |b| > 1 { PositiveValue(ib); }
    assert Value(ia) == Value(ib) && Digit(a[|a| - 1]) == Digit(b[|b| - 1]);
    if |a| > 1 {
      NumeralUnique(ia, ib);
    }
    assert a == ia + [a[|a| - 1]] && b == ib + [b[|b| - 1]];
  }

  lemma {:induction false} ByteLenConcat(p: string, q: string)
    ensures ByteLen(p + q) == ByteLen(p) + ByteLen(q)
  {
    if p == "" {
      assert p + q == q;
    } else {
      ByteLenConcat(p[1..], q);
      assert (p + q)[1..] == p[1..] + q;
    }
  }

  /** The length of a text is that of its UTF-8 encoding. */
  lemma ByteLenIs(s: string, c: char)
    ensures ByteLen("") == 0
    ensures ByteLen(s + [c]) == ByteLen(s) +
            if c < '\U{80}' then 1 else if c < '\U{800}' then 2 else if c < '\U{10000}' then 3 else 4
  {
    ByteLenConcat(s, [c]);
    assert [c][1..] == "";
  }

  lemma CompareAfterPrefix(p: string, s: string, t: string)
    ensures Compare(p + s, p + t) == Compare(s, t)
    ensures CompareInt(ByteLen(p + s), ByteLen(p + t)) == CompareInt(ByteLen(s), ByteLen(t))
  {
    CharsAreOrdered();
    LexSkip(CompareChar, p, s, t);
    ByteLenConcat(p, s);
    ByteLenConcat(p, t);
  }

  /** Two canonical texts that start with the same token start with the same characters. */
  lemma SameFirst(s: string, t: string)
    requires s != "" && t != "" && Canonical(s) && Canonical(t) && Tokens(s)[0] == Tokens(t)[0]
    ensures FirstLen(s) == FirstLen(t) && s[..FirstLen(s)] == t[..FirstLen(t)]
  {
    if IsDigit(s[0]) {
      RunIsDigits(s);
      RunIsDigits(t);
      NumeralUnique(s[..RunLen(s)], t[..RunLen(t)]);
      assert RunLen(s) == |s[..RunLen(s)]|;
    } else {
      assert s[..1] == [s[0]] && t[..1] == [t[0]];
    }
  }

  lemma At(p: string, s: string, n: nat)
    requires n <= |s|
    ensures (p + s)[|p|..] == s && p + s[..n] + s[n..] == p + s
  {
    assert s[..n] + s[n..] == s;
  }

  /** Two texts that start with different tokens compare like these tokens. */
  lemma DifferentFirst(a: string, b: string, i: nat, j: nat)
    requires i < |a| && j < |b| && Tokens(a[i..])[0] != Tokens(b[j..])[0]
    ensures CompareFrom(a, b, i, j) ==
            if IsDigit(a[i]) && IsDigit(b[j]) then CompareToken(Tokens(a[i..])[0], Tokens(b[j..])[0]) else Compare(a, b)
  {
    hide Value, RunLen, ByteLen, Lex;
    FirstToken(a[i..]);
    FirstToken(b[j..]);
  }

  lemma FirstDecides(s: string, t: string)
    requires s != "" && t != "" && Tokens(s)[0] != Tokens(t)[0]
    ensures Lex(CompareToken, Tokens(s), Tokens(t)) == CompareToken(Tokens(s)[0], Tokens(t)[0])
    ensures !(IsDigit(s[0]) && IsDigit(t[0])) ==> Compare(s, t) == CompareToken(Tokens(s)[0], Tokens(t)[0])
  {
    hide Value, RunLen;
    FirstToken(s);
    FirstToken(t);
  }

  lemma SameFirstStep(a: string, b: string, i: nat, j: nat)
    requires i < |a| && j < |b| && Tokens(a[i..])[0] == Tokens(b[j..])[0]
    ensures CompareFrom(a, b, i, j) == CompareFrom(a, b, i + FirstLen(a[i..]), j + FirstLen(b[j..]))
  {
    hide Value, RunLen, ByteLen, Lex;
    FirstToken(a[i..]);
    FirstToken(b[j..]);
  }

  lemma EmptyIsLeast(s: string, t: string)
    requires s == "" || t == ""
    ensures CompareInt(ByteLen(s), ByteLen(t)) == Lex(CompareToken, Tokens(s), Tokens(t))
  {}

  lemma {:induction false} FromIsTokenOrder(p: string, s: string, t: string)
    requires Canonical(s) && Canonical(t)
    ensures CompareFrom(p + s, p + t, |p|, |p|) == Lex(CompareToken, Tokens(s), Tokens(t))
    decreases |s|
  {
    hide Value, RunLen, Canonical, ByteLen, CompareToken;
    CompareAfterPrefix(p, s, t);
    if s == "" || t == "" {
      EmptyIsLeast(s, t);
    } else {
      FirstToken(s);
      FirstToken(t);
      var n := FirstLen(s);
      At(p, s, n);
      At(p, t, FirstLen(t));
      if Tokens(s)[0] != Tokens(t)[0] {
        DifferentFirst(p + s, p + t, |p|, |p|);
        FirstDecides(s, t);
      } else {
        SameFirst(s, t);
        CanonicalTail(s);
        CanonicalTail(t);
        FromIsTokenOrder(p + s[..n], s[n..], t[n..]);
        SameFirstStep(p + s, p + t, |p|, |p|);
        TokensAreOrdered();
      }
    }
  }

  /** On canonical texts the two-cursor comparison is the lexicographic order of their number and character tokens. */
  lemma CanonicalIsTokenOrder(a: string, b: string)
    requires Canonical(a) && Canonical(b)
    ensures CompareLowered(a, b) == Lex(CompareToken, Tokens(a), Tokens(b))
  {
    assert "" + a == a && "" + b == b;
    FromIsTokenOrder("", a, b);
  }

  lemma {:induction false} TokensInjective(a: string, b: string)
    requires Canonical(a) && Canonical(b) && Tokens(a) == Tokens(b)
    ensures a == b
    decreases |a|
  {
    if a != "" {
      FirstToken(a);
      FirstToken(b);
      SameFirst(a, b);
      var n := FirstLen(a);
      CanonicalTail(a);
      CanonicalTail(b);
      TokensInjective(a[n..], b[n..]);
      assert a == a[..n] + a[n..] && b == b[..n] + b[n..];
    }
  }

  /** On canonical texts the comparison is a total order. */
  lemma TotalOnCanonical(a: string, b: string, c: string)
    requires Canonical(a) && Canonical(b) && Canonical(c)
    ensures CompareLowered(a, b) == 0 <==> a == b
    ensures CompareLowered(a, b) < 0 <==> CompareLowered(b, a) > 0
    ensures CompareLowered(a, b) <= 0 && CompareLowered(b, c) <= 0 ==> CompareLowered(a, c) <= 0
  {
    TokensAreOrdered();
    CanonicalIsTokenOrder(a, b);
    CanonicalIsTokenOrder(b, a);
    CanonicalIsTokenOrder(b, c);
    CanonicalIsTokenOrder(a, c);
    LexAntisymmetric(CompareToken, Tokens(a), Tokens(b));
    LexZero(CompareToken, Tokens(a), Tokens(b));
    if Tokens(a) == Tokens(b) { TokensInjective(a, b); }
    if CompareLowered(a, b) <= 0 && CompareLowered(b, c) <= 0 {
      LexTransitive(CompareToken, Tokens(a), Tokens(b), Tokens(c));
    }
  }

  // ------------------------------------------------------------------ the domain is exact

  function LastDigit(n: nat): char {
    ('0' as int + n % 10) as char
  }

  lemma LastDigitIs(n: nat)
    ensures IsDigit(LastDigit(n)) && Digit(LastDigit(n)) == n % 10 && n == 10 * (n / 10) + n % 10
    ensures n < 10 ==> n % 10 == n
    ensures n > 0 && n % 10 == n ==> LastDigit(n) != '0'
  {}

  /** The canonical numeral of a number. */
  function Numeral(n: nat): string {
    if n < 10 then [LastDigit(n)] else Numeral(n / 10) + [LastDigit(n)]
  }

  lemma ValueSnoc(r: string, c: char)
    ensures Value(r + [c]) == 10 * Value(r) + Digit(c)
  {
    assert (r + [c])[..|r|] == r;
  }

  lemma ValueOne(c: char)
    ensures Value([c]) == Digit(c)
  {
    assert [c][..0] == "";
  }

  lemma {:induction false} NumeralFacts(n: nat)
    ensures var r := Numeral(n);
            AllDigits(r) && r != "" && Value(r) == n && (n > 0 ==> r[0] != '0') && (n == 0 ==> |r| == 1)
  {
    LastDigitIs(n);
    hide LastDigit, Value;
    if n < 10 {
      ValueOne(LastDigit(n));
    } else {
      NumeralFacts(n / 10);
      ValueSnoc(Numeral(n / 10), LastDigit(n));
    }
  }

  function Pow10(n: nat): nat {
    if n == 0 then 1 else 10 * Pow10(n - 1)
  }

  lemma {:induction false} Pow10Grows(a: nat, b: nat)
    requires a <= b
    ensures 0 < Pow10(a) <= Pow10(b)
    decreases b
  {
    if a < b {
      Pow10Grows(a, b - 1);
    } else if a > 0 {
      Pow10Grows(a - 1, b - 1);
    }
  }

  lemma {:induction false} ValueBelow(r: string)
    ensures Value(r) < Pow10(|r|)
  {
    if r != "" { ValueBelow(r[..|r| - 1]); }
  }

  lemma {:induction false} NumeralIsShort(n: nat, k: nat)
    requires n < Pow10(k)
    ensures |Numeral(n)| <= if k == 0 then 1 else k
  {
    if n >= 10 {
      NumeralIsShort(n / 10, k - 1);
    }
  }

  /** Every run of digits replaced by the canonical numeral that compares equal to it. */
  function Canon(s: string): string
    decreases |s|
  {
    if s == "" then ""
    else if IsDigit(s[0]) then Numeral(Number(s).0) + Canon(s[RunLen(s)..])
    else [s[0]] + Canon(s[1..])
  }

  lemma {:induction false} DigitsAreBytes(r: string)
    requires AllDigits(r)
    ensures ByteLen(r) == |r|
  {
    if r != "" { DigitsAreBytes(r[1..]); }
  }

  /** A run of digits before something that is no digit is read off whole. */
  lemma LeadingRun(r: string, rest: string)
    requires AllDigits(r) && r != "" && (rest != "" ==> !IsDigit(rest[0]))
    ensures CanonicalRun(r) && Canonical(rest) ==> Canonical(r + rest)
    ensures Tokens(r + rest) == [Num(Clamp(Value(r)))] + Tokens(rest)
  {
    RunLenIs(r + rest, |r|);
    assert (r + rest)[..|r|] == r && (r + rest)[|r|..] == rest;
    assert IsDigit((r + rest)[0]);
  }

  lemma LeadingChar(c: char, rest: string)
    requires !IsDigit(c)
    ensures Canonical(rest) ==> Canonical([c] + rest)
    ensures Tokens([c] + rest) == [Chr(c)] + Tokens(rest)
  {
    assert ([c] + rest)[1..] == rest;
  }

  /** What `Canon` puts in place of the first token. */
  function CanonHead(s: string): string
    requires s != ""
  {
    if IsDigit(s[0]) then Numeral(Number(s).0) else [s[0]]
  }

  lemma CanonUnfold(s: string, tail: string)
    requires s != ""
    ensures Canon(s) + tail == CanonHead(s) + (Canon(s[FirstLen(s)..]) + tail)
  {
    hide Value, RunLen, Numeral;
  }

  /** The replacement is canonical and is read as the token it replaces. */
  lemma CanonHeadReads(s: string, rest: string)
    requires s != "" && (IsDigit(s[0]) && rest != "" ==> !IsDigit(rest[0]))
    ensures Canonical(rest) ==> Canonical(CanonHead(s) + rest)
    ensures Tokens(CanonHead(s) + rest) == [Tokens(s)[0]] + Tokens(rest)
  {
    hide RunLen, Canonical, Tokens;
    FirstToken(s);
    if IsDigit(s[0]) {
      NumeralFacts(Number(s).0);
      LeadingRun(Numeral(Number(s).0), rest);
    } else {
      LeadingChar(s[0], rest);
    }
  }

  lemma {:induction false} CanonStart(s: string, tail: string)
    requires tail != "" ==> !IsDigit(tail[0])
    ensures Canon(s) + tail != "" && IsDigit((Canon(s) + tail)[0]) ==> s != "" && IsDigit(s[0])
  {
    if s != "" && !IsDigit(s[0]) {
      assert (Canon(s) + tail)[0] == s[0];
    }
  }

  lemma RestIsApart(s: string, tail: string)
    requires s != "" && (tail != "" ==> !IsDigit(tail[0]))
    ensures var rest := Canon(s[FirstLen(s)..]) + tail;
            IsDigit(s[0]) && rest != "" ==> !IsDigit(rest[0])
  {
    hide Value, Canon;
    RunIsDigits(s);
    CanonStart(s[FirstLen(s)..], tail);
  }

  lemma {:induction false} CanonIsCanonical(s: string, tail: string)
    requires Canonical(tail) && (tail != "" ==> !IsDigit(tail[0]))
    ensures Canonical(Canon(s) + tail)
    decreases |s|
  {
    if s == "" {
      assert "" + tail == tail;
    } else {
      hide Value, Canonical, Canon, CanonHead, Tokens, RunLen;
      CanonIsCanonical(s[FirstLen(s)..], tail);
      RestIsApart(s, tail);
      CanonHeadReads(s, Canon(s[FirstLen(s)..]) + tail);
      CanonUnfold(s, tail);
    }
  }

  lemma TokensGrow(t: Token, rest: seq<Token>, tail: seq<Token>, whole: seq<Token>)
    requires |whole| > 0 && whole[0] == t && whole[1..] == rest
    ensures [t] + (rest + tail) == whole + tail
  {}

  /** Replacing the runs leaves the tokens as they are, whatever follows. */
  lemma {:induction false} CanonKeepsTokens(s: string, tail: string)
    requires tail != "" ==> !IsDigit(tail[0])
    ensures Tokens(Canon(s) + tail) == Tokens(s) + Tokens(tail)
    decreases |s|
  {
    if s == "" {
      assert "" + tail == tail;
    } else {
      hide Value, Canonical, Canon, CanonHead, Tokens, RunLen;
      var n := FirstLen(s);
      CanonKeepsTokens(s[n..], tail);
      RestIsApart(s, tail);
      CanonHeadReads(s, Canon(s[n..]) + tail);
      CanonUnfold(s, tail);
      FirstToken(s);
      TokensGrow(Tokens(s)[0], Tokens(s[n..]), Tokens(tail), Tokens(s));
    }
  }

  lemma NumeralFits(r: string)
    requires AllDigits(r) && r != ""
    ensures ByteLen(Numeral(Clamp(Value(r)))) <= ByteLen(r)
  {
    NumeralFacts(Clamp(Value(r)));
    ValueBelow(r);
    NumeralIsShort(Clamp(Value(r)), |r|);
    DigitsAreBytes(r);
    DigitsAreBytes(Numeral(Clamp(Value(r))));
  }

  lemma {:induction false} CanonIsShort(s: string)
    ensures ByteLen(Canon(s)) <= ByteLen(s)
    decreases |s|
  {
    if s != "" {
      var n := FirstLen(s);
      var r, rest := s[..n], s[n..];
      CanonIsShort(rest);
      assert s == r + rest;
      ByteLenConcat(r, rest);
      if IsDigit(s[0]) {
        RunIsDigits(s);
        NumeralFits(r);
        ByteLenConcat(Numeral(Number(s).0), Canon(rest));
      } else {
        assert r == [s[0]];
        ByteLenConcat([s[0]], Canon(rest));
      }
    }
  }

  lemma StepAt(a: string, b: string, i: nat, j: nat, s: string, t: string)
    requires i <= |a| && j <= |b| && a[i..] == s && b[j..] == t
    requires s != "" && t != "" && Tokens(s)[0] == Tokens(t)[0]
    ensures i + FirstLen(s) <= |a| && j + FirstLen(t) <= |b|
    ensures CompareFrom(a, b, i, j) == CompareFrom(a, b, i + FirstLen(s), j + FirstLen(t))
  {
    hide Tokens, CompareFrom, FirstLen;
    SameFirstStep(a, b, i, j);
  }

  lemma StepBothSides(p: string, s: string, q: string, t: string)
    requires s != "" && t != "" && Tokens(s)[0] == Tokens(t)[0]
    ensures CompareFrom(p + s, q + t, |p|, |q|) == CompareFrom(p + s, q + t, |p| + FirstLen(s), |q| + FirstLen(t))
  {
    hide Tokens, CompareFrom, FirstLen;
    At(p, s, 0);
    At(q, t, 0);
    StepAt(p + s, q + t, |p|, |q|, s, t);
  }

  lemma OneEnds(p: string, q: string, t: string)
    ensures CompareFrom(p + "", q + t, |p|, |q|) == CompareInt(ByteLen(p + ""), ByteLen(q + t))
  {
    hide ByteLen;
  }

  lemma NoTokens()
    ensures Tokens("") == [] && ByteLen("") == 0
  {}

  /** If the tokens of one text begin the tokens of the other, only the lengths are compared. */
  lemma {:induction false} PrefixComparesLengths(p: string, s: string, q: string, t: string)
    requires Tokens(s) <= Tokens(t)
    ensures CompareFrom(p + s, q + t, |p|, |q|) == CompareInt(ByteLen(p + s), ByteLen(q + t))
    decreases |s|
  {
    hide Value, RunLen, ByteLen, Tokens, CompareFrom, FirstLen, Number;
    if s == "" {
      OneEnds(p, q, t);
    } else {
      NoTokens();
      FirstToken(s);
      assert t != "";
      FirstToken(t);
      assert Tokens(s)[1..] <= Tokens(t)[1..];
      StepBothSides(p, s, q, t);
      At(p, s, FirstLen(s));
      At(q, t, FirstLen(t));
      PrefixComparesLengths(p + s[..FirstLen(s)], s[FirstLen(s)..], q + t[..FirstLen(t)], t[FirstLen(t)..]);
    }
  }

  function Padding(k: nat): string {
    if k == 0 then "" else "a" + Padding(k - 1)
  }

  lemma {:induction false} PaddingFacts(k: nat)
    ensures Canonical(Padding(k)) && ByteLen(Padding(k)) == k && (k > 0 ==> !IsDigit(Padding(k)[0]))
  {
    if k > 0 {
      PaddingFacts(k - 1);
      assert Padding(k)[1..] == Padding(k - 1);
    }
  }

  /** The canonical form of a text, made as long as the text, compares equal to it. */
  lemma CanonTies(s: string, tail: string)
    requires Canonical(tail) && (tail != "" ==> !IsDigit(tail[0])) && ByteLen(Canon(s)) + ByteLen(tail) == ByteLen(s)
    ensures Canonical(Canon(s) + tail) && Tokens(Canon(s) + tail) == Tokens(s) + Tokens(tail)
    ensures CompareLowered(s, Canon(s) + tail) == 0 == CompareLowered(Canon(s) + tail, s)
  {
    hide Tokens, Canonical, ByteLen, Value, RunLen;
    var x := Canon(s) + tail;
    CanonIsCanonical(s, tail);
    CanonKeepsTokens(s, tail);
    ByteLenConcat(Canon(s), tail);
    assert "" + s == s && "" + x == x;
    PrefixComparesLengths("", s, "", x);
    FromAntisymmetric(s, x, 0, 0);
  }

  /** The canonical texts are exactly the texts that the comparison tells apart from every other canonical text:
      a text with a redundant leading zero or an oversized number compares equal to a different canonical one. */
  lemma SeparatedIffCanonical(s: string)
    ensures Canonical(s) <==> forall x :: Canonical(x) && CompareLowered(s, x) == 0 ==> x == s
  {
    hide Canonical, CompareLowered, Canon, ByteLen;
    if Canonical(s) {
      forall x | Canonical(x) && CompareLowered(s, x) == 0 ensures x == s {
        TotalOnCanonical(s, x, x);
      }
    } else {
      CanonIsShort(s);
      var k := ByteLen(s) - ByteLen(Canon(s));
      PaddingFacts(k);
      CanonTies(s, Padding(k));
      assert Canonical(Canon(s) + Padding(k)) && CompareLowered(s, Canon(s) + Padding(k)) == 0;
    }
  }

  // ------------------------------------------------------------------ where the comparison is a weak order

  /** The greatest character. */
  const TOP: char := '\U{10FFFF}'

  ghost predicate AllTop(s: string) {
    forall k :: 0 <= k < |s| ==> s[k] == TOP
  }

  /** The number of digits of the largest int. */
  const MAX_DIGITS: nat := 19

  lemma Pow10Adds(a: nat, b: nat)
    ensures Pow10(a + b) == Pow10(a) * Pow10(b)
    decreases a
  {
    if a > 0 { Pow10Adds(a - 1, b); }
  }

  lemma Powers()
    ensures Pow10(18) == 1_000_000_000_000_000_000 && Pow10(19) == 10_000_000_000_000_000_000
  {
    assert Pow10(3) == 1_000;
    Pow10Adds(3, 3);
    Pow10Adds(6, 6);
    Pow10Adds(6, 12);
  }

  lemma LargestHasDigits()
    ensures |Numeral(MAX_INT)| == MAX_DIGITS
  {
    hide Value, Pow10, Numeral;
    var r := Numeral(MAX_INT);
    Powers();
    NumeralFacts(MAX_INT);
    ValueBelow(r);
    NumeralIsShort(MAX_INT, 19);
    if |r| <= 18 { Pow10Grows(|r|, 18); }
  }

  /** A run with as many digits as the largest int, and a greater value. */
  predicate Oversized(r: string) {
    |r| == MAX_DIGITS && Value(r) > MAX_INT
  }

  /** Every run of digits is canonical; or the last run is oversized, and nothing follows it but greatest characters. */
  ghost predicate Orderly(s: string)
    decreases |s|
  {
    if s == "" then true
    else if IsDigit(s[0]) then
      var r, rest := s[..RunLen(s)], s[RunLen(s)..];
      if CanonicalRun(r) then Orderly(rest) else Oversized(r) && AllTop(rest)
    else Orderly(s[1..])
  }

  lemma {:induction false} CanonicalIsOrderly(s: string)
    requires Canonical(s)
    ensures Orderly(s)
    decreases |s|
  {
    if s != "" { CanonicalIsOrderly(s[FirstLen(s)..]); }
  }

  /** Every run has a value that fits an int. */
  predicate NumbersFit(s: string)
    decreases |s|
  {
    s == "" ||
    (if IsDigit(s[0]) then Value(s[..RunLen(s)]) <= MAX_INT && NumbersFit(s[RunLen(s)..]) else NumbersFit(s[1..]))
  }

  /** For texts whose numbers fit, this is the canonical form. */
  lemma {:induction false} OrderlyIfFits(s: string)
    requires NumbersFit(s)
    ensures Orderly(s) <==> Canonical(s)
    decreases |s|
  {
    hide Value, RunLen;
    if s != "" { OrderlyIfFits(s[FirstLen(s)..]); }
  }

  /** Whatever follows, the first text is greater. */
  ghost predicate Above(q: string, q': string) {
    forall u, v :: Compare(q + u, q' + v) > 0
  }

  lemma AboveGrows(q: string, x: string, q': string, y: string)
    requires Above(q, q')
    ensures Above(q + x, q' + y)
  {
    forall u, v ensures Compare(q + x + u, q' + y + v) > 0 {
      assert q + x + u == q + (x + u) && q' + y + v == q' + (y + v);
    }
  }

  /** Numerals of one length are determined by their value. */
  lemma {:induction false} SameLengthUnique(a: string, b: string)
    requires AllDigits(a) && AllDigits(b) && |a| == |b| && Value(a) == Value(b)
    ensures a == b
  {
    if a != "" {
      hide Value, Digit;
      var ia, ib, x, y := a[..|a| - 1], b[..|b| - 1], a[|a| - 1], b[|b| - 1];
      SameLengthUnique(ia, ib);
    }
  }

  /** Of two numerals of one length the one with the greater value is greater as a text. */
  lemma {:induction false} GreaterIsAbove(a: string, b: string, u: string, v: string)
    requires AllDigits(a) && AllDigits(b) && |a| == |b| && Value(a) > Value(b)
    ensures Compare(a + u, b + v) > 0
  {
    var ia, x := a[..|a| - 1], a[|a| - 1];
    var ib, y := b[..|b| - 1], b[|b| - 1];
    assert a + u == ia + ([x] + u) && b + v == ib + ([y] + v);
    if Value(ia) == Value(ib) {
      SameLengthUnique(ia, ib);
      CharsAreOrdered();
      LexSkip(CompareChar, ia, [x] + u, [y] + v);
    } else {
      GreaterIsAbove(ia, ib, [x] + u, [y] + v);
    }
  }

  lemma RunAboveOne(p: string, a: string, b: string, u: string, v: string)
    requires AllDigits(a) && AllDigits(b) && |a| == |b| && Value(a) > Value(b)
    ensures Compare(p + a + u, p + b + v) > 0
  {
    GreaterIsAbove(a, b, u, v);
    hide Value, Lex;
    CharsAreOrdered();
    LexSkip(CompareChar, p, a + u, b + v);
    assert p + a + u == p + (a + u) && p + b + v == p + (b + v);
  }

  lemma RunAbove(p: string, a: string, b: string)
    requires AllDigits(a) && AllDigits(b) && |a| == |b| && Value(a) > Value(b)
    ensures Above(p + a, p + b)
  {
    hide Value, Compare, AllDigits;
    forall u, v ensures Compare(p + a + u, p + b + v) > 0 {
      RunAboveOne(p, a, b, u, v);
    }
  }

  lemma TopFirst(m: string, t: string)
    requires m != "" && t != "" && m[0] == TOP != t[0]
    ensures Lex(CompareToken, Tokens(m), Tokens(t)) == 1 && Lex(CompareToken, Tokens(t), Tokens(m)) == -1
  {
    hide Value, RunLen, Tokens;
    FirstToken(m);
    FirstToken(t);
  }

  /** Where a character differs that is no digit, the whole texts are compared. */
  lemma WholeDecides(q: string, m: string, q': string, t: string)
    requires m != "" && t != "" && m[0] != t[0] && !(IsDigit(m[0]) && IsDigit(t[0])) && Above(q, q')
    ensures CompareFrom(q + m, q' + t, |q|, |q'|) == 1
  {
    hide Value, RunLen, ByteLen, Lex;
    LexIsSign(CompareChar, q + m, q' + t);
    assert (q + m)[|q|] == m[0] && (q' + t)[|q'|] == t[0];
  }

  lemma LengthsDecide(q: string, m: string, q': string, t: string)
    requires ByteLen(q) == ByteLen(q') && (m == "" || t == "")
    ensures CompareFrom(q + m, q' + t, |q|, |q'|) == Lex(CompareToken, Tokens(m), Tokens(t))
  {
    ByteLenConcat(q, m);
    ByteLenConcat(q', t);
    EmptyIsLeast(m, t);
  }

  /** Greatest characters after an oversized run: they are compared like tokens. */
  lemma {:induction false} TopVersus(q: string, m: string, q': string, t: string)
    requires AllTop(m) && ByteLen(q) == ByteLen(q') && (Above(q, q') || AllTop(t))
    ensures CompareFrom(q + m, q' + t, |q|, |q'|) == Lex(CompareToken, Tokens(m), Tokens(t))
    decreases |m|
  {
    hide Value, RunLen, ByteLen, CompareToken, Lex, Above;
    if m == "" || t == "" {
      LengthsDecide(q, m, q', t);
    } else if t[0] == TOP {
      FirstToken(m);
      FirstToken(t);
      StepBothSides(q, m, q', t);
      assert m[..1] == [TOP] == t[..1];
      At(q, m, 1);
      At(q', t, 1);
      if Above(q, q') { AboveGrows(q, [TOP], q', [TOP]); }
      ByteLenConcat(q, [TOP]);
      ByteLenConcat(q', [TOP]);
      TopVersus(q + [TOP], m[1..], q' + [TOP], t[1..]);
      SameHead(Tokens(m), Tokens(t));
    } else {
      TopFirst(m, t);
      WholeDecides(q, m, q', t);
    }
  }

  lemma SameHead(a: seq<Token>, b: seq<Token>)
    requires |a| > 0 && |b| > 0 && a[0] == b[0]
    ensures Lex(CompareToken, a, b) == Lex(CompareToken, a[1..], b[1..])
  {}

  /** The first run of an orderly text. */
  lemma OrderlyRun(s: string)
    requires s != "" && IsDigit(s[0]) && Orderly(s)
    ensures var r, rest := s[..FirstLen(s)], s[FirstLen(s)..];
            && AllDigits(r) && r != "" && Tokens(s)[0] == Num(Clamp(Value(r)))
            && if CanonicalRun(r) then Orderly(rest) else Oversized(r) && AllTop(rest)
  {
    hide Value;
    RunIsDigits(s);
    FirstToken(s);
  }

  lemma OrderlyChar(s: string)
    requires s != "" && !IsDigit(s[0]) && Orderly(s)
    ensures Orderly(s[1..]) && Tokens(s)[0] == Chr(s[0]) && s[..1] == [s[0]]
  {
    FirstToken(s);
  }

  /** Runs that are read as one number are equal, or have one length and only greatest characters after the greater. */
  lemma RunsRelate(r: string, r': string)
    requires AllDigits(r) && AllDigits(r') && r != "" && r' != "" && Clamp(Value(r)) == Clamp(Value(r'))
    requires (CanonicalRun(r) || Oversized(r)) && (CanonicalRun(r') || Oversized(r'))
    ensures CanonicalRun(r) && CanonicalRun(r') ==> r == r'
    ensures !CanonicalRun(r) || !CanonicalRun(r') ==> |r| == |r'|
    ensures !CanonicalRun(r) && CanonicalRun(r') ==> Value(r) > Value(r')
  {
    NumeralFacts(MAX_INT);
    LargestHasDigits();
    if CanonicalRun(r) && CanonicalRun(r') {
      NumeralUnique(r, r');
    } else if CanonicalRun(r') {
      NumeralUnique(r', Numeral(MAX_INT));
    } else if CanonicalRun(r) {
      NumeralUnique(r, Numeral(MAX_INT));
    }
  }

  /** Two orderly texts that start with a run that is not canonical in both. */
  lemma OversizedFirst(p: string, s: string, t: string)
    requires s != "" && t != "" && IsDigit(s[0]) && IsDigit(t[0]) && Orderly(s) && Orderly(t)
             && Tokens(s)[0] == Tokens(t)[0]
    requires !CanonicalRun(s[..FirstLen(s)])
    ensures CompareFrom(p + s, p + t, |p|, |p|) == Lex(CompareToken, Tokens(s), Tokens(t))
  {
    hide Value, RunLen, ByteLen, CompareToken, Lex, Tokens, Orderly, CompareFrom, CanonicalRun, Oversized, Above;
    var n, k := FirstLen(s), FirstLen(t);
    var r, m, r', m' := s[..n], s[n..], t[..k], t[k..];
    OrderlyRun(s);
    OrderlyRun(t);
    RunsRelate(r, r');
    FirstToken(s);
    FirstToken(t);
    StepBothSides(p, s, p, t);
    At(p, s, n);
    At(p, t, k);
    ByteLenConcat(p, r);
    ByteLenConcat(p, r');
    DigitsAreBytes(r);
    DigitsAreBytes(r');
    if CanonicalRun(r') { RunAbove(p, r, r'); }
    TopVersus(p + r, m, p + r', m');
    SameHead(Tokens(s), Tokens(t));
  }

  lemma SwapBoth(p: string, s: string, t: string)
    ensures CompareFrom(p + s, p + t, |p|, |p|) == -CompareFrom(p + t, p + s, |p|, |p|)
    ensures Lex(CompareToken, Tokens(s), Tokens(t)) == -Lex(CompareToken, Tokens(t), Tokens(s))
  {
    FromAntisymmetric(p + s, p + t, |p|, |p|);
    TokensAreOrdered();
    LexAntisymmetric(CompareToken, Tokens(s), Tokens(t));
  }

  lemma {:induction false} FromOrderly(p: string, s: string, t: string)
    requires Orderly(s) && Orderly(t)
    ensures CompareFrom(p + s, p + t, |p|, |p|) == Lex(CompareToken, Tokens(s), Tokens(t))
    decreases |s|
  {
    hide Value, RunLen, ByteLen, CompareToken, Lex, Tokens, Orderly, CompareFrom, CanonicalRun, Oversized, Compare;
    if s == "" || t == "" {
      LengthsDecide(p, s, p, t);
      return;
    }
    FirstToken(s);
    FirstToken(t);
    if Tokens(s)[0] != Tokens(t)[0] {
      FirstsDiffer(p, s, t);
    } else if IsDigit(s[0]) && !CanonicalRun(s[..FirstLen(s)]) {
      OversizedFirst(p, s, t);
    } else if IsDigit(s[0]) && !CanonicalRun(t[..FirstLen(t)]) {
      OversizedFirst(p, t, s);
      SwapBoth(p, s, t);
    } else {
      SameOrderlyFirst(s, t);
      var n := FirstLen(s);
      FromOrderly(p + s[..n], s[n..], t[n..]);
      At(p, s, n);
      At(p, t, n);
      SameFirstStep(p + s, p + t, |p|, |p|);
      SameHead(Tokens(s), Tokens(t));
    }
  }

  lemma FirstsDiffer(p: string, s: string, t: string)
    requires s != "" && t != "" && Tokens(s)[0] != Tokens(t)[0]
    ensures CompareFrom(p + s, p + t, |p|, |p|) == Lex(CompareToken, Tokens(s), Tokens(t))
  {
    hide Value, RunLen, ByteLen, CompareToken, Lex, Tokens, CompareFrom;
    At(p, s, 0);
    At(p, t, 0);
    DifferentFirst(p + s, p + t, |p|, |p|);
    FirstDecides(s, t);
    CompareAfterPrefix(p, s, t);
  }

  lemma SameOrderlyFirst(s: string, t: string)
    requires s != "" && t != "" && Orderly(s) && Orderly(t) && Tokens(s)[0] == Tokens(t)[0]
    requires IsDigit(s[0]) ==> CanonicalRun(s[..FirstLen(s)]) && CanonicalRun(t[..FirstLen(t)])
    ensures FirstLen(s) == FirstLen(t) && s[..FirstLen(s)] == t[..FirstLen(t)]
    ensures Orderly(s[FirstLen(s)..]) && Orderly(t[FirstLen(t)..])
  {
    hide Value, RunLen, Tokens, Orderly, CanonicalRun, Oversized;
    FirstToken(s);
    FirstToken(t);
    if IsDigit(s[0]) {
      OrderlyRun(s);
      OrderlyRun(t);
      RunsRelate(s[..FirstLen(s)], t[..FirstLen(t)]);
      assert FirstLen(s) == |s[..FirstLen(s)]|;
    } else {
      OrderlyChar(s);
      OrderlyChar(t);
    }
  }

  /** On orderly texts the two-cursor comparison is the lexicographic order of tokens. */
  lemma OrderlyIsTokenOrder(a: string, b: string)
    requires Orderly(a) && Orderly(b)
    ensures CompareLowered(a, b) == Lex(CompareToken, Tokens(a), Tokens(b))
  {
    assert "" + a == a && "" + b == b;
    FromOrderly("", a, b);
  }

  /** On orderly texts the comparison is a weak order. */
  lemma WeakOnOrderly(a: string, b: string, c: string)
    requires Orderly(a) && Orderly(b) && Orderly(c)
    ensures CompareLowered(a, b) < 0 <==> CompareLowered(b, a) > 0
    ensures CompareLowered(a, b) <= 0 && CompareLowered(b, c) <= 0 ==> CompareLowered(a, c) <= 0
  {
    hide Tokens, Lex, Orderly;
    TokensAreOrdered();
    OrderlyIsTokenOrder(a, b);
    OrderlyIsTokenOrder(b, a);
    OrderlyIsTokenOrder(b, c);
    OrderlyIsTokenOrder(a, c);
    LexAntisymmetric(CompareToken, Tokens(a), Tokens(b));
    if CompareLowered(a, b) <= 0 && CompareLowered(b, c) <= 0 {
      LexTransitive(CompareToken, Tokens(a), Tokens(b), Tokens(c));
    }
  }

  // ------------------------------------------------------------------ where it is none

  function Tops(k: nat): string {
    if k == 0 then "" else [TOP] + Tops(k - 1)
  }

  lemma {:induction false} TopsAreCanonical(k: nat)
    ensures Canonical(Tops(k)) && (k > 0 ==> !IsDigit(Tops(k)[0]))
  {
    if k > 0 {
      TopsAreCanonical(k - 1);
      LeadingChar(TOP, Tops(k - 1));
    }
  }

  /** Greatest characters up to the first other one overtake it as tokens, but not as a text after a greater one. */
  lemma {:induction false} Overtake(q: string, m: string, q': string) returns (k: nat)
    requires !AllTop(m) && Above(q, q')
    ensures k > 0 && CompareFrom(q + m, q' + Tops(k), |q|, |q'|) > 0
    ensures Lex(CompareToken, Tokens(m), Tokens(Tops(k))) < 0
    decreases |m|
  {
    hide Value, RunLen, ByteLen, CompareToken, Lex, Above, Tokens, CompareFrom;
    if m[0] != TOP {
      k := 1;
      assert Tops(1) == [TOP] + Tops(0) == [TOP];
      TopFirst([TOP], m);
      WholeDecides(q, m, q', [TOP]);
    } else {
      AboveGrows(q, [TOP], q', [TOP]);
      var j := Overtake(q + [TOP], m[1..], q' + [TOP]);
      k := j + 1;
      var t := Tops(k);
      assert t == [TOP] + Tops(j) && t[1..] == Tops(j);
      FirstToken(m);
      FirstToken(t);
      StepBothSides(q, m, q', t);
      assert m[..1] == [TOP] == t[..1];
      At(q, m, 1);
      At(q', t, 1);
      SameHead(Tokens(m), Tokens(t));
    }
  }

  /** How long the replacement of the first token is, and of the rest. */
  lemma CanonLengths(s: string)
    requires s != ""
    ensures var n := FirstLen(s);
            && ByteLen(s) == ByteLen(s[..n]) + ByteLen(s[n..])
            && ByteLen(Canon(s)) == ByteLen(CanonHead(s)) + ByteLen(Canon(s[n..]))
            && ByteLen(CanonHead(s)) <= ByteLen(s[..n]) && ByteLen(Canon(s[n..])) <= ByteLen(s[n..])
  {
    hide Value, RunLen, ByteLen;
    var n := FirstLen(s);
    assert s == s[..n] + s[n..];
    ByteLenConcat(s[..n], s[n..]);
    CanonUnfold(s, "");
    assert Canon(s) + "" == Canon(s) && Canon(s[n..]) + "" == Canon(s[n..]);
    ByteLenConcat(CanonHead(s), Canon(s[n..]));
    CanonIsShort(s[n..]);
    HeadIsShort(s);
  }

  lemma HeadIsShort(s: string)
    requires s != ""
    ensures ByteLen(CanonHead(s)) <= ByteLen(s[..FirstLen(s)])
  {
    if IsDigit(s[0]) {
      RunIsDigits(s);
      NumeralFits(s[..RunLen(s)]);
    } else {
      assert s[..1] == [s[0]];
    }
  }

  /** A run that is not canonical, although the numeral of its number has its length, is oversized. */
  lemma LongRunIsOversized(r: string, numeral: string)
    requires AllDigits(r) && r != "" && !CanonicalRun(r) && |numeral| == |r| && numeral == Numeral(Clamp(Value(r)))
    ensures Oversized(r)
  {
    NumeralFacts(Clamp(Value(r)));
    LargestHasDigits();
    hide Numeral;
    if Value(r) <= MAX_INT {
      SameLengthUnique(r, Numeral(Value(r)));
    }
  }

  lemma LargestIsCanonical()
    ensures CanonicalRun(Numeral(MAX_INT)) && AllDigits(Numeral(MAX_INT)) && Value(Numeral(MAX_INT)) == MAX_INT
  {
    NumeralFacts(MAX_INT);
  }

  /** The text starts with an oversized run, and not only greatest characters follow. */
  lemma OvertakenAtRun(p: string, s: string) returns (t: string)
    requires s != "" && IsDigit(s[0]) && Oversized(s[..FirstLen(s)]) && !AllTop(s[FirstLen(s)..])
    ensures Canonical(t) && t != "" && IsDigit(t[0])
    ensures Lex(CompareToken, Tokens(s), Tokens(t)) < 0 && CompareFrom(p + s, p + t, |p|, |p|) > 0
  {
    hide Value, RunLen, ByteLen, CompareToken, Lex, Tokens, CompareFrom, Numeral, CanonicalRun, Canonical, AllTop,
         Above;
    var n := FirstLen(s);
    var r, m, top := s[..n], s[n..], Numeral(MAX_INT);
    RunIsDigits(s);
    LargestIsCanonical();
    LargestHasDigits();
    RunAbove(p, r, top);
    var k := Overtake(p + r, m, p + top);
    t := top + Tops(k);
    TopsAreCanonical(k);
    assert Tops(k) != "" by { assert k > 0; }
    FirstToken(s);
    Reads(top, Tops(k));
    StepBothSides(p, s, p, t);
    At(p, s, n);
    assert t[..|top|] == top && t[|top|..] == Tops(k);
    At(p, t, |top|);
    FirstToken(t);
    SameHead(Tokens(s), Tokens(t));
  }

  /** A canonical numeral before something that is no digit. */
  lemma Reads(r: string, rest: string)
    requires AllDigits(r) && CanonicalRun(r) && Canonical(rest) && (rest != "" ==> !IsDigit(rest[0]))
    ensures Canonical(r + rest) && IsDigit((r + rest)[0]) && FirstLen(r + rest) == |r|
    ensures Tokens(r + rest) == [Num(Value(r))] + Tokens(rest)
  {
    hide Tokens, Canonical;
    LeadingRun(r, rest);
    RunLenIs(r + rest, |r|);
  }

  /** Two texts that start with the same token of the same text, and go on as the hypotheses say. */
  lemma OvertakenLater(p: string, s: string, head: string, t: string)
    requires s != "" && head == s[..FirstLen(s)] && Canonical(t) && t != "" && s[FirstLen(s)..] != ""
    requires IsDigit(t[0]) <==> IsDigit(s[FirstLen(s)..][0])
    requires IsDigit(s[0]) ==> CanonicalRun(head)
    requires Lex(CompareToken, Tokens(s[FirstLen(s)..]), Tokens(t)) < 0
    requires CompareFrom(p + head + s[FirstLen(s)..], p + head + t, |p + head|, |p + head|) > 0
    ensures Canonical(head + t) && (IsDigit((head + t)[0]) <==> IsDigit(s[0]))
    ensures Lex(CompareToken, Tokens(s), Tokens(head + t)) < 0
    ensures CompareFrom(p + s, p + (head + t), |p|, |p|) > 0
  {
    hide Value, RunLen, ByteLen, CompareToken, Lex, Tokens, CompareFrom, CanonicalRun, Canonical;
    var n, x := FirstLen(s), head + t;
    FirstToken(s);
    RunIsDigits(s);
    if IsDigit(s[0]) {
      Reads(head, t);
    } else {
      LeadingChar(s[0], t);
      assert head == [s[0]];
    }
    FirstToken(x);
    assert FirstLen(x) == n && x[..n] == head && x[n..] == t;
    StepBothSides(p, s, p, x);
    At(p, s, n);
    At(p, x, n);
    SameHead(Tokens(s), Tokens(x));
  }

  /** A disorderly text as long as its canonical form is a greater text, but a lesser sequence of tokens, than some
      canonical text. */
  lemma {:induction false} Overtaken(p: string, s: string) returns (t: string)
    requires !Orderly(s) && ByteLen(Canon(s)) == ByteLen(s)
    ensures Canonical(t) && s != "" && t != "" && (IsDigit(t[0]) <==> IsDigit(s[0]))
    ensures Lex(CompareToken, Tokens(s), Tokens(t)) < 0 && CompareFrom(p + s, p + t, |p|, |p|) > 0
    decreases |s|
  {
    assert s != "";
    hide Value, ByteLen, CompareToken, Lex, Tokens, CompareFrom, CanonicalRun, Canonical, Canon, Numeral;
    CanonLengths(s);
    RunIsDigits(s);
    var n := FirstLen(s);
    if IsDigit(s[0]) && !CanonicalRun(s[..n]) {
      DigitsAreBytes(s[..n]);
      NumeralFacts(Number(s).0);
      DigitsAreBytes(CanonHead(s));
      LongRunIsOversized(s[..n], CanonHead(s));
      t := OvertakenAtRun(p, s);
    } else {
      t := Overtaken(p + s[..n], s[n..]);
      OvertakenLater(p, s, s[..n], t);
      t := s[..n] + t;
    }
  }

  lemma OtherPadding(k: nat)
    requires k > 0
    ensures var t := "b" + Padding(k - 1); Canonical(t) && !IsDigit(t[0]) && ByteLen(t) == k
    ensures Padding(k) == "a" + Padding(k - 1)
  {
    PaddingFacts(k - 1);
    LeadingChar('b', Padding(k - 1));
    assert "b" + Padding(k - 1) == ['b'] + Padding(k - 1);
  }

  /** A text longer than its canonical form compares equal to two different canonical ones. */
  lemma TwoTies(s: string) returns (x: string, y: string)
    requires ByteLen(Canon(s)) < ByteLen(s)
    ensures Canonical(x) && Canonical(y) && x != y
    ensures CompareLowered(s, x) == 0 == CompareLowered(s, y) && CompareLowered(y, s) == 0 == CompareLowered(x, s)
  {
    hide Canonical, Canon, ByteLen, Tokens, CompareLowered;
    var k := ByteLen(s) - ByteLen(Canon(s));
    var c, a, b := Canon(s), Padding(k), "b" + Padding(k - 1);
    PaddingFacts(k);
    OtherPadding(k);
    CanonTies(s, a);
    CanonTies(s, b);
    x, y := c + a, c + b;
    assert x[|c|] == 'a' && y[|c|] == 'b';
  }

  /** Each disorderly text closes a cycle with two canonical ones: one comes strictly before the other, but not before
      the text, and the text not before the one. */
  lemma DisorderlyBreaks(s: string) returns (x: string, y: string)
    requires !Orderly(s)
    ensures Canonical(x) && Canonical(y) && CompareLowered(x, y) < 0
    ensures CompareLowered(y, s) <= 0 && CompareLowered(s, x) <= 0
  {
    hide Canonical, Canon, Orderly, ByteLen, Tokens, CompareFrom;
    CanonIsShort(s);
    if ByteLen(Canon(s)) < ByteLen(s) {
      x, y := TwoTies(s);
      TotalOnCanonical(x, y, y);
      if CompareLowered(x, y) > 0 {
        TotalOnCanonical(y, x, x);
        x, y := y, x;
      }
    } else {
      PaddingFacts(0);
      CanonTies(s, "");
      x := Canon(s) + "";
      y := Overtaken("", s);
      assert "" + s == s && "" + y == y && Padding(0) == "";
      NoTokens();
      assert Tokens(s) + [] == Tokens(s);
      CanonicalIsTokenOrder(x, y);
      FromAntisymmetric(s, y, 0, 0);
    }
  }

  ghost predicate CanonicalOr(s: string, x: string) {
    x == s || Canonical(x)
  }

  /** The comparison is transitive on the canonical texts and this one; it is antisymmetric anyway. */
  ghost predicate WeakOrderWith(s: string) {
    forall x, y, z :: CanonicalOr(s, x) && CanonicalOr(s, y) && CanonicalOr(s, z) ==>
      CompareLowered(x, y) <= 0 && CompareLowered(y, z) <= 0 ==> CompareLowered(x, z) <= 0
  }

  /** The comparison stays a weak order on the canonical texts when a text is added if and only if the text is orderly;
      for texts whose numbers fit an int, if and only if it is canonical.  With all orderly texts added it still is one
      (`WeakOnOrderly`), so these are the largest domain. */
  lemma WeakOrderIff(s: string)
    ensures WeakOrderWith(s) <==> Orderly(s)
    ensures NumbersFit(s) ==> (WeakOrderWith(s) <==> Canonical(s))
  {
    hide Canonical, Orderly, CompareLowered, NumbersFit;
    if NumbersFit(s) { OrderlyIfFits(s); }
    if Orderly(s) {
      forall x, y, z | CanonicalOr(s, x) && CanonicalOr(s, y) && CanonicalOr(s, z) && CompareLowered(x, y) <= 0
        && CompareLowered(y, z) <= 0
        ensures CompareLowered(x, z) <= 0
      {
        if x != s { CanonicalIsOrderly(x); }
        if y != s { CanonicalIsOrderly(y); }
        if z != s { CanonicalIsOrderly(z); }
        WeakOnOrderly(x, y, z);
      }
    } else {
      var x, y := DisorderlyBreaks(s);
      assert CanonicalOr(s, y) && CanonicalOr(s, s) && CanonicalOr(s, x);
      TotalOnCanonical(x, y, y);
      assert CompareLowered(y, x) > 0;
    }
  }

  // ------------------------------------------------------------------ what decides between any two texts

  lemma SplitTokens(s: string, t: string, k: nat)
    requires 0 < k <= |Tokens(s)| && k <= |Tokens(t)| && Tokens(s)[..k] == Tokens(t)[..k]
    ensures s != "" && t != "" && Tokens(s)[0] == Tokens(t)[0]
    ensures var s', t' := s[FirstLen(s)..], t[FirstLen(t)..];
            && Tokens(s') == Tokens(s)[1..] && Tokens(t') == Tokens(t)[1..]
            && Tokens(s')[..k - 1] == Tokens(t')[..k - 1]
  {
    NoTokens();
    hide Tokens, FirstLen;
    FirstToken(s);
    FirstToken(t);
    assert Tokens(s)[0] == Tokens(s)[..k][0] && Tokens(t)[0] == Tokens(t)[..k][0];
    assert Tokens(s)[1..][..k - 1] == Tokens(s)[..k][1..] && Tokens(t)[1..][..k - 1] == Tokens(t)[..k][1..];
  }

  lemma {:induction false} FromTokens(p: string, s: string, q: string, t: string, k: nat)
    requires k <= |Tokens(s)| && k <= |Tokens(t)| && Tokens(s)[..k] == Tokens(t)[..k]
    ensures var ta, tb, r := Tokens(s), Tokens(t), CompareFrom(p + s, q + t, |p|, |q|);
            && (k == |ta| || k == |tb| ==> r == CompareInt(ByteLen(p + s), ByteLen(q + t)))
            && (k < |ta| && k < |tb| && ta[k] != tb[k] ==>
                  r == if ta[k].Num? && tb[k].Num? then CompareInt(ta[k].n, tb[k].n) else Compare(p + s, q + t))
    decreases k
  {
    hide Value, RunLen, ByteLen, Tokens, CompareFrom, FirstLen, Number, Lex, Compare;
    if k > 0 {
      SplitTokens(s, t, k);
      StepBothSides(p, s, q, t);
      At(p, s, FirstLen(s));
      At(q, t, FirstLen(t));
      FromTokens(p + s[..FirstLen(s)], s[FirstLen(s)..], q + t[..FirstLen(t)], t[FirstLen(t)..], k - 1);
    } else {
      FirstTokens(p, s, q, t);
    }
  }

  lemma FirstTokens(p: string, s: string, q: string, t: string)
    ensures var ta, tb, r := Tokens(s), Tokens(t), CompareFrom(p + s, q + t, |p|, |q|);
            && (|ta| == 0 || |tb| == 0 ==> r == CompareInt(ByteLen(p + s), ByteLen(q + t)))
            && (|ta| > 0 && |tb| > 0 && ta[0] != tb[0] ==>
                  r == if ta[0].Num? && tb[0].Num? then CompareInt(ta[0].n, tb[0].n) else Compare(p + s, q + t))
  {
    hide Value, RunLen, ByteLen, Tokens, CompareFrom, Number, Lex, Compare;
    At(p, s, 0);
    At(q, t, 0);
    TokensAt(p + s, q + t, |p|, |q|, s, t);
  }

  lemma TokensAt(a: string, b: string, i: nat, j: nat, s: string, t: string)
    requires i <= |a| && j <= |b| && a[i..] == s && b[j..] == t
    ensures var ta, tb, r := Tokens(s), Tokens(t), CompareFrom(a, b, i, j);
            && (|ta| == 0 || |tb| == 0 ==> r == CompareInt(ByteLen(a), ByteLen(b)))
            && (|ta| > 0 && |tb| > 0 && ta[0] != tb[0] ==>
                  r == if ta[0].Num? && tb[0].Num? then CompareInt(ta[0].n, tb[0].n) else Compare(a, b))
  {
    hide Value, RunLen, ByteLen, Tokens, CompareFrom, Number, Lex, Compare;
    NoTokens();
    if s == "" || t == "" {
      CompareEnds(a, b, i, j);
    } else {
      FirstToken(s);
      FirstToken(t);
      if Tokens(s)[0] != Tokens(t)[0] { DifferentFirst(a, b, i, j); }
    }
  }

  /** Any two texts: the first number or character in which they differ decides.  If both are numbers, the smaller one
      comes first; otherwise the whole texts are compared byte by byte; and if one text ends before they differ, the
      shorter one comes first. */
  lemma FirstDifferenceDecides(a: string, b: string, k: nat)
    requires k <= |Tokens(a)| && k <= |Tokens(b)| && Tokens(a)[..k] == Tokens(b)[..k]
    ensures k == |Tokens(a)| || k == |Tokens(b)| ==> CompareLowered(a, b) == CompareInt(ByteLen(a), ByteLen(b))
    ensures k < |Tokens(a)| && k < |Tokens(b)| && Tokens(a)[k] != Tokens(b)[k] ==>
              CompareLowered(a, b) == if Tokens(a)[k].Num? && Tokens(b)[k].Num?
                                      then CompareInt(Tokens(a)[k].n, Tokens(b)[k].n) else Compare(a, b)
  {
    hide Tokens, CompareFrom;
    FromTokens("", a, "", b, k);
    assert "" + a == a && "" + b == b;
  }

  predicate EndsInDigit(p: string) {
    p != "" && IsDigit(p[|p| - 1])
  }

  predicate StartsWithDigit(x: string) {
    x != "" && IsDigit(x[0])
  }

  /** Cutting a text anywhere but inside a run of digits cuts its tokens. */
  lemma {:induction false} TokensOfParts(p: string, x: string)
    requires !(EndsInDigit(p) && StartsWithDigit(x))
    ensures Tokens(p + x) == Tokens(p) + Tokens(x)
    decreases |p|
  {
    if p == "" {
      assert "" + x == x;
    } else {
      hide Tokens, FirstLen;
      var n := FirstPart(p, x);
      assert p == p[..n] + p[n..] && p + x == p[..n] + (p[n..] + x);
      TokensOfParts(p[n..], x);
      FirstToken(p);
      FirstToken(p + x);
      assert (p + x)[n..] == p[n..] + x;
      TokensGrow(Tokens(p)[0], Tokens(p[n..]), Tokens(x), Tokens(p));
      assert Tokens(p + x) == [Tokens(p + x)[0]] + Tokens(p + x)[1..];
    }
  }

  lemma FirstPart(p: string, x: string) returns (n: nat)
    requires p != "" && !(EndsInDigit(p) && StartsWithDigit(x))
    ensures n == FirstLen(p) == FirstLen(p + x) && 0 < n <= |p| && Tokens(p)[0] == Tokens(p + x)[0]
    ensures !(EndsInDigit(p[n..]) && StartsWithDigit(x))
  {
    n := FirstLen(p);
    var s := p + x;
    assert s[0] == p[0];
    if IsDigit(p[0]) {
      RunIsDigits(p);
      assert n < |p| ==> s[n] == p[n];
      RunLenIs(s, n);
      assert s[..n] == p[..n];
    }
  }

  lemma TokensAround(p: string, r: string, x: string)
    requires !EndsInDigit(p) && !StartsWithDigit(x) && AllDigits(r) && r != ""
    ensures Tokens(p + r + x) == Tokens(p) + ([Num(Clamp(Value(r)))] + Tokens(x))
    ensures |Tokens(p + r + x)| > |Tokens(p)| && Tokens(p + r + x)[|Tokens(p)|] == Num(Clamp(Value(r)))
    ensures Tokens(p + r + x)[..|Tokens(p)|] == Tokens(p)
  {
    hide Tokens, Clamp, Value;
    LeadingRun(r, x);
    TokensOfParts(p, r + x);
    assert p + r + x == p + (r + x);
  }

  /** Any two names, also with padded numbers: after starts that agree, with no number cut, the smaller number comes
      first, however it is padded; a number that does not fit an `int` counts as the greatest one. */
  lemma NumbersDecide(u: Unicode, a: string, b: string, p: string, q: string, r: string, s: string, x: string,
      y: string)
    requires u.Lower(a) == p + r + x && u.Lower(b) == q + s + y && Tokens(p) == Tokens(q)
    requires !EndsInDigit(p) && !EndsInDigit(q) && !StartsWithDigit(x) && !StartsWithDigit(y)
    requires AllDigits(r) && r != "" && AllDigits(s) && s != ""
    requires Value(r) < Value(s) && Value(r) < 0x7fff_ffff_ffff_ffff
    ensures CompareNatural(u, a, b) < 0 && CompareNatural(u, b, a) > 0
  {
    hide Tokens, Value, CompareLowered;
    TokensAround(p, r, x);
    TokensAround(q, s, y);
    FirstDifferenceDecides(u.Lower(a), u.Lower(b), |Tokens(p)|);
    ReflexiveAndAntisymmetric(u, a, b);
  }

  /** After starts that agree, and numbers of one value, padded or not, or that both do not fit an `int`, different
      characters decide by the whole texts; and if the numbers are written in the same way, by themselves. */
  lemma CharactersDecide(u: Unicode, a: string, b: string, p: string, r: string, s: string, c: char, d: char,
                         x: string, y: string)
    requires u.Lower(a) == p + r + ([c] + x) && u.Lower(b) == p + s + ([d] + y) && !EndsInDigit(p)
    requires AllDigits(r) && AllDigits(s) && r != "" && s != ""
    requires Value(r) == Value(s) || (Value(r) >= 0x7fff_ffff_ffff_ffff && Value(s) >= 0x7fff_ffff_ffff_ffff)
    requires !IsDigit(c) && !IsDigit(d) && c != d
    ensures CompareNatural(u, a, b) == Compare(u.Lower(a), u.Lower(b))
    ensures r == s ==> (CompareNatural(u, a, b) < 0 <==> c < d)
  {
    hide Tokens, Value, CompareLowered;
    TokensAround(p, r, [c] + x);
    TokensAround(p, s, [d] + y);
    LeadingChar(c, x);
    LeadingChar(d, y);
    var k := |Tokens(p)| + 1;
    AfterNumber(Tokens(p), Num(Clamp(Value(r))), Chr(c), Tokens(x), Tokens(u.Lower(a)));
    AfterNumber(Tokens(p), Num(Clamp(Value(s))), Chr(d), Tokens(y), Tokens(u.Lower(b)));
    FirstDifferenceDecides(u.Lower(a), u.Lower(b), k);
    if r == s { CompareAfterPrefix(p + r, [c] + x, [d] + y); }
  }

  lemma AfterNumber(tp: seq<Token>, n: Token, c: Token, rest: seq<Token>, all: seq<Token>)
    requires all == tp + ([n] + ([c] + rest))
    ensures |all| > |tp| + 1 && all[|tp| + 1] == c && all[..|tp| + 1] == tp + [n]
  {}

  /** The first character in which two texts without digits differ decides. */
  lemma PlainTextsCompareByBytes(u: Unicode, a: string, b: string)
    requires forall c :: c in u.Lower(a) || c in u.Lower(b) ==> !IsDigit(c)
    ensures CompareNatural(u, a, b) < 0 <==> Compare(u.Lower(a), u.Lower(b)) < 0
    ensures CompareNatural(u, a, b) == 0 <==> u.Lower(a) == u.Lower(b)
  {
    var x, y := u.Lower(a), u.Lower(b);
    NoDigitsCanonical(x);
    NoDigitsCanonical(y);
    CanonicalIsTokenOrder(x, y);
    LexOfChars(x, y);
    CharsAreOrdered();
    LexZero(CompareChar, x, y);
  }

  lemma {:induction false} NoDigitsCanonical(s: string)
    requires forall c :: c in s ==> !IsDigit(c)
    ensures Canonical(s)
  {
    if s != "" { NoDigitsCanonical(s[1..]); }
  }

  lemma {:induction false} LexOfChars(s: string, t: string)
    requires (forall c :: c in s ==> !IsDigit(c)) && (forall c :: c in t ==> !IsDigit(c))
    ensures Lex(CompareToken, Tokens(s), Tokens(t)) == Compare(s, t)
  {
    if s != "" && t != "" {
      LexOfChars(s[1..], t[1..]);
      assert Tokens(s)[1..] == Tokens(s[1..]) && Tokens(t)[1..] == Tokens(t[1..]);
    }
  }

  /** Leading zeros do not change the value of a number. */
  lemma {:induction false} PaddingKeepsValue(r: string)
    ensures Value("0" + r) == Value(r)
  {
    if r == "" {
      ValueOne('0');
      assert "0" + "" == "0";
    } else {
      var i, c := r[..|r| - 1], r[|r| - 1];
      PaddingKeepsValue(i);
      assert r == i + [c] && "0" + r == ("0" + i) + [c];
      ValueSnoc("0" + i, c);
      ValueSnoc(i, c);
    }
  }

  // ------------------------------------------------------------------ names with one way of padding

  /** As long as their numbers and characters agree, the texts agree: numbers of one value are written in the same
      way. */
  predicate SpelledAlike(s: string, t: string)
    decreases |s|
  {
    s == "" || t == "" || Tokens(s)[0] != Tokens(t)[0] ||
    (s[..FirstLen(s)] == t[..FirstLen(t)] && SpelledAlike(s[FirstLen(s)..], t[FirstLen(t)..]))
  }

  lemma AlikeStep(s: string, t: string)
    requires s != "" && t != "" && SpelledAlike(s, t) && Tokens(s)[0] == Tokens(t)[0]
    ensures FirstLen(s) == FirstLen(t) && s[..FirstLen(s)] == t[..FirstLen(t)]
    ensures SpelledAlike(s[FirstLen(s)..], t[FirstLen(t)..])
  {
    hide Tokens, FirstLen;
    assert |s[..FirstLen(s)]| == FirstLen(s) && |t[..FirstLen(t)]| == FirstLen(t);
  }

  lemma {:induction false} FromAlike(p: string, s: string, t: string)
    requires SpelledAlike(s, t)
    ensures CompareFrom(p + s, p + t, |p|, |p|) == Lex(CompareToken, Tokens(s), Tokens(t))
    decreases |s|
  {
    hide Value, RunLen, ByteLen, CompareToken, SpelledAlike, Number, Clamp;
    CompareAfterPrefix(p, s, t);
    if s == "" || t == "" {
      EmptyIsLeast(s, t);
    } else {
      FirstToken(s);
      FirstToken(t);
      var n := FirstLen(s);
      At(p, s, n);
      At(p, t, FirstLen(t));
      if Tokens(s)[0] != Tokens(t)[0] {
        DifferentFirst(p + s, p + t, |p|, |p|);
        FirstDecides(s, t);
      } else {
        AlikeStep(s, t);
        FromAlike(p + s[..n], s[n..], t[n..]);
        SameFirstStep(p + s, p + t, |p|, |p|);
        TokensAreOrdered();
      }
    }
  }

  lemma {:induction false} AlikeIsEqual(s: string, t: string)
    requires SpelledAlike(s, t) && Tokens(s) == Tokens(t)
    ensures s == t
    decreases |s|
  {
    hide Value, RunLen, SpelledAlike;
    NoTokens();
    if s != "" {
      FirstToken(s);
    }
    if t != "" {
      FirstToken(t);
    }
    if s != "" && t != "" {
      AlikeStep(s, t);
      var n := FirstLen(s);
      AlikeIsEqual(s[n..], t[n..]);
      assert s == s[..n] + s[n..] && t == t[..n] + t[n..];
    }
  }

  lemma {:induction false} AlikeIsSymmetric(s: string, t: string)
    requires SpelledAlike(s, t)
    ensures SpelledAlike(t, s)
    decreases |s|
  {
    hide Tokens, FirstLen;
    if s != "" { FirstToken(s); }
    if t != "" { FirstToken(t); }
    if s != "" && t != "" && Tokens(s)[0] == Tokens(t)[0] {
      AlikeIsSymmetric(s[FirstLen(s)..], t[FirstLen(t)..]);
    }
  }

  /** Also texts with padded numbers compare like their tokens, and only equal ones tie, if numbers of one value are
      written in the same way in both; so they do in any set of such texts, which the comparison puts in order. */
  lemma AlikeIsTokenOrder(a: string, b: string)
    requires SpelledAlike(a, b)
    ensures CompareLowered(a, b) == Lex(CompareToken, Tokens(a), Tokens(b))
    ensures CompareLowered(a, b) == 0 <==> a == b
  {
    hide CompareFrom, Lex, Tokens;
    assert "" + a == a && "" + b == b;
    FromAlike("", a, b);
    TokensAreOrdered();
    LexZero(CompareToken, Tokens(a), Tokens(b));
    if Tokens(a) == Tokens(b) { AlikeIsEqual(a, b); }
  }

  lemma WeakOnAlike(a: string, b: string, c: string)
    requires SpelledAlike(a, b) && SpelledAlike(b, c) && SpelledAlike(a, c)
    ensures CompareLowered(a, b) < 0 <==> CompareLowered(b, a) > 0
    ensures CompareLowered(a, b) <= 0 && CompareLowered(b, c) <= 0 ==> CompareLowered(a, c) <= 0
  {
    hide CompareFrom, Lex, Tokens, SpelledAlike;
    FromAntisymmetric(a, b, 0, 0);
    AlikeIsTokenOrder(a, b);
    AlikeIsTokenOrder(b, c);
    AlikeIsTokenOrder(a, c);
    TokensAreOrdered();
    if CompareLowered(a, b) <= 0 && CompareLowered(b, c) <= 0 {
      LexTransitive(CompareToken, Tokens(a), Tokens(b), Tokens(c));
    }
  }

  /** Canonical texts are written in one way. */
  lemma {:induction false} CanonicalsAreAlike(s: string, t: string)
    requires Canonical(s) && Canonical(t)
    ensures SpelledAlike(s, t)
    decreases |s|
  {
    hide Tokens, Canonical, FirstLen;
    if s != "" { FirstToken(s); }
    if t != "" { FirstToken(t); }
    if s != "" && t != "" && Tokens(s)[0] == Tokens(t)[0] {
      SameFirst(s, t);
      CanonicalTail(s);
      CanonicalTail(t);
      CanonicalsAreAlike(s[FirstLen(s)..], t[FirstLen(t)..]);
    }
  }
}
