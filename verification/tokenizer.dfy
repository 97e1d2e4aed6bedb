/** The tokenizer: a few typographic UTF-8 characters are first replaced by a
    space, then the text is cut into maximal runs of bytes that are not ASCII
    separators. Only tokens longer than one byte reach the output file, each
    followed by a space. */
module Tokenizer {
  import opened ByteStrings
  import opened Wrappers
  import Text

  /** The characters of is_ascii_separator: space \n \t \r . , ! ? : ; ( ) [ ] { } " ' ` < > / | \ - = + _ ~ @ # $ % ^ & * */
  const Separators: set<Byte> := {
    32, 10, 9, 13, 46, 44, 33, 63, 58, 59, 40, 41, 91, 93, 123, 125, 34, 39,
    96, 60, 62, 47, 124, 92, 45, 61, 43, 95, 126, 64, 35, 36, 37, 94, 38, 42
  }

  /** is_ascii_separator */
  predicate IsAsciiSeparator(b: Byte) {
    b in Separators
  }

  /** No byte of a multi-byte UTF-8 sequence (0x80 and above) separates, so
      Cyrillic letters always stay inside tokens. */
  lemma SeparatorsAreAscii(b: Byte)
    ensures IsAsciiSeparator(b) ==> b < 0x80
    ensures IsAsciiSeparator(b) ==> b != 0 && b != 11 && b != 12
  {
  }

  /** The replaced characters, in the order tokenize applies them: em dash,
      left and right guillemets, ellipsis, en dash, left and right double
      quotation marks. Each is replaced by one space. */
  const Replacements: seq<Bytes> := [
    [0xE2, 0x80, 0x94],
    [0xC2, 0xAB],
    [0xC2, 0xBB],
    [0xE2, 0x80, 0xA6],
    [0xE2, 0x80, 0x93],
    [0xE2, 0x80, 0x9C],
    [0xE2, 0x80, 0x9D]
  ]

  predicate OccursAt(s: Bytes, pat: Bytes, p: nat) {
    p + |pat| <= |s| && s[p..p + |pat|] == pat
  }

  /** std::string::find(pat, start): the leftmost occurrence at or after start */
  function FindFrom(s: Bytes, pat: Bytes, start: nat): (r: Option<nat>)
    ensures r.Some? ==> start <= r.value && OccursAt(s, pat, r.value)
    ensures r.Some? ==> forall q :: start <= q < r.value ==> !OccursAt(s, pat, q)
    ensures r.None? ==> forall q :: start <= q ==> !OccursAt(s, pat, q)
    decreases |s| - start
  {
    if start + |pat| > |s| then None
    else if OccursAt(s, pat, start) then Some(start)
    else FindFrom(s, pat, start + 1)
  }

  /** Reference meaning of replace_all for a non-empty pattern: scanning left
      to right, each occurrence of `from` is replaced by `to` and the scan
      resumes after the replaced occurrence, so overlapping occurrences and
      occurrences inside inserted text are not replaced. */
  function Replaced(s: Bytes, from: Bytes, to: Bytes): Bytes
    requires |from| > 0
    decreases |s|
  {
    if |s| < |from| then s
    else if s[..|from|] == from then to + Replaced(s[|from|..], from, to)
    else [s[0]] + Replaced(s[1..], from, to)
  }

  /** replace_all, including its early return for an empty pattern */
  function Replacement(s: Bytes, from: Bytes, to: Bytes): Bytes {
    if |from| == 0 then s else Replaced(s, from, to)
  }

  lemma ReplacedMatch(s: Bytes, from: Bytes, to: Bytes)
    requires |from| > 0 && OccursAt(s, from, 0)
    ensures Replaced(s, from, to) == to + Replaced(s[|from|..], from, to)
  {
    assert s[0..|from|] == s[..|from|];
  }

  lemma ReplacedNoMatch(s: Bytes, from: Bytes, to: Bytes)
    requires |from| > 0 && |s| > 0 && !OccursAt(s, from, 0)
    ensures Replaced(s, from, to) == if |s| < |from| then s else [s[0]] + Replaced(s[1..], from, to)
  {
    if |s| >= |from| {
      assert s[0..|from|] == s[..|from|];
    }
  }

  lemma ReplacedSkip(s: Bytes, from: Bytes, to: Bytes)
    requires 0 < |from| < |s| && !OccursAt(s, from, 0)
    ensures Replaced(s, from, to) == [s[0]] + Replaced(s[1..], from, to)
  {
    assert s[0..|from|] == s[..|from|];
  }

  lemma OccursInTail(s: Bytes, pat: Bytes, q: nat)
    requires |s| > 0
    ensures OccursAt(s[1..], pat, q) == OccursAt(s, pat, q + 1)
  {
    if q + 1 + |pat| <= |s| {
      assert s[1..][q..q + |pat|] == s[q + 1..q + 1 + |pat|];
    }
  }

  lemma {:induction false} ReplacedWithoutOccurrence(s: Bytes, from: Bytes, to: Bytes)
    requires |from| > 0
    requires forall q: nat :: !OccursAt(s, from, q)
    ensures Replaced(s, from, to) == s
    decreases |s|
  {
    if |s| > 0 {
      assert !OccursAt(s, from, 0);
      ReplacedNoMatch(s, from, to);
      if |s| >= |from| {
        forall q: nat ensures !OccursAt(s[1..], from, q) {
          OccursInTail(s, from, q);
        }
        ReplacedWithoutOccurrence(s[1..], from, to);
        assert s == [s[0]] + s[1..];
      }
    }
  }

  lemma {:induction false} ReplacedAtFirstOccurrence(s: Bytes, from: Bytes, to: Bytes, q: nat)
    requires |from| > 0
    requires OccursAt(s, from, q)
    requires forall p: nat :: p < q ==> !OccursAt(s, from, p)
    ensures Replaced(s, from, to) == s[..q] + to + Replaced(s[q + |from|..], from, to)
    decreases q
  {
    if q == 0 {
      ReplacedMatch(s, from, to);
    } else {
      var t := s[1..];
      var k: nat := q - 1;
      var after := s[q + |from|..];
      assert t[k + |from|..] == after;
      var tail := Replaced(after, from, to);
      FirstOccurrenceInTail(s, from, q);
      ReplacedSkip(s, from, to);
      ReplacedAtFirstOccurrence(t, from, to, k);
      PrependHead(s, t[..k], to, tail);
    }
  }

  lemma FirstOccurrenceInTail(s: Bytes, from: Bytes, q: nat)
    requires 0 < q && OccursAt(s, from, q)
    requires forall p: nat :: p < q ==> !OccursAt(s, from, p)
    ensures !OccursAt(s, from, 0)
    ensures OccursAt(s[1..], from, q - 1)
    ensures forall p: nat :: p < q - 1 ==> !OccursAt(s[1..], from, p)
  {
    OccursInTail(s, from, q - 1);
    forall p: nat | p < q - 1 ensures !OccursAt(s[1..], from, p) {
      OccursInTail(s, from, p);
    }
  }

  lemma PrependHead(s: Bytes, x: Bytes, to: Bytes, y: Bytes)
    requires |s| > 0 && |x| < |s| && x == s[1..|x| + 1]
    ensures [s[0]] + (x + to + y) == s[..|x| + 1] + to + y
  {
    assert s[..|x| + 1] == [s[0]] + x;
  }

  /** The first occurrence found from |done| in done + rest is the first
      occurrence in rest */
  lemma FirstOccurrenceInRest(done: Bytes, rest: Bytes, from: Bytes, q: nat)
    requires OccursAt(done + rest, from, |done| + q)
    requires forall k: nat :: |done| <= k < |done| + q ==> !OccursAt(done + rest, from, k)
    ensures OccursAt(rest, from, q)
    ensures forall k: nat :: k < q ==> !OccursAt(rest, from, k)
  {
    OccursAfterPrefix(done, rest, from, q);
    forall k: nat | k < q ensures !OccursAt(rest, from, k) {
      OccursAfterPrefix(done, rest, from, k);
    }
  }

  lemma Splice(r: Bytes, done: Bytes, rest: Bytes, to: Bytes, p: nat, n: nat)
    requires r == done + rest && |done| <= p && p + n <= |r|
    ensures r[..p] + to + r[p + n..] == (done + rest[..p - |done|] + to) + rest[p - |done| + n..]
  {
    assert r[..p] == done + rest[..p - |done|];
    assert r[p + n..] == rest[p - |done| + n..];
  }

  lemma OccursAfterPrefix(done: Bytes, rest: Bytes, pat: Bytes, q: nat)
    ensures OccursAt(done + rest, pat, |done| + q) == OccursAt(rest, pat, q)
  {
    if q + |pat| <= |rest| {
      assert (done + rest)[|done| + q..|done| + q + |pat|] == rest[q..q + |pat|];
    }
  }

  /** One round of replace_all: the occurrence found from |done| is the first
      one in rest, so the replacement of rest starts with the bytes before it,
      then `to`. */
  lemma ReplaceStep(done: Bytes, rest: Bytes, from: Bytes, to: Bytes, p: nat)
    requires |from| > 0
    requires |done| <= p && OccursAt(done + rest, from, p)
    requires forall k: nat :: |done| <= k < p ==> !OccursAt(done + rest, from, k)
    ensures p + |from| <= |done| + |rest|
    ensures done + Replaced(rest, from, to)
      == (done + rest[..p - |done|] + to) + Replaced(rest[p - |done| + |from|..], from, to)
  {
    var q: nat := p - |done|;
    FirstOccurrenceInRest(done, rest, from, q);
    ReplacedAtFirstOccurrence(rest, from, to, q);
    Regroup(done, rest[..q], to, Replaced(rest[q + |from|..], from, to));
  }

  lemma Regroup(a: Bytes, b: Bytes, c: Bytes, d: Bytes)
    ensures a + (b + c + d) == (a + b + c) + d
  {
  }

  /** No occurrence from |done| on: the rest is left as it is */
  lemma ReplaceDone(done: Bytes, rest: Bytes, from: Bytes, to: Bytes)
    requires |from| > 0
    requires forall k: nat :: |done| <= k ==> !OccursAt(done + rest, from, k)
    ensures Replaced(rest, from, to) == rest
  {
    forall q: nat ensures !OccursAt(rest, from, q) {
      OccursAfterPrefix(done, rest, from, q);
    }
    ReplacedWithoutOccurrence(rest, from, to);
  }

  /** The finished and pending parts after one round of replace_all */
  lemma Advance(r: Bytes, done: Bytes, rest: Bytes, from: Bytes, to: Bytes, p: nat)
    returns (done': Bytes, rest': Bytes)
    requires |from| > 0 && r == done + rest
    requires |done| <= p && OccursAt(r, from, p)
    requires forall k: nat :: |done| <= k < p ==> !OccursAt(r, from, k)
    ensures p + |from| <= |r|
    ensures r[..p] + to + r[p + |from|..] == done' + rest'
    ensures |done'| == p + |to| && |rest'| < |rest|
    ensures done + Replaced(rest, from, to) == done' + Replaced(rest', from, to)
  {
    ReplaceStep(done, rest, from, to, p);
    Splice(r, done, rest, to, p, |from|);
    done' := done + rest[..p - |done|] + to;
    rest' := rest[p - |done| + |from|..];
  }

  /** replace_all as written: find the next occurrence from start_pos, splice
      `to` in its place, and continue after the inserted text. */
  method ReplaceAll(str: Bytes, from: Bytes, to: Bytes) returns (r: Bytes)
    ensures r == Replacement(str, from, to)
  {
    r := str;
    if |from| == 0 {
      return;
    }
    var start := 0;
    ghost var done: Bytes := [];
    ghost var rest := str;
    while true
      invariant r == done + rest && start == |done|
      invariant Replaced(str, from, to) == done + Replaced(rest, from, to)
      decreases |rest|
    {
      var found := FindFrom(r, from, start);
      if found.None? {
        ReplaceDone(done, rest, from, to);
        return;
      }
      var p := found.value;
      done, rest := Advance(r, done, rest, from, to, p);
      r := r[..p] + to + r[p + |from|..];
      start := p + |to|;
    }
  }

  /** The replacements of tokenize, applied in order */
  function ReplaceEach(text: Bytes, froms: seq<Bytes>): Bytes
    decreases |froms|
  {
    if |froms| == 0 then text
    else ReplaceEach(Replacement(text, froms[0], [SPACE]), froms[1..])
  }

  lemma ReplaceEachStep(text: Bytes, froms: seq<Bytes>, k: nat)
    requires k < |froms|
    ensures ReplaceEach(text, froms[..k + 1]) == Replacement(ReplaceEach(text, froms[..k]), froms[k], [SPACE])
    decreases k
  {
    if k > 0 {
      assert froms[..k + 1][1..] == froms[1..][..k];
      assert froms[..k][1..] == froms[1..][..k - 1];
      ReplaceEachStep(Replacement(text, froms[0], [SPACE]), froms[1..], k - 1);
    }
  }

  /** The text after the replacement pass of tokenize */
  function Normalize(text: Bytes): Bytes {
    ReplaceEach(text, Replacements)
  }

  /** The seven replace_all calls at the start of tokenize */
  method ApplyReplacements(input: Bytes) returns (text: Bytes)
    ensures text == Normalize(input)
  {
    text := input;
    var k := 0;
    while k < |Replacements|
      invariant 0 <= k <= |Replacements|
      invariant text == ReplaceEach(input, Replacements[..k])
    {
      ReplaceEachStep(input, Replacements, k);
      text := ReplaceAll(text, Replacements[k], [SPACE]);
      k := k + 1;
    }
    assert Replacements[..k] == Replacements;
  }

  /** A separator with no pending token is skipped */
  lemma ScanSeparatorIdle(tokens: seq<Bytes>, text: Bytes, i: nat, whole: seq<Bytes>, isSep: Byte -> bool)
    requires i < |text| && isSep(text[i])
    requires tokens + Text.Split([] + text[i..], isSep) == whole
    ensures tokens + Text.Split([] + text[i + 1..], isSep) == whole
  {
    assert [] + text[i..] == text[i..] && [] + text[i + 1..] == text[i + 1..];
    assert text[i..][1..] == text[i + 1..];
    Text.SplitDropSep(text[i..], isSep);
  }

  /** A separator after a pending token emits the token */
  lemma ScanSeparatorFlush(tokens: seq<Bytes>, current: Bytes, text: Bytes, i: nat, whole: seq<Bytes>, isSep: Byte -> bool)
    requires i < |text| && isSep(text[i]) && Text.SepFree(current, isSep) && current != []
    requires tokens + Text.Split(current + text[i..], isSep) == whole
    ensures (tokens + [current]) + Text.Split([] + text[i + 1..], isSep) == whole
  {
    var rest, after := text[i..], text[i + 1..];
    var later := Text.Split(after, isSep);
    assert rest[1..] == after && [] + after == after;
    Text.SplitAtSep(current, rest, isSep);
    AppendAssoc(tokens, [current], later);
  }

  /** Any other byte extends the pending token */
  lemma ScanOther(tokens: seq<Bytes>, current: Bytes, text: Bytes, i: nat, whole: seq<Bytes>, isSep: Byte -> bool)
    requires i < |text| && !isSep(text[i]) && Text.SepFree(current, isSep)
    requires tokens + Text.Split(current + text[i..], isSep) == whole
    ensures Text.SepFree(current + [text[i]], isSep)
    ensures tokens + Text.Split((current + [text[i]]) + text[i + 1..], isSep) == whole
  {
    var rest := text[i..];
    assert rest[0] == text[i] && rest[1..] == text[i + 1..];
    HeadTail(rest);
    AppendAssoc(current, [text[i]], text[i + 1..]);
  }

  /** At the end of the text the pending token, when non-empty, is the last */
  lemma ScanEnd(tokens: seq<Bytes>, current: Bytes, text: Bytes, whole: seq<Bytes>, isSep: Byte -> bool)
    requires Text.SepFree(current, isSep)
    requires tokens + Text.Split(current + text[|text|..], isSep) == whole
    ensures (if current == [] then tokens else tokens + [current]) == whole
  {
    Text.SplitRun(current, [], isSep);
    assert current + text[|text|..] == current + [] == current;
  }

  /** The scan of tokenize: grow the current token on non-separators, flush
      it on a separator and at the end when it is non-empty. The separator
      test is a parameter; tokenize passes is_ascii_separator. */
  method SplitTokens(text: Bytes, isSep: Byte -> bool) returns (tokens: seq<Bytes>)
    ensures tokens == Text.Split(text, isSep)
  {
    tokens := [];
    var current: Bytes := [];
    var i := 0;
    ghost var whole := Text.Split(text, isSep);
    assert current + text[i..] == text;
    while i < |text|
      invariant 0 <= i <= |text|
      invariant Text.SepFree(current, isSep)
      invariant tokens + Text.Split(current + text[i..], isSep) == whole
    {
      var c := text[i];
      if isSep(c) {
        if current == [] {
          ScanSeparatorIdle(tokens, text, i, whole, isSep);
        } else {
          ScanSeparatorFlush(tokens, current, text, i, whole, isSep);
          tokens := tokens + [current];
          current := [];
        }
      } else {
        ScanOther(tokens, current, text, i, whole, isSep);
        current := current + [c];
      }
      i := i + 1;
    }
    ScanEnd(tokens, current, text, whole, isSep);
    if |current| > 0 {
      tokens := tokens + [current];
    }
  }

  /** tokenize */
  method Tokenize(input: Bytes) returns (tokens: seq<Bytes>)
    ensures tokens == Text.Split(Normalize(input), IsAsciiSeparator)
    ensures forall k :: 0 <= k < |tokens| ==> |tokens[k]| > 0
    ensures forall k :: 0 <= k < |tokens| ==> Text.SepFree(tokens[k], IsAsciiSeparator)
    ensures Concat(tokens) == Text.RemoveSeps(Normalize(input), IsAsciiSeparator)
  {
    var text := ApplyReplacements(input);
    tokens := SplitTokens(text, IsAsciiSeparator);
    Text.SplitKeepsContent(text, IsAsciiSeparator);
  }

  /** The tokens tokenizer.cpp writes: only those longer than one byte, so a
      one-letter Cyrillic word (two bytes) is kept. */
  function WrittenTokens(tokens: seq<Bytes>): (r: seq<Bytes>)
    ensures forall t :: t in r <==> t in tokens && |t| > 1
    ensures InOrder(r, tokens)
    ensures |r| <= |tokens|
  {
    if |tokens| == 0 then []
    else
      var keep := |tokens[0]| > 1;
      var later := WrittenTokens(tokens[1..]);
      InOrderCons(tokens[0], later, tokens[1..], keep);
      (if keep then [tokens[0]] else []) + later
  }

  /** Every long token is written as often as it occurs, a short one never:
      repeats are kept for the counting stage. */
  lemma {:induction false} WrittenTokensCount(tokens: seq<Bytes>, t: Bytes)
    ensures multiset(WrittenTokens(tokens))[t] == if |t| > 1 then multiset(tokens)[t] else 0
    decreases |tokens|
  {
    if |tokens| > 0 {
      var head: seq<Bytes> := if |tokens[0]| > 1 then [tokens[0]] else [];
      var later := WrittenTokens(tokens[1..]);
      WrittenTokensCount(tokens[1..], t);
      assert tokens == [tokens[0]] + tokens[1..];
      assert multiset(tokens)[t] == multiset([tokens[0]])[t] + multiset(tokens[1..])[t];
      assert WrittenTokens(tokens) == head + later;
      assert multiset(head + later)[t] == multiset(head)[t] + multiset(later)[t];
    }
  }

  /** r is a subsequence of s: its elements occur in s in the same order */
  predicate InOrder<T(==)>(r: seq<T>, s: seq<T>)
    decreases |s|
  {
    if |s| == 0 then |r| == 0
    else (|r| > 0 && r[0] == s[0] && InOrder(r[1..], s[1..])) || InOrder(r, s[1..])
  }

  /** Putting an element in front of s keeps r a subsequence, with or without
      the element put in front of r too. */
  lemma InOrderCons<T>(x: T, r: seq<T>, s: seq<T>, keep: bool)
    requires InOrder(r, s)
    ensures InOrder((if keep then [x] else []) + r, [x] + s)
  {
    var s' := [x] + s;
    assert s'[0] == x && s'[1..] == s;
    if keep {
      var r' := [x] + r;
      assert r'[0] == x && r'[1..] == r;
    } else {
      assert [] + r == r;
    }
  }

  /** The filter distributes over concatenation: the tokens written for two
      stretches of text are those of the first, then those of the second. */
  lemma {:induction false} WrittenTokensAppend(a: seq<Bytes>, b: seq<Bytes>)
    ensures WrittenTokens(a + b) == WrittenTokens(a) + WrittenTokens(b)
    decreases |a|
  {
    if |a| == 0 {
      assert a + b == b;
    } else {
      assert (a + b)[0] == a[0] && (a + b)[1..] == a[1..] + b;
      WrittenTokensAppend(a[1..], b);
    }
  }

  /** The output file: each written token followed by one space */
  function TokenFile(tokens: seq<Bytes>): Bytes {
    if |tokens| == 0 then [] else tokens[0] + [SPACE] + TokenFile(tokens[1..])
  }

  /** The next stage reads the file back with `>>`, which splits at C
      whitespace. The tokens come back unchanged when none holds a whitespace
      byte; \v (11) and \f (12) are whitespace there but not separators of
      the tokenizer, so a token holding one is read as two words. */
  lemma {:induction false} TokenFileWords(tokens: seq<Bytes>)
    requires forall k :: 0 <= k < |tokens| ==> |tokens[k]| > 0 && Text.SepFree(tokens[k], IsSpace)
    ensures Text.Words(TokenFile(tokens)) == tokens
  {
    if |tokens| > 0 {
      var first, more := tokens[0], tokens[1..];
      var rest := [SPACE] + TokenFile(more);
      assert TokenFile(tokens) == first + rest;
      assert rest[1..] == TokenFile(more);
      Text.SplitAtSep(first, rest, IsSpace);
      TokenFileWords(more);
      HeadTail(tokens);
    }
  }
}
