/** The frequency counter of zipf_counter.cpp: all words of the stemmed files
    are collected, sorted, counted by walking runs of equal words, ranked by
    descending count and written as CSV rows `rank,word,frequency`. */
module Zipf {
  import opened ByteStrings
  import opened Text
  import opened Decimal
  import opened Wrappers
  import Sorting
  import IndexFile

  /** One CSV record: a distinct word and its number of occurrences */
  datatype TermStats = TermStats(word: Bytes, count: int)

  /** compareFreq: a strictly higher count orders first */
  predicate CompareFreq(a: TermStats, b: TermStats) {
    a.count > b.count
  }

  /** "a may stand before b" once std::sort with compareFreq has run */
  predicate FreqLe(a: TermStats, b: TermStats) {
    !CompareFreq(b, a)
  }

  lemma FreqOrder()
    ensures Sorting.TotalPreorder(FreqLe)
  {
  }

  /** compareFreq ties records with equal counts, so the order it asks for
      does not decide between them: two different orders of the same records
      both satisfy it. */
  lemma FrequencyOrderNotUnique()
    ensures !Sorting.Antisymmetric(FreqLe)
    ensures var a, b := TermStats([97], 1), TermStats([98], 1);
      && Sorting.SortedBy([a, b], FreqLe) && Sorting.SortedBy([b, a], FreqLe)
      && multiset([a, b]) == multiset([b, a]) && [a, b] != [b, a]
  {
    var a, b := TermStats([97], 1), TermStats([98], 1);
    assert FreqLe(a, b) && FreqLe(b, a) && a != b;
    assert [a, b][0] != [b, a][0];
  }

  /** `if (word.length() > 0)`: the words kept from one file */
  function NonEmpty(ws: seq<Bytes>): (r: seq<Bytes>)
    ensures |r| <= |ws|
    ensures forall k :: 0 <= k < |r| ==> |r[k]| > 0 && r[k] in ws
  {
    if |ws| == 0 then []
    else (if |ws[0]| > 0 then [ws[0]] else []) + NonEmpty(ws[1..])
  }

  /** `>>` never extracts an empty word, so the length filter drops nothing */
  lemma {:induction false} NonEmptyKeepsWords(ws: seq<Bytes>)
    requires forall k :: 0 <= k < |ws| ==> |ws[k]| > 0
    ensures NonEmpty(ws) == ws
  {
    if |ws| > 0 {
      NonEmptyKeepsWords(ws[1..]);
      HeadTail(ws);
    }
  }

  /** The words of all files, file after file, in the order the directory
      listing gives them */
  function LoadWords(files: seq<Bytes>): (r: seq<Bytes>)
    ensures forall k :: 0 <= k < |r| ==> |r[k]| > 0 && SepFree(r[k], IsSpace)
  {
    if |files| == 0 then []
    else LoadWords(files[..|files| - 1]) + NonEmpty(Words(files[|files| - 1]))
  }

  /** The order `sort(all_words)` establishes: std::string's operator< */
  predicate WordLe(a: Bytes, b: Bytes) {
    !Less(b, a)
  }

  lemma WordOrder()
    ensures Sorting.TotalPreorder(WordLe)
    ensures Sorting.Antisymmetric(WordLe)
  {
    forall a, b, c
      ensures WordLe(a, b) || WordLe(b, a)
      ensures WordLe(a, b) && WordLe(b, c) ==> WordLe(a, c)
      ensures WordLe(a, b) && WordLe(b, a) ==> a == b
    {
      LessAsymmetric(a, b);
      LessTotal(a, b);
      if Less(c, a) {
        LessTotal(c, b);
        if Less(b, c) {
          LessTransitive(b, c, a);
        }
      }
    }
  }

  function SortWords(ws: seq<Bytes>): (r: seq<Bytes>)
    ensures Sorting.SortedBy(r, WordLe)
    ensures multiset(r) == multiset(ws)
  {
    WordOrder();
    Sorting.InsertionSort(ws, WordLe)
  }

  /** Every record counts at least one occurrence */
  predicate Positive(r: seq<TermStats>) {
    forall k :: 0 <= k < |r| ==> r[k].count >= 1
  }

  /** Neighbouring records never share a word */
  predicate AdjacentDistinct(r: seq<TermStats>) {
    forall k :: 0 <= k < |r| - 1 ==> r[k].word != r[k + 1].word
  }

  /** One step of the counting walk: a word equal to the last record's word
      bumps its count, any other word starts a new record with count 1. */
  function Bump(g: seq<TermStats>, w: Bytes): (r: seq<TermStats>)
    requires |g| > 0
    ensures |r| > 0 && r[|r| - 1].word == w && |r| <= |g| + 1
    ensures Positive(g) ==> Positive(r)
    ensures AdjacentDistinct(g) ==> AdjacentDistinct(r)
  {
    var last := g[|g| - 1];
    if w == last.word then g[..|g| - 1] + [TermStats(w, last.count + 1)]
    else g + [TermStats(w, 1)]
  }

  /** The records the walk over a word list produces */
  function Runs(s: seq<Bytes>): (r: seq<TermStats>)
    ensures |r| == 0 <==> |s| == 0
    ensures |r| <= |s|
    ensures |s| > 0 ==> r[|r| - 1].word == s[|s| - 1]
    ensures Positive(r) && AdjacentDistinct(r)
    decreases |s|
  {
    if |s| == 0 then []
    else if |s| == 1 then [TermStats(s[0], 1)]
    else Bump(Runs(s[..|s| - 1]), s[|s| - 1])
  }

  lemma RunsSnoc(s: seq<Bytes>, w: Bytes)
    requires |s| > 0
    ensures Runs(s + [w]) == Bump(Runs(s), w)
  {
    var t := s + [w];
    assert t[..|t| - 1] == s && t[|t| - 1] == w;
  }

  /** The walk of the counting loop from word i on, with g the records of
      the words before i */
  function RunsFrom(s: seq<Bytes>, i: nat, g: seq<TermStats>): seq<TermStats>
    requires 0 < i <= |s| && |g| > 0
    decreases |s| - i
  {
    if i == |s| then g else RunsFrom(s, i + 1, Bump(g, s[i]))
  }

  /** Walking the rest of the words from the records of a prefix gives the
      records of all of them */
  lemma {:induction false} RunsFromPrefix(s: seq<Bytes>, i: nat, g: seq<TermStats>)
    requires 0 < i <= |s| && g == Runs(s[..i])
    ensures |g| > 0 && RunsFrom(s, i, g) == Runs(s)
    decreases |s| - i
  {
    if i == |s| {
      assert s[..i] == s;
    } else {
      assert s[..i + 1] == s[..i] + [s[i]];
      RunsSnoc(s[..i], s[i]);
      RunsFromPrefix(s, i + 1, Bump(g, s[i]));
    }
  }

  /** Bumping with the word of the open record counts it once more;
      any other word closes the record and opens a new one */
  lemma BumpOpen(freq: seq<TermStats>, w: Bytes, current: int, x: Bytes)
    ensures x == w ==> Bump(freq + [TermStats(w, current)], x) == freq + [TermStats(w, current + 1)]
    ensures x != w ==> Bump(freq + [TermStats(w, current)], x) == (freq + [TermStats(w, current)]) + [TermStats(x, 1)]
  {
    var g := freq + [TermStats(w, current)];
    assert g[..|g| - 1] == freq;
  }

  /** The counting loop of main, with the word list already sorted */
  method CountFrequencies(words: seq<Bytes>) returns (freq: seq<TermStats>)
    ensures freq == Runs(words)
    ensures Expand(freq) == words
  {
    freq := [];
    if |words| > 0 {
      var current := 1;
      var i := 1;
      var first := [TermStats(words[0], current)];
      assert words[..1] == [words[0]];
      RunsFromPrefix(words, 1, first);
      assert freq + first == first;
      while i < |words|
        invariant 1 <= i <= |words|
        invariant RunsFrom(words, i, freq + [TermStats(words[i - 1], current)]) == Runs(words)
      {
        BumpOpen(freq, words[i - 1], current, words[i]);
        if words[i] == words[i - 1] {
          current := current + 1;
        } else {
          freq := freq + [TermStats(words[i - 1], current)];
          current := 1;
        }
        i := i + 1;
      }
      freq := freq + [TermStats(words[|words| - 1], current)];
    }
    RunsExpand(words);
  }

  /** n copies of w */
  function Repeat(w: Bytes, n: int): (r: seq<Bytes>)
    ensures |r| == (if n < 0 then 0 else n)
    decreases n
  {
    if n <= 0 then [] else Repeat(w, n - 1) + [w]
  }

  lemma RepeatCount(w: Bytes, n: nat, x: Bytes)
    ensures multiset(Repeat(w, n))[x] == if x == w then n else 0
  {
    if n > 0 {
      RepeatCount(w, n - 1, x);
    }
  }

  /** The word list the records describe: each word repeated count times */
  function Expand(r: seq<TermStats>): seq<Bytes> {
    if |r| == 0 then []
    else Expand(r[..|r| - 1]) + Repeat(r[|r| - 1].word, r[|r| - 1].count)
  }

  /** Sum of the counts */
  function Total(r: seq<TermStats>): int {
    if |r| == 0 then 0 else Total(r[..|r| - 1]) + r[|r| - 1].count
  }

  lemma ExpandBump(g: seq<TermStats>, w: Bytes)
    requires |g| > 0 && Positive(g)
    ensures Expand(Bump(g, w)) == Expand(g) + [w]
  {
    var n := |g| - 1;
    var last := g[n];
    var init := g[..n];
    assert g[..n] == init;
    if w == last.word {
      var b := init + [TermStats(w, last.count + 1)];
      assert b[..n] == init;
    } else {
      var b := g + [TermStats(w, 1)];
      assert b[..|g|] == g;
      assert Repeat(w, 1) == [w];
    }
  }

  /** Round trip: expanding the records gives back the walked word list,
      so the walk loses and invents no occurrence. */
  lemma {:induction false} RunsExpand(s: seq<Bytes>)
    ensures Expand(Runs(s)) == s
    decreases |s|
  {
    if |s| == 1 {
      assert Repeat(s[0], 1) == [s[0]];
    } else if |s| > 1 {
      var init := s[..|s| - 1];
      RunsExpand(init);
      ExpandBump(Runs(init), s[|s| - 1]);
      InitLast(s);
    }
  }

  lemma {:induction false} ExpandLength(r: seq<TermStats>)
    requires Positive(r)
    ensures |Expand(r)| == Total(r)
  {
    if |r| > 0 {
      ExpandLength(r[..|r| - 1]);
    }
  }

  /** Some record carries the word x */
  predicate HasWord(r: seq<TermStats>, x: Bytes) {
    exists k :: 0 <= k < |r| && r[k].word == x
  }

  /** x occurs in the expansion exactly when some record carries it */
  lemma {:induction false} ExpandMember(r: seq<TermStats>, x: Bytes)
    requires Positive(r)
    ensures x in Expand(r) <==> HasWord(r, x)
  {
    if |r| > 0 {
      var init := r[..|r| - 1];
      var last := r[|r| - 1];
      ExpandMember(init, x);
      assert x in Repeat(last.word, last.count) <==> x == last.word by {
        RepeatCount(last.word, last.count, x);
        assert x in Repeat(last.word, last.count) <==> x in multiset(Repeat(last.word, last.count));
      }
      assert x in Expand(r) <==> x in Expand(init) || x in Repeat(last.word, last.count);
      assert HasWord(r, x) <==> HasWord(init, x) || last.word == x by {
        if HasWord(init, x) {
          var k :| 0 <= k < |init| && init[k].word == x;
          assert r[k] == init[k];
        }
        if HasWord(r, x) {
          var k :| 0 <= k < |r| && r[k].word == x;
          if k < |init| {
            assert init[k] == r[k];
          }
        }
      }
    }
  }

  lemma {:induction false} ExpandAbsent(r: seq<TermStats>, x: Bytes)
    requires Positive(r) && !HasWord(r, x)
    ensures multiset(Expand(r))[x] == 0
  {
    ExpandMember(r, x);
  }

  /** Records with pairwise different words: each word's occurrences in the
      expansion are exactly its record's count */
  lemma {:induction false} ExpandCount(r: seq<TermStats>, k: nat)
    requires Positive(r) && k < |r|
    requires forall i, j :: 0 <= i < j < |r| ==> r[i].word != r[j].word
    ensures multiset(Expand(r))[r[k].word] == r[k].count
  {
    var init := r[..|r| - 1];
    var last := r[|r| - 1];
    var x := r[k].word;
    RepeatCount(last.word, last.count, x);
    assert multiset(Expand(r)) == multiset(Expand(init)) + multiset(Repeat(last.word, last.count));
    if k == |r| - 1 {
      assert !HasWord(init, x);
      ExpandAbsent(init, x);
    } else {
      assert init[k] == r[k];
      ExpandCount(init, k);
    }
  }

  /** Words strictly ascending, hence pairwise different */
  predicate WordsIncreasing(r: seq<TermStats>) {
    forall i, j :: 0 <= i < j < |r| ==> Less(r[i].word, r[j].word)
  }

  /** After sorting, every distinct word gets exactly one record, in
      ascending order */
  lemma {:induction false} RunsIncreasing(s: seq<Bytes>)
    requires Sorting.SortedBy(s, WordLe)
    ensures WordsIncreasing(Runs(s))
    decreases |s|
  {
    if |s| > 1 {
      var init := s[..|s| - 1];
      var w := s[|s| - 1];
      RunsIncreasing(init);
      var g := Runs(init);
      var last := g[|g| - 1];
      assert last.word == s[|s| - 2];
      if w != last.word {
        assert WordLe(last.word, w);
        LessTotal(last.word, w);
        forall i | 0 <= i < |g| - 1
          ensures Less(g[i].word, w)
        {
          LessTransitive(g[i].word, last.word, w);
        }
      }
    }
  }

  lemma IncreasingDistinct(r: seq<TermStats>)
    requires WordsIncreasing(r)
    ensures forall i, j :: 0 <= i < j < |r| ==> r[i].word != r[j].word
  {
    forall i, j | 0 <= i < j < |r|
      ensures r[i].word != r[j].word
    {
      LessIrreflexive(r[i].word);
    }
  }

  /** The frequency table of a word list: the counting walk over the sorted
      words */
  function Frequencies(words: seq<Bytes>): seq<TermStats> {
    Runs(SortWords(words))
  }

  /** What the table promises: one record per distinct word, in ascending
      word order; each count is the word's number of occurrences; the counts
      add up to the number of words; no words, no records. */
  lemma FrequenciesCount(words: seq<Bytes>)
    ensures WordsIncreasing(Frequencies(words))
    ensures forall x :: x in words <==> HasWord(Frequencies(words), x)
    ensures forall k :: 0 <= k < |Frequencies(words)| ==>
      Frequencies(words)[k].count == multiset(words)[Frequencies(words)[k].word]
    ensures Total(Frequencies(words)) == |words|
    ensures |Frequencies(words)| == 0 <==> |words| == 0
  {
    var s := SortWords(words);
    var r := Runs(s);
    RunsIncreasing(s);
    IncreasingDistinct(r);
    RunsExpand(s);
    ExpandLength(r);
    forall x
      ensures x in words <==> HasWord(r, x)
    {
      ExpandMember(r, x);
      assert x in words <==> x in multiset(s);
    }
    forall k | 0 <= k < |r|
      ensures r[k].count == multiset(words)[r[k].word]
    {
      ExpandCount(r, k);
    }
  }

  /** `sort(frequencies, compareFreq)`: counts never increase along the
      result, and it holds the same records */
  function RankByFrequency(r: seq<TermStats>): (ranked: seq<TermStats>)
    ensures multiset(ranked) == multiset(r)
    ensures forall i, j :: 0 <= i < j < |ranked| ==> ranked[i].count >= ranked[j].count
    ensures forall i, j :: 0 <= i < |ranked| && 0 <= j < |ranked| && ranked[i].count > ranked[j].count ==> i < j
  {
    FreqOrder();
    var ranked := Sorting.InsertionSort(r, FreqLe);
    assert forall i, j :: 0 <= i < j < |ranked| ==> FreqLe(ranked[i], ranked[j]);
    ranked
  }

  /** "rank,word,frequency" */
  const Header: Bytes := [114, 97, 110, 107, 44, 119, 111, 114, 100, 44,
    102, 114, 101, 113, 117, 101, 110, 99, 121]

  /** One CSV row without its newline; ranks start at 1 */
  function Row(i: nat, t: TermStats): Bytes {
    ShowNat(i + 1) + [COMMA] + t.word + [COMMA] + ShowInt(t.count)
  }

  /** The rows from position i on, each followed by a newline */
  function Body(r: seq<TermStats>, i: nat): Bytes
    decreases |r| - i
  {
    if i >= |r| then [] else Row(i, r[i]) + [NEWLINE] + Body(r, i + 1)
  }

  /** The whole output file */
  function Csv(r: seq<TermStats>): Bytes {
    Header + [NEWLINE] + Body(r, 0)
  }

  /** The field separator of a row */
  predicate IsComma(b: Byte) {
    b == COMMA
  }

  /** A row splits at its commas into the rank, the word and the count,
      provided the word is non-empty and holds no comma. */
  lemma RowFields(i: nat, t: TermStats)
    requires |t.word| > 0 && SepFree(t.word, IsComma)
    ensures Split(Row(i, t), IsComma) == [ShowNat(i + 1), t.word, ShowInt(t.count)]
  {
    var fields := [ShowNat(i + 1), t.word, ShowInt(t.count)];
    assert JoinWith(fields[2..], COMMA) == ShowInt(t.count);
    assert JoinWith(fields[1..], COMMA) == t.word + [COMMA] + ShowInt(t.count);
    assert JoinWith(fields, COMMA) == Row(i, t);
    SplitJoin(fields, COMMA, IsComma);
  }

  /** The rank at the start of a row reads back as i + 1 */
  lemma RowRank(i: nat, t: TermStats)
    ensures Stoi(Row(i, t)) == Some(i + 1)
  {
    assert Row(i, t) == ShowInt(i + 1) + ([COMMA] + t.word + [COMMA] + ShowInt(t.count));
    StoiShowInt(i + 1, [COMMA] + t.word + [COMMA] + ShowInt(t.count));
  }

  /** The lines of the rows from position i on */
  function RowLines(r: seq<TermStats>, i: nat): seq<Bytes>
    decreases |r| - i
  {
    if i >= |r| then [] else [Row(i, r[i])] + RowLines(r, i + 1)
  }

  /** Line k - i of those lines is the row of rank k + 1 */
  lemma {:induction false} RowLinesAt(r: seq<TermStats>, i: nat)
    ensures |RowLines(r, i)| == if i >= |r| then 0 else |r| - i
    ensures forall k :: i <= k < |r| ==> RowLines(r, i)[k - i] == Row(k, r[k])
    decreases |r| - i
  {
    if i < |r| {
      var lines, rest := RowLines(r, i), RowLines(r, i + 1);
      RowLinesAt(r, i + 1);
      assert lines == [Row(i, r[i])] + rest;
      forall k | i < k < |r|
        ensures lines[k - i] == Row(k, r[k])
      {
        assert lines[k - i] == rest[k - (i + 1)];
      }
    }
  }

  lemma RowHasNoNewline(i: nat, t: TermStats)
    requires NEWLINE !in t.word
    ensures NEWLINE !in Row(i, t)
  {
    var head := ShowNat(i + 1) + [COMMA];
    assert forall k :: 0 <= k < |head| ==> head[k] != NEWLINE;
    assert Row(i, t) == head + t.word + ([COMMA] + ShowInt(t.count));
  }

  lemma {:induction false} BodyLines(r: seq<TermStats>, i: nat)
    requires forall k :: 0 <= k < |r| ==> NEWLINE !in r[k].word
    ensures IndexFile.Lines(Body(r, i)) == RowLines(r, i)
    decreases |r| - i
  {
    if i < |r| {
      RowHasNoNewline(i, r[i]);
      IndexFile.LinesCons(Row(i, r[i]), Body(r, i + 1));
      BodyLines(r, i + 1);
    }
  }

  lemma HeaderIsOneLine()
    ensures NEWLINE !in Header
  {
    forall k | 0 <= k < |Header|
      ensures Header[k] != NEWLINE
    {
    }
  }

  /** The written file reads back as the header line and then the rows */
  lemma CsvLines(r: seq<TermStats>)
    requires forall k :: 0 <= k < |r| ==> NEWLINE !in r[k].word
    ensures IndexFile.Lines(Csv(r)) == [Header] + RowLines(r, 0)
  {
    HeaderIsOneLine();
    IndexFile.LinesCons(Header, Body(r, 0));
    BodyLines(r, 0);
  }

  /** The written file: the header line, then one line per record whose
      rank field reads 1, 2, 3, ... in order. */
  lemma CsvRanks(r: seq<TermStats>)
    requires forall k :: 0 <= k < |r| ==> NEWLINE !in r[k].word
    ensures |IndexFile.Lines(Csv(r))| == |r| + 1
    ensures IndexFile.Lines(Csv(r))[0] == Header
    ensures forall k :: 0 <= k < |r| ==>
      IndexFile.Lines(Csv(r))[k + 1] == Row(k, r[k]) && Stoi(IndexFile.Lines(Csv(r))[k + 1]) == Some(k + 1)
  {
    var rows := RowLines(r, 0);
    CsvLines(r);
    RowLinesAt(r, 0);
    forall k | 0 <= k < |r|
      ensures ([Header] + rows)[k + 1] == Row(k, r[k]) && Stoi(Row(k, r[k])) == Some(k + 1)
    {
      RowRank(k, r[k]);
    }
  }

  /** The output of the counter for the given files */
  function ZipfCsv(files: seq<Bytes>): Bytes {
    Csv(RankByFrequency(Frequencies(LoadWords(files))))
  }

  /** Reordering records keeps the set of words they carry */
  lemma PermutedWords(a: seq<TermStats>, b: seq<TermStats>, x: Bytes)
    requires multiset(a) == multiset(b)
    ensures HasWord(a, x) ==> HasWord(b, x)
  {
    if HasWord(a, x) {
      var k :| 0 <= k < |a| && a[k].word == x;
      assert a[k] in multiset(b);
      var j :| 0 <= j < |b| && b[j] == a[k];
    }
  }

  /** The records of the output are the word table ranked by count: each
      loaded word appears once, with its number of occurrences, and counts
      never increase down the file. */
  lemma ZipfTable(files: seq<Bytes>)
    ensures var words := LoadWords(files);
      var ranked := RankByFrequency(Frequencies(words));
      && |ranked| == |Frequencies(words)|
      && (forall x :: x in words <==> HasWord(ranked, x))
      && (forall k :: 0 <= k < |ranked| ==> ranked[k].count == multiset(words)[ranked[k].word])
      && (forall i, j :: 0 <= i < j < |ranked| ==> ranked[i].count >= ranked[j].count)
      && (forall i, j :: 0 <= i < j < |ranked| ==> ranked[i].word != ranked[j].word)
  {
    var words := LoadWords(files);
    var f := Frequencies(words);
    var ranked := RankByFrequency(f);
    FrequenciesCount(words);
    assert |ranked| == |multiset(ranked)| == |multiset(f)| == |f|;
    forall x
      ensures HasWord(ranked, x) <==> HasWord(f, x)
    {
      PermutedWords(ranked, f, x);
      PermutedWords(f, ranked, x);
    }
    forall k | 0 <= k < |ranked|
      ensures ranked[k].count == multiset(words)[ranked[k].word]
    {
      PermutedRecord(ranked, f, k);
    }
    IncreasingDistinct(f);
    PermutedDistinct(f, ranked);
  }

  /** A record that stands at two positions is counted at least twice */
  lemma TwoPositions<T>(s: seq<T>, i: nat, j: nat)
    requires i < j < |s| && s[i] == s[j]
    ensures multiset(s)[s[i]] >= 2
  {
    var front := s[..j];
    assert s == front + [s[j]] + s[j + 1..];
    assert front[i] == s[i];
    assert multiset(s) == multiset(front) + multiset{s[j]} + multiset(s[j + 1..]);
  }

  /** Records with pairwise different words */
  predicate DistinctWords(r: seq<TermStats>) {
    forall i, j :: 0 <= i < j < |r| ==> r[i].word != r[j].word
  }

  lemma DistinctInit(r: seq<TermStats>)
    requires |r| > 0 && DistinctWords(r)
    ensures DistinctWords(r[..|r| - 1]) && r[|r| - 1] !in r[..|r| - 1]
  {
    var init := r[..|r| - 1];
    forall k | 0 <= k < |init|
      ensures init[k] != r[|r| - 1]
    {
      assert init[k] == r[k];
    }
  }

  /** In records with pairwise different words each record occurs once */
  lemma {:induction false} DistinctOnce(r: seq<TermStats>, t: TermStats)
    requires DistinctWords(r)
    ensures multiset(r)[t] <= 1
  {
    if |r| > 0 {
      var init, last := r[..|r| - 1], r[|r| - 1];
      DistinctInit(r);
      DistinctOnce(init, t);
      InitLast(r);
      assert multiset(r)[t] == multiset(init)[t] + multiset{last}[t];
      if t == last {
        assert multiset(init)[t] == 0;
      }
    }
  }

  /** Reordering records with pairwise different words keeps them different */
  lemma PermutedDistinct(a: seq<TermStats>, b: seq<TermStats>)
    requires multiset(a) == multiset(b)
    requires DistinctWords(a)
    ensures DistinctWords(b)
  {
    forall i, j | 0 <= i < j < |b|
      ensures b[i].word != b[j].word
    {
      if b[i].word == b[j].word {
        PermutedRecord(b, a, i);
        PermutedRecord(b, a, j);
        var p :| 0 <= p < |a| && a[p] == b[i];
        var q :| 0 <= q < |a| && a[q] == b[j];
        assert p == q;
        TwoPositions(b, i, j);
        DistinctOnce(a, b[i]);
      }
    }
  }

  /** A record of a reordering is a record of the original */
  lemma PermutedRecord(a: seq<TermStats>, b: seq<TermStats>, k: nat)
    requires multiset(a) == multiset(b) && k < |a|
    ensures a[k] in b
  {
    assert a[k] in multiset(b);
  }
}
