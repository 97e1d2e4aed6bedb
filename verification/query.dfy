/** The interactive search of boolean_search.cpp: each query line is split on
    whitespace into `term op term op term ...`; every term is stemmed and
    looked up by binary search in the loaded index, and the id lists are
    combined strictly left to right with `&` (intersection), `|` (union) and
    `!` (difference). */
module Query {
  import opened ByteStrings
  import opened Wrappers
  import opened Text
  import opened IndexFile
  import Stemmer
  import SetOps

  const AND: Bytes := [38]
  const OR: Bytes := [124]
  const NOT: Bytes := [33]
  const EXIT: Bytes := [101, 120, 105, 116]

  /** The search binary_search_index performs between positions `left` and
      `right` (both included): probe the midpoint, stop on a match, and
      otherwise go on in the half the byte order points to. It does not
      check that the table is sorted. */
  function SearchRange(index: seq<Entry>, word: Bytes, left: int, right: int): (r: int)
    requires 0 <= left <= right + 1 <= |index|
    ensures r == -1 || (left <= r <= right && index[r].word == word)
    decreases right - left
  {
    if left > right then -1
    else
      var mid := left + (right - left) / 2;
      if index[mid].word == word then mid
      else if Less(index[mid].word, word) then SearchRange(index, word, mid + 1, right)
      else SearchRange(index, word, left, mid - 1)
  }

  /** One probe of the search at the midpoint */
  lemma SearchRangeStep(index: seq<Entry>, word: Bytes, left: int, right: int, mid: int)
    requires 0 <= left <= right < |index| && mid == left + (right - left) / 2
    ensures left <= mid <= right
    ensures SearchRange(index, word, left, right) ==
      if index[mid].word == word then mid
      else if Less(index[mid].word, word) then SearchRange(index, word, mid + 1, right)
      else SearchRange(index, word, left, mid - 1)
  {
  }

  /** binary_search_index over the whole table: -1 when the word is not found */
  function Search(index: seq<Entry>, word: Bytes): (r: int)
    ensures r == -1 || (0 <= r < |index| && index[r].word == word)
    ensures |index| == 0 ==> r == -1
  {
    SearchRange(index, word, 0, |index| - 1)
  }

  /** On a table sorted by word, the search between left and right misses
      only a word that is nowhere in the table, given that everything left
      of `left` is smaller and everything right of `right` is larger. */
  lemma {:induction false} SearchRangeSorted(index: seq<Entry>, word: Bytes, left: int, right: int)
    requires SortedByWord(index)
    requires 0 <= left <= right + 1 <= |index|
    requires forall k :: 0 <= k < left ==> Less(index[k].word, word)
    requires forall k :: right < k < |index| ==> Less(word, index[k].word)
    ensures SearchRange(index, word, left, right) == -1 ==>
      forall k :: 0 <= k < |index| ==> index[k].word != word
    decreases right - left
  {
    if left > right {
      LessIrreflexive(word);
      forall k | 0 <= k < |index|
        ensures index[k].word != word
      {
        if k < left {
          assert Less(index[k].word, word);
        } else {
          assert Less(word, index[k].word);
        }
      }
    } else {
      var mid := left + (right - left) / 2;
      SearchRangeStep(index, word, left, right, mid);
      var probe := index[mid].word;
      if probe == word {
        assert SearchRange(index, word, left, right) == mid;
      } else if Less(probe, word) {
        assert SearchRange(index, word, left, right) == SearchRange(index, word, mid + 1, right);
        BelowProbe(index, word, mid);
        SearchRangeSorted(index, word, mid + 1, right);
      } else {
        assert SearchRange(index, word, left, right) == SearchRange(index, word, left, mid - 1);
        LessTotal(probe, word);
        AboveProbe(index, word, mid);
        SearchRangeSorted(index, word, left, mid - 1);
      }
    }
  }

  /** In a sorted table, a probe smaller than the word has only smaller
      entries before it. */
  lemma BelowProbe(index: seq<Entry>, word: Bytes, mid: nat)
    requires SortedByWord(index) && mid < |index| && Less(index[mid].word, word)
    ensures forall k :: 0 <= k <= mid ==> Less(index[k].word, word)
  {
    forall k | 0 <= k < mid
      ensures Less(index[k].word, word)
    {
      LessTransitive(index[k].word, index[mid].word, word);
    }
  }

  /** In a sorted table, a probe larger than the word has only larger
      entries after it. */
  lemma AboveProbe(index: seq<Entry>, word: Bytes, mid: nat)
    requires SortedByWord(index) && mid < |index| && Less(word, index[mid].word)
    ensures forall k :: mid <= k < |index| ==> Less(word, index[k].word)
  {
    forall k | mid < k < |index|
      ensures Less(word, index[k].word)
    {
      LessTransitive(word, index[mid].word, index[k].word);
    }
  }

  /** On a table sorted by word the search is exact: -1 exactly when the
      word has no entry. */
  lemma SearchSorted(index: seq<Entry>, word: Bytes)
    requires SortedByWord(index)
    ensures Search(index, word) == -1 <==> forall k :: 0 <= k < |index| ==> index[k].word != word
  {
    SearchRangeSorted(index, word, 0, |index| - 1);
  }

  /** The loop of binary_search_index; it computes the search above. */
  method BinarySearch(index: seq<Entry>, word: Bytes) returns (r: int)
    ensures r == Search(index, word)
  {
    var left := 0;
    var right := |index| - 1;
    while left <= right
      invariant 0 <= left <= right + 1 <= |index|
      invariant SearchRange(index, word, left, right) == Search(index, word)
      decreases right - left
    {
      var mid := left + (right - left) / 2;
      SearchRangeStep(index, word, left, right, mid);
      if index[mid].word == word {
        return mid;
      }
      if Less(index[mid].word, word) {
        left := mid + 1;
      } else {
        right := mid - 1;
      }
    }
    return -1;
  }

  /** The position of the first entry for the word, if any */
  function Find(index: seq<Entry>, word: Bytes): (r: Option<nat>)
    ensures r.None? <==> forall k :: 0 <= k < |index| ==> index[k].word != word
    ensures r.Some? ==> r.value < |index| && index[r.value].word == word
    ensures r.Some? ==> forall k :: 0 <= k < r.value ==> index[k].word != word
  {
    if |index| == 0 then None
    else if index[0].word == word then Some(0)
    else match Find(index[1..], word)
      case None => None
      case Some(k) => Some(k + 1)
  }

  /** In an index sorted by word, a word has at most one entry */
  lemma SortedWordUnique(index: seq<Entry>, i: nat, j: nat)
    requires SortedByWord(index)
    requires i < |index| && j < |index| && index[i].word == index[j].word
    ensures i == j
  {
    LessIrreflexive(index[i].word);
  }

  /** The reference lookup: the ids of the word's entry, or none when it has
      no entry */
  function Postings(index: seq<Entry>, word: Bytes): (r: seq<int>)
    ensures (forall k :: 0 <= k < |index| ==> index[k].word != word) ==> r == []
    ensures SortedByWord(index) ==>
      forall k :: 0 <= k < |index| && index[k].word == word ==> r == index[k].ids
  {
    match Find(index, word)
    case None => []
    case Some(k) =>
      assert SortedByWord(index) ==>
        forall j :: 0 <= j < |index| && index[j].word == word ==> j == k
      by {
        if SortedByWord(index) {
          forall j | 0 <= j < |index| && index[j].word == word
            ensures j == k
          {
            SortedWordUnique(index, j, k);
          }
        }
      }
      index[k].ids
  }

  /** The ids main takes for a stemmed word: those of the entry the binary
      search lands on, or none when it answers -1. On a table sorted by word
      this is the reference lookup; on any other table it may miss a word
      that is there. */
  function Lookup(index: seq<Entry>, word: Bytes): (r: seq<int>)
    ensures r == [] || exists k :: 0 <= k < |index| && index[k].word == word && r == index[k].ids
    ensures SortedByWord(index) ==> r == Postings(index, word)
  {
    var k := Search(index, word);
    assert SortedByWord(index) && k == -1 ==> Postings(index, word) == [] by {
      if SortedByWord(index) { SearchSorted(index, word); }
    }
    if k == -1 then [] else index[k].ids
  }

  /** The ids a query term stands for: the term goes through the same stemmer
      as the indexed words before it is looked up. */
  function TermPostings(index: seq<Entry>, term: Bytes): seq<int> {
    Lookup(index, Stemmer.Stem(term))
  }

  /** The binary search follows the byte order and can miss a word on a
      table that is not sorted by word: with "b" before "a", the probe at
      "b" sends the search left of it, and "a" is reported absent although
      the reference lookup finds it. */
  lemma LookupOnUnsortedTable()
    ensures var index := [Entry([98], [1]), Entry([97], [2])];
      && Lookup(index, [97]) == []
      && Postings(index, [97]) == [2]
  {
    var index := [Entry([98], [1]), Entry([97], [2])];
    assert Less([97], [98]);
    assert SearchRange(index, [97], 0, -1) == -1;
    assert Search(index, [97]) == -1;
  }

  /** The lookup main performs for one term: stem, binary search, and an
      empty list when the search answers -1 */
  method LookUp(index: seq<Entry>, term: Bytes) returns (docs: seq<int>)
    ensures docs == TermPostings(index, term)
    ensures SortedByWord(index) ==> docs == Postings(index, Stemmer.Stem(term))
  {
    var w := Stemmer.Stem(term);
    var idx := BinarySearch(index, w);
    docs := [];
    if idx != -1 {
      docs := index[idx].ids;
    }
  }

  /** One combining step. An operator other than `&`, `|` and `!` leaves the
      current list as it is. */
  function Apply(op: Bytes, current: seq<int>, next: seq<int>): (r: seq<int>)
    ensures SetOps.Increasing(current) && SetOps.Increasing(next) ==> SetOps.Increasing(r)
    ensures SetOps.Increasing(current) && SetOps.Increasing(next) ==>
      forall x :: x in r <==>
        if op == AND then x in current && x in next
        else if op == OR then x in current || x in next
        else if op == NOT then x in current && x !in next
        else x in current
  {
    var merged := SetOps.Increasing(current) && SetOps.Increasing(next);
    if op == AND then
      assert merged ==> (SetOps.Increasing(SetOps.Intersect(current, next)) &&
        forall x :: x in SetOps.Intersect(current, next) <==> x in current && x in next)
      by {
        if merged { SetOps.IntersectIsIntersection(current, next); }
      }
      SetOps.Intersect(current, next)
    else if op == OR then
      assert merged ==> SetOps.Increasing(SetOps.Union(current, next)) by {
        if merged { SetOps.UnionIsUnion(current, next); }
      }
      SetOps.Union(current, next)
    else if op == NOT then
      assert merged ==> (SetOps.Diff(current, next) == SetOps.Without(current, next) &&
        SetOps.Increasing(SetOps.Without(current, next)))
      by {
        if merged {
          SetOps.DiffIsWithout(current, next);
          SetOps.WithoutIncreasing(current, next);
        }
      }
      SetOps.Diff(current, next)
    else current
  }

  /** The fold over `op term` pairs; an unpaired trailing token is dropped */
  function Fold(index: seq<Entry>, current: seq<int>, rest: seq<Bytes>): seq<int>
    decreases |rest|
  {
    if |rest| < 2 then current
    else Fold(index, Apply(rest[0], current, TermPostings(index, rest[1])), rest[2..])
  }

  /** The documents a non-empty token list selects */
  function Evaluate(index: seq<Entry>, tokens: seq<Bytes>): seq<int>
    requires |tokens| > 0
  {
    Fold(index, TermPostings(index, tokens[0]), tokens[1..])
  }

  /** The loop at the heart of main, over the tokens of one query line */
  method EvaluateQuery(index: seq<Entry>, tokens: seq<Bytes>) returns (docs: seq<int>)
    requires |tokens| > 0
    ensures docs == Evaluate(index, tokens)
    ensures IdsIncreasing(index) ==> SetOps.Increasing(docs)
  {
    docs := LookUp(index, tokens[0]);
    var i := 1;
    while i < |tokens|
      invariant 1 <= i <= |tokens|
      invariant Fold(index, docs, tokens[i..]) == Evaluate(index, tokens)
    {
      if i + 1 >= |tokens| {
        break;
      }
      var op := tokens[i];
      var next := LookUp(index, tokens[i + 1]);
      if op == AND {
        docs := SetOps.IntersectLists(docs, next);
      } else if op == OR {
        docs := SetOps.UniteLists(docs, next);
      } else if op == NOT {
        docs := SetOps.DiffLists(docs, next);
      }
      assert tokens[i..][2..] == tokens[i + 2..];
      i := i + 2;
    }
    if IdsIncreasing(index) {
      EvaluateIncreasing(index, tokens);
    }
  }

  /** Every term's ids in an index with ascending id lists are ascending */
  lemma TermPostingsIncreasing(index: seq<Entry>, term: Bytes)
    requires IdsIncreasing(index)
    ensures SetOps.Increasing(TermPostings(index, term))
  {
  }

  /** Query results are strictly ascending id lists whenever the index's id
      lists are, so the merges always see the inputs they assume. */
  lemma {:induction false} FoldIncreasing(index: seq<Entry>, current: seq<int>, rest: seq<Bytes>)
    requires IdsIncreasing(index) && SetOps.Increasing(current)
    ensures SetOps.Increasing(Fold(index, current, rest))
    decreases |rest|
  {
    if |rest| >= 2 {
      TermPostingsIncreasing(index, rest[1]);
      FoldIncreasing(index, Apply(rest[0], current, TermPostings(index, rest[1])), rest[2..]);
    }
  }

  lemma EvaluateIncreasing(index: seq<Entry>, tokens: seq<Bytes>)
    requires |tokens| > 0 && IdsIncreasing(index)
    ensures SetOps.Increasing(Evaluate(index, tokens))
  {
    TermPostingsIncreasing(index, tokens[0]);
    FoldIncreasing(index, TermPostings(index, tokens[0]), tokens[1..]);
  }

  /** Operators are applied strictly left to right, with no precedence:
      appending `op term` to a query applies op to the result so far. */
  lemma {:induction false} FoldAppend(index: seq<Entry>, current: seq<int>, rest: seq<Bytes>, op: Bytes, term: Bytes)
    requires |rest| % 2 == 0
    ensures Fold(index, current, rest + [op, term]) ==
      Apply(op, Fold(index, current, rest), TermPostings(index, term))
    decreases |rest|
  {
    if |rest| == 0 {
      assert rest + [op, term] == [op, term];
    } else {
      assert (rest + [op, term])[2..] == rest[2..] + [op, term];
      FoldAppend(index, Apply(rest[0], current, TermPostings(index, rest[1])), rest[2..], op, term);
    }
  }

  /** A dangling operator at the end of a query is ignored */
  lemma {:induction false} FoldTrailingToken(index: seq<Entry>, current: seq<int>, rest: seq<Bytes>, op: Bytes)
    requires |rest| % 2 == 0
    ensures Fold(index, current, rest + [op]) == Fold(index, current, rest)
    decreases |rest|
  {
    if |rest| == 0 {
      assert rest + [op] == [op];
    } else {
      assert (rest + [op])[2..] == rest[2..] + [op];
      FoldTrailingToken(index, Apply(rest[0], current, TermPostings(index, rest[1])), rest[2..], op);
    }
  }

  /** `a & b` and `b & a` select the same documents, as do `a | b` and `b | a` */
  lemma TwoTermsCommute(index: seq<Entry>, a: Bytes, b: Bytes, op: Bytes)
    requires IdsIncreasing(index)
    requires op == AND || op == OR
    ensures Evaluate(index, [a, op, b]) == Evaluate(index, [b, op, a])
  {
    TermPostingsIncreasing(index, a);
    TermPostingsIncreasing(index, b);
    EvaluateTwoTerms(index, a, op, b);
    EvaluateTwoTerms(index, b, op, a);
    if op == AND {
      SetOps.IntersectCommutes(TermPostings(index, a), TermPostings(index, b));
    } else {
      SetOps.UnionCommutes(TermPostings(index, a), TermPostings(index, b));
    }
  }

  /** A two-word index: "cat" in documents 1 and 3, "dog" in 1 and 2 */
  function SampleIndex(): seq<Entry> {
    [Entry([99, 97, 116], [1, 3]), Entry([100, 111, 103], [1, 2])]
  }

  /** A query of two terms applies its operator to their postings */
  lemma EvaluateTwoTerms(index: seq<Entry>, a: Bytes, op: Bytes, b: Bytes)
    ensures Evaluate(index, [a, op, b]) == Apply(op, TermPostings(index, a), TermPostings(index, b))
  {
    var q: seq<Bytes> := [a, op, b];
    var rest := q[1..];
    var merged := Apply(op, TermPostings(index, a), TermPostings(index, b));
    assert q[0] == a && rest[0] == op && rest[1] == b && rest[2..] == [];
    assert Fold(index, TermPostings(index, a), rest) == Fold(index, merged, []);
  }

  /** The postings of the two sample words */
  lemma SamplePostings()
    ensures TermPostings(SampleIndex(), [99, 97, 116]) == [1, 3]
    ensures TermPostings(SampleIndex(), [100, 111, 103]) == [1, 2]
  {
    assert Stemmer.Stem([99, 97, 116]) == [99, 97, 116];
    assert Stemmer.Stem([100, 111, 103]) == [100, 111, 103];
  }

  /** The three merges on the sample postings */
  lemma SampleMerges()
    ensures SetOps.Intersect([1, 3], [1, 2]) == [1]
    ensures SetOps.Union([1, 3], [1, 2]) == [1, 2, 3]
    ensures SetOps.Diff([1, 3], [1, 2]) == [3]
  {
    var a, b := [1, 3], [1, 2];
    assert SetOps.Intersect(a[1..], b[1..]) == [];
    assert SetOps.Union(a[1..], b[1..]) == [2, 3];
    assert SetOps.Diff(a[1..], b[1..]) == [3];
  }

  /** `cat & dog`, `cat | dog` and `cat ! dog` on the sample index */
  lemma SampleQueries()
    ensures Evaluate(SampleIndex(), [[99, 97, 116], AND, [100, 111, 103]]) == [1]
    ensures Evaluate(SampleIndex(), [[99, 97, 116], OR, [100, 111, 103]]) == [1, 2, 3]
    ensures Evaluate(SampleIndex(), [[99, 97, 116], NOT, [100, 111, 103]]) == [3]
  {
    var idx, cat, dog := SampleIndex(), [99, 97, 116], [100, 111, 103];
    var a, b := [1, 3], [1, 2];
    SamplePostings();
    SampleMerges();
    assert Apply(AND, a, b) == [1] && Apply(OR, a, b) == [1, 2, 3] && Apply(NOT, a, b) == [3];
    SampleQuery(AND, a, b);
    SampleQuery(OR, a, b);
    SampleQuery(NOT, a, b);
  }

  /** A two-term query on the sample index applies its operator to the
      sample postings */
  lemma SampleQuery(op: Bytes, a: seq<int>, b: seq<int>)
    requires a == [1, 3] && b == [1, 2]
    ensures Evaluate(SampleIndex(), [[99, 97, 116], op, [100, 111, 103]]) == Apply(op, a, b)
  {
    SamplePostings();
    EvaluateTwoTerms(SampleIndex(), [99, 97, 116], op, [100, 111, 103]);
  }

  /** What main does with one input line */
  datatype Command = Quit | Skip | Run(tokens: seq<Bytes>)

  /** `exit` ends the session; an empty or all-blank line is skipped; any
      other line is a query over its whitespace-separated tokens. */
  function Classify(line: Bytes): (c: Command)
    ensures c.Quit? <==> line == EXIT
    ensures c.Run? <==> line != EXIT && Words(line) != []
    ensures c.Run? ==> c.tokens == Words(line) && |c.tokens| > 0
  {
    if line == EXIT then Quit
    else if |line| == 0 then Skip
    else
      var tokens := Words(line);
      if |tokens| == 0 then Skip else Run(tokens)
  }

  /** The results a session prints: one id list per query line, in order,
      until an `exit` line or the end of the input. */
  function Session(index: seq<Entry>, lines: seq<Bytes>): (r: seq<seq<int>>)
    ensures |r| <= |lines|
  {
    if |lines| == 0 then [] else Answer(index, Classify(lines[0]), Session(index, lines[1..]))
  }

  /** The results printed for one line followed by those printed later */
  function Answer(index: seq<Entry>, c: Command, later: seq<seq<int>>): (r: seq<seq<int>>)
    requires c.Run? ==> |c.tokens| > 0
    ensures |r| <= |later| + 1
  {
    match c
    case Quit => []
    case Skip => later
    case Run(tokens) => [Evaluate(index, tokens)] + later
  }

  /** A session looks its terms up by binary search, as main does: on the
      table with "b" before "a", the query `a` finds no document although
      "a" is in the table. */
  lemma SessionOnUnsortedTable()
    ensures Session([Entry([98], [1]), Entry([97], [2])], [[97]]) == [[]]
  {
    var index := [Entry([98], [1]), Entry([97], [2])];
    var line: Bytes := [97];
    assert Words(line) == [line] by {
      assert line + [] == line;
      SplitRun(line, [], IsSpace);
    }
    assert Stemmer.Stem(line) == line;
    LookupOnUnsortedTable();
    assert Evaluate(index, [line]) == [];
  }

  /** Everything after an `exit` line is never read */
  lemma {:induction false} SessionStopsAtExit(index: seq<Entry>, before: seq<Bytes>, after: seq<Bytes>)
    requires EXIT !in before
    ensures Session(index, before + [EXIT] + after) == Session(index, before)
  {
    if |before| == 0 {
      assert before + [EXIT] + after == [EXIT] + after;
    } else {
      assert (before + [EXIT] + after)[1..] == before[1..] + [EXIT] + after;
      SessionStopsAtExit(index, before[1..], after);
    }
  }

  /** Without `exit`, the session answers every query line of the input and
      then ends. */
  lemma {:induction false} SessionAppend(index: seq<Entry>, lines: seq<Bytes>, line: Bytes)
    requires EXIT !in lines
    ensures Session(index, lines + [line]) == Session(index, lines) +
      match Classify(line)
      case Run(tokens) => [Evaluate(index, tokens)]
      case _ => []
  {
    if |lines| == 0 {
      assert lines + [line] == [line];
    } else {
      assert (lines + [line])[1..] == lines[1..] + [line];
      SessionAppend(index, lines[1..], line);
    }
  }

  /** The state of standard input as std::getline sees it: the bytes not yet
      read, and whether end of file has been hit. */
  datatype Stdin = Stdin(rest: Bytes, eof: bool)

  /** std::getline(cin, line) as libstdc++ implements it. Once end of file is
      set, the call fails before touching `line`, which keeps its previous
      contents; the first call that hits end of file with nothing to read
      clears it; a last line without a newline is returned and sets end of
      file. */
  function Getline(input: Stdin, line: Bytes): (r: (Stdin, Bytes))
    ensures input.eof ==> r == (input, line)
    ensures !input.eof && input.rest == [] ==> r == (Stdin([], true), [])
    ensures !input.eof && r.0.eof ==> r.0.rest == []
  {
    if input.eof then (input, line)
    else if |input.rest| == 0 then (Stdin([], true), [])
    else match IndexOf(input.rest, NEWLINE)
      case None => (Stdin([], true), input.rest)
      case Some(k) => (Stdin(input.rest[k + 1..], false), input.rest[..k])
  }

  /** A successful read takes the next line of the input */
  lemma GetlineReadsLine(input: Stdin, line: Bytes)
    requires !input.eof && input.rest != []
    ensures Lines(input.rest) == [Getline(input, line).1] + Lines(Getline(input, line).0.rest)
  {
  }

  /** The loop of main as written: `while (true)` that leaves only on an
      `exit` line. The fuel bounds the number of iterations looked at; None
      means the loop was still running when the fuel ran out. */
  function AsWrittenLoop(index: seq<Entry>, input: Stdin, line: Bytes, fuel: nat): Option<seq<seq<int>>>
    decreases fuel
  {
    if fuel == 0 then None
    else
      var read := Getline(input, line);
      var c := Classify(read.1);
      if c.Quit? then Some([])
      else match AsWrittenLoop(index, read.0, read.1, fuel - 1)
        case None => None
        case Some(later) => Some(Answer(index, c, later))
  }

  /** The as-written loop on the input of a whole session, with `line` empty
      as it starts */
  function AsWrittenSession(index: seq<Entry>, text: Bytes, fuel: nat): Option<seq<seq<int>>> {
    AsWrittenLoop(index, Stdin(text, false), [], fuel)
  }

  /** At end of input the loop keeps spinning: after the last line, each
      failing getline leaves `line` as it was (or empty), which is never
      `exit`, so without an `exit` line the loop never ends however many
      iterations are allowed. */
  lemma {:induction false} AsWrittenLoopNeverEnds(index: seq<Entry>, input: Stdin, line: Bytes, fuel: nat)
    requires EXIT !in Lines(input.rest)
    requires input.eof ==> input.rest == [] && line != EXIT
    ensures AsWrittenLoop(index, input, line, fuel) == None
    decreases fuel
  {
    if fuel > 0 {
      var read := Getline(input, line);
      var next, l := read.0, read.1;
      NoExitStep(input, line, next, l);
      var f: nat := fuel - 1;
      AsWrittenLoopNeverEnds(index, next, l, f);
      assert !Classify(l).Quit?;
    }
  }

  /** One read from an input with no `exit` line left yields a line that is
      not `exit` and leaves an input with no `exit` line. */
  lemma NoExitStep(input: Stdin, line: Bytes, next: Stdin, l: Bytes)
    requires EXIT !in Lines(input.rest)
    requires input.eof ==> input.rest == [] && line != EXIT
    requires Getline(input, line) == (next, l)
    ensures l != EXIT && EXIT !in Lines(next.rest)
    ensures next.eof ==> next.rest == []
  {
    if !input.eof && input.rest != [] {
      GetlineReadsLine(input, line);
      assert Lines(input.rest)[0] == l && Lines(input.rest)[1..] == Lines(next.rest);
    }
  }

  /** The discrepancy on the smallest input: an empty standard input */
  lemma AsWrittenEmptyInputNeverEnds(index: seq<Entry>, fuel: nat)
    ensures AsWrittenSession(index, [], fuel) == None
    ensures Session(index, Lines([])) == []
  {
    AsWrittenLoopNeverEnds(index, Stdin([], false), [], fuel);
  }

  /** One iteration of the loop: an `exit` line ends it, any other line
      adds its answer to what the later iterations print. */
  lemma LoopStep(index: seq<Entry>, input: Stdin, line: Bytes, fuel: nat,
                 next: Stdin, l: Bytes, f: nat, later: seq<seq<int>>)
    requires Getline(input, line) == (next, l) && fuel == f + 1
    requires !Classify(l).Quit? ==> AsWrittenLoop(index, next, l, f) == Some(later)
    ensures AsWrittenLoop(index, input, line, fuel) == Some(Answer(index, Classify(l), later))
  {
    var c := Classify(l);
    if c.Quit? {
      assert AsWrittenLoop(index, input, line, fuel) == Some([]);
    } else {
      assert AsWrittenLoop(index, input, line, fuel) == Some(Answer(index, c, later));
    }
  }

  /** The session over the input lines, seen one read at a time */
  lemma SessionStep(index: seq<Entry>, input: Stdin, line: Bytes)
    requires !input.eof && input.rest != []
    ensures var read := Getline(input, line);
      && Session(index, Lines(input.rest)) ==
           Answer(index, Classify(read.1), Session(index, Lines(read.0.rest)))
      && |Lines(input.rest)| == |Lines(read.0.rest)| + 1
      && (EXIT in Lines(input.rest) && read.1 != EXIT ==> !read.0.eof && EXIT in Lines(read.0.rest))
  {
    var read := Getline(input, line);
    var lines := Lines(input.rest);
    GetlineReadsLine(input, line);
    assert lines[0] == read.1 && lines[1..] == Lines(read.0.rest);
  }

  /** Whenever the input does contain an `exit` line, the loop as written and
      the session agree, given one iteration per line. */
  lemma {:induction false} AsWrittenLoopAgrees(index: seq<Entry>, input: Stdin, line: Bytes, fuel: nat)
    requires !input.eof && EXIT in Lines(input.rest)
    requires fuel >= |Lines(input.rest)|
    ensures AsWrittenLoop(index, input, line, fuel) == Some(Session(index, Lines(input.rest)))
    decreases fuel
  {
    var read := Getline(input, line);
    var next, l := read.0, read.1;
    var f: nat := fuel - 1;
    var later := Session(index, Lines(next.rest));
    SessionStep(index, input, line);
    if !Classify(l).Quit? {
      AsWrittenLoopAgrees(index, next, l, f);
    }
    LoopStep(index, input, line, fuel, next, l, f, later);
  }

  lemma AsWrittenSessionAgrees(index: seq<Entry>, text: Bytes, fuel: nat)
    requires EXIT in Lines(text) && fuel >= |Lines(text)|
    ensures AsWrittenSession(index, text, fuel) == Some(Session(index, Lines(text)))
  {
    AsWrittenLoopAgrees(index, Stdin(text, false), [], fuel);
  }
}
