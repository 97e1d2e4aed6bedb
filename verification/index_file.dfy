/** The persisted inverted index: a text file with one line per term,
    `word:id id ...`, each line ended by a newline. inverted_index.cpp writes
    it and load_index in boolean_search.cpp reads it back. */
module IndexFile {
  import opened ByteStrings
  import opened Wrappers
  import opened Decimal
  import SetOps

  /** One posting entry: a term and its document ids */
  datatype Entry = Entry(word: Bytes, ids: seq<int>)

  /** The table invariant binary_search_index relies on: words strictly
      ascending, so each word appears at most once */
  predicate SortedByWord(es: seq<Entry>) {
    forall i, j :: 0 <= i < j < |es| ==> Less(es[i].word, es[j].word)
  }

  /** Every id list in the index is strictly ascending */
  predicate IdsIncreasing(es: seq<Entry>) {
    forall k :: 0 <= k < |es| ==> SetOps.Increasing(es[k].ids)
  }

  /** The line of one entry, without its newline */
  function Line(e: Entry): Bytes {
    e.word + [COLON] + ShowInts(e.ids)
  }

  /** A line starts with the word and a ':' and has no newline after them */
  lemma LineShape(e: Entry)
    ensures |Line(e)| > |e.word| && Line(e)[..|e.word|] == e.word && Line(e)[|e.word|] == COLON
    ensures NEWLINE !in Line(e)[|e.word|..]
  {
    ShowIntsBytes(e.ids);
    assert Line(e)[|e.word|..] == [COLON] + ShowInts(e.ids);
  }

  /** The whole file: every line followed by a newline */
  function Serialize(es: seq<Entry>): Bytes {
    if |es| == 0 then [] else Line(es[0]) + [NEWLINE] + Serialize(es[1..])
  }

  /** The last line of a file is the last entry's, with its newline */
  lemma {:induction false} SerializeLast(es: seq<Entry>)
    requires |es| > 0
    ensures Serialize(es) == Serialize(es[..|es| - 1]) + Line(es[|es| - 1]) + [NEWLINE]
  {
    var n := |es|;
    if n > 1 {
      var init, tail := es[..n - 1], es[1..];
      var head := Line(es[0]) + [NEWLINE];
      SerializeLast(tail);
      assert init[1..] == tail[..n - 2] && init[0] == es[0];
      assert Serialize(init) == head + Serialize(tail[..n - 2]);
      assert Serialize(es) == head + Serialize(tail);
      var t, last := Serialize(tail[..n - 2]), Line(es[n - 1]);
      assert tail[|tail| - 1] == es[n - 1];
      AppendAssoc(head, t + last, [NEWLINE]);
      AppendAssoc(head, t, last);
    }
  }

  /** The lines std::getline returns one after another: the text is cut at
      each newline, the newline itself is dropped, and a last line without a
      newline is still returned. */
  function Lines(s: Bytes): (r: seq<Bytes>)
    ensures forall k :: 0 <= k < |r| ==> NEWLINE !in r[k]
    decreases |s|
  {
    if |s| == 0 then []
    else match IndexOf(s, NEWLINE)
      case None => [s]
      case Some(k) => [s[..k]] + Lines(s[k + 1..])
  }

  /** A line without a newline, then a newline, is read as that line */
  lemma LinesCons(line: Bytes, rest: Bytes)
    requires NEWLINE !in line
    ensures Lines(line + [NEWLINE] + rest) == [line] + Lines(rest)
  {
    var s := line + [NEWLINE] + rest;
    IndexOfAfterPrefix(line, NEWLINE, rest);
    assert s[..|line|] == line && s[|line| + 1..] == rest;
  }

  /** The body of the load_index loop for one line: empty lines and lines
      without ':' are skipped; otherwise the word is the text before the first
      ':' and the ids are the integers `ss >> id` reads after it. */
  function ParseLine(line: Bytes): (r: Option<Entry>)
    ensures r.None? <==> COLON !in line
    ensures r.Some? ==> COLON !in r.value.word && IsPrefix(r.value.word + [COLON], line)
    ensures r.Some? ==> r.value.ids == ReadInts(line[|r.value.word| + 1..])
  {
    if |line| == 0 then None
    else match IndexOf(line, COLON)
      case None => None
      case Some(c) =>
        assert line[..c + 1] == line[..c] + [COLON];
        Some(Entry(line[..c], ReadInts(line[c + 1..])))
  }

  function ParseLines(lines: seq<Bytes>): (r: seq<Entry>)
    ensures |r| <= |lines|
  {
    if |lines| == 0 then []
    else match ParseLine(lines[0])
      case None => ParseLines(lines[1..])
      case Some(e) => [e] + ParseLines(lines[1..])
  }

  /** load_index: a file that cannot be opened (None) gives an empty index */
  function LoadIndex(file: Option<Bytes>): (r: seq<Entry>)
    ensures file.None? ==> r == []
    ensures forall k :: 0 <= k < |r| ==> COLON !in r[k].word && NEWLINE !in r[k].word
  {
    match file
    case None => []
    case Some(text) => LoadedWords(Lines(text)); ParseLines(Lines(text))
  }

  lemma {:induction false} LoadedWords(lines: seq<Bytes>)
    requires forall k :: 0 <= k < |lines| ==> NEWLINE !in lines[k]
    ensures forall k :: 0 <= k < |ParseLines(lines)| ==>
      COLON !in ParseLines(lines)[k].word && NEWLINE !in ParseLines(lines)[k].word
  {
    if |lines| > 0 {
      LoadedWords(lines[1..]);
      match ParseLine(lines[0])
      case None =>
      case Some(e) =>
        assert e.word == lines[0][..|e.word|];
        assert NEWLINE !in e.word;
    }
  }

  /** Predicate on the words the text format can carry */
  predicate Writable(e: Entry) {
    COLON !in e.word && NEWLINE !in e.word
  }

  lemma ParseWrittenLine(e: Entry)
    requires Writable(e)
    ensures ParseLine(Line(e)) == Some(e)
  {
    var line := Line(e);
    LineShape(e);
    IndexOfAfterPrefix(e.word, COLON, ShowInts(e.ids));
    assert line[|e.word| + 1..] == ShowInts(e.ids);
    ReadShowInts(e.ids);
  }

  /** A line whose id list is followed by a space and text without digits
      (a hand-edited "a:1 2 x 3", say) keeps the leading run of ids only:
      `ss >> id` stops at the first failure. */
  lemma ParseLineLeadingRun(word: Bytes, ids: seq<int>, rest: Bytes)
    requires COLON !in word
    requires forall i :: 0 <= i < |rest| ==> !IsDigit(rest[i])
    ensures ParseLine(word + [COLON] + (ShowInts(ids) + [SPACE] + rest)) == Some(Entry(word, ids))
  {
    var tail := ShowInts(ids) + [SPACE] + rest;
    var line := word + [COLON] + tail;
    IndexOfAfterPrefix(word, COLON, tail);
    assert line[..|word|] == word && line[|word| + 1..] == tail;
    ReadShowIntsThen(ids, rest);
    ReadIntsNoDigit(rest);
    assert ids + [] == ids;
  }

  /** The lines of the entries, without newlines */
  function EntryLines(es: seq<Entry>): seq<Bytes> {
    if |es| == 0 then [] else [Line(es[0])] + EntryLines(es[1..])
  }

  lemma LineHasNoNewline(e: Entry)
    requires NEWLINE !in e.word
    ensures NEWLINE !in Line(e)
  {
    var line := Line(e);
    LineShape(e);
    assert line == e.word + line[|e.word|..];
  }

  lemma {:induction false} LinesOfSerialized(es: seq<Entry>)
    requires forall k :: 0 <= k < |es| ==> Writable(es[k])
    ensures Lines(Serialize(es)) == EntryLines(es)
  {
    if |es| > 0 {
      var line := Line(es[0]);
      var rest := Serialize(es[1..]);
      LineHasNoNewline(es[0]);
      LinesCons(line, rest);
      assert Serialize(es) == line + [NEWLINE] + rest;
      LinesOfSerialized(es[1..]);
    }
  }

  /** Round trip: loading a written index gives back the entries, in order,
      when no word contains ':' or a newline. */
  lemma {:induction false} LoadSerialized(es: seq<Entry>)
    requires forall k :: 0 <= k < |es| ==> Writable(es[k])
    ensures LoadIndex(Some(Serialize(es))) == es
  {
    LinesOfSerialized(es);
    ParseWrittenLines(es);
  }

  lemma {:induction false} ParseWrittenLines(es: seq<Entry>)
    requires forall k :: 0 <= k < |es| ==> Writable(es[k])
    ensures ParseLines(EntryLines(es)) == es
  {
    if |es| > 0 {
      ParseWrittenLine(es[0]);
      assert EntryLines(es)[1..] == EntryLines(es[1..]);
      ParseWrittenLines(es[1..]);
      HeadTail(es);
    }
  }
}
