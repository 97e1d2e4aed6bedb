/** inverted_index.cpp: collect a (word, doc id) pair for every word of every
    document, sort the pairs, and write one index line per word, dropping a
    pair equal to the one before it. */
module Builder {
  import opened ByteStrings
  import opened Wrappers
  import opened Decimal
  import Text
  import Sorting
  import opened IndexFile
  import SetOps

  /** IndexEntry of inverted_index.cpp: one occurrence of a word in a document */
  datatype Posting = Posting(word: Bytes, doc: int)

  /** IndexEntry::operator< : by word, then by document id */
  predicate PostingLess(a: Posting, b: Posting) {
    if a.word != b.word then Less(a.word, b.word) else a.doc < b.doc
  }

  /** operator< is a strict total order */
  lemma PostingLessStrictTotal(a: Posting, b: Posting, c: Posting)
    ensures !PostingLess(a, a)
    ensures PostingLess(a, b) ==> !PostingLess(b, a)
    ensures PostingLess(a, b) && PostingLess(b, c) ==> PostingLess(a, c)
    ensures a == b || PostingLess(a, b) || PostingLess(b, a)
  {
    LessIrreflexive(a.word);
    LessAsymmetric(a.word, b.word);
    LessTotal(a.word, b.word);
    if PostingLess(a, b) && PostingLess(b, c) && a.word != b.word && b.word != c.word {
      LessTransitive(a.word, b.word, c.word);
      LessIrreflexive(a.word);
    }
  }

  /** "a may stand before b" in the order std::sort establishes */
  predicate PostingLe(a: Posting, b: Posting) {
    !PostingLess(b, a)
  }

  lemma PostingOrder()
    ensures Sorting.TotalPreorder(PostingLe)
    ensures Sorting.Antisymmetric(PostingLe)
  {
    forall a, b, c {
      PostingLessStrictTotal(a, b, c);
    }
  }

  /** The document id of a file: stoi of the file name up to its first '.';
      None when the name has no '.' or stoi rejects the prefix, the cases in
      which the file is skipped. */
  function DocId(filename: Bytes): (r: Option<int>)
    ensures DOT !in filename ==> r.None?
    ensures r.Some? ==>
      exists k :: 0 <= k < |filename| && filename[k] == DOT && DOT !in filename[..k] && Stoi(filename[..k]) == r
  {
    match IndexOf(filename, DOT)
    case None => None
    case Some(k) => Stoi(filename[..k])
  }

  /** A file named after its id, as the corpus names them ("<id>.txt"), gets
      that id back. */
  lemma DocIdOfName(id: int, extension: Bytes)
    ensures DocId(ShowInt(id) + [DOT] + extension) == Some(id)
  {
    var name := ShowInt(id) + [DOT] + extension;
    assert DOT !in ShowInt(id);
    IndexOfAfterPrefix(ShowInt(id), DOT, extension);
    assert name[..|ShowInt(id)|] == ShowInt(id) + [];
    StoiShowInt(id, []);
  }

  /** A name whose part before the first '.' holds no digit ("readme.txt")
      is rejected by stoi, so the file is skipped. */
  lemma DocIdNoDigits(name: Bytes, k: nat)
    requires k < |name| && name[k] == DOT && DOT !in name[..k]
    requires forall i :: 0 <= i < k ==> !IsDigit(name[i])
    ensures DocId(name).None?
  {
    IndexOfAfterPrefix(name[..k], DOT, name[k + 1..]);
    assert name == name[..k] + [DOT] + name[k + 1..];
    StoiNoDigit(name[..k]);
  }

  /** One input file: its name and its text */
  datatype Document = Document(name: Bytes, content: Bytes)

  function Tag(words: seq<Bytes>, id: int): (r: seq<Posting>)
    ensures |r| == |words|
    ensures forall k :: 0 <= k < |r| ==> r[k] == Posting(words[k], id)
  {
    if |words| == 0 then [] else [Posting(words[0], id)] + Tag(words[1..], id)
  }

  /** The pairs of one file, in reading order: none when it has no id */
  function DocPostings(d: Document): seq<Posting> {
    match DocId(d.name)
    case None => []
    case Some(id) => Tag(Text.Words(d.content), id)
  }

  /** The pairs of all files, in directory order */
  function Collect(docs: seq<Document>): (r: seq<Posting>)
    ensures forall k :: 0 <= k < |r| ==> |r[k].word| > 0 && Text.SepFree(r[k].word, IsSpace)
  {
    if |docs| == 0 then [] else DocPostings(docs[0]) + Collect(docs[1..])
  }

  /** A pair is collected exactly when some file with a valid id holds the word */
  lemma {:induction false} CollectMember(docs: seq<Document>, p: Posting)
    ensures p in Collect(docs) <==> exists k :: 0 <= k < |docs| && p in DocPostings(docs[k])
  {
    if |docs| > 0 {
      CollectMember(docs[1..], p);
      if exists k :: 0 <= k < |docs| && p in DocPostings(docs[k]) {
        var k :| 0 <= k < |docs| && p in DocPostings(docs[k]);
        if k > 0 {
          assert docs[1..][k - 1] == docs[k];
        }
      }
      if exists k :: 0 <= k < |docs[1..]| && p in DocPostings(docs[1..][k]) {
        var k :| 0 <= k < |docs[1..]| && p in DocPostings(docs[1..][k]);
        assert docs[k + 1] == docs[1..][k];
      }
    }
  }

  /** The pairs of one file: each of its words with its id, when it has one */
  lemma DocPostingsMember(d: Document, p: Posting)
    ensures p in DocPostings(d) <==> DocId(d.name) == Some(p.doc) && p.word in Text.Words(d.content)
  {
    if DocId(d.name).Some? {
      var ws := Text.Words(d.content);
      var tagged := DocPostings(d);
      if p in tagged {
        var k :| 0 <= k < |tagged| && tagged[k] == p;
        assert ws[k] == p.word;
      }
      if DocId(d.name) == Some(p.doc) && p.word in ws {
        var k :| 0 <= k < |ws| && ws[k] == p.word;
        assert tagged[k] == p;
      }
    }
  }

  /** The index so far ends with the entry of pair `prev`: its word, and its
      id as the last id */
  predicate EndsWith(g: seq<Entry>, prev: Posting) {
    && |g| > 0
    && g[|g| - 1].word == prev.word
    && |g[|g| - 1].ids| > 0
    && g[|g| - 1].ids[|g[|g| - 1].ids| - 1] == prev.doc
  }

  /** One step of the walk: a pair with the word of the pair before it adds
      its id to the last entry unless the id equals the previous pair's id; a
      pair with a new word starts a new entry. */
  function Push(g: seq<Entry>, prev: Posting, p: Posting): (r: seq<Entry>)
    requires EndsWith(g, prev)
    ensures EndsWith(r, p)
  {
    var last := g[|g| - 1];
    if p.word == prev.word then
      if p.doc != prev.doc then g[..|g| - 1] + [Entry(last.word, last.ids + [p.doc])]
      else g
    else g + [Entry(p.word, [p.doc])]
  }

  /** The entries the walk over the pairs produces */
  function Group(s: seq<Posting>): (r: seq<Entry>)
    ensures |s| == 0 <==> |r| == 0
    ensures |s| > 0 ==> EndsWith(r, s[|s| - 1])
    decreases |s|
  {
    if |s| == 0 then []
    else if |s| == 1 then [Entry(s[0].word, [s[0].doc])]
    else
      assert s[..|s| - 1][|s| - 2] == s[|s| - 2];
      Push(Group(s[..|s| - 1]), s[|s| - 2], s[|s| - 1])
  }

  lemma GroupSnoc(init: seq<Posting>, p: Posting)
    requires |init| > 0
    ensures Group(init + [p]) == Push(Group(init), init[|init| - 1], p)
  {
    var s := init + [p];
    assert s[..|s| - 1] == init;
  }

  lemma GroupPrefixStep(s: seq<Posting>, i: nat)
    requires 0 < i < |s|
    ensures Group(s[..i + 1]) == Push(Group(s[..i]), s[i - 1], s[i])
  {
    assert s[..i + 1] == s[..i] + [s[i]];
    GroupSnoc(s[..i], s[i]);
  }

  /** The pairs of one word with each of the ids */
  function IdPairs(word: Bytes, ids: seq<int>): (r: set<Posting>)
    ensures forall p :: p in r <==> p.word == word && p.doc in ids
  {
    if |ids| == 0 then {}
    else
      assert ids == ids[..|ids| - 1] + [ids[|ids| - 1]];
      IdPairs(word, ids[..|ids| - 1]) + {Posting(word, ids[|ids| - 1])}
  }

  /** The pairs an index holds: each word with each of its ids */
  function Flatten(g: seq<Entry>): set<Posting> {
    if |g| == 0 then {}
    else Flatten(g[..|g| - 1]) + IdPairs(g[|g| - 1].word, g[|g| - 1].ids)
  }

  lemma {:induction false} FlattenMember(g: seq<Entry>, p: Posting)
    ensures p in Flatten(g) <==> exists j :: 0 <= j < |g| && g[j].word == p.word && p.doc in g[j].ids
  {
    if |g| > 0 {
      var init := g[..|g| - 1];
      FlattenMember(init, p);
      if exists j :: 0 <= j < |g| && g[j].word == p.word && p.doc in g[j].ids {
        var j :| 0 <= j < |g| && g[j].word == p.word && p.doc in g[j].ids;
        if j < |g| - 1 {
          assert init[j] == g[j];
        }
      }
    }
  }

  /** One step of the walk adds exactly the new pair to the index */
  lemma PushPairs(g: seq<Entry>, prev: Posting, p: Posting)
    requires EndsWith(g, prev)
    ensures Flatten(Push(g, prev, p)) == Flatten(g) + {p}
  {
    var last := g[|g| - 1];
    var r := Push(g, prev, p);
    if p.word == prev.word {
      if p.doc != prev.doc {
        assert r[..|r| - 1] == g[..|g| - 1];
        assert IdPairs(last.word, last.ids + [p.doc]) == IdPairs(last.word, last.ids) + {p};
      } else {
        assert p == prev;
        assert p in IdPairs(last.word, last.ids);
      }
    } else {
      assert r[..|r| - 1] == g;
    }
  }

  /** Soundness and completeness: the written index holds exactly the
      collected pairs, whatever their order. */
  lemma {:induction false} GroupKeepsPairs(s: seq<Posting>)
    ensures Flatten(Group(s)) == set p | p in s
    decreases |s|
  {
    if |s| == 1 {
      assert Flatten(Group(s)) == {} + {s[0]};
    } else if |s| > 1 {
      var init, p := s[..|s| - 1], s[|s| - 1];
      var g, prev := Group(init), init[|init| - 1];
      InitLast(s);
      GroupKeepsPairs(init);
      assert Group(s) == Push(g, prev, p) by {
        GroupSnoc(init, p);
      }
      PushPairs(g, prev, p);
      assert (set x | x in s) == (set x | x in init) + {p};
    }
  }

  lemma AppendIncreasing(ids: seq<int>, d: int)
    requires SetOps.Increasing(ids) && |ids| > 0 && ids[|ids| - 1] < d
    ensures SetOps.Increasing(ids + [d])
  {
    assert forall k :: 0 <= k < |ids| ==> ids[k] <= ids[|ids| - 1];
  }

  lemma PushNewWordSorted(g: seq<Entry>, prev: Posting, p: Posting)
    requires EndsWith(g, prev) && SortedByWord(g)
    requires Less(prev.word, p.word)
    ensures SortedByWord(g + [Entry(p.word, [p.doc])])
  {
    var r := g + [Entry(p.word, [p.doc])];
    forall i, j | 0 <= i < j < |r|
      ensures Less(r[i].word, r[j].word)
    {
      if j == |r| - 1 && i < |g| - 1 {
        LessTransitive(g[i].word, g[|g| - 1].word, p.word);
      }
    }
  }

  /** A step of the walk over sorted pairs keeps words and ids ascending */
  lemma PushSorted(g: seq<Entry>, prev: Posting, p: Posting)
    requires EndsWith(g, prev) && SortedByWord(g) && IdsIncreasing(g)
    requires PostingLe(prev, p)
    ensures SortedByWord(Push(g, prev, p)) && IdsIncreasing(Push(g, prev, p))
  {
    var last := g[|g| - 1];
    if p.word == prev.word {
      if p.doc != prev.doc {
        AppendIncreasing(last.ids, p.doc);
        var r := Push(g, prev, p);
        assert forall k :: 0 <= k < |r| - 1 ==> r[k] == g[k];
      }
    } else {
      LessTotal(prev.word, p.word);
      PushNewWordSorted(g, prev, p);
    }
  }

  /** On sorted pairs the entries are in strictly ascending word order and
      each entry's ids are strictly ascending. */
  lemma {:induction false} GroupSorted(s: seq<Posting>)
    requires Sorting.SortedBy(s, PostingLe)
    ensures SortedByWord(Group(s)) && IdsIncreasing(Group(s))
    decreases |s|
  {
    if |s| > 1 {
      var init := s[..|s| - 1];
      var p := s[|s| - 1];
      assert s == init + [p];
      assert Sorting.SortedBy(init, PostingLe);
      GroupSorted(init);
      GroupSnoc(init, p);
      assert PostingLe(init[|init| - 1], p);
      PushSorted(Group(init), init[|init| - 1], p);
    }
  }

  /** On sorted pairs each entry's ids are exactly the documents in which
      its word was collected. */
  lemma EntryIdsExact(s: seq<Posting>, k: nat, d: int)
    requires Sorting.SortedBy(s, PostingLe)
    requires k < |Group(s)|
    ensures d in Group(s)[k].ids <==> Posting(Group(s)[k].word, d) in s
  {
    var g := Group(s);
    var p := Posting(g[k].word, d);
    GroupKeepsPairs(s);
    GroupSorted(s);
    FlattenMember(g, p);
    if p in s {
      assert p in Flatten(g);
      var j :| 0 <= j < |g| && g[j].word == p.word && p.doc in g[j].ids;
      if j < k {
        LessIrreflexive(g[j].word);
      } else if k < j {
        LessIrreflexive(g[k].word);
      }
    }
  }

  /** Every entry of the index has at least one id */
  lemma {:induction false} EntryNonEmpty(s: seq<Posting>, k: nat)
    requires k < |Group(s)|
    ensures |Group(s)[k].ids| > 0
    decreases |s|
  {
    if |s| > 1 {
      var init := s[..|s| - 1];
      var p := s[|s| - 1];
      assert s == init + [p];
      GroupSnoc(init, p);
      var g := Group(init);
      if k < |g| {
        EntryNonEmpty(init, k);
        assert Push(g, init[|init| - 1], p)[k] == g[k] || k == |g| - 1;
      }
    }
  }

  /** The text of the index while the walk is inside the last entry's line:
      every earlier line with its newline, then the open line. */
  function OpenText(g: seq<Entry>): Bytes
    requires |g| > 0
  {
    Serialize(g[..|g| - 1]) + Line(g[|g| - 1])
  }

  lemma StartLine(s: seq<Posting>)
    requires |s| > 0
    ensures OpenText(Group(s[..1])) == s[0].word + [COLON] + ShowInt(s[0].doc)
  {
    assert s[..1][0] == s[0];
  }

  /** `out << " " << doc_id` extends the open line by the new id */
  lemma PushIdText(g: seq<Entry>, prev: Posting, p: Posting)
    requires EndsWith(g, prev) && p.word == prev.word && p.doc != prev.doc
    ensures OpenText(Push(g, prev, p)) == OpenText(g) + [SPACE] + ShowInt(p.doc)
  {
    var last := g[|g| - 1];
    var r := Push(g, prev, p);
    assert r[..|r| - 1] == g[..|g| - 1];
    ShowIntsAppend(last.ids, p.doc);
  }

  /** `out << endl << word << ":" << doc_id` closes the line and opens the
      entry of the new word */
  lemma PushWordText(g: seq<Entry>, prev: Posting, p: Posting)
    requires EndsWith(g, prev) && p.word != prev.word
    ensures OpenText(Push(g, prev, p)) == OpenText(g) + [NEWLINE] + p.word + [COLON] + ShowInt(p.doc)
  {
    var r := Push(g, prev, p);
    assert r[..|r| - 1] == g;
    CloseLine(g);
  }

  lemma CloseLine(g: seq<Entry>)
    requires |g| > 0
    ensures OpenText(g) + [NEWLINE] == Serialize(g)
  {
    SerializeLast(g);
  }

  /** The walk of the output loop from pair i on, with g the entries of
      the pairs before i */
  function Walk(s: seq<Posting>, i: nat, g: seq<Entry>): seq<Entry>
    requires 0 < i <= |s| && EndsWith(g, s[i - 1])
    decreases |s| - i
  {
    if i == |s| then g else Walk(s, i + 1, Push(g, s[i - 1], s[i]))
  }

  /** Walking the rest of the pairs from the entries of a prefix gives the
      entries of all of them */
  lemma {:induction false} WalkGroup(s: seq<Posting>, i: nat, g: seq<Entry>)
    requires 0 < i <= |s| && g == Group(s[..i])
    ensures EndsWith(g, s[i - 1]) && Walk(s, i, g) == Group(s)
    decreases |s| - i
  {
    assert s[..i][i - 1] == s[i - 1];
    if i == |s| {
      assert s[..i] == s;
    } else {
      GroupPrefixStep(s, i);
      WalkGroup(s, i + 1, Push(g, s[i - 1], s[i]));
    }
  }

  /** One turn of the output loop of inverted_index.cpp: a repeated id is
      skipped, a new id of the same word is appended after a space, and a new
      word ends the line and opens its own. */
  method WriteStep(out: Bytes, currentWord: Bytes, ghost g: seq<Entry>, prev: Posting, p: Posting)
    returns (out': Bytes, currentWord': Bytes)
    requires EndsWith(g, prev) && currentWord == prev.word && out == OpenText(g)
    ensures out' == OpenText(Push(g, prev, p)) && currentWord' == p.word
  {
    out', currentWord' := out, currentWord;
    if p.word == currentWord {
      if p.doc != prev.doc {
        PushIdText(g, prev, p);
        out' := out' + [SPACE] + ShowInt(p.doc);
      }
    } else {
      PushWordText(g, prev, p);
      out' := out' + [NEWLINE];
      currentWord' := p.word;
      out' := out' + currentWord' + [COLON] + ShowInt(p.doc);
    }
  }

  /** The output loop of inverted_index.cpp over the sorted pairs: every
      line is written, the last one still open */
  method WriteLines(entries: seq<Posting>) returns (text: Bytes)
    requires |entries| > 0
    ensures text == OpenText(Group(entries))
  {
    var currentWord := entries[0].word;
    text := currentWord + [COLON] + ShowInt(entries[0].doc);
    StartLine(entries);
    var i := 1;
    ghost var g := Group(entries[..1]);
    WalkGroup(entries, 1, g);
    while i < |entries|
      invariant 1 <= i <= |entries| && EndsWith(g, entries[i - 1])
      invariant Walk(entries, i, g) == Group(entries)
      invariant currentWord == entries[i - 1].word && text == OpenText(g)
    {
      var prev, p := entries[i - 1], entries[i];
      text, currentWord := WriteStep(text, currentWord, g, prev, p);
      g := Push(g, prev, p);
      i := i + 1;
    }
  }

  /** The whole output file: the loop, then the `endl` that ends the last
      line; no pairs give an empty file */
  method WriteIndex(entries: seq<Posting>) returns (text: Bytes)
    ensures text == Serialize(Group(entries))
    ensures |entries| == 0 ==> text == []
  {
    if |entries| == 0 {
      return [];
    }
    text := WriteLines(entries);
    CloseLine(Group(entries));
    text := text + [NEWLINE];
  }

  /** sort(entries.begin(), entries.end()) */
  function SortPostings(s: seq<Posting>): (r: seq<Posting>)
    ensures Sorting.SortedBy(r, PostingLe)
    ensures multiset(r) == multiset(s)
  {
    PostingOrder();
    Sorting.InsertionSort(s, PostingLe)
  }

  /** std::sort does not fix an algorithm, but every sorted permutation of
      the pairs is the same sequence, so the index does not depend on it. */
  lemma AnySortSameIndex(s: seq<Posting>, sorted: seq<Posting>)
    requires Sorting.SortedBy(sorted, PostingLe)
    requires multiset(sorted) == multiset(s)
    ensures Group(sorted) == Group(SortPostings(s))
  {
    PostingOrder();
    Sorting.SortedPermutationUnique(sorted, SortPostings(s), PostingLe);
  }

  /** The entries of the index built from the files */
  function BuildEntries(docs: seq<Document>): seq<Entry> {
    Group(SortPostings(Collect(docs)))
  }

  /** main of inverted_index.cpp from the collected files to the index text */
  method Build(docs: seq<Document>) returns (text: Bytes)
    ensures text == Serialize(BuildEntries(docs))
    ensures SortedByWord(BuildEntries(docs)) && IdsIncreasing(BuildEntries(docs))
    ensures Flatten(BuildEntries(docs)) == set p | p in Collect(docs)
    ensures |Collect(docs)| == 0 <==> text == []
  {
    var pairs := Collect(docs);
    var sorted := SortPostings(pairs);
    text := WriteIndex(sorted);
    BuiltEntries(pairs, sorted);
  }

  /** What sorting and the walk give for any collected pairs */
  lemma BuiltEntries(pairs: seq<Posting>, sorted: seq<Posting>)
    requires sorted == SortPostings(pairs)
    ensures SortedByWord(Group(sorted)) && IdsIncreasing(Group(sorted))
    ensures Flatten(Group(sorted)) == set p | p in pairs
    ensures |pairs| == 0 <==> Serialize(Group(sorted)) == []
  {
    GroupSorted(sorted);
    GroupKeepsPairs(sorted);
    SameElements(pairs, sorted);
    assert |sorted| == |pairs| by {
      assert |multiset(sorted)| == |multiset(pairs)|;
    }
    if |sorted| > 0 {
      LineShape(Group(sorted)[0]);
    }
  }

  lemma SameElements<T>(a: seq<T>, b: seq<T>)
    requires multiset(a) == multiset(b)
    ensures (set x | x in a) == (set x | x in b)
  {
    assert forall x :: x in a <==> x in multiset(a);
    assert forall x :: x in b <==> x in multiset(b);
  }

  /** Loading the written index gives back the built entries whenever no
      collected word contains ':' (the words hold no whitespace). */
  lemma {:induction false} BuildLoadRoundTrip(docs: seq<Document>)
    requires forall k :: 0 <= k < |Collect(docs)| ==> COLON !in Collect(docs)[k].word
    ensures LoadIndex(Some(Serialize(BuildEntries(docs)))) == BuildEntries(docs)
  {
    var pairs := Collect(docs);
    var sorted := SortPostings(pairs);
    var g := Group(sorted);
    GroupKeepsPairs(sorted);
    forall k | 0 <= k < |g|
      ensures Writable(g[k])
    {
      assert |g[k].ids| > 0 by {
        EntryNonEmpty(sorted, k);
      }
      var p := Posting(g[k].word, g[k].ids[0]);
      FlattenMember(g, p);
      assert p in Flatten(g);
      assert p in multiset(sorted);
      assert p in pairs;
      var j :| 0 <= j < |pairs| && pairs[j] == p;
      assert NEWLINE !in p.word by {
        assert IsSpace(NEWLINE);
      }
    }
    LoadSerialized(g);
  }
}
