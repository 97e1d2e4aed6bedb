# Boolean retrieval pipeline — a Dafny model

This project models the text-retrieval pipeline of a small C++ search system
over a Russian-language corpus:

- the **tokenizer** replaces a few typographic characters with spaces and cuts
  the text into maximal runs of non-separator bytes, writing the tokens longer
  than one byte;
- the **stemmer** strips the first matching ending from a fixed, ordered table
  of Russian endings from words longer than six bytes;
- the **posting builder** collects a `(word, doc id)` pair for every word of
  every stemmed file, sorts the pairs with `IndexEntry::operator<`, and writes
  one `word:id id ...` line per word, dropping repeated ids;
- the **query engine** loads that index, looks each query term up by binary
  search after stemming it, and folds the posting lists left to right with
  `&` (intersection), `|` (union) and `!` (difference), each a two-pointer
  merge;
- the **frequency counter** counts the words of the stemmed files by walking
  runs of the sorted word list, ranks them by descending count, and writes
  `rank,word,frequency` rows.

Strings are byte strings (`seq<Byte>`, UTF-8 handled byte by byte) ordered
lexicographically by unsigned byte value, as `std::string` compares them; so
the length tests `<= 6` and `> 1` count bytes, and a Cyrillic letter is two.
Each `main` reads files and streams; the model takes the contents of those
files as parameters (a sequence of documents, a sequence of file texts, the
bytes of standard input) and returns the bytes written.

The imperative algorithms — `replace_all`, the tokenizer scan, binary search,
the three merges, the index-writing walk, the counting walk and the loop over
the tokens of one query — are Dafny methods with loop invariants, proved equal
to recursive reference definitions. The `while (true)` loop of the query
program is not a method: it is modelled twice, as written by the fuel-bounded
function `Query.AsWrittenLoop`, and corrected by the recursive function
`Query.Session`. Properties relating several operations are lemmas:
the index written by the builder loads back to the same entries, the merges
are set intersection, union and difference on strictly increasing lists, the
counts of the frequency table are the occurrence counts of the words, and so on.

The index file is text: `inverted_index.cpp` writes, and `load_index` reads,
the format `word:id id ...` with one line per word. The code has no binary
index codec. The encode/decode round trip proved here is the one for this
text format (`Builder.BuildLoadRoundTrip`, `IndexFile.LoadSerialized`).

Modules: `Wrappers` (Option), `ByteStrings` (bytes, order, `find`), `Text`
(splitting at separators, `>>` word extraction), `Decimal` (`<<`/`>>` of
integers, `stoi`), `Sorting` (`std::sort` by its postcondition), `Stemmer`,
`Tokenizer`, `SetOps` (the merges), `IndexFile` (the index text format and
`load_index`), `Builder` (`inverted_index.cpp`), `Query` (`boolean_search.cpp`
lookup, fold and query loop), `Zipf` (`zipf_counter.cpp`).

## Model

| member | source | states |
|---|---|---|
| ByteStrings.LessIrreflexive | inverted_index.cpp:16-17 | no word orders before itself under `std::string` `<` |
| ByteStrings.LessAsymmetric | inverted_index.cpp:16-17 | if a orders before b then b does not order before a |
| ByteStrings.LessTransitive | inverted_index.cpp:16-17 | the byte-string order is transitive |
| ByteStrings.LessTotal | inverted_index.cpp:16-17 | any two different byte strings are ordered one way or the other |
| ByteStrings.IndexOf | boolean_search.cpp:47-48 | `find(':')` gives the first position holding the byte, and npos (None) exactly when the byte does not occur |
| Decimal.ShowInt | inverted_index.cpp:67 | `out << id` writes a leading minus exactly when the id is negative, and digits everywhere else; the first digit is 0 only for the id 0 |
| Decimal.ReadInt | boolean_search.cpp:55 | one `ss >> id` fails exactly when no digit follows the optional sign, and otherwise consumes at least one byte |
| Decimal.ReadShowInt | boolean_search.cpp:55 | reading back a written integer that no digit follows gives the same integer and consumes exactly its text |
| Decimal.Stoi | inverted_index.cpp:39 | `stoi` fails exactly when the text after leading whitespace does not start with an optionally signed digit run |
| Decimal.StoiShowInt | inverted_index.cpp:39 | `stoi` of a written integer followed by a non-digit is that integer |
| Decimal.StoiNoDigit | inverted_index.cpp:39 | `stoi` rejects text that holds no digit |
| Decimal.ReadShowInts | boolean_search.cpp:53-57 | the ids `ss >> id` reads from a written id list are exactly that list, in order |
| Decimal.ReadShowIntsThen | boolean_search.cpp:53-57 | a written id list followed by a space is read in full, and extraction goes on with the text after it |
| Decimal.ReadIntsNoDigit | boolean_search.cpp:56 | extraction from text without a digit reads no id: the loop stops at the first failed `ss >> id` |
| Decimal.ShowIntsAppend | inverted_index.cpp:72 | appending an id to a line adds one space and the id's text |
| Text.Split | boolean_search.cpp:147 | every piece is non-empty and holds no separator byte |
| Text.Words | boolean_search.cpp:147 | the words `>>` extracts are non-empty and hold no whitespace byte |
| Text.RemoveSeps | tokenizer.cpp:39-47 | the kept bytes hold no separator |
| Text.SplitDropSep | tokenizer.cpp:40-44 | a separator at the start of the text never changes the pieces |
| Text.SplitAtSep | tokenizer.cpp:40-44 | a pending run ended by a separator becomes one piece (none when empty) followed by the pieces of the rest |
| Text.SplitKeepsContent | tokenizer.cpp:39-52 | the concatenated pieces are exactly the non-separator bytes of the text, in order |
| Text.SplitJoin | boolean_search.cpp:147 | joining non-empty separator-free words with a separator and splitting again returns the words |
| Sorting.InsertionSort | inverted_index.cpp:59 | the result is sorted under the comparator and is a permutation of the input |
| Sorting.SortedPermutationUnique | inverted_index.cpp:59 | under an antisymmetric order two sorted permutations of the same elements are equal |
| Stemmer.FirstStrip | stemmer.cpp:23-28 | the position found is the first in table order whose ending is a proper suffix of the word; None when no ending is |
| Stemmer.StemWith | boolean_search.cpp:17-33 | for any ending table: the result is a prefix of the word, a word of at most 6 bytes is unchanged, otherwise exactly the first strippable ending is removed, and a word no ending strips is unchanged; a non-empty word never becomes empty |
| Stemmer.Stem | stemmer.cpp:20-31 | the same properties with the 49-entry ending table of the source |
| Stemmer.RepeatedEndingsNeverChosen | stemmer.cpp:12-18 | the four endings listed twice are never the ones stripped at their second position |
| Tokenizer.SeparatorsAreAscii | tokenizer.cpp:22-25 | no byte of 0x80 and above (and not \0, \v or \f) is a separator |
| Tokenizer.FindFrom | tokenizer.cpp:16 | `find(from, start)` gives the leftmost occurrence at or after start, and npos when there is none |
| Tokenizer.ReplacedWithoutOccurrence | tokenizer.cpp:16 | text with no occurrence of the pattern is left unchanged |
| Tokenizer.ReplacedAtFirstOccurrence | tokenizer.cpp:16-18 | the result keeps the text before the first occurrence, then the replacement, then replaces in the text after the occurrence |
| Tokenizer.Advance | tokenizer.cpp:17-18 | one round splices `to` in at the occurrence, resumes after the inserted text, and leaves strictly less text to scan |
| Tokenizer.ReplaceAll | tokenizer.cpp:13-20 | `replace_all` returns the string unchanged for an empty pattern, and otherwise replaces occurrences left to right without overlaps and without rescanning inserted text |
| Tokenizer.ApplyReplacements | tokenizer.cpp:28-34 | the seven replacements are applied in source order, each replacing its character by one space |
| Tokenizer.SplitTokens | tokenizer.cpp:36-52 | the scan emits exactly the maximal separator-free runs, left to right |
| Tokenizer.Tokenize | tokenizer.cpp:27-55 | no token is empty, no token holds a separator, and the tokens concatenate to the replaced text without its separators |
| Tokenizer.WrittenTokens | tokenizer.cpp:77-81 | a token reaches the output exactly when it is longer than one byte, and the output keeps the order of the tokens (it is a subsequence of them) |
| Tokenizer.WrittenTokensCount | tokenizer.cpp:77-81 | every token longer than one byte is written as many times as it occurs, repeats included, and a shorter one never |
| Tokenizer.WrittenTokensAppend | tokenizer.cpp:77-81 | the tokens written for two stretches of tokens are those of the first followed by those of the second |
| Tokenizer.TokenFileWords | tokenizer.cpp:77-81 | the written file, read back with `>>`, gives the written tokens when they hold no whitespace byte |
| SetOps.Intersect | boolean_search.cpp:81-95 | every element of the result is in both lists, and it is no longer than either |
| SetOps.IntersectIsIntersection | boolean_search.cpp:81-95 | on strictly increasing lists the result is strictly increasing and holds exactly the common elements |
| SetOps.IntersectLists | boolean_search.cpp:81-95 | the loop computes the merge; on strictly increasing lists the result is strictly increasing and is their intersection |
| SetOps.Union | boolean_search.cpp:97-115 | the result holds exactly the elements of either list |
| SetOps.UnionIsUnion | boolean_search.cpp:97-115 | on strictly increasing lists the result is strictly increasing and is their union |
| SetOps.UniteLists | boolean_search.cpp:97-115 | the loop and the two copy loops compute the merge; the result holds exactly the elements of either list, strictly increasing when both inputs are |
| SetOps.CopyRest | boolean_search.cpp:112-113 | a copy loop appends exactly the rest of the list |
| SetOps.Diff | boolean_search.cpp:117-132 | the result is no longer than the first list and holds only its elements |
| SetOps.Without | boolean_search.cpp:117-132 | reference difference: exactly the elements of a that are not in b |
| SetOps.DiffIsWithout | boolean_search.cpp:117-132 | on strictly increasing lists `diff_lists` is the subsequence of a whose elements are not in b |
| SetOps.DiffLists | boolean_search.cpp:117-132 | the loop computes the merge; on strictly increasing lists it is the subsequence of a not in b |
| SetOps.WithoutIncreasing | boolean_search.cpp:117-132 | the difference of a strictly increasing list stays strictly increasing |
| SetOps.IntersectCommutes | boolean_search.cpp:81-95 | intersection is commutative on strictly increasing lists |
| SetOps.UnionCommutes | boolean_search.cpp:97-115 | union is commutative on strictly increasing lists |
| SetOps.DiffNotCommutative | boolean_search.cpp:117-132 | difference is not commutative |
| SetOps.MergeIdentities | boolean_search.cpp:81-132 | uniting with an empty list gives the other list, `diff(a, [])` is a, `diff([], b)` and intersection with an empty list are empty |
| IndexFile.Lines | boolean_search.cpp:44 | the lines `getline` returns hold no newline |
| IndexFile.LinesCons | boolean_search.cpp:44 | a line ended by a newline is read as that line, then the lines of the rest |
| IndexFile.ParseLine | boolean_search.cpp:45-57 | a line is skipped exactly when it has no ':' (empty lines included); otherwise the word is the text before the first ':' and the ids are the integers `ss >> id` extracts from the text after it |
| IndexFile.ParseLineLeadingRun | boolean_search.cpp:45-57 | a line with a written id list, then a space and text without digits, loads as its word with exactly that id list: the ids are the leading run of integers |
| IndexFile.LoadIndex | boolean_search.cpp:35-61 | a file that cannot be opened gives an empty index; no loaded word holds ':' or a newline |
| IndexFile.ParseWrittenLine | boolean_search.cpp:47-57 | parsing the line written for an entry gives the entry back |
| IndexFile.SerializeLast | inverted_index.cpp:75-80 | every line of the file, the last included, ends with a newline |
| IndexFile.LoadSerialized | boolean_search.cpp:35-61 | loading the text of entries whose words hold no ':' or newline gives the entries back, in order |
| Query.SearchRange | boolean_search.cpp:67-78 | an answer other than -1 is a position between left and right holding the word |
| Query.Search | boolean_search.cpp:63-79 | an answer other than -1 is a position holding the word, and an empty table gives -1, whether or not the table is sorted |
| Query.SearchRangeSorted | boolean_search.cpp:67-78 | on a table sorted by word, with only smaller words left of `left` and larger right of `right`, the search misses only an absent word |
| Query.SearchSorted | boolean_search.cpp:63-79 | on a table sorted by word the search answers -1 exactly when the word has no entry |
| Query.BinarySearch | boolean_search.cpp:63-79 | the loop computes the search above on every table, sorted or not |
| Query.Find | boolean_search.cpp:63-79 | reference lookup: the first position holding the word, None exactly when absent |
| Query.SortedWordUnique | boolean_search.cpp:63-79 | in a table sorted by word a word has at most one entry |
| Query.Postings | boolean_search.cpp:152-154 | reference lookup: an absent word has no ids; on a sorted table a present word has the ids of its entry |
| Query.Lookup | boolean_search.cpp:151-154 | the ids main takes for a word are empty or those of an entry for that word, and on a sorted table equal the reference lookup |
| Query.LookupOnUnsortedTable | boolean_search.cpp:63-79 | on the table with "b" before "a" the binary search misses "a", which the reference lookup finds |
| Query.LookUp | boolean_search.cpp:151-154 | the term is stemmed and binary-searched; the ids are those of the entry found, or empty when the search answers -1, on every table; on a sorted table they equal the reference lookup |
| Query.Apply | boolean_search.cpp:166-172 | on strictly increasing lists the operators `&`, or and `!` give intersection, union and difference, an unknown operator keeps the current list, and the result stays strictly increasing |
| Query.EvaluateQuery | boolean_search.cpp:151-173 | the loop over the tokens equals the left-to-right fold on every table; on an index with increasing id lists the result is strictly increasing |
| Query.FoldIncreasing | boolean_search.cpp:156-173 | every step of the fold keeps the current list strictly increasing |
| Query.FoldAppend | boolean_search.cpp:156-173 | operators have no precedence: appending `op term` applies op to the result of the query so far |
| Query.FoldTrailingToken | boolean_search.cpp:157 | a trailing operator with no term after it is ignored |
| Query.EvaluateTwoTerms | boolean_search.cpp:151-173 | a query `a op b` applies op to the postings of a and b |
| Query.TwoTermsCommute | boolean_search.cpp:166-169 | swapping the two terms of an intersection or of a union does not change the result |
| Query.SampleQueries | boolean_search.cpp:151-173 | on an index with cat in 1, 3 and dog in 1, 2: `cat & dog` is [1], the union of cat and dog is [1, 2, 3], `cat ! dog` is [3] |
| Query.Classify | boolean_search.cpp:141-149 | `exit` quits; a line with no words is skipped; any other line is a query over its whitespace-separated words |
| Query.Getline | boolean_search.cpp:140 | once end of file is set the call leaves `line` unchanged; the first read with nothing left clears it and sets end of file |
| Query.GetlineReadsLine | boolean_search.cpp:140 | a successful read returns the next line of the input |
| Query.AsWrittenLoopNeverEnds | boolean_search.cpp:138-142 | with no `exit` line the loop as written does not end, for any number of iterations |
| Query.AsWrittenEmptyInputNeverEnds | boolean_search.cpp:138-142 | on empty standard input the loop as written does not end, while the corrected session prints nothing and ends |
| Query.Session | boolean_search.cpp:138-186 | corrected loop: at most one answer per input line, ending at `exit` or at the end of the input; terms are looked up by binary search as in `main` |
| Query.SessionOnUnsortedTable | boolean_search.cpp:151-154 | on a table not sorted by word a session answers as `main` does: the query `a` finds nothing on the table with "b" before "a" |
| Query.SessionStopsAtExit | boolean_search.cpp:141 | nothing after an `exit` line is read |
| Query.SessionAppend | boolean_search.cpp:138-186 | without `exit`, a further line adds exactly its own answer, if it is a query |
| Query.AsWrittenLoopAgrees | boolean_search.cpp:138-186 | when the input holds an `exit` line the loop as written and the corrected session print the same answers |
| Query.AsWrittenSessionAgrees | boolean_search.cpp:136-186 | the same, starting from the empty `line` of `main` |
| Builder.PostingLessStrictTotal | inverted_index.cpp:15-20 | `operator<` is irreflexive, asymmetric, transitive and total on distinct pairs |
| Builder.PostingOrder | inverted_index.cpp:15-20 | "not after" under `operator<` is a total preorder and antisymmetric, so the sorted order is unique |
| Builder.DocId | inverted_index.cpp:34-39 | a file name without '.' gets no id; an id a file does get is `stoi` of the name before its first '.' |
| Builder.DocIdNoDigits | inverted_index.cpp:34-39 | a name whose part before the first '.' holds no digit gets no id, so the file is skipped |
| Builder.DocIdOfName | inverted_index.cpp:35-39 | a file named `<id>.<extension>` gets that id |
| Builder.Tag | inverted_index.cpp:44-46 | each word read from a file becomes one pair with the file's id, in order |
| Builder.Collect | inverted_index.cpp:33-53 | every collected word is non-empty and holds no whitespace |
| Builder.CollectMember | inverted_index.cpp:33-53 | a pair is collected exactly when some file with a valid id holds the word |
| Builder.DocPostingsMember | inverted_index.cpp:38-52 | a file contributes exactly its words paired with its id, and nothing when stoi fails |
| Builder.Push | inverted_index.cpp:70-78 | after a step the last entry ends with the new pair's word and id |
| Builder.Group | inverted_index.cpp:64-81 | no pairs give no entries; otherwise the last entry ends with the last pair |
| Builder.PushPairs | inverted_index.cpp:70-78 | each step adds exactly the new pair to the pairs the index holds |
| Builder.GroupKeepsPairs | inverted_index.cpp:64-80 | soundness and completeness: the index holds exactly the collected pairs |
| Builder.PushSorted | inverted_index.cpp:69-78 | a step over sorted pairs keeps words and ids strictly ascending |
| Builder.GroupSorted | inverted_index.cpp:59-79 | on sorted pairs there is one entry per word, words strictly ascending, ids strictly ascending on each line |
| Builder.EntryIdsExact | inverted_index.cpp:71-73 | an entry's ids are exactly the documents in which its word was collected, a repeated pair written once |
| Builder.EntryNonEmpty | inverted_index.cpp:65-77 | every line carries at least one id |
| Builder.PushIdText | inverted_index.cpp:71-73 | a new id of the same word extends the open line by a space and the id |
| Builder.PushWordText | inverted_index.cpp:74-77 | a new word ends the line with a newline and opens `word:id` |
| Builder.WalkGroup | inverted_index.cpp:69-79 | walking the remaining pairs from the entries of a prefix gives the entries of all pairs |
| Builder.WriteStep | inverted_index.cpp:70-78 | one loop turn writes exactly the text of one walk step |
| Builder.WriteLines | inverted_index.cpp:64-79 | the loop writes every line of the grouped entries, the last still open |
| Builder.WriteIndex | inverted_index.cpp:64-81 | the output is the text of the grouped entries; no pairs, nothing written |
| Builder.SortPostings | inverted_index.cpp:59 | the pairs are sorted by `operator<` and permuted, not changed |
| Builder.AnySortSameIndex | inverted_index.cpp:59 | whichever sorted permutation std::sort produces, the index is the same |
| Builder.Build | inverted_index.cpp:27-81 | the file is the text of the entries; words and ids ascend; the entries hold exactly the collected pairs; the file is empty exactly when nothing was collected |
| Builder.BuiltEntries | inverted_index.cpp:59-81 | the same properties for any collected pairs |
| Builder.BuildLoadRoundTrip | inverted_index.cpp:64-81 | loading the written index gives back the built entries, in order, when no word holds ':' |
| Zipf.FreqOrder | zipf_counter.cpp:16-18 | "not after" under `compareFreq` is a total preorder |
| Zipf.FrequencyOrderNotUnique | zipf_counter.cpp:65 | records with equal counts may come out in either order |
| Zipf.NonEmpty | zipf_counter.cpp:33-35 | only non-empty words are collected |
| Zipf.NonEmptyKeepsWords | zipf_counter.cpp:32-35 | the length filter drops none of the words `>>` extracts |
| Zipf.LoadWords | zipf_counter.cpp:27-38 | every loaded word is non-empty and holds no whitespace |
| Zipf.WordOrder | zipf_counter.cpp:47 | the word order is a total preorder and antisymmetric |
| Zipf.SortWords | zipf_counter.cpp:47 | the words are sorted and permuted, not changed |
| Zipf.Bump | zipf_counter.cpp:55-60 | a step keeps counts positive and neighbouring records distinct |
| Zipf.Runs | zipf_counter.cpp:52-63 | no words give no records; counts are at least 1; neighbouring records have different words |
| Zipf.RunsFromPrefix | zipf_counter.cpp:54-62 | walking the remaining words from the records of a prefix gives the records of all words |
| Zipf.CountFrequencies | zipf_counter.cpp:52-63 | the loop computes the run records, and repeating each word by its count gives back the word list |
| Zipf.RunsExpand | zipf_counter.cpp:52-63 | the records lose and invent no occurrence |
| Zipf.ExpandLength | zipf_counter.cpp:53-62 | the counts sum to the number of words |
| Zipf.ExpandCount | zipf_counter.cpp:53-62 | with distinct words each record's count is its word's number of occurrences |
| Zipf.RunsIncreasing | zipf_counter.cpp:47-63 | after sorting, records have strictly ascending words, so each word has one record |
| Zipf.FrequenciesCount | zipf_counter.cpp:47-63 | one record per distinct word, count equal to its occurrences, counts summing to the number of words, no records for no words |
| Zipf.RankByFrequency | zipf_counter.cpp:65 | the ranked records are a permutation, counts never increase, and a higher count always stands earlier |
| Zipf.PermutedDistinct | zipf_counter.cpp:65 | ranking keeps records with different words different |
| Zipf.RowFields | zipf_counter.cpp:72 | a row splits at its commas into rank, word and count when the word holds no comma |
| Zipf.RowRank | zipf_counter.cpp:72 | the rank field of row i reads back as i + 1 |
| Zipf.CsvLines | zipf_counter.cpp:69-73 | the file reads back as the header line, then the rows |
| Zipf.CsvRanks | zipf_counter.cpp:69-73 | one line per record after the header, with ranks 1, 2, 3, ... in order |
| Zipf.ZipfTable | zipf_counter.cpp:24-73 | each loaded word is in exactly one output record, with its number of occurrences, and counts never increase down the file |

## Left out

- File-system and stream plumbing in every `main`: directory iteration, opening files, progress and error messages, timing. The contents of the files are parameters. Directory order is the order of the given sequence.
- The per-file loop of `stemmer.cpp` `main`, which writes each stemmed word followed by a space. It uses the same output format as `Tokenizer.TokenFile`, and `stem_word` itself is modelled.
- The result display of the query loop (boolean_search.cpp:175-185): the count, and the id list capped after 21 ids. This is presentation only.
- Query.Session: models the answers the loop computes, not the prompt and printing around them. Answers use the binary search of `main`, so on a table not sorted by word they can miss a word that is present, as `main` does. A loaded table is sorted whenever no indexed word holds ':' (`Builder.BuildLoadRoundTrip`).
- The `lab2_robot.py` crawler and the `export_to_txt.py` exporter: network, database and file I/O.
- Locale: `>>` and `stoi` follow the "C" locale (`isspace` is bytes 9-13 and 32).
- Decimal.Stoi: integers are unbounded, so the `out_of_range` exception `stoi` throws beyond `int` is not modelled. That exception is caught and the file skipped, like an invalid name.
- Decimal.ReadInt: integers are unbounded, so the failure of `ss >> id` on an id beyond `int` is not modelled.
- Query.BinarySearch: `int right = index.size() - 1` is modelled as `|index| - 1` on unbounded integers. This agrees with the conversion of the wrapped `size_t` to -1 for an empty table. Tables larger than `INT_MAX` entries are not modelled.
- Sorting.InsertionSort: `std::sort` is modelled by its postcondition (sorted permutation), which insertion sort witnesses. For `operator<` every sorted permutation is the same (`Builder.AnySortSameIndex`). For `compareFreq` it is not (`Zipf.FrequencyOrderNotUnique`), so only the postcondition is stated.
- Query.AsWrittenLoop: takes a fuel bound on the number of iterations, because the loop as written need not terminate. The lemmas quantify over all fuel values.

## Findings

| source | as written | input that shows it | evidently intended | confidence | as-written member | corrected member |
|---|---|---|---|---|---|---|
| boolean_search.cpp:138-142 | `while (true)` ignores the result of `getline(cin, line)` and leaves only on an `exit` line; at end of input every later `getline` fails and leaves `line` as it was (empty, or the last line when it had no newline), so the loop repeats forever | empty standard input, or any input without an `exit` line (end of input typed at the prompt) | the session ends at end of input, as `while (getline(cin, line))` would: one answer per query line, then stop | not executed | Query.AsWrittenLoopNeverEnds | Query.Session |
