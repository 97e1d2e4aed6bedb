/** The suffix-stripping stemmer: a fixed, ordered table of Russian endings
    (UTF-8 bytes) and the rule "strip the first ending that is a proper
    suffix". stemmer.cpp and boolean_search.cpp carry identical copies of the
    table and of the function, so documents and queries are normalised alike. */
module Stemmer {
  import opened ByteStrings
  import opened Wrappers

  /** The ending table in table order; positions are zero-based */
  const Endings: seq<Bytes> := [
    [0xD0, 0xB2, 0xD1, 0x88, 0xD0, 0xB8, 0xD0, 0xBC, 0xD0, 0xB8], //  0 вшими
    [0xD1, 0x8F, 0xD0, 0xBC, 0xD0, 0xB8], //  1 ями
    [0xD0, 0xB8, 0xD0, 0xBC, 0xD0, 0xB8], //  2 ими
    [0xD0, 0xBE, 0xD0, 0xB3, 0xD0, 0xBE], //  3 ого
    [0xD0, 0xBE, 0xD0, 0xBC, 0xD1, 0x83], //  4 ому
    [0xD1, 0x8B, 0xD0, 0xBC, 0xD0, 0xB8], //  5 ыми
    [0xD1, 0x8B, 0xD0, 0xBC, 0xD0, 0xB8], //  6 ыми
    [0xD0, 0xB5, 0xD0, 0xB3, 0xD0, 0xBE], //  7 его
    [0xD0, 0xB5, 0xD0, 0xBC, 0xD1, 0x83], //  8 ему
    [0xD0, 0xB5, 0xD0, 0xBC], //  9 ем
    [0xD0, 0xBC, 0xD0, 0xB8], // 10 ми
    [0xD0, 0xB0, 0xD1, 0x8F], // 11 ая
    [0xD0, 0xBE, 0xD0, 0xB5], // 12 ое
    [0xD1, 0x8B, 0xD0, 0xB5], // 13 ые
    [0xD0, 0xB8, 0xD0, 0xB5], // 14 ие
    [0xD1, 0x8B, 0xD0, 0xB9], // 15 ый
    [0xD0, 0xBE, 0xD0, 0xB9], // 16 ой
    [0xD0, 0xB5, 0xD0, 0xB9], // 17 ей
    [0xD0, 0xB8, 0xD0, 0xB9], // 18 ий
    [0xD1, 0x83, 0xD1, 0x8E], // 19 ую
    [0xD1, 0x8E, 0xD1, 0x8E], // 20 юю
    [0xD0, 0xB0, 0xD1, 0x8F], // 21 ая
    [0xD1, 0x8F, 0xD1, 0x8F], // 22 яя
    [0xD0, 0xBE, 0xD0, 0xBC], // 23 ом
    [0xD0, 0xB0, 0xD1, 0x85], // 24 ах
    [0xD1, 0x8F, 0xD1, 0x85], // 25 ях
    [0xD1, 0x8B, 0xD1, 0x85], // 26 ых
    [0xD0, 0xB8, 0xD1, 0x85], // 27 их
    [0xD1, 0x82, 0xD1, 0x8C], // 28 ть
    [0xD1, 0x82, 0xD0, 0xB8], // 29 ти
    [0xD0, 0xBB, 0xD0, 0xB0], // 30 ла
    [0xD0, 0xBD, 0xD0, 0xB0], // 31 на
    [0xD0, 0xB5, 0xD1, 0x82, 0xD0, 0xB5], // 32 ете
    [0xD0, 0xB9, 0xD1, 0x82, 0xD0, 0xB5], // 33 йте
    [0xD0, 0xBB, 0xD0, 0xB8], // 34 ли
    [0xD0, 0xB9], // 35 й
    [0xD0, 0xBB], // 36 л
    [0xD0, 0xB5, 0xD0, 0xBC], // 37 ем
    [0xD0, 0xBD], // 38 н
    [0xD1, 0x8E], // 39 ю
    [0xD0, 0xB0], // 40 а
    [0xD0, 0xB5], // 41 е
    [0xD0, 0xB8], // 42 и
    [0xD0, 0xBE], // 43 о
    [0xD1, 0x83], // 44 у
    [0xD1, 0x8B], // 45 ы
    [0xD1, 0x8D], // 46 э
    [0xD1, 0x8E], // 47 ю
    [0xD1, 0x8F]  // 48 я
  ]

  /** Words of at most this many BYTES are returned unchanged; a Cyrillic
      letter is two bytes, so this keeps words of up to three letters. */
  const ShortWord: nat := 6

  /** Ending e may be stripped from w: w ends with e and is strictly longer */
  predicate Strips(w: Bytes, e: Bytes) {
    |w| > |e| && EndsWith(w, e)
  }

  /** The first position at or after i whose ending w strips */
  function FirstStrip(w: Bytes, table: seq<Bytes>, i: nat): (r: Option<nat>)
    requires i <= |table|
    ensures r.Some? ==> i <= r.value < |table| && Strips(w, table[r.value])
    ensures r.Some? ==> forall j :: i <= j < r.value ==> !Strips(w, table[j])
    ensures r.None? ==> forall j :: i <= j < |table| ==> !Strips(w, table[j])
    decreases |table| - i
  {
    if i == |table| then None
    else if Strips(w, table[i]) then Some(i)
    else FirstStrip(w, table, i + 1)
  }

  /** stem_word over a given ending table */
  function StemWith(w: Bytes, table: seq<Bytes>): (r: Bytes)
    ensures IsPrefix(r, w)
    ensures |w| > 0 ==> |r| > 0
    ensures |w| <= ShortWord ==> r == w
    ensures |w| > ShortWord ==> forall k: nat :: FirstIn(w, table, k) ==> r == w[..|w| - |table[k]|]
    ensures |w| > ShortWord && (forall k :: 0 <= k < |table| ==> !Strips(w, table[k])) ==> r == w
    ensures r == w || exists k: nat :: FirstIn(w, table, k) && r == w[..|w| - |table[k]|]
  {
    if |w| <= ShortWord then w
    else match FirstStrip(w, table, 0)
      case None => w
      case Some(k) =>
        assert FirstIn(w, table, k);
        w[..|w| - |table[k]|]
  }

  /** Position k holds the first ending of the table that w strips */
  predicate FirstIn(w: Bytes, table: seq<Bytes>, k: nat) {
    && k < |table|
    && Strips(w, table[k])
    && forall j :: 0 <= j < k ==> !Strips(w, table[j])
  }

  /** stem_word with the source's table */
  function Stem(w: Bytes): (r: Bytes)
    ensures IsPrefix(r, w)
    ensures |w| > 0 ==> |r| > 0
    ensures |w| <= ShortWord ==> r == w
    ensures |w| > ShortWord ==> forall k: nat :: FirstIn(w, Endings, k) ==> r == w[..|w| - |Endings[k]|]
    ensures |w| > ShortWord && (forall k :: 0 <= k < |Endings| ==> !Strips(w, Endings[k])) ==> r == w
    ensures r == w || exists k: nat :: FirstIn(w, Endings, k) && r == w[..|w| - |Endings[k]|]
  {
    StemWith(w, Endings)
  }

  /** The table lists four endings twice (positions 6, 21, 37 and 47 repeat
      positions 5, 11, 9 and 39); the later copies are never the one stripped. */
  lemma RepeatedEndingsNeverChosen(w: Bytes)
    ensures !FirstIn(w, Endings, 6) && !FirstIn(w, Endings, 21)
    ensures !FirstIn(w, Endings, 37) && !FirstIn(w, Endings, 47)
  {
    assert Endings[6] == [0xD1, 0x8B, 0xD0, 0xBC, 0xD0, 0xB8] == Endings[5];
    assert Endings[21] == [0xD0, 0xB0, 0xD1, 0x8F] == Endings[11];
    assert Endings[37] == [0xD0, 0xB5, 0xD0, 0xBC] == Endings[9];
    assert Endings[47] == [0xD1, 0x8E] == Endings[39];
  }
}
