/** Splitting a byte string into maximal runs of non-separator bytes. With the
    C isspace predicate this is what repeated `stream >> word` extraction
    yields; the tokenizer uses the same split with its own separator set. */
module Text {
  import opened ByteStrings

  predicate SepFree(t: Bytes, isSep: Byte -> bool) {
    forall i :: 0 <= i < |t| ==> !isSep(t[i])
  }

  /** Number of separator bytes at the start of s */
  function LeadingSeps(s: Bytes, isSep: Byte -> bool): (n: nat)
    ensures n <= |s|
    ensures forall i :: 0 <= i < n ==> isSep(s[i])
    ensures n < |s| ==> !isSep(s[n])
  {
    if |s| == 0 || !isSep(s[0]) then 0 else 1 + LeadingSeps(s[1..], isSep)
  }

  /** Length of the separator-free run at the start of s */
  function RunLength(s: Bytes, isSep: Byte -> bool): (n: nat)
    ensures n <= |s|
    ensures SepFree(s[..n], isSep)
    ensures n < |s| ==> isSep(s[n])
  {
    if |s| == 0 || isSep(s[0]) then 0
    else
      var n := 1 + RunLength(s[1..], isSep);
      assert s[..n] == [s[0]] + s[1..][..n - 1];
      n
  }

  /** The maximal separator-free runs of s, left to right */
  function Split(s: Bytes, isSep: Byte -> bool): (r: seq<Bytes>)
    ensures forall k :: 0 <= k < |r| ==> |r[k]| > 0 && SepFree(r[k], isSep)
    decreases |s|
  {
    var i := LeadingSeps(s, isSep);
    if i == |s| then []
    else
      var t := s[i..];
      var n := RunLength(t, isSep);
      assert t[0] == s[i];
      var rest := Split(t[n..], isSep);
      var r := [t[..n]] + rest;
      assert forall k :: 0 <= k < |r| ==> |r[k]| > 0 && SepFree(r[k], isSep) by {
        forall k | 0 <= k < |r|
          ensures |r[k]| > 0 && SepFree(r[k], isSep)
        {
          if k > 0 {
            assert r[k] == rest[k - 1];
          }
        }
      }
      r
  }

  /** Whitespace-delimited words, as repeated `stream >> word` extracts them */
  function Words(s: Bytes): (r: seq<Bytes>)
    ensures forall k :: 0 <= k < |r| ==> |r[k]| > 0 && SepFree(r[k], IsSpace)
  {
    Split(s, IsSpace)
  }

  /** The words joined with one separator byte between neighbours */
  function JoinWith(ts: seq<Bytes>, sep: Byte): Bytes {
    if |ts| == 0 then []
    else if |ts| == 1 then ts[0]
    else ts[0] + [sep] + JoinWith(ts[1..], sep)
  }

  /** A separator-free run followed by a separator (or nothing) splits off as
      one piece, or as none when the run is empty. */
  lemma SplitRun(t: Bytes, rest: Bytes, isSep: Byte -> bool)
    requires SepFree(t, isSep)
    requires rest == [] || isSep(rest[0])
    ensures Split(t + rest, isSep) == (if t == [] then [] else [t]) + Split(rest, isSep)
  {
    if t == [] {
      assert t + rest == rest;
    } else {
      var s := t + rest;
      assert !isSep(s[0]);
      assert LeadingSeps(s, isSep) == 0;
      RunLengthOfRun(t, rest, isSep);
      var n := RunLength(s, isSep);
      assert s[0..] == s;
      assert s[..n] == t && s[n..] == rest;
    }
  }

  lemma {:induction false} RunLengthOfRun(t: Bytes, rest: Bytes, isSep: Byte -> bool)
    requires SepFree(t, isSep)
    requires rest == [] || isSep(rest[0])
    ensures RunLength(t + rest, isSep) == |t|
  {
    if |t| > 0 {
      assert (t + rest)[1..] == t[1..] + rest;
      RunLengthOfRun(t[1..], rest, isSep);
    } else {
      assert t + rest == rest;
    }
  }

  /** A leading separator never changes the split */
  lemma SplitDropSep(s: Bytes, isSep: Byte -> bool)
    requires |s| > 0 && isSep(s[0])
    ensures Split(s, isSep) == Split(s[1..], isSep)
  {
    var tail := s[1..];
    var j := LeadingSeps(tail, isSep);
    assert LeadingSeps(s, isSep) == j + 1;
    assert s[j + 1..] == tail[j..];
  }

  /** The non-separator bytes of s, in order */
  function RemoveSeps(s: Bytes, isSep: Byte -> bool): (r: Bytes)
    ensures SepFree(r, isSep)
  {
    if |s| == 0 then []
    else (if isSep(s[0]) then [] else [s[0]]) + RemoveSeps(s[1..], isSep)
  }

  lemma RemoveSepsAppend(a: Bytes, b: Bytes, isSep: Byte -> bool)
    ensures RemoveSeps(a + b, isSep) == RemoveSeps(a, isSep) + RemoveSeps(b, isSep)
  {
    if |a| > 0 {
      assert (a + b)[1..] == a[1..] + b;
      RemoveSepsAppend(a[1..], b, isSep);
    } else {
      assert a + b == b;
    }
  }

  lemma RemoveSepsNone(s: Bytes, isSep: Byte -> bool)
    requires forall i :: 0 <= i < |s| ==> isSep(s[i])
    ensures RemoveSeps(s, isSep) == []
  {
    if |s| > 0 {
      RemoveSepsNone(s[1..], isSep);
    }
  }

  lemma RemoveSepsAll(s: Bytes, isSep: Byte -> bool)
    requires SepFree(s, isSep)
    ensures RemoveSeps(s, isSep) == s
  {
    if |s| > 0 {
      RemoveSepsAll(s[1..], isSep);
    }
  }

  /** The step of a left-to-right scan at a separator byte */
  lemma SplitAtSep(current: Bytes, rest: Bytes, isSep: Byte -> bool)
    requires SepFree(current, isSep)
    requires |rest| > 0 && isSep(rest[0])
    ensures Split(current + rest, isSep) == (if current == [] then [] else [current]) + Split(rest[1..], isSep)
  {
    SplitRun(current, rest, isSep);
    SplitDropSep(rest, isSep);
  }

  /** The pieces are exactly the non-separator bytes of s, in order */
  lemma {:induction false} SplitKeepsContent(s: Bytes, isSep: Byte -> bool)
    ensures Concat(Split(s, isSep)) == RemoveSeps(s, isSep)
    decreases |s|
  {
    var i := LeadingSeps(s, isSep);
    var t := s[i..];
    RemoveSepsSkip(s, i, isSep);
    if i < |s| {
      var n := RunLength(t, isSep);
      var run, after := t[..n], t[n..];
      RemoveSepsRun(t, n, isSep);
      var pieces := Split(after, isSep);
      SplitKeepsContent(after, isSep);
      assert Split(s, isSep) == [run] + pieces;
      assert ([run] + pieces)[1..] == pieces;
    }
  }

  /** Leading separators contribute nothing to RemoveSeps */
  lemma RemoveSepsSkip(s: Bytes, i: nat, isSep: Byte -> bool)
    requires i <= |s| && forall j :: 0 <= j < i ==> isSep(s[j])
    ensures RemoveSeps(s, isSep) == RemoveSeps(s[i..], isSep)
  {
    var seps, t := s[..i], s[i..];
    TakeDrop(s, i);
    RemoveSepsAppend(seps, t, isSep);
    forall j | 0 <= j < |seps|
      ensures isSep(seps[j])
    {
      assert seps[j] == s[j];
    }
    RemoveSepsNone(seps, isSep);
  }

  /** A separator-free run is kept whole by RemoveSeps */
  lemma RemoveSepsRun(t: Bytes, n: nat, isSep: Byte -> bool)
    requires n <= |t| && SepFree(t[..n], isSep)
    ensures RemoveSeps(t, isSep) == t[..n] + RemoveSeps(t[n..], isSep)
  {
    var run, after := t[..n], t[n..];
    TakeDrop(t, n);
    RemoveSepsAppend(run, after, isSep);
    RemoveSepsAll(run, isSep);
  }

  /** Round trip: joining non-empty separator-free pieces with a separator
      and splitting again gives the pieces back. */
  lemma {:induction false} SplitJoin(ts: seq<Bytes>, sep: Byte, isSep: Byte -> bool)
    requires isSep(sep)
    requires forall k :: 0 <= k < |ts| ==> |ts[k]| > 0 && SepFree(ts[k], isSep)
    ensures Split(JoinWith(ts, sep), isSep) == ts
  {
    if |ts| == 0 {
    } else if |ts| == 1 {
      SplitRun(ts[0], [], isSep);
      assert ts[0] + [] == ts[0];
    } else {
      var first, more := ts[0], ts[1..];
      var tail := JoinWith(more, sep);
      var rest := [sep] + tail;
      assert JoinWith(ts, sep) == first + rest;
      assert rest[1..] == tail;
      SplitAtSep(first, rest, isSep);
      SplitJoin(more, sep, isSep);
      HeadTail(ts);
    }
  }
}
