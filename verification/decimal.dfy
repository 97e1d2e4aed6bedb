/** Decimal integers as the C++ streams and std::stoi read and write them:
    `out << id`, `ss >> id` and `stoi(prefix)`. Integers are unbounded here;
    the overflow cases of the library are not modelled. */
module Decimal {
  import opened ByteStrings
  import opened Wrappers
  import Text

  predicate NotDigit(b: Byte) {
    !IsDigit(b)
  }

  predicate AllDigits(ds: Bytes) {
    forall i :: 0 <= i < |ds| ==> IsDigit(ds[i])
  }

  /** The decimal digits of n, most significant first, without leading zeros */
  function ShowNat(n: nat): (r: Bytes)
    ensures |r| > 0 && AllDigits(r)
    ensures r[0] == ZERO <==> n == 0
  {
    if n < 10 then [ZERO + n] else ShowNat(n / 10) + [ZERO + n % 10]
  }

  /** operator<<(int): a minus sign for negative values, then the digits */
  function ShowInt(n: int): (r: Bytes)
    ensures |r| > 0 && (r[0] == MINUS <==> n < 0)
    ensures r[0] == MINUS || IsDigit(r[0])
    ensures forall i :: 0 < i < |r| ==> IsDigit(r[i])
    ensures |r| > (if n < 0 then 1 else 0) && (r[if n < 0 then 1 else 0] == ZERO <==> n == 0)
  {
    if n < 0 then [MINUS] + ShowNat(-n) else ShowNat(n)
  }

  /** The value of a digit string read most significant first */
  function DigitsValue(ds: Bytes): nat
    requires AllDigits(ds)
  {
    if |ds| == 0 then 0 else DigitsValue(ds[..|ds| - 1]) * 10 + (ds[|ds| - 1] - ZERO)
  }

  lemma {:induction false} ShowNatValue(n: nat)
    ensures DigitsValue(ShowNat(n)) == n
  {
    if n >= 10 {
      var s := ShowNat(n);
      assert s[..|s| - 1] == ShowNat(n / 10);
      ShowNatValue(n / 10);
    }
  }

  /** One integer extraction at the start of s, after whitespace has been
      skipped: an optional '+' or '-', then at least one digit. Yields the value
      and the number of bytes consumed, or None when extraction fails. */
  function ReadInt(s: Bytes): (r: Option<(int, nat)>)
    ensures r.Some? ==> 0 < r.value.1 <= |s|
    ensures r.None? <==>
      var k := if |s| > 0 && (s[0] == PLUS || s[0] == MINUS) then 1 else 0;
      k == |s| || !IsDigit(s[k])
  {
    var signLen := if |s| > 0 && (s[0] == PLUS || s[0] == MINUS) then 1 else 0;
    var digits := s[signLen..];
    var n := Text.RunLength(digits, NotDigit);
    if n == 0 then None
    else
      var v: int := DigitsValue(digits[..n]);
      Some((if signLen == 1 && s[0] == MINUS then -v else v, signLen + n))
  }

  lemma ReadDigitsBeforeRest(ds: Bytes, rest: Bytes)
    requires |ds| > 0 && AllDigits(ds)
    requires rest == [] || !IsDigit(rest[0])
    ensures Text.RunLength(ds + rest, NotDigit) == |ds|
    ensures (ds + rest)[..|ds|] == ds
  {
    Text.RunLengthOfRun(ds, rest, NotDigit);
  }

  /** Writing an integer and reading it back yields the same value, provided
      no digit follows it. */
  lemma ReadShowInt(n: int, rest: Bytes)
    requires rest == [] || !IsDigit(rest[0])
    ensures ReadInt(ShowInt(n) + rest) == Some((n, |ShowInt(n)|))
  {
    var m: nat := if n < 0 then -n else n;
    ReadDigitsBeforeRest(ShowNat(m), rest);
    ShowNatValue(m);
    if n < 0 {
      assert (ShowInt(n) + rest)[1..] == ShowNat(m) + rest;
    }
  }

  /** std::stoi: skip leading whitespace, read one integer and ignore what
      follows; None where stoi throws invalid_argument. */
  function Stoi(s: Bytes): (r: Option<int>)
    ensures r.None? <==> ReadInt(s[Text.LeadingSeps(s, IsSpace)..]).None?
  {
    var i := Text.LeadingSeps(s, IsSpace);
    match ReadInt(s[i..])
    case None => None
    case Some((v, _)) => Some(v)
  }

  lemma StoiShowInt(n: int, rest: Bytes)
    requires rest == [] || !IsDigit(rest[0])
    ensures Stoi(ShowInt(n) + rest) == Some(n)
  {
    ReadShowInt(n, rest);
    assert Text.LeadingSeps(ShowInt(n) + rest, IsSpace) == 0;
  }

  /** stoi rejects text that holds no digit */
  lemma StoiNoDigit(s: Bytes)
    requires forall i :: 0 <= i < |s| ==> !IsDigit(s[i])
    ensures Stoi(s).None?
  {
    var t := s[Text.LeadingSeps(s, IsSpace)..];
    assert forall i :: 0 <= i < |t| ==> !IsDigit(t[i]);
  }

  /** `while (ss >> id) ids.push_back(id)`: the leading run of integers,
      stopping at the first failed extraction. */
  function ReadInts(s: Bytes): seq<int>
    decreases |s|
  {
    if |s| > 0 && IsSpace(s[0]) then ReadInts(s[1..])
    else match ReadInt(s)
      case None => []
      case Some((v, n)) => [v] + ReadInts(s[n..])
  }

  /** The integers written one after another with a single space between */
  function ShowInts(ids: seq<int>): Bytes {
    if |ids| == 0 then []
    else if |ids| == 1 then ShowInt(ids[0])
    else ShowInt(ids[0]) + [SPACE] + ShowInts(ids[1..])
  }

  lemma ShowIntsBytes(ids: seq<int>)
    ensures forall i :: 0 <= i < |ShowInts(ids)| ==>
      var b := ShowInts(ids)[i]; b == SPACE || b == MINUS || IsDigit(b)
    ensures |ids| > 0 ==> ShowInts(ids)[0] == MINUS || IsDigit(ShowInts(ids)[0])
  {
    if |ids| > 1 {
      ShowIntsBytes(ids[1..]);
    }
  }

  /** Round trip of an id list through its text form */
  lemma {:induction false} ReadShowInts(ids: seq<int>)
    ensures ReadInts(ShowInts(ids)) == ids
  {
    if |ids| == 1 {
      ReadShowInt(ids[0], []);
      assert ShowInt(ids[0]) + [] == ShowInt(ids[0]);
    } else if |ids| > 1 {
      var tail := [SPACE] + ShowInts(ids[1..]);
      var s := ShowInt(ids[0]) + tail;
      assert ShowInts(ids) == s;
      ReadShowInt(ids[0], tail);
      assert s[|ShowInt(ids[0])|..] == tail;
      assert tail[1..] == ShowInts(ids[1..]);
      ReadShowInts(ids[1..]);
      HeadTail(ids);
    }
  }

  /** Extraction reads a written id list and goes on after the space that
      ends it: the ids of a line are its leading run of integers. */
  lemma {:induction false} ReadShowIntsThen(ids: seq<int>, rest: Bytes)
    ensures ReadInts(ShowInts(ids) + [SPACE] + rest) == ids + ReadInts(rest)
  {
    var e := [SPACE] + rest;
    var later := ReadInts(rest);
    SkipSpace(rest);
    if |ids| == 0 {
      assert ShowInts(ids) + [SPACE] + rest == e;
      assert ids + later == later;
    } else if |ids| == 1 {
      assert ShowInts(ids) + [SPACE] + rest == ShowInt(ids[0]) + e;
      ReadOneThen(ids[0], e);
      assert ids == [ids[0]];
    } else {
      var more := ShowInts(ids[1..]) + [SPACE] + rest;
      ShowIntsThen(ids, rest);
      ReadOneThen(ids[0], [SPACE] + more);
      SkipSpace(more);
      ReadShowIntsThen(ids[1..], rest);
      assert ReadInts(ShowInts(ids) + [SPACE] + rest) == [ids[0]] + (ids[1..] + later);
      HeadTail(ids);
      AppendAssoc([ids[0]], ids[1..], later);
    }
  }

  /** A space before the text is skipped */
  lemma SkipSpace(rest: Bytes)
    ensures ReadInts([SPACE] + rest) == ReadInts(rest)
  {
    assert ([SPACE] + rest)[1..] == rest;
  }

  /** A written list of two or more ids, followed by more text, starts with
      the first id and a space */
  lemma ShowIntsThen(ids: seq<int>, rest: Bytes)
    requires |ids| > 1
    ensures ShowInts(ids) + [SPACE] + rest ==
      ShowInt(ids[0]) + ([SPACE] + (ShowInts(ids[1..]) + [SPACE] + rest))
  {
    var x, t, e := ShowInt(ids[0]), ShowInts(ids[1..]), [SPACE] + rest;
    assert ShowInts(ids) == x + [SPACE] + t;
    AppendAssoc(x + [SPACE] + t, [SPACE], rest);
    AppendAssoc(x + [SPACE], t, e);
    AppendAssoc(x, [SPACE], t + e);
    AppendAssoc(t, [SPACE], rest);
  }

  /** One written integer followed by a space is read, and extraction goes
      on after it. */
  lemma ReadOneThen(x: int, tail: Bytes)
    requires |tail| > 0 && tail[0] == SPACE
    ensures ReadInts(ShowInt(x) + tail) == [x] + ReadInts(tail)
  {
    var s := ShowInt(x) + tail;
    ReadShowInt(x, tail);
    assert s[|ShowInt(x)|..] == tail;
  }

  /** Extraction stops at the first failure: text without a digit yields no
      integer at all. */
  lemma {:induction false} ReadIntsNoDigit(s: Bytes)
    requires forall i :: 0 <= i < |s| ==> !IsDigit(s[i])
    ensures ReadInts(s) == []
    decreases |s|
  {
    if |s| > 0 && IsSpace(s[0]) {
      ReadIntsNoDigit(s[1..]);
    }
  }

  lemma {:induction false} ShowIntsAppend(ids: seq<int>, d: int)
    requires |ids| > 0
    ensures ShowInts(ids + [d]) == ShowInts(ids) + [SPACE] + ShowInt(d)
  {
    var e := ids + [d];
    assert e[0] == ids[0] && e[1..] == ids[1..] + [d];
    if |ids| == 1 {
      assert e[1..] == [d];
    } else {
      ShowIntsAppend(ids[1..], d);
    }
  }
}
