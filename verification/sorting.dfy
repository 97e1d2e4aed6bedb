/** std::sort, specified by its postcondition: the result is a permutation of
    the input in which no later element orders before an earlier one. One
    concrete algorithm (insertion sort) witnesses that postcondition; under a
    strict total order every result with that postcondition is the same. */
module Sorting {

  /** `le(x, y)` reads "x may stand before y"; for a comparator `less` it is
      `!less(y, x)`. */
  ghost predicate TotalPreorder<T(!new)>(le: (T, T) -> bool) {
    && (forall x, y :: le(x, y) || le(y, x))
    && (forall x, y, z :: le(x, y) && le(y, z) ==> le(x, z))
  }

  ghost predicate Antisymmetric<T(!new)>(le: (T, T) -> bool) {
    forall x, y :: le(x, y) && le(y, x) ==> x == y
  }

  predicate SortedBy<T>(s: seq<T>, le: (T, T) -> bool) {
    forall i, j :: 0 <= i < j < |s| ==> le(s[i], s[j])
  }

  function Insert<T(!new)>(x: T, s: seq<T>, le: (T, T) -> bool): (r: seq<T>)
    requires TotalPreorder(le)
    requires SortedBy(s, le)
    ensures SortedBy(r, le)
    ensures multiset(r) == multiset(s) + multiset{x}
    ensures |r| == |s| + 1
  {
    if |s| == 0 then [x]
    else if le(x, s[0]) then [x] + s
    else
      var rest := Insert(x, s[1..], le);
      assert s == [s[0]] + s[1..];
      assert forall k :: 0 <= k < |rest| ==> le(s[0], rest[k]) by {
        forall k | 0 <= k < |rest|
          ensures le(s[0], rest[k])
        {
          assert rest[k] in multiset(rest);
          assert rest[k] == x || rest[k] in multiset(s[1..]);
        }
      }
      [s[0]] + rest
  }

  function InsertionSort<T(!new)>(s: seq<T>, le: (T, T) -> bool): (r: seq<T>)
    requires TotalPreorder(le)
    ensures SortedBy(r, le)
    ensures multiset(r) == multiset(s)
    ensures |r| == |s|
  {
    if |s| == 0 then []
    else
      assert s == [s[0]] + s[1..];
      Insert(s[0], InsertionSort(s[1..], le), le)
  }

  lemma SortedHeadsEqual<T(!new)>(r: seq<T>, s: seq<T>, le: (T, T) -> bool)
    requires Antisymmetric(le)
    requires SortedBy(r, le) && SortedBy(s, le)
    requires |r| > 0 && multiset(r) == multiset(s)
    ensures |s| > 0 && r[0] == s[0]
  {
    assert r[0] in multiset(s);
    assert s[0] in multiset(r);
    var i :| 0 <= i < |s| && s[i] == r[0];
    var j :| 0 <= j < |r| && r[j] == s[0];
  }

  lemma MultisetTails<T>(r: seq<T>, s: seq<T>)
    requires |r| > 0 && |s| > 0 && r[0] == s[0]
    requires multiset(r) == multiset(s)
    ensures multiset(r[1..]) == multiset(s[1..])
  {
    assert r == [r[0]] + r[1..] && s == [s[0]] + s[1..];
    assert multiset(r) == multiset{r[0]} + multiset(r[1..]);
    assert multiset(s) == multiset{s[0]} + multiset(s[1..]);
    forall x
      ensures multiset(r[1..])[x] == multiset(s[1..])[x]
    {
      assert multiset(r)[x] == multiset{r[0]}[x] + multiset(r[1..])[x];
      assert multiset(s)[x] == multiset{s[0]}[x] + multiset(s[1..])[x];
    }
  }

  /** Under an antisymmetric order a sorted permutation is unique: whatever
      order the input arrives in, sorting it gives the same sequence. */
  lemma {:induction false} SortedPermutationUnique<T(!new)>(r: seq<T>, s: seq<T>, le: (T, T) -> bool)
    requires Antisymmetric(le)
    requires SortedBy(r, le) && SortedBy(s, le)
    requires multiset(r) == multiset(s)
    ensures r == s
    decreases |r|
  {
    assert |r| == |multiset(r)| == |s|;
    if |r| > 0 {
      SortedHeadsEqual(r, s, le);
      MultisetTails(r, s);
      SortedPermutationUnique(r[1..], s[1..], le);
      assert r == [r[0]] + r[1..] && s == [s[0]] + s[1..];
    }
  }
}
