/** The three two-pointer merges of the query engine over posting lists
    (lists of document ids). Each merge is defined recursively, one branch
    per branch of the C++ loop, and implemented by the loop itself; on
    strictly increasing inputs the merges are set intersection, union and
    difference. */
module SetOps {
  import ByteStrings

  predicate Increasing(s: seq<int>) {
    forall i, j :: 0 <= i < j < |s| ==> s[i] < s[j]
  }

  lemma IncreasingTail(s: seq<int>)
    requires |s| > 0 && Increasing(s)
    ensures Increasing(s[1..])
    ensures forall x :: x in s[1..] ==> s[0] < x
  {
  }

  lemma IncreasingCons(x: int, s: seq<int>)
    requires Increasing(s)
    requires forall y :: y in s ==> x < y
    ensures Increasing([x] + s)
  {
    forall i, j | 0 <= i < j < |[x] + s|
      ensures ([x] + s)[i] < ([x] + s)[j]
    {
      assert ([x] + s)[j] == s[j - 1] && s[j - 1] in s;
    }
  }

  /** intersect_lists */
  function Intersect(a: seq<int>, b: seq<int>): (r: seq<int>)
    ensures forall x :: x in r ==> x in a && x in b
    ensures |r| <= |a| && |r| <= |b|
    decreases |a| + |b|
  {
    if |a| == 0 || |b| == 0 then []
    else if a[0] < b[0] then Intersect(a[1..], b)
    else if a[0] > b[0] then Intersect(a, b[1..])
    else [a[0]] + Intersect(a[1..], b[1..])
  }

  /** One turn of the loop of intersect_lists */
  lemma IntersectLoopStep(a: seq<int>, b: seq<int>, r: seq<int>, i: nat, j: nat)
    requires i < |a| && j < |b| && Intersect(a, b) == r + Intersect(a[i..], b[j..])
    ensures a[i] < b[j] ==> Intersect(a, b) == r + Intersect(a[i + 1..], b[j..])
    ensures a[i] > b[j] ==> Intersect(a, b) == r + Intersect(a[i..], b[j + 1..])
    ensures a[i] == b[j] ==> Intersect(a, b) == (r + [a[i]]) + Intersect(a[i + 1..], b[j + 1..])
  {
    var x, y := a[i..], b[j..];
    assert x[1..] == a[i + 1..] && y[1..] == b[j + 1..];
    assert x[0] == a[i] && y[0] == b[j];
    if a[i] == b[j] {
      ByteStrings.AppendAssoc(r, [a[i]], Intersect(x[1..], y[1..]));
    }
  }

  /** unite_lists, including the two loops that copy what is left */
  function Union(a: seq<int>, b: seq<int>): (r: seq<int>)
    ensures forall x :: x in r <==> x in a || x in b
    ensures |r| <= |a| + |b|
    decreases |a| + |b|
  {
    if |a| == 0 then b
    else if |b| == 0 then a
    else if a[0] < b[0] then [a[0]] + Union(a[1..], b)
    else if a[0] > b[0] then [b[0]] + Union(a, b[1..])
    else [a[0]] + Union(a[1..], b[1..])
  }

  /** One turn of the merge loop of unite_lists keeps what is merged so far
      a prefix of the union */
  lemma UnionLoopStep(a: seq<int>, b: seq<int>, r: seq<int>, i: nat, j: nat)
    requires i < |a| && j < |b| && Union(a, b) == r + Union(a[i..], b[j..])
    ensures a[i] < b[j] ==> Union(a, b) == (r + [a[i]]) + Union(a[i + 1..], b[j..])
    ensures a[i] > b[j] ==> Union(a, b) == (r + [b[j]]) + Union(a[i..], b[j + 1..])
    ensures a[i] == b[j] ==> Union(a, b) == (r + [a[i]]) + Union(a[i + 1..], b[j + 1..])
  {
    var x, y := a[i..], b[j..];
    assert x[1..] == a[i + 1..] && y[1..] == b[j + 1..];
    assert x[0] == a[i] && y[0] == b[j];
    var head := if a[i] > b[j] then b[j] else a[i];
    var rest := Union(if a[i] > b[j] then x else x[1..], if a[i] < b[j] then y else y[1..]);
    assert Union(x, y) == [head] + rest;
    ByteStrings.AppendAssoc(r, [head], rest);
  }

  /** Once either list is used up, the union is what was merged so far
      followed by the rest of the other */
  lemma UnionFinish(u: seq<int>, merged: seq<int>, a: seq<int>, b: seq<int>)
    requires a == [] || b == []
    requires u == merged + Union(a, b)
    ensures u == merged + a + b
  {
    if a == [] {
      assert a + b == b;
    } else {
      assert a + b == a;
    }
  }

  /** One turn of the main loop of diff_lists */
  lemma DiffLoopStep(a: seq<int>, b: seq<int>, r: seq<int>, i: nat, j: nat)
    requires i < |a| && j < |b| && Diff(a, b) == r + Diff(a[i..], b[j..])
    ensures a[i] < b[j] ==> Diff(a, b) == (r + [a[i]]) + Diff(a[i + 1..], b[j..])
    ensures a[i] > b[j] ==> Diff(a, b) == r + Diff(a[i..], b[j + 1..])
    ensures a[i] == b[j] ==> Diff(a, b) == r + Diff(a[i + 1..], b[j + 1..])
  {
    var x, y := a[i..], b[j..];
    assert x[1..] == a[i + 1..] && y[1..] == b[j + 1..];
    assert x[0] == a[i] && y[0] == b[j];
    if a[i] < b[j] {
      ByteStrings.AppendAssoc(r, [a[i]], Diff(x[1..], y));
    }
  }

  /** diff_lists, including the loop that copies what is left of a */
  function Diff(a: seq<int>, b: seq<int>): (r: seq<int>)
    ensures forall x :: x in r ==> x in a
    ensures |r| <= |a|
    decreases |a| + |b|
  {
    if |a| == 0 then []
    else if |b| == 0 then a
    else if a[0] < b[0] then [a[0]] + Diff(a[1..], b)
    else if a[0] > b[0] then Diff(a, b[1..])
    else Diff(a[1..], b[1..])
  }

  /** The elements of a that are not in b, in the order of a */
  function Without(a: seq<int>, b: seq<int>): (r: seq<int>)
    ensures forall x :: x in r <==> x in a && x !in b
  {
    if |a| == 0 then []
    else (if a[0] in b then [] else [a[0]]) + Without(a[1..], b)
  }

  /** On strictly increasing lists, intersect_lists is set intersection and
      its result is strictly increasing. */
  lemma {:induction false} IntersectIsIntersection(a: seq<int>, b: seq<int>)
    requires Increasing(a) && Increasing(b)
    ensures Increasing(Intersect(a, b))
    ensures forall x :: x in Intersect(a, b) <==> x in a && x in b
    decreases |a| + |b|
  {
    if |a| > 0 && |b| > 0 {
      IncreasingTail(a);
      IncreasingTail(b);
      assert a == [a[0]] + a[1..] && b == [b[0]] + b[1..];
      if a[0] < b[0] {
        IntersectIsIntersection(a[1..], b);
        assert a[0] !in b;
      } else if a[0] > b[0] {
        IntersectIsIntersection(a, b[1..]);
        assert b[0] !in a;
      } else {
        IntersectIsIntersection(a[1..], b[1..]);
        IncreasingCons(a[0], Intersect(a[1..], b[1..]));
      }
    }
  }

  /** On strictly increasing lists, unite_lists is set union and its result
      is strictly increasing. */
  lemma {:induction false} UnionIsUnion(a: seq<int>, b: seq<int>)
    requires Increasing(a) && Increasing(b)
    ensures Increasing(Union(a, b))
    ensures forall x :: x in Union(a, b) <==> x in a || x in b
    decreases |a| + |b|
  {
    if |a| > 0 && |b| > 0 {
      IncreasingTail(a);
      IncreasingTail(b);
      assert a == [a[0]] + a[1..] && b == [b[0]] + b[1..];
      if a[0] < b[0] {
        UnionIsUnion(a[1..], b);
        IncreasingCons(a[0], Union(a[1..], b));
      } else if a[0] > b[0] {
        UnionIsUnion(a, b[1..]);
        IncreasingCons(b[0], Union(a, b[1..]));
      } else {
        UnionIsUnion(a[1..], b[1..]);
        IncreasingCons(a[0], Union(a[1..], b[1..]));
      }
    }
  }

  lemma WithoutPastHead(a: seq<int>, b: seq<int>)
    requires |b| > 0 && Increasing(a) && Increasing(b)
    requires |a| == 0 || a[0] > b[0]
    ensures Without(a, b) == Without(a, b[1..])
  {
    if |a| > 0 {
      assert b == [b[0]] + b[1..];
      assert forall x :: x in a[1..] ==> x != b[0];
      WithoutPastHead(a[1..], b);
    }
  }

  /** On strictly increasing lists, diff_lists keeps exactly the elements of
      a that are not in b, in their order in a. */
  lemma {:induction false} DiffIsWithout(a: seq<int>, b: seq<int>)
    requires Increasing(a) && Increasing(b)
    ensures Diff(a, b) == Without(a, b)
    decreases |a| + |b|
  {
    if |a| == 0 {
    } else if |b| == 0 {
      WithoutNothing(a, b);
    } else {
      IncreasingTail(a);
      IncreasingTail(b);
      if a[0] < b[0] {
        DiffIsWithout(a[1..], b);
        assert a[0] !in b;
      } else if a[0] > b[0] {
        DiffIsWithout(a, b[1..]);
        WithoutPastHead(a, b);
      } else {
        DiffIsWithout(a[1..], b[1..]);
        WithoutPastHead(a[1..], b);
      }
    }
  }

  lemma WithoutNothing(a: seq<int>, b: seq<int>)
    requires |b| == 0
    ensures Without(a, b) == a
  {
    if |a| > 0 {
      WithoutNothing(a[1..], b);
    }
  }

  /** Dropping elements keeps a list strictly increasing */
  lemma {:induction false} WithoutIncreasing(a: seq<int>, b: seq<int>)
    requires Increasing(a)
    ensures Increasing(Without(a, b))
  {
    if |a| > 0 {
      IncreasingTail(a);
      WithoutIncreasing(a[1..], b);
      var w := Without(a[1..], b);
      assert forall x :: x in w ==> a[0] < x;
      IncreasingCons(a[0], w);
    }
  }

  /** Two strictly increasing lists with the same elements are equal */
  lemma {:induction false} IncreasingUnique(r: seq<int>, s: seq<int>)
    requires Increasing(r) && Increasing(s)
    requires forall x :: x in r <==> x in s
    ensures r == s
    decreases |r| + |s|
  {
    if |r| > 0 {
      assert r[0] in r;
    }
    if |s| > 0 {
      assert s[0] in s;
    }
    if |r| > 0 && |s| > 0 {
      IncreasingTail(r);
      IncreasingTail(s);
      assert r == [r[0]] + r[1..] && s == [s[0]] + s[1..];
      assert r[0] == s[0];
      forall x
        ensures x in r[1..] <==> x in s[1..]
      {
        if x in r[1..] {
          assert x in s && x != s[0];
        }
        if x in s[1..] {
          assert x in r && x != r[0];
        }
      }
      IncreasingUnique(r[1..], s[1..]);
    }
  }

  /** Intersection is commutative on strictly increasing lists */
  lemma IntersectCommutes(a: seq<int>, b: seq<int>)
    requires Increasing(a) && Increasing(b)
    ensures Intersect(a, b) == Intersect(b, a)
  {
    IntersectIsIntersection(a, b);
    IntersectIsIntersection(b, a);
    IncreasingUnique(Intersect(a, b), Intersect(b, a));
  }

  /** Union is commutative on strictly increasing lists */
  lemma UnionCommutes(a: seq<int>, b: seq<int>)
    requires Increasing(a) && Increasing(b)
    ensures Union(a, b) == Union(b, a)
  {
    UnionIsUnion(a, b);
    UnionIsUnion(b, a);
    IncreasingUnique(Union(a, b), Union(b, a));
  }

  /** Difference is not commutative: {1} \ {} differs from {} \ {1} */
  lemma DiffNotCommutative()
    ensures Diff([1], []) != Diff([], [1])
  {
    assert Diff([1], []) == [1];
  }

  /** The identities the copy loops give, for any lists */
  lemma MergeIdentities(a: seq<int>)
    ensures Union(a, []) == a && Union([], a) == a
    ensures Diff(a, []) == a && Diff([], a) == []
    ensures Intersect(a, []) == [] && Intersect([], a) == []
  {
  }

  /** The loops that copy what is left of one list once the other is used
      up: `while (i < a.size()) result.push_back(a[i++]);` */
  method CopyRest(r: seq<int>, s: seq<int>, from: nat) returns (out: seq<int>)
    requires from <= |s|
    ensures out == r + s[from..]
  {
    out := r;
    var i := from;
    while i < |s|
      invariant from <= i <= |s|
      invariant out == r + s[from..i]
    {
      assert s[from..i + 1] == s[from..i] + [s[i]];
      out := out + [s[i]];
      i := i + 1;
    }
    assert s[from..i] == s[from..];
  }

  /** intersect_lists as written */
  method IntersectLists(a: seq<int>, b: seq<int>) returns (r: seq<int>)
    ensures r == Intersect(a, b)
    ensures Increasing(a) && Increasing(b) ==>
      Increasing(r) && forall x :: x in r <==> x in a && x in b
  {
    r := [];
    var i, j := 0, 0;
    while i < |a| && j < |b|
      invariant 0 <= i <= |a| && 0 <= j <= |b|
      invariant Intersect(a, b) == r + Intersect(a[i..], b[j..])
      decreases |a| - i + |b| - j
    {
      IntersectLoopStep(a, b, r, i, j);
      if a[i] < b[j] {
        i := i + 1;
      } else if a[i] > b[j] {
        j := j + 1;
      } else {
        r := r + [a[i]];
        i, j := i + 1, j + 1;
      }
    }
    if Increasing(a) && Increasing(b) {
      IntersectIsIntersection(a, b);
    }
  }

  /** unite_lists as written */
  method UniteLists(a: seq<int>, b: seq<int>) returns (r: seq<int>)
    ensures r == Union(a, b)
    ensures forall x :: x in r <==> x in a || x in b
    ensures Increasing(a) && Increasing(b) ==> Increasing(r)
  {
    r := [];
    var i, j := 0, 0;
    while i < |a| && j < |b|
      invariant 0 <= i <= |a| && 0 <= j <= |b|
      invariant Union(a, b) == r + Union(a[i..], b[j..])
      decreases |a| - i + |b| - j
    {
      UnionLoopStep(a, b, r, i, j);
      if a[i] < b[j] {
        r := r + [a[i]];
        i := i + 1;
      } else if a[i] > b[j] {
        r := r + [b[j]];
        j := j + 1;
      } else {
        r := r + [a[i]];
        i, j := i + 1, j + 1;
      }
    }
    ghost var merged, restA, restB := r, a[i..], b[j..];
    r := CopyRest(r, a, i);
    r := CopyRest(r, b, j);
    UnionFinish(Union(a, b), merged, restA, restB);
    if Increasing(a) && Increasing(b) {
      UnionIsUnion(a, b);
    }
  }

  /** diff_lists as written */
  method DiffLists(a: seq<int>, b: seq<int>) returns (r: seq<int>)
    ensures r == Diff(a, b)
    ensures Increasing(a) && Increasing(b) ==> r == Without(a, b)
  {
    r := [];
    var i, j := 0, 0;
    while i < |a| && j < |b|
      invariant 0 <= i <= |a| && 0 <= j <= |b|
      invariant Diff(a, b) == r + Diff(a[i..], b[j..])
      decreases |a| - i + |b| - j
    {
      DiffLoopStep(a, b, r, i, j);
      if a[i] < b[j] {
        r := r + [a[i]];
        i := i + 1;
      } else if a[i] > b[j] {
        j := j + 1;
      } else {
        i, j := i + 1, j + 1;
      }
    }
    assert Diff(a[i..], b[j..]) == a[i..] by {
      if i < |a| {
        assert |b[j..]| == 0;
      }
    }
    r := CopyRest(r, a, i);
    if Increasing(a) && Increasing(b) {
      DiffIsWithout(a, b);
    }
  }
}
