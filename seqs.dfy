/** Python's list comprehensions and filter(): order-preserving selection and mapping. */
module Seqs {

  /** `a` is `b` with some elements left out, the rest kept in order. */
  ghost predicate IsSubsequence<T>(a: seq<T>, b: seq<T>)
    decreases |b|
  {
    a == [] || (b != [] && ((a[0] == b[0] && IsSubsequence(a[1..], b[1..])) || IsSubsequence(a, b[1..])))
  }

  /** `[x for x in xs if keep(x)]`. */
  function Filter<T(!new)>(xs: seq<T>, keep: T -> bool): (r: seq<T>)
    ensures |r| <= |xs|
  {
    if xs == [] then []
    else (if keep(xs[0]) then [xs[0]] else []) + Filter(xs[1..], keep)
  }

  /** A filter keeps its elements in their original order. */
  lemma {:induction false} FilterIsSubsequence<T(!new)>(xs: seq<T>, keep: T -> bool)
    ensures IsSubsequence(Filter(xs, keep), xs)
  {
    if xs != [] {
      FilterIsSubsequence(xs[1..], keep);
      var rest := Filter(xs[1..], keep);
      if keep(xs[0]) {
        assert Filter(xs, keep) == [xs[0]] + rest;
        assert ([xs[0]] + rest)[1..] == rest;
      } else {
        assert Filter(xs, keep) == rest;
      }
    }
  }

  /** A filter keeps every element that passes, as often as it occurs, and nothing else. */
  lemma {:induction false} FilterCounts<T(!new)>(xs: seq<T>, keep: T -> bool)
    ensures forall x :: multiset(Filter(xs, keep))[x] == if keep(x) then multiset(xs)[x] else 0
  {
    if xs != [] {
      FilterCounts(xs[1..], keep);
      assert xs == [xs[0]] + xs[1..];
      var head := if keep(xs[0]) then [xs[0]] else [];
      assert Filter(xs, keep) == head + Filter(xs[1..], keep);
      assert multiset(Filter(xs, keep)) == multiset(head) + multiset(Filter(xs[1..], keep));
      assert multiset(xs) == multiset([xs[0]]) + multiset(xs[1..]);
    }
  }

  lemma {:induction false} FilterAppend<T(!new)>(xs: seq<T>, x: T, keep: T -> bool)
    ensures Filter(xs + [x], keep) == Filter(xs, keep) + (if keep(x) then [x] else [])
  {
    var last := if keep(x) then [x] else [];
    if xs == [] {
      assert xs + [x] == [x];
      assert Filter([x], keep) == last + Filter([], keep);
    } else {
      var head := if keep(xs[0]) then [xs[0]] else [];
      assert (xs + [x])[0] == xs[0];
      assert (xs + [x])[1..] == xs[1..] + [x];
      FilterAppend(xs[1..], x, keep);
      assert Filter(xs + [x], keep) == head + Filter(xs[1..] + [x], keep);
      assert Filter(xs, keep) == head + Filter(xs[1..], keep);
    }
  }

  lemma {:induction false} FilterNothing<T(!new)>(xs: seq<T>, keep: T -> bool)
    requires forall i :: 0 <= i < |xs| ==> !keep(xs[i])
    ensures Filter(xs, keep) == []
  {
    if xs != [] {
      FilterNothing(xs[1..], keep);
    }
  }

  /** `[f(x) for x in xs]`. */
  function MapSeq<A, B>(xs: seq<A>, f: A -> B): (r: seq<B>)
    ensures |r| == |xs|
    ensures forall i :: 0 <= i < |xs| ==> r[i] == f(xs[i])
  {
    if xs == [] then [] else [f(xs[0])] + MapSeq(xs[1..], f)
  }

  lemma {:induction false} MapKeepsSubsequence<A, B>(a: seq<A>, b: seq<A>, f: A -> B)
    requires IsSubsequence(a, b)
    ensures IsSubsequence(MapSeq(a, f), MapSeq(b, f))
    decreases |b|
  {
    if a == [] {
    } else if a[0] == b[0] && IsSubsequence(a[1..], b[1..]) {
      MapKeepsSubsequence(a[1..], b[1..], f);
    } else {
      MapKeepsSubsequence(a, b[1..], f);
    }
  }

  /** An element of `[f(x) for x in xs if keep(x)]` is the image of some kept element. */
  lemma {:induction false} MapFilterSound<A(!new), B>(xs: seq<A>, keep: A -> bool, f: A -> B, y: B)
    requires y in MapSeq(Filter(xs, keep), f)
    ensures exists i :: 0 <= i < |xs| && keep(xs[i]) && f(xs[i]) == y
  {
    var rest := xs[1..];
    var head := if keep(xs[0]) then [xs[0]] else [];
    assert Filter(xs, keep) == head + Filter(rest, keep);
    if keep(xs[0]) && f(xs[0]) == y {
      assert keep(xs[0]) && f(xs[0]) == y;
    } else {
      assert MapSeq(Filter(xs, keep), f) == MapSeq(head, f) + MapSeq(Filter(rest, keep), f) by {
        MapAppend(head, Filter(rest, keep), f);
      }
      assert y in MapSeq(Filter(rest, keep), f);
      MapFilterSound(rest, keep, f, y);
      var i :| 0 <= i < |rest| && keep(rest[i]) && f(rest[i]) == y;
      assert xs[i + 1] == rest[i];
    }
  }

  /** Every kept element has its image in `[f(x) for x in xs if keep(x)]`. */
  lemma {:induction false} MapFilterComplete<A(!new), B>(xs: seq<A>, keep: A -> bool, f: A -> B, i: int)
    requires 0 <= i < |xs| && keep(xs[i])
    ensures f(xs[i]) in MapSeq(Filter(xs, keep), f)
  {
    var rest := xs[1..];
    var head := if keep(xs[0]) then [xs[0]] else [];
    assert Filter(xs, keep) == head + Filter(rest, keep);
    MapAppend(head, Filter(rest, keep), f);
    if i == 0 {
      assert MapSeq(head, f) == [f(xs[0])];
    } else {
      assert rest[i - 1] == xs[i];
      MapFilterComplete(rest, keep, f, i - 1);
    }
  }

  lemma {:induction false} MapAppend<A, B>(a: seq<A>, b: seq<A>, f: A -> B)
    ensures MapSeq(a + b, f) == MapSeq(a, f) + MapSeq(b, f)
  {
    var l := MapSeq(a + b, f);
    var r := MapSeq(a, f) + MapSeq(b, f);
    assert |l| == |r|;
    forall k | 0 <= k < |l| ensures l[k] == r[k] {
      if k < |a| {
        assert (a + b)[k] == a[k];
      } else {
        assert (a + b)[k] == b[k - |a|];
      }
    }
  }

  /** Membership in `[f(x) for x in xs if keep(x)]`, both directions. */
  lemma MapFilterMembership<A(!new), B>(xs: seq<A>, keep: A -> bool, f: A -> B, y: B)
    ensures y in MapSeq(Filter(xs, keep), f) <==> exists i :: 0 <= i < |xs| && keep(xs[i]) && f(xs[i]) == y
  {
    if y in MapSeq(Filter(xs, keep), f) {
      MapFilterSound(xs, keep, f, y);
    }
    if exists i :: 0 <= i < |xs| && keep(xs[i]) && f(xs[i]) == y {
      var i :| 0 <= i < |xs| && keep(xs[i]) && f(xs[i]) == y;
      MapFilterComplete(xs, keep, f, i);
    }
  }

  /** Two tests that agree on every element of `xs` select the same elements. */
  lemma {:induction false} FilterAgrees<T(!new)>(xs: seq<T>, keep: T -> bool, keep': T -> bool)
    requires forall i :: 0 <= i < |xs| ==> keep(xs[i]) == keep'(xs[i])
    ensures Filter(xs, keep) == Filter(xs, keep')
  {
    if xs != [] {
      FilterAgrees(xs[1..], keep, keep');
    }
  }
}
