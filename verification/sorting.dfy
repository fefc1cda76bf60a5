/**
 * Sorting sequences of reals, as the percentile needs them: an ascending
 * insertion sort, and the fact that an ascending arrangement of a multiset
 * is unique, so the sorted values do not depend on the order they came in.
 */
module Sorting {
  predicate Ascending(s: seq<real>) {
    forall i, j :: 0 <= i < j < |s| ==> s[i] <= s[j]
  }

  /** Places `x` into an ascending sequence. */
  function Insert(x: real, s: seq<real>): (r: seq<real>)
    requires Ascending(s)
    ensures Ascending(r)
    ensures multiset(r) == multiset(s) + multiset{x}
    decreases |s|
  {
    if s == [] then [x]
    else if x <= s[0] then [x] + s
    else
      var rest := Insert(x, s[1..]);
      assert s == [s[0]] + s[1..];
      HeadBelowRest(x, s, rest);
      AscendingCons(s[0], rest);
      [s[0]] + rest
  }

  /** Every value of `s[1..]` and `x` is at least `s[0]`, so `s[0]` is at most the head of any arrangement of them. */
  lemma HeadBelowRest(x: real, s: seq<real>, rest: seq<real>)
    requires Ascending(s) && s != [] && s[0] < x
    requires multiset(rest) == multiset(s[1..]) + multiset{x}
    ensures forall k :: 0 <= k < |rest| ==> s[0] <= rest[k]
  {
    forall k | 0 <= k < |rest|
      ensures s[0] <= rest[k]
    {
      assert rest[k] in multiset(rest);
      if rest[k] != x {
        assert rest[k] in s[1..];
      }
    }
  }

  lemma AscendingCons(a: real, rest: seq<real>)
    requires Ascending(rest) && forall k :: 0 <= k < |rest| ==> a <= rest[k]
    ensures Ascending([a] + rest)
  {
  }

  /** The values of `s` in ascending order. */
  function Sort(s: seq<real>): (r: seq<real>)
    ensures Ascending(r)
    ensures multiset(r) == multiset(s)
    decreases |s|
  {
    if s == [] then []
    else
      assert s == [s[0]] + s[1..];
      Insert(s[0], Sort(s[1..]))
  }

  /** Two ascending sequences holding the same values are the same sequence. */
  lemma {:induction false} AscendingUnique(a: seq<real>, b: seq<real>)
    requires Ascending(a) && Ascending(b) && multiset(a) == multiset(b)
    ensures a == b
    decreases |a|
  {
    if a != [] {
      assert |b| == |multiset(b)| == |multiset(a)| == |a|;
      HeadsAgree(a, b);
      DropHead(a);
      DropHead(b);
      AscendingUnique(a[1..], b[1..]);
      assert a == [a[0]] + a[1..] && b == [b[0]] + b[1..];
    }
  }

  /** The least element of a multiset heads every ascending sequence of it. */
  lemma HeadsAgree(a: seq<real>, b: seq<real>)
    requires Ascending(a) && Ascending(b) && multiset(a) == multiset(b) && a != [] && b != []
    ensures a[0] == b[0]
  {
    assert a[0] in multiset(b) && b[0] in multiset(a);
    var i :| 0 <= i < |b| && b[i] == a[0];
    var j :| 0 <= j < |a| && a[j] == b[0];
  }

  lemma DropHead(a: seq<real>)
    requires a != []
    ensures multiset(a[1..]) == multiset(a) - multiset{a[0]}
  {
    assert a == [a[0]] + a[1..];
  }

  /** Sorting forgets the order of its input. */
  lemma SortForgetsOrder(a: seq<real>, b: seq<real>)
    requires multiset(a) == multiset(b)
    ensures Sort(a) == Sort(b)
  {
    AscendingUnique(Sort(a), Sort(b));
  }

  /** The first sorted value is a least input value, the last a greatest one. */
  lemma SortEnds(s: seq<real>)
    requires s != []
    ensures |Sort(s)| == |s|
    ensures Sort(s)[0] in s && Sort(s)[|s| - 1] in s
    ensures forall k :: 0 <= k < |s| ==> Sort(s)[0] <= s[k] <= Sort(s)[|s| - 1]
  {
    var r := Sort(s);
    assert |r| == |multiset(r)| == |multiset(s)| == |s|;
    assert r[0] in multiset(s) && r[|s| - 1] in multiset(s);
    forall k | 0 <= k < |s|
      ensures r[0] <= s[k] <= r[|s| - 1]
    {
      assert s[k] in multiset(r);
    }
  }
}
