/** Ascending sort of a list of timestamps (`attempts.sort()`), as a pure
    function returning a sorted permutation. */
module Sorting {
  import opened Records

  predicate Sorted(s: seq<Time>)
  {
    forall i, j :: 0 <= i < j < |s| ==> s[i] <= s[j]
  }

  /** A head no later than every element of a sorted tail keeps it sorted. */
  lemma SortedCons(h: Time, t: seq<Time>)
    requires Sorted(t)
    requires forall k :: 0 <= k < |t| ==> h <= t[k]
    ensures Sorted([h] + t)
  {
    var r := [h] + t;
    forall i, j | 0 <= i < j < |r| ensures r[i] <= r[j] {
      assert r[j] == t[j - 1];
      if i > 0 {
        assert r[i] == t[i - 1];
      }
    }
  }

  /** Puts `x` into a sorted list at its place. */
  function Insert(x: Time, s: seq<Time>): (r: seq<Time>)
    requires Sorted(s)
    ensures Sorted(r)
    ensures multiset(r) == multiset(s) + multiset{x}
    ensures |r| == |s| + 1
  {
    if |s| == 0 then [x]
    else if x <= s[0] then
      SortedCons(x, s);
      [x] + s
    else
      var tl := s[1..];
      var rest := Insert(x, tl);
      assert s == [s[0]] + tl;
      assert multiset(s) == multiset{s[0]} + multiset(tl);
      forall k | 0 <= k < |rest| ensures s[0] <= rest[k] {
        assert rest[k] in multiset(rest);
        if rest[k] != x {
          assert rest[k] in multiset(tl);
          var m :| 0 <= m < |tl| && tl[m] == rest[k];
          assert s[m + 1] == rest[k];
        }
      }
      SortedCons(s[0], rest);
      assert multiset([s[0]] + rest) == multiset{s[0]} + multiset(rest);
      [s[0]] + rest
  }

  /** Insertion sort: an ascending permutation of the input. */
  function Sort(s: seq<Time>): (r: seq<Time>)
    ensures Sorted(r)
    ensures multiset(r) == multiset(s)
    ensures |r| == |s|
  {
    if |s| == 0 then []
    else
      assert s == [s[0]] + s[1..];
      Insert(s[0], Sort(s[1..]))
  }

  /** The least element of a sorted list is its head. */
  lemma HeadIsLeast(s: seq<Time>, x: Time)
    requires Sorted(s) && x in multiset(s)
    ensures s[0] <= x
  {
    var k :| 0 <= k < |s| && s[k] == x;
  }

  /** A multiset has one ascending arrangement only, so the sorted list
      depends only on which times occur how often, not on their order. */
  lemma {:induction false} SortedUnique(a: seq<Time>, b: seq<Time>)
    requires Sorted(a) && Sorted(b)
    requires multiset(a) == multiset(b)
    ensures a == b
    decreases |a|
  {
    if |a| > 0 {
      assert |b| == |a| by {
        assert |multiset(a)| == |a| && |multiset(b)| == |b|;
      }
      HeadIsLeast(a, b[0]);
      HeadIsLeast(b, a[0]);
      assert a == [a[0]] + a[1..];
      assert b == [b[0]] + b[1..];
      assert a[0] == b[0];
      assert multiset(a[1..]) == multiset(a) - multiset{a[0]};
      assert multiset(b[1..]) == multiset(b) - multiset{b[0]};
      assert multiset(a[1..]) == multiset(b[1..]);
      SortedUnique(a[1..], b[1..]);
    } else {
      assert |b| == 0 by {
        assert |multiset(b)| == |b|;
      }
    }
  }

  /** Sorting two arrangements of the same times gives the same list. */
  lemma SortIgnoresOrder(a: seq<Time>, b: seq<Time>)
    requires multiset(a) == multiset(b)
    ensures Sort(a) == Sort(b)
  {
    SortedUnique(Sort(a), Sort(b));
  }
}
