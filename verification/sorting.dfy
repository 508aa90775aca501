/** Ascending sort of the scanline intersections (the std::sort call in
    draw_filled_polygon), and the facts about sorted sequences the
    even-odd fill rule rests on. */
module Sorting {

  predicate Sorted(s: seq<int>) {
    forall i, j :: 0 <= i < j < |s| ==> s[i] <= s[j]
  }

  /** `v` placed into the sorted sequence `s` before the first entry not
      smaller than it. */
  function Insert(v: int, s: seq<int>): (r: seq<int>)
    requires Sorted(s)
    ensures Sorted(r)
    ensures multiset(r) == multiset(s) + multiset{v}
    ensures |r| == |s| + 1
    decreases |s|
  {
    if |s| == 0 || v <= s[0] then [v] + s
    else
      var t := Insert(v, s[1..]);
      assert s == [s[0]] + s[1..];
      forall k | 0 <= k < |t|
        ensures s[0] <= t[k]
      {
        assert t[k] in multiset(t);
        if t[k] != v {
          assert t[k] in multiset(s[1..]);
          assert t[k] in s[1..];
        }
      }
      [s[0]] + t
  }

  /** An ascending permutation of `s`. Any algorithm producing an ascending
      permutation gives the same sequence (SortedUnique), so this stands
      for std::sort. */
  function Sort(s: seq<int>): (r: seq<int>)
    ensures Sorted(r)
    ensures multiset(r) == multiset(s)
    ensures |r| == |s|
    decreases |s|
  {
    if |s| == 0 then []
    else
      assert s == [s[0]] + s[1..];
      Insert(s[0], Sort(s[1..]))
  }

  /** Two ascending sequences with the same elements are equal. */
  lemma {:induction false} SortedUnique(a: seq<int>, b: seq<int>)
    requires Sorted(a) && Sorted(b) && multiset(a) == multiset(b)
    ensures a == b
    decreases |a|
  {
    SameLength(a, b);
    if |a| > 0 {
      SameHeads(a, b);
      SortedUnique(a[1..], b[1..]);
      assert a == [a[0]] + a[1..] && b == [b[0]] + b[1..];
    }
  }

  lemma SameLength(a: seq<int>, b: seq<int>)
    requires multiset(a) == multiset(b)
    ensures |a| == |b|
  {
    assert |a| == |multiset(a)| && |b| == |multiset(b)|;
  }

  /** Equal heads, and what is left after them is again two ascending
      sequences with the same elements. */
  lemma SameHeads(a: seq<int>, b: seq<int>)
    requires Sorted(a) && Sorted(b) && multiset(a) == multiset(b) && |a| > 0 && |b| > 0
    ensures a[0] == b[0]
    ensures Sorted(a[1..]) && Sorted(b[1..]) && multiset(a[1..]) == multiset(b[1..])
  {
    assert a[0] in multiset(b) && b[0] in multiset(a);
    FirstIsLeast(b, a[0]);
    FirstIsLeast(a, b[0]);
    Tail(a);
    Tail(b);
  }

  lemma Tail(s: seq<int>)
    requires Sorted(s) && |s| > 0
    ensures Sorted(s[1..]) && multiset(s[1..]) == multiset(s) - multiset{s[0]}
  {
    assert s == [s[0]] + s[1..];
  }

  /** The first entry of an ascending sequence is its least. */
  lemma FirstIsLeast(s: seq<int>, v: int)
    requires Sorted(s) && v in s
    ensures s[0] <= v
  {}

  /** How many entries of `s` are smaller than `x`. */
  function CountBelow(s: seq<int>, x: int): nat
    decreases |s|
  {
    if |s| == 0 then 0 else (if s[0] < x then 1 else 0) + CountBelow(s[1..], x)
  }

  lemma {:induction false} CountBelowInsert(v: int, s: seq<int>, x: int)
    requires Sorted(s)
    ensures CountBelow(Insert(v, s), x) == CountBelow(s, x) + (if v < x then 1 else 0)
    decreases |s|
  {
    if |s| == 0 || v <= s[0] {
      assert ([v] + s)[1..] == s;
    } else {
      CountBelowInsert(v, s[1..], x);
      assert ([s[0]] + Insert(v, s[1..]))[1..] == Insert(v, s[1..]);
    }
  }

  /** Sorting does not change how many entries lie below a given value. */
  lemma {:induction false} CountBelowSort(s: seq<int>, x: int)
    ensures CountBelow(Sort(s), x) == CountBelow(s, x)
    decreases |s|
  {
    if |s| > 0 {
      CountBelowSort(s[1..], x);
      CountBelowInsert(s[0], Sort(s[1..]), x);
    }
  }

  /** `x` lies in one of the closed intervals [s[0], s[1]], [s[2], s[3]],
      ...; an unpaired last entry is ignored. */
  function InPairs(s: seq<int>, x: int): bool
    decreases |s|
  {
    if |s| < 2 then false else (s[0] <= x <= s[1]) || InPairs(s[2..], x)
  }

  lemma {:induction false} BelowAllNotInPairs(s: seq<int>, x: int)
    requires forall k :: 0 <= k < |s| ==> x < s[k]
    ensures !InPairs(s, x) && CountBelow(s, x) == 0
    decreases |s|
  {
    if |s| > 0 {
      BelowAllNotInPairs(s[1..], x);
      if |s| >= 2 {
        BelowAllNotInPairs(s[2..], x);
      }
    }
  }

  /** The even-odd rule: for an ascending sequence of even length and a
      value that is none of its entries, the value lies inside one of the
      pairs exactly when an odd number of entries are smaller than it. */
  lemma {:induction false} EvenOdd(s: seq<int>, x: int)
    requires Sorted(s) && |s| % 2 == 0 && x !in s
    ensures InPairs(s, x) <==> CountBelow(s, x) % 2 == 1
    decreases |s|
  {
    if |s| > 0 {
      var rest := s[2..];
      assert CountBelow(s, x) == (if s[0] < x then 1 else 0) + (if s[1] < x then 1 else 0) + CountBelow(rest, x) by {
        assert s[1..][1..] == rest;
      }
      if x < s[1] {
        BelowAllNotInPairs(rest, x);
      } else {
        EvenOdd(rest, x);
      }
    }
  }

  /** Every entry of an ascending sequence of even length is inside one of
      its pairs: the end points of each filled interval are filled. */
  lemma {:induction false} EntryInPairs(s: seq<int>, x: int)
    requires Sorted(s) && |s| % 2 == 0 && x in s
    ensures InPairs(s, x)
    decreases |s|
  {
    if !(s[0] <= x <= s[1]) {
      assert x in s[2..] by {
        var k :| 0 <= k < |s| && s[k] == x;
        assert k >= 2;
        assert s[2..][k - 2] == x;
      }
      EntryInPairs(s[2..], x);
    }
  }
}
