/** Ring positions and the ordering facts the ring relies on.

    A ring position is a Go `uint32`. The ring keeps its positions in an
    ascending sequence; this module defines that order, the sort that
    `sort.Slice` performs on it, and order-preserving subsequences (what a
    filtering pass over a sorted sequence produces).
 */
module Sorting {
  import opened GoTypes

  /** Ascending (non-strict: equal positions may repeat). */
  predicate Sorted(s: seq<uint32>) {
    forall i, j :: 0 <= i < j < |s| ==> s[i] <= s[j]
  }

  /** Every element of `s` is at least `b`. */
  predicate LowerBound(b: uint32, s: seq<uint32>) {
    forall i :: 0 <= i < |s| ==> b <= s[i]
  }

  lemma SortedCons(a: uint32, s: seq<uint32>)
    requires LowerBound(a, s) && Sorted(s)
    ensures Sorted([a] + s)
  {
    var t := [a] + s;
    forall i, j | 0 <= i < j < |t|
      ensures t[i] <= t[j]
    {
      if i > 0 {
        assert t[i] == s[i - 1] && t[j] == s[j - 1];
      }
    }
  }

  /** The first element of an ascending sequence is its least. */
  lemma SortedHeadLeast(s: seq<uint32>, x: uint32)
    requires Sorted(s) && x in s
    ensures s[0] <= x
  {
  }

  /** Inserts `x` before the first element of `s` that is not below it. */
  function Insert(x: uint32, s: seq<uint32>): (r: seq<uint32>)
    ensures multiset(r) == multiset(s) + multiset{x}
    ensures |r| == |s| + 1
    decreases |s|
  {
    if |s| == 0 then [x]
    else if x <= s[0] then [x] + s
    else
      assert s == [s[0]] + s[1..];
      [s[0]] + Insert(x, s[1..])
  }

  lemma {:induction false} InsertLowerBound(b: uint32, x: uint32, s: seq<uint32>)
    requires b <= x && LowerBound(b, s)
    ensures LowerBound(b, Insert(x, s))
    decreases |s|
  {
    if |s| > 0 && x > s[0] {
      InsertLowerBound(b, x, s[1..]);
    }
  }

  /** Inserting into an ascending sequence keeps it ascending. */
  lemma {:induction false} InsertSorted(x: uint32, s: seq<uint32>)
    requires Sorted(s)
    ensures Sorted(Insert(x, s))
    decreases |s|
  {
    if |s| == 0 {
    } else if x <= s[0] {
      SortedCons(x, s);
    } else {
      InsertSorted(x, s[1..]);
      InsertLowerBound(s[0], x, s[1..]);
      SortedCons(s[0], Insert(x, s[1..]));
    }
  }

  /** The ascending rearrangement of `s`: what `sort.Slice` with `<` leaves behind.
      (Which sorting algorithm is used does not matter: see `SortedUnique`.) */
  function Sort(s: seq<uint32>): (r: seq<uint32>)
    ensures Sorted(r)
    ensures multiset(r) == multiset(s)
    ensures |r| == |s|
    decreases |s|
  {
    if |s| == 0 then []
    else
      assert s == s[..|s| - 1] + [s[|s| - 1]];
      InsertSorted(s[|s| - 1], Sort(s[..|s| - 1]));
      Insert(s[|s| - 1], Sort(s[..|s| - 1]))
  }

  /** Two ascending sequences holding the same elements are equal: the sorted
      order of a multiset of positions is unique, so every correct sort of the
      same positions yields the same sequence. */
  lemma {:induction false} SortedUnique(a: seq<uint32>, b: seq<uint32>)
    requires Sorted(a) && Sorted(b)
    requires multiset(a) == multiset(b)
    ensures a == b
    decreases |a|
  {
    if |a| == 0 {
      assert |multiset(b)| == 0;
    } else {
      assert |b| == |a| by {
        assert |multiset(b)| == |multiset(a)|;
      }
      assert a[0] in b by {
        assert a[0] in multiset(b);
      }
      assert b[0] in a by {
        assert b[0] in multiset(a);
      }
      SortedHeadLeast(b, a[0]);
      SortedHeadLeast(a, b[0]);
      assert a[0] == b[0];
      assert multiset(a[1..]) == multiset(b[1..]) by {
        assert a == [a[0]] + a[1..];
        assert b == [b[0]] + b[1..];
        assert multiset(a[1..]) == multiset(a) - multiset{a[0]};
        assert multiset(b[1..]) == multiset(b) - multiset{b[0]};
      }
      SortedUnique(a[1..], b[1..]);
    }
  }

  /** `a` is `b` with some elements dropped, the rest kept in their order. */
  ghost predicate IsSubsequence(a: seq<uint32>, b: seq<uint32>)
    decreases |b|
  {
    if |a| == 0 then true
    else if |b| == 0 then false
    else (a[0] == b[0] && IsSubsequence(a[1..], b[1..])) || IsSubsequence(a, b[1..])
  }

  /** Every element of a subsequence occurs in the sequence it was taken from. */
  lemma {:induction false} SubsequenceElements(a: seq<uint32>, b: seq<uint32>)
    requires IsSubsequence(a, b)
    ensures forall x :: x in a ==> x in b
    decreases |b|
  {
    if |a| == 0 {
    } else if a[0] == b[0] && IsSubsequence(a[1..], b[1..]) {
      SubsequenceElements(a[1..], b[1..]);
      assert a == [a[0]] + a[1..];
      assert b == [b[0]] + b[1..];
    } else {
      SubsequenceElements(a, b[1..]);
      assert b == [b[0]] + b[1..];
    }
  }

  /** Dropping elements from an ascending sequence keeps it ascending. */
  lemma {:induction false} SubsequenceSorted(a: seq<uint32>, b: seq<uint32>)
    requires IsSubsequence(a, b)
    ensures Sorted(b) ==> Sorted(a)
    decreases |b|
  {
    if |a| == 0 || !Sorted(b) {
    } else if a[0] == b[0] && IsSubsequence(a[1..], b[1..]) {
      SubsequenceSorted(a[1..], b[1..]);
      SubsequenceElements(a[1..], b[1..]);
      forall j | 0 < j < |a|
        ensures a[0] <= a[j]
      {
        assert a[j] == a[1..][j - 1];
        assert a[j] in b[1..];
      }
    } else {
      SubsequenceSorted(a, b[1..]);
    }
  }

  /** No position occurs twice. */
  predicate Distinct(s: seq<uint32>) {
    forall i, j :: 0 <= i < j < |s| ==> s[i] != s[j]
  }

  /** A sequence without repeats has as many distinct elements as entries. */
  lemma {:induction false} DistinctCard(s: seq<uint32>)
    requires Distinct(s)
    ensures |set x | x in s| == |s|
    decreases |s|
  {
    if |s| > 0 {
      var t := s[1..];
      DistinctCard(t);
      assert (set x | x in s) == (set x | x in t) + {s[0]} by {
        assert s == [s[0]] + t;
      }
      assert s[0] !in t by {
        forall j | 0 <= j < |t|
          ensures t[j] != s[0]
        {
          assert t[j] == s[j + 1];
        }
      }
    }
  }
}
