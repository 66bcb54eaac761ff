/**
 * The small consumers of the centered heap: the insertion sort used for
 * short ranges, the sortedness check, and the two heap sorts that build a
 * centered heap over the whole slice and pop it empty from one end.
 */
module Sorting {
  import opened HeapOrder
  import opened CenteredHeap

  /** Nondecreasing. */
  ghost predicate Sorted(s: seq<int>)
  {
    forall p, q :: 0 <= p < q < |s| ==> s[p] <= s[q]
  }

  /** Nonincreasing. */
  ghost predicate Descending(s: seq<int>)
  {
    forall p, q :: 0 <= p < q < |s| ==> s[p] >= s[q]
  }

  /** `s` read back to front. */
  ghost function Reversed(s: seq<int>): seq<int>
  {
    seq(|s|, k requires 0 <= k < |s| => s[|s| - 1 - k])
  }

  /** Every neighbouring pair in order makes the whole sequence sorted. */
  lemma {:induction false} NeighboursSorted(s: seq<int>)
    requires forall p :: 0 < p < |s| ==> s[p - 1] <= s[p]
    ensures Sorted(s)
  {
    if |s| > 1 {
      var r := s[..|s| - 1];
      assert forall p :: 0 < p < |r| ==> r[p - 1] <= r[p] by {
        forall p | 0 < p < |r|
          ensures r[p - 1] <= r[p]
        {
          assert r[p - 1] == s[p - 1] && r[p] == s[p];
        }
      }
      NeighboursSorted(r);
      forall p, q | 0 <= p < q < |s|
        ensures s[p] <= s[q]
      {
        if q < |s| - 1 {
          assert s[p] == r[p] && s[q] == r[q];
        } else if p < q - 1 {
          assert s[p] == r[p] && s[q - 1] == r[q - 1];
        }
      }
    }
  }

  // ---------------------------------------------------------------------
  // small_sort

  /** The slots `[lo, hi)` of `s` are in order. */
  ghost predicate SortedIn(s: seq<int>, lo: nat, hi: nat)
    requires lo <= hi <= |s|
  {
    forall p, q :: lo <= p < q < hi ==> s[p] <= s[q]
  }

  /**
   * The state of the inner loop of the insertion sort: `[lo, i]` is in
   * order except for the element being moved, at `j`, which is no greater
   * than anything to its right.
   */
  ghost predicate Inserting(s: seq<int>, lo: nat, i: nat, j: nat)
    requires lo <= j <= i < |s|
  {
    (forall p, q :: lo <= p < q <= i && p != j && q != j ==> s[p] <= s[q])
    && (forall q :: j < q <= i ==> s[j] <= s[q])
  }

  lemma SortedInSlice(s: seq<int>, lo: nat, hi: nat)
    requires lo <= hi <= |s|
    ensures SortedIn(s, lo, hi) <==> Sorted(s[lo..hi])
  {
    if SortedIn(s, lo, hi) {
      forall p, q | 0 <= p < q < hi - lo
        ensures s[lo..hi][p] <= s[lo..hi][q]
      {
        assert s[lo..hi][p] == s[lo + p] && s[lo..hi][q] == s[lo + q];
      }
    }
    if Sorted(s[lo..hi]) {
      forall p, q | lo <= p < q < hi
        ensures s[p] <= s[q]
      {
        assert s[p] == s[lo..hi][p - lo] && s[q] == s[lo..hi][q - lo];
      }
    }
  }

  /** Exchanging the moved element with a greater left neighbour keeps the loop state. */
  lemma InsertingStep(s: seq<int>, t: seq<int>, lo: nat, i: nat, j: nat)
    requires lo < j <= i < |s| && Inserting(s, lo, i, j) && s[j] < s[j - 1]
    requires t == Swapped(s, j - 1, j)
    ensures Inserting(t, lo, i, j - 1)
  {
    forall p, q | lo <= p < q <= i && p != j - 1 && q != j - 1
      ensures t[p] <= t[q]
    {
      if q == j {
        assert t[q] == s[j - 1] && t[p] == s[p];
      } else if p == j {
        assert t[p] == s[j - 1] && t[q] == s[q];
      } else {
        assert t[p] == s[p] && t[q] == s[q];
      }
    }
    forall q | j - 1 < q <= i
      ensures t[j - 1] <= t[q]
    {
      if q > j {
        assert t[q] == s[q];
      }
    }
  }

  /** Once the moved element meets a left neighbour no greater than it, `[lo, i]` is in order. */
  lemma InsertingDone(s: seq<int>, lo: nat, i: nat, j: nat)
    requires lo <= j <= i < |s| && Inserting(s, lo, i, j)
    requires j == lo || s[j - 1] <= s[j]
    ensures SortedIn(s, lo, i + 1)
  {
    forall p, q | lo <= p < q <= i
      ensures s[p] <= s[q]
    {
      if q == j && p < j - 1 {
        assert s[p] <= s[j - 1];
      }
    }
  }

  /**
   * The inner loop's state against the slice `o` it started from: the loop
   * state, the same elements, and nothing outside `[lo, i]` changed.
   */
  ghost predicate InsertingFrom(o: seq<int>, s: seq<int>, lo: nat, i: nat, j: nat)
    requires lo <= j <= i < |s| == |o|
  {
    Inserting(s, lo, i, j) && multiset(s) == multiset(o)
    && s[..lo] == o[..lo] && s[i + 1..] == o[i + 1..]
  }

  /** One exchange of the inner loop keeps its state against the starting slice. */
  lemma InsertingFromStep(o: seq<int>, s: seq<int>, t: seq<int>, lo: nat, i: nat, j: nat)
    requires lo < j <= i < |s| == |o| && InsertingFrom(o, s, lo, i, j) && s[j] < s[j - 1]
    requires t == Swapped(s, j - 1, j)
    ensures InsertingFrom(o, t, lo, i, j - 1)
  {
    InsertingStep(s, t, lo, i, j);
    SwappedPerm(s, j - 1, j);
    SwapKeepsOutside(s, lo, i + 1, j - 1, j);
  }

  /**
   * `small_sort`: insertion sort of `[lo, hi)` by exchanging neighbours.
   * Afterwards the range is sorted, holds the same elements, and the rest
   * of the slice is unchanged.
   */
  method SmallSort(a: array<int>, lo: nat, hi: nat)
    requires lo <= hi <= a.Length
    modifies a
    ensures Sorted(a[lo..hi])
    ensures multiset(a[lo..hi]) == old(multiset(a[lo..hi]))
    ensures a[..lo] == old(a[..lo]) && a[hi..] == old(a[hi..])
  {
    var i := lo + 1;
    while i < hi
      invariant lo < i && (lo < hi ==> i <= hi)
      invariant lo < hi ==> SortedIn(a[..], lo, i)
      invariant multiset(a[..]) == old(multiset(a[..]))
      invariant a[..lo] == old(a[..lo]) && a[hi..] == old(a[hi..])
    {
      ghost var o := a[..];
      var j := i;
      while j > lo && a[j] < a[j - 1]
        invariant lo <= j <= i && InsertingFrom(o, a[..], lo, i, j)
      {
        ghost var s := a[..];
        a[j - 1], a[j] := a[j], a[j - 1];
        InsertingFromStep(o, s, a[..], lo, i, j);
        j := j - 1;
      }
      InsertingDone(a[..], lo, i, j);
      assert a[hi..] == a[i + 1..][hi - i - 1..];
      assert o[hi..] == o[i + 1..][hi - i - 1..];
      i := i + 1;
    }
    SortedInSlice(a[..], lo, hi);
    WindowPerm(old(a[..]), a[..], lo, hi);
  }

  // ---------------------------------------------------------------------
  // is_sorted

  /** What the sortedness check can do: stop on an out-of-bounds read, or answer. */
  datatype Checked = IndexPanic | Answer(sorted: bool)

  /**
   * The outcome of `is_sorted` as written: it reads the slot `lo` before
   * looking at the range, so it stops when `lo` is the length of the
   * slice, even though the range `[lo, hi)` is then empty; otherwise it
   * answers whether the range is sorted.
   */
  ghost function IsSortedOutcome(s: seq<int>, lo: nat, hi: nat): (r: Checked)
    requires lo <= hi <= |s|
    ensures r == IndexPanic <==> lo == |s|
    ensures r.Answer? ==> (r.sorted <==> Sorted(s[lo..hi]))
  {
    if lo == |s| then IndexPanic else Answer(Sorted(s[lo..hi]))
  }

  /**
   * `is_sorted` as written: scans the range keeping the previous element,
   * answering false at the first element smaller than its left neighbour.
   */
  method IsSortedAsWritten(a: array<int>, lo: nat, hi: nat) returns (r: Checked)
    requires lo <= hi <= a.Length
    ensures r == IsSortedOutcome(a[..], lo, hi)
  {
    if lo == a.Length {
      return IndexPanic;
    }
    var v := a[lo];
    var i := lo + 1;
    while i < hi
      invariant lo < i <= a.Length && (lo < hi ==> i <= hi)
      invariant v == a[i - 1]
      invariant forall p :: lo < p < i && p < hi ==> a[p - 1] <= a[p]
    {
      var vv := a[i];
      if vv < v {
        assert a[lo..hi][i - 1 - lo] > a[lo..hi][i - lo];
        return Answer(false);
      }
      v := vv;
      i := i + 1;
    }
    assert forall p :: 0 < p < hi - lo ==> a[lo..hi][p - 1] <= a[lo..hi][p] by {
      forall p | 0 < p < hi - lo
        ensures a[lo..hi][p - 1] <= a[lo..hi][p]
      {
        assert a[lo..hi][p] == a[lo + p];
      }
    }
    NeighboursSorted(a[lo..hi]);
    return Answer(true);
  }

  /** The smallest input on which the check as written stops: an empty slice. */
  lemma IsSortedAsWrittenPanicsOnEmpty()
    ensures Sorted([])
    ensures IsSortedOutcome([], 0, 0) == IndexPanic
  {
  }

  /**
   * The sortedness check with the empty range answered before any slot is
   * read: it answers, and answers whether the range is sorted.
   */
  method IsSorted(a: array<int>, lo: nat, hi: nat) returns (r: bool)
    requires lo <= hi <= a.Length
    ensures r <==> Sorted(a[lo..hi])
  {
    if lo == hi {
      return true;
    }
    var c := IsSortedAsWritten(a, lo, hi);
    return c.sorted;
  }

  // ---------------------------------------------------------------------
  // heap_sort_left and heap_sort_right

  /**
   * The state of `heap_sort_left` with the window at `[lo, hi)`: the prefix
   * `[0, lo)` is in order, neighbour by neighbour, and its last element is
   * no greater than any element of the window.
   */
  ghost predicate SortedPrefix(s: seq<int>, lo: nat, hi: nat)
    requires lo <= hi <= |s|
  {
    (forall p :: 0 < p < lo ==> s[p - 1] <= s[p])
    && (0 < lo ==> forall k :: lo <= k < hi ==> s[lo - 1] <= s[k])
  }

  /**
   * One pop at the left end keeps the state of `heap_sort_left`: the popped
   * element joins the prefix, where it is no less than the prefix's old
   * last element, and no greater than what is left in the window.
   */
  lemma PrefixGrows(s: seq<int>, u: seq<int>, lo: nat, hi: nat, lo': nat)
    requires lo < hi <= |s| == |u| && lo' == lo + 1
    requires SortedPrefix(s, lo, hi)
    requires u[..lo] == s[..lo]
    requires forall k :: lo' <= k < hi ==> u[lo] <= u[k]
    requires multiset(u[lo'..hi]) + multiset{u[lo]} == multiset(s[lo..hi])
    ensures SortedPrefix(u, lo', hi)
  {
    assert u[lo] in multiset(s[lo..hi]);
    forall p | 0 < p < lo'
      ensures u[p - 1] <= u[p]
    {
      if p < lo {
        assert u[p - 1] == u[..lo][p - 1] && u[p] == u[..lo][p];
      } else {
        assert u[p - 1] == u[..lo][p - 1];
        BoundInContents(s, lo, hi, s[lo - 1], u[lo]);
      }
    }
  }

  /** Once the window of `heap_sort_left` is empty at the end of the slice, the slice is sorted. */
  lemma PrefixDone(s: seq<int>, lo: nat)
    requires lo == |s| && SortedPrefix(s, lo, lo)
    ensures Sorted(s)
  {
    NeighboursSorted(s);
  }

  /**
   * `heap_sort_left`: a heap over the whole slice rooted at its last slot,
   * popped empty at the left end. Each pop places the least remaining
   * element just right of the growing prefix, so the slice ends up sorted
   * and holding the same elements. The source needs a non-empty slice: the
   * root of an empty one would lie before slot 0.
   */
  method HeapSortLeft(a: array<int>)
    requires a.Length > 0
    modifies a
    ensures Sorted(a[..])
    ensures multiset(a[..]) == old(multiset(a[..]))
  {
    var h := new Cheap.NewSpanRight(a);
    h.Recenter();
    while !h.IsEmpty()
      invariant h.a == a && h.Valid() && h.hi == a.Length
      invariant SortedPrefix(a[..], h.lo, h.hi)
      invariant multiset(a[..]) == old(multiset(a[..]))
      decreases h.hi - h.lo
    {
      ghost var s := a[..];
      var l := h.lo;
      h.PopLeft();
      PrefixGrows(s, a[..], l, h.hi, h.lo);
    }
    PrefixDone(a[..], h.lo);
  }

  /**
   * The state of `heap_sort_right` with the window at `[lo, hi)`: the
   * suffix `[hi, len)` is nonincreasing, neighbour by neighbour, and its
   * first element is no greater than any element of the window.
   */
  ghost predicate DescendingSuffix(s: seq<int>, lo: nat, hi: nat)
    requires lo <= hi <= |s|
  {
    (forall p :: hi < p < |s| ==> s[p - 1] >= s[p])
    && (hi < |s| ==> forall k :: lo <= k < hi ==> s[hi] <= s[k])
  }

  /**
   * One pop at the right end keeps the state of `heap_sort_right`: the
   * popped element joins the suffix, where it is no greater than the
   * suffix's old first element, and no greater than what is left in the
   * window.
   */
  lemma SuffixGrows(s: seq<int>, u: seq<int>, lo: nat, hi: nat, hi': nat)
    requires lo <= hi' && hi' + 1 == hi && hi <= |s| == |u|
    requires DescendingSuffix(s, lo, hi)
    requires u[hi..] == s[hi..]
    requires forall k :: lo <= k < hi' ==> u[hi'] <= u[k]
    requires multiset(u[lo..hi']) + multiset{u[hi']} == multiset(s[lo..hi])
    ensures DescendingSuffix(u, lo, hi')
  {
    assert u[hi'] in multiset(s[lo..hi]);
    forall p | hi' < p < |u|
      ensures u[p - 1] >= u[p]
    {
      if p > hi {
        assert u[p - 1] == u[hi..][p - 1 - hi] && u[p] == u[hi..][p - hi];
      } else {
        assert u[p] == u[hi..][0];
        BoundInContents(s, lo, hi, s[hi], u[hi']);
      }
    }
  }

  /** Every neighbouring pair out of order the other way makes the whole sequence nonincreasing. */
  lemma {:induction false} NeighboursDescending(s: seq<int>)
    requires forall p :: 0 < p < |s| ==> s[p - 1] >= s[p]
    ensures Descending(s)
  {
    if |s| > 1 {
      var r := s[..|s| - 1];
      assert forall p :: 0 < p < |r| ==> r[p - 1] >= r[p] by {
        forall p | 0 < p < |r|
          ensures r[p - 1] >= r[p]
        {
          assert r[p - 1] == s[p - 1] && r[p] == s[p];
        }
      }
      NeighboursDescending(r);
      forall p, q | 0 <= p < q < |s|
        ensures s[p] >= s[q]
      {
        if q < |s| - 1 {
          assert s[p] == r[p] && s[q] == r[q];
        } else if p < q - 1 {
          assert s[p] == r[p] && s[q - 1] == r[q - 1];
        }
      }
    }
  }

  /** Reading a nonincreasing sequence back to front gives a sorted one. */
  lemma ReversedDescending(s: seq<int>)
    requires Descending(s)
    ensures Sorted(Reversed(s))
  {
  }

  /** Reading back to front keeps the elements. */
  lemma {:induction false} ReversedPerm(s: seq<int>)
    ensures multiset(Reversed(s)) == multiset(s)
  {
    if s != [] {
      ReversedPerm(s[1..]);
      assert Reversed(s) == Reversed(s[1..]) + [s[0]];
      assert s == [s[0]] + s[1..];
    }
  }

  /** Once the window of `heap_sort_right` is empty at slot 0, the slice is nonincreasing. */
  lemma SuffixDone(s: seq<int>, hi: nat)
    requires hi == 0 && DescendingSuffix(s, 0, hi)
    ensures Descending(s)
  {
    NeighboursDescending(s);
  }

  /** A reversal keeps the elements, and turns a nonincreasing sequence into a sorted one. */
  lemma ReversalSorts(s: seq<int>, u: seq<int>)
    requires ReversalOf(s, u)
    ensures multiset(u) == multiset(s)
    ensures Descending(s) ==> Sorted(u)
  {
    ReversalIsReversed(s, u);
    ReversedPerm(s);
    if Descending(s) {
      ReversedDescending(s);
    }
  }

  /** `u` holds the elements of `s` back to front, slot by slot. */
  ghost predicate ReversalOf(s: seq<int>, u: seq<int>)
  {
    |u| == |s| && forall k :: 0 <= k < |s| ==> u[k] == s[|s| - 1 - k]
  }

  /** The slot-by-slot reversal is the reversed sequence, and nothing else. */
  lemma ReversalIsReversed(s: seq<int>, u: seq<int>)
    ensures ReversalOf(s, u) <==> u == Reversed(s)
  {
  }

  /** `slice::reverse`: exchanges the slots at equal distances from the two ends. */
  method Reverse(a: array<int>)
    modifies a
    ensures ReversalOf(old(a[..]), a[..])
    ensures multiset(a[..]) == old(multiset(a[..]))
    ensures Descending(old(a[..])) ==> Sorted(a[..])
  {
    var n := a.Length;
    for i := 0 to n / 2
      invariant forall k :: 0 <= k < i ==> a[k] == old(a[n - 1 - k]) && a[n - 1 - k] == old(a[k])
      invariant forall k :: i <= k < n - i ==> a[k] == old(a[k])
    {
      a[i], a[n - 1 - i] := a[n - 1 - i], a[i];
    }
    ReversalSorts(old(a[..]), a[..]);
  }

  /**
   * `heap_sort_right`: a heap over the whole slice rooted at its first
   * slot, popped empty at the right end. Each pop places the least
   * remaining element just left of the growing suffix, so the slice ends
   * up nonincreasing; reversing it leaves it sorted, with the same
   * elements.
   */
  method HeapSortRight(a: array<int>)
    modifies a
    ensures Sorted(a[..])
    ensures multiset(a[..]) == old(multiset(a[..]))
  {
    var h := new Cheap.NewSpanLeft(a);
    h.Recenter();
    while !h.IsEmpty()
      invariant h.a == a && h.Valid() && h.lo == 0 && h.c == 0
      invariant DescendingSuffix(a[..], h.lo, h.hi)
      invariant multiset(a[..]) == old(multiset(a[..]))
      decreases h.hi - h.lo
    {
      ghost var s := a[..];
      var r := h.hi;
      h.PopRight();
      SuffixGrows(s, a[..], h.lo, r, h.hi);
    }
    SuffixDone(a[..], h.hi);
    Reverse(a);
  }
}
