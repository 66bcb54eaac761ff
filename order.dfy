/**
 * Heap order of a centered heap, stated on the contents of the backing
 * slice as a sequence, and the facts about single swaps that the sifting
 * loops of the heap are built from.
 */
module HeapOrder {
  import opened CheapIndex

  /**
   * The range invariant: the window `[lo, hi)` lies inside the slice, and
   * either the heap is empty with all three markers equal, or the root
   * `c` is a slot of the window.
   */
  ghost predicate Window(lo: nat, c: nat, hi: nat, len: nat)
  {
    hi <= len && ((lo == c && c == hi) || (lo <= c && c < hi))
  }

  /**
   * The range check of the heap: the markers lie inside the slice and are
   * either all equal or in order. The first alternative is a case of the
   * second, so the check only asks for ordered markers. It is weaker than
   * `Window`: it also lets the root sit at `hi` above a non-empty window.
   */
  predicate RangeOk(lo: nat, c: nat, hi: nat, len: nat): (r: bool)
    ensures r <==> lo <= c <= hi <= len
  {
    hi <= len && ((lo == c && c == hi) || (lo <= c && c <= hi))
  }

  /** `Window` is the range check plus "a non-empty window holds its root". */
  lemma WindowIsRangeOkWithRootInside(lo: nat, c: nat, hi: nat, len: nat)
    ensures Window(lo, c, hi, len) <==> RangeOk(lo, c, hi, len) && (c == hi ==> lo == hi)
  {
  }

  /** The range check accepts a root outside a non-empty window. */
  lemma RangeOkAdmitsRootAtHi()
    ensures RangeOk(0, 1, 1, 1) && !Window(0, 1, 1, 1)
  {
  }

  /** Every slot that a heap-order check reads lies inside the slice. */
  ghost predicate Indexable(lo: nat, c: nat, hi: nat, len: nat)
  {
    lo <= c <= hi <= len && (lo < hi ==> c < len)
  }

  /** Heap order: no slot of the window other than the root is better than its parent. */
  ghost predicate Ordered(s: seq<int>, lo: nat, c: nat, hi: nat)
    requires Indexable(lo, c, hi, |s|)
  {
    forall j :: lo <= j < hi && j != c ==> s[Parent(j, c)] <= s[j]
  }

  /** Heap order restricted to the edges whose parent is done (see `Done`). */
  ghost predicate OrderedOn(s: seq<int>, lo: nat, c: nat, hi: nat, x: int, y: int)
    requires Indexable(lo, c, hi, |s|)
  {
    forall j :: lo <= j < hi && j != c && Done(Parent(j, c), lo, x, y, hi) ==> s[Parent(j, c)] <= s[j]
  }

  /**
   * The slots whose edges to their children a sift must keep: the left part
   * `[lo, x)` and the right part `[y, hi)` of the window.
   */
  ghost predicate Done(p: int, lo: nat, x: int, y: int, hi: nat)
  {
    lo <= p < x || y <= p < hi
  }

  /** `s` with the elements at `i` and `j` exchanged. */
  ghost function Swapped(s: seq<int>, i: nat, j: nat): seq<int>
    requires i < |s| && j < |s|
  {
    s[i := s[j]][j := s[i]]
  }

  /**
   * The state in the middle of moving a node away from the root: `n` is the
   * node being moved; the done slots (those whose edges matter) include `n`
   * and the children of each done slot; every edge from a done slot holds
   * except those from `n` to its children; and `n`'s own parent, when it is
   * done, is no worse than `n`'s children.
   */
  ghost predicate SiftOutReady(s: seq<int>, lo: nat, c: nat, hi: nat, x: int, y: int, n: nat)
    requires Window(lo, c, hi, |s|)
  {
    lo <= n < hi && Done(n, lo, x, y, hi)
    && (forall j :: lo <= j < hi && j != c && Done(Parent(j, c), lo, x, y, hi) ==> Done(j, lo, x, y, hi))
    && (forall j :: lo <= j < hi && j != c && Done(Parent(j, c), lo, x, y, hi) && Parent(j, c) != n ==>
          s[Parent(j, c)] <= s[j])
    && (n != c && Done(Parent(n, c), lo, x, y, hi) ==>
          forall j :: lo <= j < hi && j != c && Parent(j, c) == n ==> s[Parent(n, c)] <= s[j])
  }

  /**
   * The state in the middle of moving a node toward the root: every edge of
   * the window holds except the one into `n`, and `n`'s parent is no worse
   * than `n`'s children.
   */
  ghost predicate SiftInReady(s: seq<int>, lo: nat, c: nat, hi: nat, n: nat)
    requires Window(lo, c, hi, |s|)
  {
    lo <= n < hi
    && (forall j :: lo <= j < hi && j != c && j != n ==> s[Parent(j, c)] <= s[j])
    && (n != c ==>
          forall j :: lo <= j < hi && j != c && Parent(j, c) == n ==> s[Parent(n, c)] <= s[j])
  }

  /** A swap is a permutation. */
  lemma SwappedPerm(s: seq<int>, i: nat, j: nat)
    requires i < |s| && j < |s|
    ensures |Swapped(s, i, j)| == |s|
    ensures multiset(Swapped(s, i, j)) == multiset(s)
  {
  }

  /** A sequence holds the elements of its three consecutive pieces. */
  lemma SplitMultiset(s: seq<int>, lo: nat, hi: nat)
    requires lo <= hi <= |s|
    ensures multiset(s) == multiset(s[..lo]) + multiset(s[lo..hi]) + multiset(s[hi..])
  {
    assert s == s[..lo] + s[lo..hi] + s[hi..];
  }

  /** Equal surroundings cancel from a multiset sum. */
  lemma CancelMultiset(a: multiset<int>, b: multiset<int>, b': multiset<int>, c: multiset<int>)
    requires a + b + c == a + b' + c
    ensures b == b'
  {
    forall v
      ensures b[v] == b'[v]
    {
      assert (a + b + c)[v] == (a + b' + c)[v];
    }
  }

  /**
   * Two sequences that are permutations of each other and agree outside
   * `[lo, hi)` are permutations of each other inside it.
   */
  lemma WindowPerm(s: seq<int>, t: seq<int>, lo: nat, hi: nat)
    requires lo <= hi <= |s| == |t|
    requires multiset(s) == multiset(t)
    requires s[..lo] == t[..lo] && s[hi..] == t[hi..]
    ensures multiset(s[lo..hi]) == multiset(t[lo..hi])
  {
    SplitMultiset(s, lo, hi);
    SplitMultiset(t, lo, hi);
    CancelMultiset(multiset(s[..lo]), multiset(s[lo..hi]), multiset(t[lo..hi]), multiset(s[hi..]));
  }

  /** In a heap-ordered window the root is no worse than any slot: it is the minimum. */
  lemma {:induction false} RootIsMin(s: seq<int>, lo: nat, c: nat, hi: nat, j: nat)
    requires Window(lo, c, hi, |s|) && Ordered(s, lo, c, hi)
    requires lo <= j < hi
    ensures s[c] <= s[j]
    decreases Dist(j, c)
  {
    if j != c {
      RootIsMin(s, lo, c, hi, Parent(j, c));
    }
  }

  /** Heap order on a set of parents that covers the window is heap order. */
  lemma OrderedOnWindow(s: seq<int>, lo: nat, c: nat, hi: nat, x: int, y: int)
    requires Window(lo, c, hi, |s|)
    requires forall p :: lo <= p < hi ==> Done(p, lo, x, y, hi)
    requires OrderedOn(s, lo, c, hi, x, y)
    ensures Ordered(s, lo, c, hi)
  {
  }

  /**
   * One step of moving away from the root: exchanging `n` with a child `v`
   * that is no worse than `n` and than each of `n`'s children moves the
   * possible violations one level down, below `v`.
   */
  lemma SiftOutStep(s: seq<int>, lo: nat, c: nat, hi: nat, x: int, y: int, n: nat, v: nat)
    requires Window(lo, c, hi, |s|) && SiftOutReady(s, lo, c, hi, x, y, n)
    requires lo <= v < hi && v != c && Parent(v, c) == n
    requires s[v] <= s[n]
    requires forall j :: lo <= j < hi && j != c && Parent(j, c) == n ==> s[v] <= s[j]
    ensures |Swapped(s, n, v)| == |s|
    ensures SiftOutReady(Swapped(s, n, v), lo, c, hi, x, y, v)
  {
    var t := Swapped(s, n, v);
    forall j | lo <= j < hi && j != c && Done(Parent(j, c), lo, x, y, hi) && Parent(j, c) != v
      ensures t[Parent(j, c)] <= t[j]
    {
      var p := Parent(j, c);
      if j == v {
      } else if j == n {
        assert p != v && p != n;
      } else if p == n {
      } else {
        assert p != n && p != v && j != n && j != v;
      }
    }
    forall j | lo <= j < hi && j != c && Parent(j, c) == v
      ensures t[Parent(v, c)] <= t[j]
    {
      assert j != n && j != v;
    }
  }

  /** Moving away from the root ends when no child of `n` is better than `n`. */
  lemma SiftOutFinish(s: seq<int>, lo: nat, c: nat, hi: nat, x: int, y: int, n: nat)
    requires Window(lo, c, hi, |s|) && SiftOutReady(s, lo, c, hi, x, y, n)
    requires forall j :: lo <= j < hi && j != c && Parent(j, c) == n ==> s[n] <= s[j]
    ensures OrderedOn(s, lo, c, hi, x, y)
  {
  }

  /**
   * One step of moving toward the root: exchanging `n` with a parent that is
   * no better than `n` moves the only possible violation one level up.
   */
  lemma SiftInStep(s: seq<int>, lo: nat, c: nat, hi: nat, n: nat)
    requires Window(lo, c, hi, |s|) && SiftInReady(s, lo, c, hi, n)
    requires n != c && s[n] <= s[Parent(n, c)]
    ensures |Swapped(s, n, Parent(n, c))| == |s|
    ensures SiftInReady(Swapped(s, n, Parent(n, c)), lo, c, hi, Parent(n, c))
  {
    var p := Parent(n, c);
    var t := Swapped(s, n, p);
    forall j | lo <= j < hi && j != c && j != p
      ensures t[Parent(j, c)] <= t[j]
    {
      var q := Parent(j, c);
      if j == n {
      } else if q == p {
        assert s[p] <= s[j];
      } else if q == n {
      } else {
        assert q != n && q != p && j != n;
      }
    }
    if p != c {
      var g := Parent(p, c);
      assert g != n && g != p;
      assert s[g] <= s[p];
      forall j | lo <= j < hi && j != c && Parent(j, c) == p
        ensures t[g] <= t[j]
      {
        if j != n {
          assert s[p] <= s[j];
        }
      }
    }
  }

  /** Moving toward the root ends at the root or below a parent no worse than `n`. */
  lemma SiftInFinish(s: seq<int>, lo: nat, c: nat, hi: nat, n: nat)
    requires Window(lo, c, hi, |s|) && SiftInReady(s, lo, c, hi, n)
    requires n != c ==> s[Parent(n, c)] <= s[n]
    ensures Ordered(s, lo, c, hi)
  {
  }

  /** Before the left half is rebuilt, the slots left of the recenter limit are leaves. */
  lemma LeftPhaseStart(s: seq<int>, lo: nat, c: nat, hi: nat)
    requires Window(lo, c, hi, |s|)
    ensures OrderedOn(s, lo, c, hi, RecenterLimit(lo, c), hi)
  {
    forall j | lo <= j < hi && j != c && Done(Parent(j, c), lo, RecenterLimit(lo, c), hi, hi)
      ensures false
    {
      var p := Parent(j, c);
      ParentInvertsChildren(p, c, j);
      LeftLimitLeaves(lo, c, p);
    }
  }

  /** Sifting slot `i` of the left half is ready once every slot left of it is done. */
  lemma LeftPhaseReady(s: seq<int>, lo: nat, c: nat, hi: nat, i: nat)
    requires Window(lo, c, hi, |s|) && lo <= i < c
    requires OrderedOn(s, lo, c, hi, i, hi)
    ensures SiftOutReady(s, lo, c, hi, i + 1, hi, i)
  {
  }

  /** Before the right half is rebuilt, the slots from the recenter limit on are leaves. */
  lemma RightPhaseStart(s: seq<int>, lo: nat, c: nat, hi: nat)
    requires Window(lo, c, hi, |s|)
    requires OrderedOn(s, lo, c, hi, c, hi)
    ensures OrderedOn(s, lo, c, hi, c, RecenterLimit(hi, c))
  {
    forall j | lo <= j < hi && j != c && RecenterLimit(hi, c) <= Parent(j, c) < hi
      ensures false
    {
      var p := Parent(j, c);
      ParentInvertsChildren(p, c, j);
      RightLimitLeaves(hi, c, p);
    }
  }

  /**
   * Sifting slot `i` of the right half (or the root, `i == c`) is ready once
   * the left half and every slot right of `i` are done.
   */
  lemma RightPhaseReady(s: seq<int>, lo: nat, c: nat, hi: nat, i: nat)
    requires Window(lo, c, hi, |s|) && c <= i < hi
    requires OrderedOn(s, lo, c, hi, c, i + 1)
    ensures SiftOutReady(s, lo, c, hi, c, i, i)
  {
  }

  /**
   * Heap order survives shrinking the window to `[lo', hi')` around the same
   * root and changing slots outside that smaller window.
   */
  lemma OrderedCarries(s: seq<int>, t: seq<int>, lo: nat, c: nat, hi: nat, lo': nat, hi': nat)
    requires Window(lo, c, hi, |s|) && Ordered(s, lo, c, hi)
    requires lo <= lo' <= c < hi' <= hi && |t| == |s|
    requires forall k :: lo' <= k < hi' ==> t[k] == s[k]
    ensures Window(lo', c, hi', |t|) && Ordered(t, lo', c, hi')
  {
    forall j | lo' <= j < hi' && j != c
      ensures t[Parent(j, c)] <= t[j]
    {
      assert s[Parent(j, c)] <= s[j];
    }
  }

  /**
   * A slot newly added at either end of the window is a leaf: once the rest
   * of the window is heap-ordered, sifting it toward the root may start.
   */
  lemma LeafAddedReady(t: seq<int>, lo: nat, c: nat, hi: nat, n: nat)
    requires Window(lo, c, hi, |t|) && lo <= n < hi && (n == lo || n == hi - 1)
    requires n == c ==> lo + 1 == hi
    requires n != c && n == lo ==> Ordered(t, lo + 1, c, hi)
    requires n != c && n != lo ==> Ordered(t, lo, c, hi - 1)
    ensures SiftInReady(t, lo, c, hi, n)
  {
  }

  /**
   * Putting any element at the root, and dropping slots at the ends of the
   * window, leaves a window that sifting away from the root repairs.
   */
  lemma RootReplacedReady(s: seq<int>, t: seq<int>, lo: nat, c: nat, hi: nat, lo': nat, hi': nat)
    requires Window(lo, c, hi, |s|) && Ordered(s, lo, c, hi)
    requires lo <= lo' <= c < hi' <= hi && |t| == |s|
    requires forall k :: lo' <= k < hi' && k != c ==> t[k] == s[k]
    ensures Window(lo', c, hi', |t|) && SiftOutReady(t, lo', c, hi', hi', hi', c)
  {
    forall j | lo' <= j < hi' && j != c && Parent(j, c) != c
      ensures t[Parent(j, c)] <= t[j]
    {
      assert s[Parent(j, c)] <= s[j];
    }
  }

  /** Exchanging two slots of a window leaves the slice outside the window as it was. */
  lemma SwapKeepsOutside(s: seq<int>, lo: nat, hi: nat, i: nat, j: nat)
    requires lo <= i < hi && lo <= j < hi && hi <= |s|
    ensures |Swapped(s, i, j)| == |s|
    ensures Swapped(s, i, j)[..lo] == s[..lo] && Swapped(s, i, j)[hi..] == s[hi..]
  {
  }

  /** A lower bound of a window's elements bounds every element of its contents. */
  lemma BoundInContents(s: seq<int>, lo: nat, hi: nat, x: int, v: int)
    requires lo <= hi <= |s|
    requires forall k :: lo <= k < hi ==> x <= s[k]
    requires v in multiset(s[lo..hi])
    ensures x <= v
  {
    assert v in s[lo..hi];
    var m :| 0 <= m < hi - lo && s[lo..hi][m] == v;
    assert s[lo + m] == v;
  }

  /** The slot taken off either end of a window is the window less the rest. */
  lemma EndSplit(t: seq<int>, lo: nat, hi: nat, p: nat, lo': nat, hi': nat)
    requires lo < hi <= |t|
    requires (p == lo && lo' == lo + 1 && hi' == hi) || (p + 1 == hi && lo' == lo && hi' == p)
    ensures multiset(t[lo..hi]) == multiset(t[lo'..hi']) + multiset{t[p]}
  {
    if p == lo {
      assert t[lo..hi] == [t[p]] + t[lo'..hi'];
    } else {
      assert t[lo..hi] == t[lo'..hi'] + [t[p]];
    }
  }

  /**
   * What a pop promises about the element it takes out of the window
   * `[lo, hi)` into the end slot `p`: it was the least of the old window,
   * it is no greater than anything left in the shrunken window
   * `[lo', hi')`, and together with that window it makes up the old one.
   */
  lemma PoppedIsLeast(s: seq<int>, t: seq<int>, lo: nat, c: nat, hi: nat, p: nat, lo': nat, hi': nat)
    requires Window(lo, c, hi, |s|) && Ordered(s, lo, c, hi) && |t| == |s| && lo < hi
    requires (p == lo && lo' == lo + 1 && hi' == hi) || (p + 1 == hi && lo' == lo && hi' == p)
    requires t[p] == s[c] && multiset(t[lo..hi]) == multiset(s[lo..hi])
    ensures forall k :: lo <= k < hi ==> t[p] <= s[k]
    ensures forall k :: lo' <= k < hi' ==> t[p] <= t[k]
    ensures multiset(t[lo'..hi']) + multiset{t[p]} == multiset(s[lo..hi])
  {
    RootBoundsWindow(s, lo, c, hi);
    EndSplit(t, lo, hi, p, lo', hi');
    forall k | lo' <= k < hi'
      ensures t[p] <= t[k]
    {
      assert t[k] == t[lo'..hi'][k - lo'];
      BoundInContents(s, lo, hi, t[p], t[k]);
    }
  }

  /**
   * Exchanging the root slot `c` of a window with a slot `i` outside it
   * trades the root's element for `i`'s element in the window's contents.
   */
  lemma ExchangePerm(s: seq<int>, lo: nat, c: nat, hi: nat, i: nat)
    requires lo <= c < hi <= |s| && i < |s| && !(lo <= i < hi)
    ensures |Swapped(s, i, c)| == |s|
    ensures multiset(Swapped(s, i, c)[lo..hi]) + multiset{s[c]} == multiset(s[lo..hi]) + multiset{s[i]}
  {
    assert Swapped(s, i, c)[lo..hi] == s[lo..hi][c - lo := s[i]];
  }

  /**
   * The contents relation of exchanging the root `c` of the window
   * `[lo, hi)` with the slot `i` outside it and then reordering the window,
   * between `s` before and `u` after: `i` holds the old root's element, the
   * window holds its old elements with that one traded for the old element
   * at `i`, and the rest of the slice is as after the exchange alone.
   */
  ghost predicate RootExchanged(s: seq<int>, u: seq<int>, lo: nat, c: nat, hi: nat, i: nat)
    requires lo <= c < hi <= |s| == |u| && i < |s|
  {
    u[i] == s[c]
    && multiset(u[lo..hi]) + multiset{u[i]} == multiset(s[lo..hi]) + multiset{s[i]}
    && u[..lo] == Swapped(s, i, c)[..lo] && u[hi..] == Swapped(s, i, c)[hi..]
  }

  /**
   * Exchanging the root with a slot outside the window (giving `t`) and
   * then reordering only the window (giving `u`) is a root exchange; when
   * the root bounded the old window, the element taken out bounds it too.
   */
  lemma RootExchangeContents(s: seq<int>, t: seq<int>, u: seq<int>, lo: nat, c: nat, hi: nat, i: nat)
    requires lo <= c < hi <= |s| == |u| && i < |s| && !(lo <= i < hi)
    requires t == Swapped(s, i, c) && multiset(t) == multiset(u)
    requires u[..lo] == t[..lo] && u[hi..] == t[hi..]
    requires forall k :: lo <= k < hi ==> s[c] <= s[k]
    ensures RootExchanged(s, u, lo, c, hi, i)
    ensures forall k :: lo <= k < hi ==> u[i] <= s[k]
  {
    AgreeOutside(u, t, lo, hi, i);
    ExchangePerm(s, lo, c, hi, i);
    WindowPerm(t, u, lo, hi);
  }

  /**
   * Exchanging the slots `i` and `j` moves the window `[i + 1, j + 1)` one
   * slot left, or the window `[i, j)` one slot right, with its contents.
   */
  lemma ShiftPerm(s: seq<int>, i: nat, j: nat)
    requires i < j < |s|
    ensures |Swapped(s, i, j)| == |s|
    ensures multiset(Swapped(s, i, j)[i + 1..j + 1]) == multiset(s[i..j])
    ensures multiset(Swapped(s, i, j)[i..j]) == multiset(s[i + 1..j + 1])
  {
    var t := Swapped(s, i, j);
    assert t[i + 1..j + 1] == s[i + 1..j] + [s[i]];
    assert s[i..j] == [s[i]] + s[i + 1..j];
    assert t[i..j] == [s[j]] + s[i + 1..j];
    assert s[i + 1..j + 1] == s[i + 1..j] + [s[j]];
  }

  /**
   * After an exchange that put `y` into the window `[lo, hi)` and took `x`
   * out, `x` still bounds the window when it bounded the old one and `y`.
   */
  lemma ExchangedIsLeast(s: seq<int>, t: seq<int>, lo: nat, hi: nat, x: int, y: int)
    requires lo <= hi <= |s| && hi <= |t|
    requires multiset(t[lo..hi]) + multiset{x} == multiset(s[lo..hi]) + multiset{y}
    requires forall k :: lo <= k < hi ==> x <= s[k]
    requires x <= y
    ensures forall k :: lo <= k < hi ==> x <= t[k]
  {
    forall k | lo <= k < hi
      ensures x <= t[k]
    {
      assert t[k] == t[lo..hi][k - lo];
      assert t[k] in multiset(s[lo..hi]) + multiset{y};
      if t[k] != y {
        BoundInContents(s, lo, hi, x, t[k]);
      }
    }
  }

  /** Two sequences that agree outside a window agree at every slot outside it. */
  lemma AgreeOutside(s: seq<int>, t: seq<int>, lo: nat, hi: nat, i: nat)
    requires lo <= hi <= |s| == |t| && i < |s| && !(lo <= i < hi)
    requires s[..lo] == t[..lo] && s[hi..] == t[hi..]
    ensures s[i] == t[i]
  {
    if i < lo {
      assert s[i] == s[..lo][i];
      assert t[i] == t[..lo][i];
    } else {
      assert s[i] == s[hi..][i - hi];
      assert t[i] == t[hi..][i - hi];
    }
  }

  /** The root's element is no greater than any element of its window. */
  lemma RootBoundsWindow(s: seq<int>, lo: nat, c: nat, hi: nat)
    requires Window(lo, c, hi, |s|) && Ordered(s, lo, c, hi)
    ensures forall k :: lo <= k < hi ==> s[c] <= s[k]
  {
    forall k | lo <= k < hi
      ensures s[c] <= s[k]
    {
      RootIsMin(s, lo, c, hi, k);
    }
  }

  /**
   * Sliding right when the root is not the first slot: after exchanging
   * the first slot of `[lo, hi)` with the slot at `hi`, the window moved
   * one slot right, `[lo', hi')`, is ready to sift in its new last slot.
   */
  lemma SlideRightReady(s: seq<int>, t: seq<int>, lo: nat, c: nat, hi: nat, lo': nat, hi': nat)
    requires Window(lo, c, hi, |s|) && Ordered(s, lo, c, hi) && lo < hi < |s| && c != lo
    requires lo' == lo + 1 && hi' == hi + 1 && t == Swapped(s, lo, hi)
    ensures Window(lo', c, hi', |t|) && SiftInReady(t, lo', c, hi', hi)
  {
    OrderedCarries(s, t, lo, c, hi, lo', hi);
    LeafAddedReady(t, lo', c, hi', hi);
  }

  /**
   * Sliding left when the root is not the last slot: after exchanging the
   * slot at `lo - 1` with the last slot of `[lo, hi)`, the window moved one
   * slot left, `[lo', hi')`, is ready to sift in its new first slot.
   */
  lemma SlideLeftReady(s: seq<int>, t: seq<int>, lo: nat, c: nat, hi: nat, lo': nat, hi': nat)
    requires Window(lo, c, hi, |s|) && Ordered(s, lo, c, hi) && 0 < lo < hi && c != hi - 1
    requires lo' + 1 == lo && hi' + 1 == hi && t == Swapped(s, lo', hi')
    ensures Window(lo', c, hi', |t|) && SiftInReady(t, lo', c, hi', lo')
  {
    OrderedCarries(s, t, lo, c, hi, lo, hi');
    LeafAddedReady(t, lo', c, hi', lo');
  }

  /**
   * The contents relation of sliding right, between the slice `s` before
   * and `u` after: the element at `hi` moved into the slot `lo`, which left
   * the window; the window moved one slot right holds the old window's
   * elements; and the rest of the slice is unchanged.
   */
  ghost predicate SlidRight(s: seq<int>, u: seq<int>, lo: nat, hi: nat)
    requires lo <= hi < |s| == |u|
  {
    u[lo] == s[hi]
    && multiset(u[lo + 1..hi + 1]) == multiset(s[lo..hi])
    && u[..lo] == s[..lo] && u[hi + 1..] == s[hi + 1..]
  }

  /**
   * The contents relation of sliding left, between `s` before and `u`
   * after: the element at `lo - 1` moved into the slot `hi - 1`, which left
   * the window; the window moved one slot left holds the old window's
   * elements; and the rest of the slice is unchanged.
   */
  ghost predicate SlidLeft(s: seq<int>, u: seq<int>, lo: nat, hi: nat)
    requires 0 < lo <= hi <= |s| == |u|
  {
    u[hi - 1] == s[lo - 1]
    && multiset(u[lo - 1..hi - 1]) == multiset(s[lo..hi])
    && u[..lo - 1] == s[..lo - 1] && u[hi..] == s[hi..]
  }

  /**
   * Sliding right by exchanging the slots `lo` and `hi` (giving `t`) and
   * then reordering only the moved window `[lo', hi')` (giving `u`) is a
   * slide right.
   */
  lemma SlideRightContents(s: seq<int>, t: seq<int>, u: seq<int>, lo: nat, hi: nat, lo': nat, hi': nat)
    requires lo < hi < |s| == |u| && lo' == lo + 1 && hi' == hi + 1 && t == Swapped(s, lo, hi)
    requires multiset(t) == multiset(u)
    requires u[..lo'] == t[..lo'] && u[hi'..] == t[hi'..]
    ensures SlidRight(s, u, lo, hi)
  {
    WindowPerm(t, u, lo', hi');
    ShiftPerm(s, lo, hi);
    assert u[lo] == u[..lo'][lo];
    assert u[..lo] == u[..lo'][..lo];
    assert t[..lo'][..lo] == s[..lo];
    assert t[hi'..] == s[hi'..];
  }

  /**
   * Sliding left by exchanging the slots `lo - 1` and `hi - 1` (giving `t`)
   * and then reordering only the moved window `[lo', hi')` (giving `u`) is
   * a slide left.
   */
  lemma SlideLeftContents(s: seq<int>, t: seq<int>, u: seq<int>, lo: nat, hi: nat, lo': nat, hi': nat)
    requires 0 < lo < hi <= |s| == |u| && lo' + 1 == lo && hi' + 1 == hi && t == Swapped(s, lo', hi')
    requires multiset(t) == multiset(u)
    requires u[..lo'] == t[..lo'] && u[hi'..] == t[hi'..]
    ensures SlidLeft(s, u, lo, hi)
  {
    WindowPerm(t, u, lo', hi');
    ShiftPerm(s, lo', hi');
    assert u[hi'] == u[hi'..][0];
    assert u[hi..] == u[hi'..][1..];
    assert t[hi'..][1..] == s[hi..];
  }
}
