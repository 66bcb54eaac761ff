/**
 * The centered heap: a window `[lo, hi)` of a borrowed slice, organised as
 * a heap whose best (smallest) element sits at the root slot `c` inside the
 * window. Elements are pushed in and popped out at either end of the
 * window; slots outside the window are never changed by a heap operation
 * except the one slot an operation names.
 */
module CenteredHeap {
  import opened CheapIndex
  import opened HeapOrder
  import opened SlideMarkers

  class Cheap {
    /** The borrowed slice; the heap only ever reorders its elements. */
    const a: array<int>
    var lo: nat
    var c: nat
    var hi: nat

    /** The markers form a window with its root, and the window is in heap order. */
    ghost predicate Valid()
      reads this, a
    {
      Window(lo, c, hi, a.Length) && Ordered(a[..], lo, c, hi)
    }

    /** An empty heap at the left end of the slice. */
    constructor NewLeft(a: array<int>)
      ensures this.a == a && lo == 0 && c == 0 && hi == 0
      ensures Valid()
    {
      this.a := a;
      lo, c, hi := 0, 0, 0;
    }

    /** An empty heap at the right end of the slice. */
    constructor NewRight(a: array<int>)
      ensures this.a == a && lo == a.Length && c == a.Length && hi == a.Length
      ensures Valid()
    {
      this.a := a;
      lo, c, hi := a.Length, a.Length, a.Length;
    }

    /** The whole slice, rooted at its first slot; `Recenter` makes it a heap. */
    constructor NewSpanLeft(a: array<int>)
      ensures this.a == a && lo == 0 && c == 0 && hi == a.Length
      ensures Window(lo, c, hi, a.Length)
    {
      this.a := a;
      lo, c, hi := 0, 0, a.Length;
    }

    /** The whole slice, rooted at its last slot; `Recenter` makes it a heap. */
    constructor NewSpanRight(a: array<int>)
      requires a.Length > 0
      ensures this.a == a && lo == 0 && c == a.Length - 1 && hi == a.Length
      ensures Window(lo, c, hi, a.Length)
    {
      this.a := a;
      lo, c, hi := 0, a.Length - 1, a.Length;
    }

    /**
     * The heap-order check: scans the window and answers whether every slot
     * other than the root is no better than its parent.
     */
    method IsValid() returns (r: bool)
      requires Indexable(lo, c, hi, a.Length)
      ensures r <==> Ordered(a[..], lo, c, hi)
    {
      for i := lo to hi
        invariant forall j :: lo <= j < i && j != c ==> a[Parent(j, c)] <= a[j]
      {
        if i != c {
          var p := Parent(i, c);
          if !(a[p] <= a[i]) {
            return false;
          }
        }
      }
      return true;
    }

    /** Whether the window is empty; under the range invariant, whether the root sits at `hi`. */
    function IsEmpty(): (r: bool)
      reads this
      requires lo <= hi
      ensures Window(lo, c, hi, a.Length) ==> (r <==> c == hi)
    {
      lo == hi
    }

    /**
     * The comparisons of one round of moving `n` away from the root: finds
     * an in-window child of `n` that is no worse than `n`, preferring the
     * right child when it is no worse than the left one. `found` is false
     * exactly when both in-window children are worse than `n`.
     */
    method BetterChild(n: nat) returns (found: bool, vio: nat)
      requires Window(lo, c, hi, a.Length) && lo <= n < hi
      ensures found ==> lo <= vio < hi && vio != c && Parent(vio, c) == n && a[vio] <= a[n]
      ensures found ==> forall j :: lo <= j < hi && j != c && Parent(j, c) == n ==> a[vio] <= a[j]
      ensures !found ==> forall j :: lo <= j < hi && j != c && Parent(j, c) == n ==> a[n] < a[j]
      ensures var l, r := LeftChild(n, c), RightChild(n, c);
        var leftOk := lo <= l < hi && a[l] <= a[n];
        var rightOk := lo <= r < hi && a[r] <= a[n] && (leftOk ==> a[r] <= a[l]);
        found == (leftOk || rightOk) && (rightOk ==> vio == r) && (leftOk && !rightOk ==> vio == l)
    {
      found, vio := false, 0;
      var ch1 := LeftChild(n, c);
      if lo <= ch1 < hi {
        if a[ch1] <= a[n] {
          vio := ch1;
          found := true;
        }
      }
      var ch2 := RightChild(n, c);
      if lo <= ch2 < hi {
        if a[ch2] <= a[n] {
          if !found || a[ch2] <= a[vio] {
            found := true;
            vio := ch2;
          }
        }
      }
      ChildrenInWindow(lo, c, hi, n);
    }

    /**
     * One exchange of `sift_out`: the element at `n` trades places with its
     * better child `vio`, and the sifting continues from `vio`.
     */
    method SwapDown(n: nat, vio: nat, ghost x: int, ghost y: int)
      requires Window(lo, c, hi, a.Length)
      requires SiftOutReady(a[..], lo, c, hi, x, y, n)
      requires lo <= vio < hi && vio != c && Parent(vio, c) == n && a[vio] <= a[n]
      requires forall j :: lo <= j < hi && j != c && Parent(j, c) == n ==> a[vio] <= a[j]
      modifies a
      ensures SiftOutReady(a[..], lo, c, hi, x, y, vio)
      ensures multiset(a[..]) == old(multiset(a[..]))
      ensures a[..lo] == old(a[..lo]) && a[hi..] == old(a[hi..])
    {
      SiftOutStep(a[..], lo, c, hi, x, y, n, vio);
      SwapKeepsOutside(a[..], lo, hi, n, vio);
      SwappedPerm(a[..], n, vio);
      a[n], a[vio] := a[vio], a[n];
    }

    /**
     * One round of the `sift_out` loop: either `n` has a child no worse
     * than it and the element moves one level down, or the edges below `n`
     * already hold and the sifting is done.
     */
    method SiftOutRound(n: nat, ghost x: int, ghost y: int) returns (found: bool, next: nat)
      requires Window(lo, c, hi, a.Length)
      requires SiftOutReady(a[..], lo, c, hi, x, y, n)
      modifies a
      ensures found ==> lo <= next < hi && Dist(n, c) < Dist(next, c) && SiftOutReady(a[..], lo, c, hi, x, y, next)
      ensures !found ==> next == n && OrderedOn(a[..], lo, c, hi, x, y)
      ensures multiset(a[..]) == old(multiset(a[..]))
      ensures a[..lo] == old(a[..lo]) && a[hi..] == old(a[hi..])
    {
      var vio;
      found, vio := BetterChild(n);
      next := n;
      if found {
        SwapDown(n, vio, x, y);
        next := vio;
      } else {
        SiftOutFinish(a[..], lo, c, hi, x, y, n);
      }
    }

    /**
     * Moves the element at `ii` away from the root, swapping it with its
     * better child while one of its children is no worse than it. The
     * contract: the edges from the done slots `[lo, x)` and `[y, hi)` hold
     * afterwards, and only the window is reordered.
     */
    method SiftOut(ii: nat, ghost x: int, ghost y: int)
      requires Window(lo, c, hi, a.Length)
      requires SiftOutReady(a[..], lo, c, hi, x, y, ii)
      modifies a
      ensures OrderedOn(a[..], lo, c, hi, x, y)
      ensures multiset(a[..]) == old(multiset(a[..]))
      ensures a[..lo] == old(a[..lo]) && a[hi..] == old(a[hi..])
    {
      var vioFound := true;
      var n := ii;
      while vioFound
        invariant lo <= n < hi
        invariant vioFound ==> SiftOutReady(a[..], lo, c, hi, x, y, n)
        invariant !vioFound ==> OrderedOn(a[..], lo, c, hi, x, y)
        invariant multiset(a[..]) == old(multiset(a[..]))
        invariant a[..lo] == old(a[..lo]) && a[hi..] == old(a[hi..])
        decreases hi - lo - Dist(n, c), vioFound
      {
        vioFound, n := SiftOutRound(n, x, y);
      }
    }

    /**
     * Moves the element at `i` toward the root while it is better than its
     * parent. The window `[wlo, whi)` it repairs is a ghost parameter: the
     * callers grow the window only after the sift.
     */
    method SiftIn(i: nat, ghost wlo: nat, ghost whi: nat)
      requires Window(wlo, c, whi, a.Length)
      requires SiftInReady(a[..], wlo, c, whi, i)
      modifies a
      ensures Ordered(a[..], wlo, c, whi)
      ensures multiset(a[..]) == old(multiset(a[..]))
      ensures a[..wlo] == old(a[..wlo]) && a[whi..] == old(a[whi..])
    {
      var n := i;
      while n != c
        invariant SiftInReady(a[..], wlo, c, whi, n)
        invariant multiset(a[..]) == old(multiset(a[..]))
        invariant a[..wlo] == old(a[..wlo]) && a[whi..] == old(a[whi..])
        decreases Dist(n, c)
      {
        var p := Parent(n, c);
        if a[n] <= a[p] {
          SiftInStep(a[..], wlo, c, whi, n);
          SwapKeepsOutside(a[..], wlo, whi, n, p);
          SwappedPerm(a[..], n, p);
          a[n], a[p] := a[p], a[n];
          n := p;
        } else {
          break;
        }
      }
      SiftInFinish(a[..], wlo, c, whi, n);
    }

    /**
     * The first loop of recentering: sifts out every slot left of the root
     * that has a child in the window, nearest the root last. Afterwards the
     * edges from the slots left of the root hold.
     */
    method RecenterLeft()
      requires Window(lo, c, hi, a.Length)
      modifies a
      ensures OrderedOn(a[..], lo, c, hi, c, hi)
      ensures multiset(a[..]) == old(multiset(a[..]))
      ensures a[..lo] == old(a[..lo]) && a[hi..] == old(a[hi..])
    {
      LimitsInWindow(lo, c, hi);
      LeftPhaseStart(a[..], lo, c, hi);
      for i := RecenterLimit(lo, c) to c
        invariant OrderedOn(a[..], lo, c, hi, i, hi)
        invariant multiset(a[..]) == old(multiset(a[..]))
        invariant a[..lo] == old(a[..lo]) && a[hi..] == old(a[hi..])
      {
        LeftPhaseReady(a[..], lo, c, hi, i);
        SiftOut(i, i + 1, hi);
      }
    }

    /**
     * The second loop of recentering: sifts out every slot from the root
     * rightward that has a child in the window, the rightmost first.
     */
    method RecenterRight()
      requires Window(lo, c, hi, a.Length) && OrderedOn(a[..], lo, c, hi, c, hi)
      modifies a
      ensures Ordered(a[..], lo, c, hi)
      ensures multiset(a[..]) == old(multiset(a[..]))
      ensures a[..lo] == old(a[..lo]) && a[hi..] == old(a[hi..])
    {
      LimitsInWindow(lo, c, hi);
      RightPhaseStart(a[..], lo, c, hi);
      for i := RecenterLimit(hi, c) downto c
        invariant OrderedOn(a[..], lo, c, hi, c, i)
        invariant multiset(a[..]) == old(multiset(a[..]))
        invariant a[..lo] == old(a[..lo]) && a[hi..] == old(a[hi..])
      {
        RightPhaseReady(a[..], lo, c, hi, i);
        SiftOut(i, c, i);
      }
      OrderedOnWindow(a[..], lo, c, hi, c, c);
    }

    /**
     * Builds the heap over the current window with the two sifting loops:
     * afterwards the heap is valid, the slice holds the same elements and
     * the slots outside the window are untouched.
     */
    method Recenter()
      requires Window(lo, c, hi, a.Length)
      modifies a
      ensures Valid()
      ensures multiset(a[..]) == old(multiset(a[..]))
      ensures a[..lo] == old(a[..lo]) && a[hi..] == old(a[hi..])
    {
      RecenterLeft();
      RecenterRight();
    }
  
    /**
     * `pop_left` when the root is the slot at `lo`: the root moves to the
     * far end of the shrunken window and the heap is rebuilt there, or the
     * window becomes empty.
     */
    method PopLeftRoot()
      requires Valid() && lo < hi && lo == c
      modifies this, a
      ensures Valid()
      ensures lo == old(lo) + 1 && hi == old(hi) && (lo < hi ==> c == hi - 1) && (lo == hi ==> c == hi)
      ensures a[old(lo)] == old(a[c])
      ensures multiset(a[..]) == old(multiset(a[..]))
      ensures a[..old(lo)] == old(a[..lo]) && a[hi..] == old(a[hi..])
    {
      ghost var s := a[..];
      var lop := lo + 1;
      if lop < hi {
        c := hi - 1;
        lo := lop;
        Recenter();
        assert a[lop - 1] == a[..lop][lop - 1];
        assert a[..lop - 1] == a[..lop][..lop - 1];
        assert s[..lop - 1] == s[..lop][..lop - 1];
      } else {
        lo := lop;
        c := lop;
      }
    }

    /**
     * `pop_left` when the root lies right of `lo`: the root's element is
     * exchanged into the slot at `lo`, the window shrinks past it, and the
     * element now at the root is sifted out.
     */
    method PopLeftSwap()
      requires Valid() && lo < hi && lo != c
      modifies this, a
      ensures Valid()
      ensures lo == old(lo) + 1 && hi == old(hi) && c == old(c)
      ensures a[old(lo)] == old(a[c])
      ensures multiset(a[..]) == old(multiset(a[..]))
      ensures a[..old(lo)] == old(a[..lo]) && a[hi..] == old(a[hi..])
    {
      ghost var s := a[..];
      ghost var olo := lo;
      var lop := lo + 1;
      SwappedPerm(a[..], c, lo);
      a[c], a[lo] := a[lo], a[c];
      SwapKeepsOutside(s, olo, hi, c, olo);
      RootReplacedReady(s, a[..], olo, c, hi, lop, hi);
      lo := lop;
      ghost var t := a[..];
      SiftOut(c, hi, hi);
      OrderedOnWindow(a[..], lo, c, hi, hi, hi);
      assert a[olo] == a[..lo][olo] == t[..lo][olo] == s[c];
      assert a[..olo] == a[..lo][..olo];
      assert t[..olo] == t[..lo][..olo];
    }

    /**
     * Takes the best element out at the left end: it lands in the old `lo`
     * slot, which leaves the window, and it was no greater than any element
     * of the old window. When the root itself is that slot, the root moves
     * to the far end and the heap is rebuilt.
     */
    method PopLeft()
      requires Valid() && lo < hi
      modifies this, a
      ensures Valid()
      ensures lo == old(lo) + 1 && hi == old(hi)
      ensures old(c) != old(lo) ==> c == old(c)
      ensures old(c) == old(lo) && lo < hi ==> c == hi - 1
      ensures old(c) == old(lo) && lo == hi ==> c == hi
      ensures a[old(lo)] == old(a[c])
      ensures forall k :: old(lo) <= k < hi ==> a[old(lo)] <= old(a[k])
      ensures forall k :: lo <= k < hi ==> a[old(lo)] <= a[k]
      ensures multiset(a[lo..hi]) + multiset{a[old(lo)]} == old(multiset(a[lo..hi]))
      ensures multiset(a[..]) == old(multiset(a[..]))
      ensures a[..old(lo)] == old(a[..lo]) && a[hi..] == old(a[hi..])
    {
      ghost var s := a[..];
      ghost var olo := lo;
      if lo == c {
        PopLeftRoot();
      } else {
        PopLeftSwap();
      }
      WindowPerm(s, a[..], olo, hi);
      PoppedIsLeast(s, a[..], olo, old(c), hi, olo, lo, hi);
    }

    /**
     * `pop_right` when the root is the last slot of the window: the root
     * moves to `lo` and the heap is rebuilt over the shrunken window, or the
     * window becomes empty.
     */
    method PopRightRoot()
      requires Valid() && lo < hi && hi - 1 == c
      modifies this, a
      ensures Valid()
      ensures lo == old(lo) && hi == old(hi) - 1 && c == lo
      ensures a[hi] == old(a[c])
      ensures multiset(a[..]) == old(multiset(a[..]))
      ensures a[..lo] == old(a[..lo]) && a[old(hi)..] == old(a[hi..])
    {
      ghost var s := a[..];
      var hip := hi - 1;
      c := lo;
      hi := hip;
      if lo < hip {
        Recenter();
        assert a[hip] == a[hip..][0];
        assert a[hip + 1..] == a[hip..][1..];
        assert s[hip + 1..] == s[hip..][1..];
      }
    }

    /**
     * `pop_right` when the root lies left of the last slot: the root's
     * element is exchanged into the last slot, the window shrinks past it,
     * and the element now at the root is sifted out.
     */
    method PopRightSwap()
      requires Valid() && lo < hi && hi - 1 != c
      modifies this, a
      ensures Valid()
      ensures lo == old(lo) && hi == old(hi) - 1 && c == old(c)
      ensures a[hi] == old(a[c])
      ensures multiset(a[..]) == old(multiset(a[..]))
      ensures a[..lo] == old(a[..lo]) && a[old(hi)..] == old(a[hi..])
    {
      ghost var s := a[..];
      ghost var ohi := hi;
      var hip := hi - 1;
      SwappedPerm(a[..], hip, c);
      a[hip], a[c] := a[c], a[hip];
      SwapKeepsOutside(s, lo, ohi, hip, c);
      RootReplacedReady(s, a[..], lo, c, ohi, lo, hip);
      hi := hip;
      ghost var t := a[..];
      SiftOut(c, hi, hi);
      OrderedOnWindow(a[..], lo, c, hi, hi, hi);
      assert a[hip] == a[hip..][0] == t[hip..][0] == s[c];
      assert a[ohi..] == a[hip..][1..];
      assert t[ohi..] == t[hip..][1..];
    }

    /**
     * Takes the best element out at the right end: it lands in the old
     * `hi - 1` slot, which leaves the window, and it was no greater than any
     * element of the old window. When the root itself is that slot, the root
     * moves to `lo` and the heap is rebuilt.
     */
    method PopRight()
      requires Valid() && lo < hi
      modifies this, a
      ensures Valid()
      ensures lo == old(lo) && hi == old(hi) - 1
      ensures old(c) != hi ==> c == old(c)
      ensures old(c) == hi ==> c == lo
      ensures a[hi] == old(a[c])
      ensures forall k :: lo <= k < old(hi) ==> a[hi] <= old(a[k])
      ensures forall k :: lo <= k < hi ==> a[hi] <= a[k]
      ensures multiset(a[lo..hi]) + multiset{a[hi]} == old(multiset(a[lo..hi]))
      ensures multiset(a[..]) == old(multiset(a[..]))
      ensures a[..lo] == old(a[..lo]) && a[old(hi)..] == old(a[hi..])
    {
      ghost var s := a[..];
      ghost var ohi := hi;
      if hi - 1 == c {
        PopRightRoot();
      } else {
        PopRightSwap();
      }
      WindowPerm(s, a[..], lo, ohi);
      PoppedIsLeast(s, a[..], lo, old(c), ohi, hi, lo, hi);
    }

    /**
     * Absorbs the slot just left of the window: `lo` moves one slot left
     * and the new element is sifted toward the root. Pushing into an empty
     * heap makes the new slot the root.
     */
    method PushLeft()
      requires Valid() && lo > 0
      modifies this, a
      ensures Valid()
      ensures lo == old(lo) - 1 && hi == old(hi)
      ensures old(c) == old(hi) ==> c == lo
      ensures old(c) != old(hi) ==> c == old(c)
      ensures multiset(a[lo..hi]) == old(multiset(a[lo..hi])) + multiset{old(a[lo - 1])}
      ensures a[..lo] == old(a[..lo - 1]) && a[hi..] == old(a[hi..])
    {
      ghost var s := a[..];
      ghost var olo := lo;
      var lop := lo - 1;
      if c == hi {
        c := lop;
      }
      lo := lop;
      LeafAddedReady(a[..], lo, c, hi, lop);
      SiftIn(lop, lo, hi);
      WindowPerm(s, a[..], lo, hi);
      EndSplit(s, lo, hi, lo, olo, hi);
    }

    /**
     * Absorbs the slot just right of the window: the new element is sifted
     * toward the root, then `hi` moves one slot right. Pushing into an
     * empty heap leaves the root at the new slot, which is the old `hi`.
     */
    method PushRight()
      requires Valid() && hi < a.Length
      modifies this, a
      ensures Valid()
      ensures lo == old(lo) && hi == old(hi) + 1 && c == old(c)
      ensures multiset(a[lo..hi]) == old(multiset(a[lo..hi])) + multiset{old(a[hi])}
      ensures a[..lo] == old(a[..lo]) && a[hi..] == old(a[hi + 1..])
    {
      ghost var s := a[..];
      ghost var ohi := hi;
      var hip := hi + 1;
      LeafAddedReady(a[..], lo, c, hip, hi);
      SiftIn(hi, lo, hip);
      hi := hip;
      WindowPerm(s, a[..], lo, hi);
      EndSplit(s, lo, hi, ohi, lo, ohi);
    }

    /**
     * Brings the element at `i`, a slot outside the window, into the slot
     * just left of the window, then absorbs it with `PushLeft`.
     */
    method PushLeftSwap(i: nat)
      requires Valid() && lo > 0 && i < a.Length && (i < lo || i >= hi)
      modifies this, a
      ensures Valid()
      ensures lo == old(lo) - 1 && hi == old(hi)
      ensures old(c) == old(hi) ==> c == lo
      ensures old(c) != old(hi) ==> c == old(c)
      ensures multiset(a[lo..hi]) == old(multiset(a[lo..hi])) + multiset{old(a[i])}
      ensures a[..lo] == Swapped(old(a[..]), i, old(lo) - 1)[..lo]
      ensures a[hi..] == Swapped(old(a[..]), i, old(lo) - 1)[hi..]
    {
      ghost var s := a[..];
      ghost var olo := lo;
      a[i], a[lo - 1] := a[lo - 1], a[i];
      assert a[lo..hi] == s[lo..hi];
      PushLeft();
      assert lo == olo - 1 && lo + 1 == olo;
    }

    /**
     * Brings the element at `i`, a slot outside the window, into the slot
     * just right of the window, then absorbs it with `PushRight`.
     */
    method PushRightSwap(i: nat)
      requires Valid() && hi < a.Length && i < a.Length && (i < lo || i >= hi)
      modifies this, a
      ensures Valid()
      ensures lo == old(lo) && hi == old(hi) + 1 && c == old(c)
      ensures multiset(a[lo..hi]) == old(multiset(a[lo..hi])) + multiset{old(a[i])}
      ensures a[..lo] == Swapped(old(a[..]), i, old(hi))[..lo]
      ensures a[hi..] == Swapped(old(a[..]), i, old(hi))[hi..]
    {
      ghost var s := a[..];
      ghost var ohi := hi;
      a[i], a[hi] := a[hi], a[i];
      ghost var t := a[..];
      assert t[lo..hi] == s[lo..hi] && t[hi] == s[i];
      PushRight();
      assert hi == ohi + 1;
    }

    /**
     * Exchanges the best element with the element at `i`, a slot outside
     * the window, and sifts the newcomer out from the root: afterwards `i`
     * holds the old best element, which was no greater than any element of
     * the old window, and the markers are unchanged.
     */
    method PopPush(i: nat)
      requires Valid() && lo < hi && i < a.Length && (i < lo || i >= hi)
      modifies a
      ensures Valid()
      ensures RootExchanged(old(a[..]), a[..], lo, c, hi, i)
      ensures forall k :: lo <= k < hi ==> a[i] <= old(a[k])
    {
      var l, r, h := lo, c, hi;
      ghost var s := a[..];
      RootBoundsWindow(s, l, r, h);
      a[i], a[r] := a[r], a[i];
      ghost var t := a[..];
      RootReplacedReady(s, t, l, r, h, l, h);
      SiftOut(r, h, h);
      OrderedOnWindow(a[..], l, r, h, h, h);
      RootExchangeContents(s, t, a[..], l, r, h, i);
    }

    /**
     * Offers the element at `i`, a slot outside the window, to the heap:
     * when the heap is empty or that element is no worse than the best one,
     * nothing changes; otherwise it is exchanged with the best one as in
     * `PopPush`. Either way `i` ends up holding an element no greater than
     * its old one and no greater than anything in the window.
     */
    method PushPop(i: nat)
      requires Valid() && i < a.Length && (i < lo || i >= hi)
      modifies a
      ensures Valid()
      ensures old(lo == hi || a[i] <= a[c]) ==> a[..] == old(a[..])
      ensures !old(lo == hi || a[i] <= a[c]) ==> RootExchanged(old(a[..]), a[..], lo, c, hi, i)
      ensures a[i] <= old(a[i])
      ensures forall k :: lo <= k < hi ==> a[i] <= a[k]
    {
      if lo == hi || a[i] <= a[c] {
        if lo < hi {
          RootBoundsWindow(a[..], lo, c, hi);
        }
        return;
      }
      ghost var s := a[..];
      PopPush(i);
      ExchangedIsLeast(s, a[..], lo, hi, a[i], s[i]);
    }

    /**
     * `slide_right` on a heap whose root is its first slot: after the
     * exchange the root's element is the new last slot, so the root moves
     * there and the heap is rebuilt over the moved window.
     */
    method SlideRightRoot()
      requires Valid() && lo < hi < a.Length && c == lo
      modifies this, a
      ensures Valid()
      ensures lo == old(lo) + 1 && hi == old(hi) + 1 && c == old(hi)
      ensures SlidRight(old(a[..]), a[..], old(lo), old(hi))
    {
      var l, h := lo, hi;
      var lop, hip := l + 1, h + 1;
      ghost var s := a[..];
      a[l], a[h] := a[h], a[l];
      ghost var t := a[..];
      c, lo, hi := h, lop, hip;
      Recenter();
      SlideRightContents(s, t, a[..], l, h, lop, hip);
    }

    /**
     * The array work of `slide_right` when the root lies right of the first
     * slot: the slots `lo` and `hi` are exchanged and the old first element,
     * now at `hi`, is sifted toward the root inside the window moved one
     * slot right. The markers are left to the caller.
     */
    method SlideRightSift()
      requires Valid() && lo < hi < a.Length && c != lo
      modifies a
      ensures Ordered(a[..], old(lo) + 1, c, old(hi) + 1)
      ensures SlidRight(old(a[..]), a[..], old(lo), old(hi))
    {
      var l, h := lo, hi;
      var lop, hip := l + 1, h + 1;
      ghost var s := a[..];
      a[l], a[h] := a[h], a[l];
      ghost var t := a[..];
      SlideRightReady(s, t, l, c, h, lop, hip);
      SiftIn(h, lop, hip);
      SlideRightContents(s, t, a[..], l, h, lop, hip);
    }

    /**
     * `slide_right` on a heap whose root lies right of its first slot: the
     * old first element, now just past the window, is sifted toward the
     * root as a new leaf, and the window moves over it.
     */
    method SlideRightLeaf()
      requires Valid() && lo < hi < a.Length && c != lo
      modifies this, a
      ensures Valid()
      ensures lo == old(lo) + 1 && hi == old(hi) + 1 && c == old(c)
      ensures SlidRight(old(a[..]), a[..], old(lo), old(hi))
    {
      var lop, hip := lo + 1, hi + 1;
      SlideRightSift();
      lo, hi := lop, hip;
    }

    /**
     * Moves the window one slot right: the element just right of the
     * window is exchanged into the first slot, which leaves the window, and
     * the old first element becomes a new leaf at the far end. When the
     * root was the first slot, the root follows its element and the heap
     * is rebuilt. The window keeps its contents.
     */
    method SlideRight()
      requires Valid() && hi < a.Length
      modifies this, a
      ensures Valid()
      ensures lo == old(lo) + 1 && hi == old(hi) + 1
      ensures old(lo) == old(hi) ==> c == old(c) + 1
      ensures old(lo) < old(hi) && old(c) == old(lo) ==> c == old(hi)
      ensures old(lo) < old(hi) && old(c) != old(lo) ==> c == old(c)
      ensures SlidRight(old(a[..]), a[..], old(lo), old(hi))
    {
      if lo == hi {
        lo, c, hi := lo + 1, c + 1, hi + 1;
      } else if c == lo {
        SlideRightRoot();
      } else {
        SlideRightLeaf();
      }
    }

    /**
     * `slide_left` on a heap whose root is its last slot: after the
     * exchange the root's element is the new first slot, so the root moves
     * there and the heap is rebuilt over the moved window.
     */
    method SlideLeftRoot()
      requires Valid() && 0 < lo < hi && c == hi - 1
      modifies this, a
      ensures Valid()
      ensures lo == old(lo) - 1 && hi == old(hi) - 1 && c == lo
      ensures SlidLeft(old(a[..]), a[..], old(lo), old(hi))
    {
      var l, h := lo, hi;
      var lop, hip := l - 1, h - 1;
      ghost var s := a[..];
      a[lop], a[hip] := a[hip], a[lop];
      ghost var t := a[..];
      c, lo, hi := lop, lop, hip;
      Recenter();
      SlideLeftContents(s, t, a[..], l, h, lop, hip);
    }

    /**
     * The array work of `slide_left` when the root lies left of the last
     * slot: the slots `lo - 1` and `hi - 1` are exchanged and the old last
     * element, now at `lo - 1`, is sifted toward the root inside the window
     * moved one slot left. The markers are left to the caller.
     */
    method SlideLeftSift()
      requires Valid() && 0 < lo < hi && c != hi - 1
      modifies a
      ensures Ordered(a[..], old(lo) - 1, c, old(hi) - 1)
      ensures SlidLeft(old(a[..]), a[..], old(lo), old(hi))
    {
      var l, h := lo, hi;
      var lop, hip := l - 1, h - 1;
      ghost var s := a[..];
      a[lop], a[hip] := a[hip], a[lop];
      ghost var t := a[..];
      SlideLeftReady(s, t, l, c, h, lop, hip);
      SiftIn(lop, lop, hip);
      SlideLeftContents(s, t, a[..], l, h, lop, hip);
    }

    /**
     * `slide_left` on a heap whose root lies left of its last slot: the old
     * last element, now just before the window, is sifted toward the root
     * as a new leaf, and the window moves over it.
     */
    method SlideLeftLeaf()
      requires Valid() && 0 < lo < hi && c != hi - 1
      modifies this, a
      ensures Valid()
      ensures lo == old(lo) - 1 && hi == old(hi) - 1 && c == old(c)
      ensures SlidLeft(old(a[..]), a[..], old(lo), old(hi))
    {
      var lop, hip := lo - 1, hi - 1;
      SlideLeftSift();
      lo, hi := lop, hip;
    }

    /**
     * Moves the window one slot left: the element just left of the window
     * is exchanged into the last slot, which leaves the window, and the old
     * last element becomes a new leaf at the near end. When the root was
     * the last slot, the root follows its element to the new `lo` and the
     * heap is rebuilt. The window keeps its contents.
     */
    method SlideLeft()
      requires Valid() && lo > 0
      modifies this, a
      ensures Valid()
      ensures Markers(lo, c, hi) == SlideLeftMarkers(old(lo), old(c), old(hi))
      ensures SlidLeft(old(a[..]), a[..], old(lo), old(hi))
    {
      if lo == hi {
        lo, c, hi := lo - 1, c - 1, hi - 1;
      } else if c == hi - 1 {
        SlideLeftRoot();
      } else {
        SlideLeftLeaf();
      }
    }
  }
}
