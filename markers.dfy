/**
 * The marker updates of sliding a centered heap one slot left, as the
 * source writes them and as evidently intended.
 *
 * Sliding left exchanges the slot just left of the window with the last
 * slot of the window and moves both ends of the window one slot left.
 * When the root was that last slot, its element has moved to the new first
 * slot and the root must follow it before the heap is rebuilt.
 */
module SlideMarkers {
  import opened HeapOrder

  /** The three markers `lo`, `c` and `hi` of a heap. */
  datatype Markers = Markers(lo: nat, c: nat, hi: nat)

  /**
   * The markers after `slide_left` as written: when the root was the last
   * slot, the root is set to the old `lo`.
   */
  function SlideLeftMarkersAsWritten(lo: nat, c: nat, hi: nat): (r: Markers)
    requires 0 < lo && (lo == c == hi || lo <= c < hi)
    ensures r.lo == lo - 1 && r.hi == hi - 1
    ensures RangeOk(r.lo, r.c, r.hi, hi)
  {
    if lo == hi then Markers(lo - 1, c - 1, hi - 1)
    else if c == hi - 1 then Markers(lo - 1, lo, hi - 1)
    else Markers(lo - 1, c, hi - 1)
  }

  /**
   * The markers after sliding left with the root following its element:
   * when the root was the last slot, the root becomes the new `lo`.
   */
  function SlideLeftMarkers(lo: nat, c: nat, hi: nat): (r: Markers)
    requires 0 < lo && (lo == c == hi || lo <= c < hi)
    ensures r.lo == lo - 1 && r.hi == hi - 1
    ensures lo < hi ==> r.lo <= r.c < r.hi
    ensures lo < hi && c != hi - 1 ==> r.c == c
  {
    if lo == hi then Markers(lo - 1, c - 1, hi - 1)
    else if c == hi - 1 then Markers(lo - 1, lo - 1, hi - 1)
    else Markers(lo - 1, c, hi - 1)
  }

  /**
   * As written, sliding left keeps the range invariant exactly when the
   * window does not hold a single element: with one element, the root is
   * left at the new `hi`, outside the non-empty window.
   */
  lemma SlideLeftAsWrittenBreaksWindow(lo: nat, c: nat, hi: nat, len: nat)
    requires 0 < lo && Window(lo, c, hi, len)
    ensures var r := SlideLeftMarkersAsWritten(lo, c, hi);
      Window(r.lo, r.c, r.hi, len) <==> hi - lo != 1
  {
    var r := SlideLeftMarkersAsWritten(lo, c, hi);
    if hi - lo == 1 {
      assert r.c == r.hi && r.lo < r.hi;
    }
  }

  /** The smallest input that shows it: one element at slot 1 of a two-slot slice. */
  lemma SlideLeftAsWrittenCounterexample()
    ensures Window(1, 1, 2, 2)
    ensures SlideLeftMarkersAsWritten(1, 1, 2) == Markers(0, 1, 1)
    ensures !Window(0, 1, 1, 2)
  {
  }

  /**
   * With the root following its element, sliding left always keeps the
   * range invariant, moves the window one slot left and keeps its size.
   */
  lemma SlideLeftKeepsWindow(lo: nat, c: nat, hi: nat, len: nat)
    requires 0 < lo && Window(lo, c, hi, len)
    ensures var r := SlideLeftMarkers(lo, c, hi);
      Window(r.lo, r.c, r.hi, len) && r.lo == lo - 1 && r.hi - r.lo == hi - lo
  {
  }
}
