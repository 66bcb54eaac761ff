/**
 * Index arithmetic of the centered heap.
 *
 * A centered heap rooted at slot `c` is two mirrored implicit binary heaps
 * that share the root: the slots left of `c` form one, the slots right of
 * `c` the other. A node at distance `d = |x - c|` from the root has its
 * children at distances `2d` and `2d + 1` on its own side, the root's
 * children are `c - 1` and `c + 1`, and a node's parent is at distance
 * `d / 2`.
 *
 * Indices are unbounded naturals here; the sentinel `usize::MAX` that the
 * child helpers return for a slot that would lie below index 0 is `Outside`.
 */
module CheapIndex {

  /** The "no such slot" answer of the child helpers; it lies below every window. */
  const Outside: int := -1

  /** Distance of slot `x` from the root slot `c`. */
  function Dist(x: int, c: int): nat
  {
    if x >= c then x - c else c - x
  }

  /** The child at twice the distance from `c` (for the root: `c - 1`). */
  function LeftChild(x: nat, c: nat): (r: int)
    ensures r == Outside || r >= 0
    ensures r != Outside ==> Dist(r, c) == if x == c then 1 else 2 * Dist(x, c)
    ensures r != Outside ==> (r < c <==> x <= c)
  {
    if x == c then
      if c == 0 then Outside else c - 1
    else if x > c then
      c + (x - c) * 2
    else
      var o := (c - x) * 2;
      if o > c then Outside else c - o
  }

  /** The child at twice the distance from `c`, plus one (for the root: `c + 1`). */
  function RightChild(x: nat, c: nat): (r: int)
    ensures r == Outside || r >= 0
    ensures r != Outside ==> Dist(r, c) == if x == c then 1 else 2 * Dist(x, c) + 1
    ensures r != Outside ==> (r < c <==> x < c)
  {
    if x == c then
      c + 1
    else if x > c then
      (x - c) * 2 + 1 + c
    else
      var o := (c - x) * 2 + 1;
      if o > c then Outside else c - o
  }

  /** The parent lies half the distance from `c`, rounded down, on the same side. */
  function Parent(x: nat, c: nat): (r: nat)
    requires x != c
    ensures x > c ==> c <= r < x
    ensures x < c ==> x < r <= c
    ensures Dist(r, c) < Dist(x, c)
  {
    if x > c then c + (x - c) / 2 else c - (c - x) / 2
  }

  /** Where sifting must start to rebuild the heap: half the distance from `c`, rounded up. */
  function RecenterLimit(x: nat, c: nat): (r: nat)
    ensures (x <= r <= c) || (c <= r <= x)
    ensures Dist(x, c) <= 2 * Dist(r, c) <= Dist(x, c) + 1
  {
    if x > c then (x - c + 1) / 2 + c else c - (c - x + 1) / 2
  }

  /** The root's children are the two slots next to it. */
  lemma RootChildren(c: nat)
    ensures LeftChild(c, c) == c - 1
    ensures c == 0 ==> LeftChild(c, c) == Outside
    ensures RightChild(c, c) == c + 1
  {
  }

  /**
   * Away from the root, both children lie on the node's own side at
   * distances `2d` and `2d + 1`; a child is `Outside` exactly when that
   * slot would fall below index 0.
   */
  lemma ChildrenAtDoubleDistance(x: nat, c: nat)
    requires x != c
    ensures LeftChild(x, c) == Outside <==> x < c && 2 * Dist(x, c) > c
    ensures LeftChild(x, c) != Outside ==>
      (LeftChild(x, c) < c <==> x < c) && Dist(LeftChild(x, c), c) == 2 * Dist(x, c)
    ensures RightChild(x, c) == Outside <==> x < c && 2 * Dist(x, c) + 1 > c
    ensures RightChild(x, c) != Outside ==>
      (RightChild(x, c) < c <==> x < c) && Dist(RightChild(x, c), c) == 2 * Dist(x, c) + 1
  {
  }

  /**
   * The child helpers and the parent helper are inverse: a slot `j` other
   * than the root has parent `x` exactly when it is one of `x`'s children.
   */
  lemma ParentInvertsChildren(x: nat, c: nat, j: nat)
    requires j != c
    ensures Parent(j, c) == x <==> j == LeftChild(x, c) || j == RightChild(x, c)
  {
    if j > c {
      var d := j - c;
      assert Parent(j, c) == c + d / 2;
      if x > c {
        assert LeftChild(x, c) == c + 2 * (x - c) && RightChild(x, c) == c + 2 * (x - c) + 1;
      }
    } else {
      var d := c - j;
      assert Parent(j, c) == c - d / 2;
      if x < c && 2 * (c - x) <= c {
        assert LeftChild(x, c) == c - 2 * (c - x);
      }
    }
  }

  /** Both children of an in-range node, when they exist, name that node as parent. */
  lemma ParentOfChildren(x: nat, c: nat)
    ensures LeftChild(x, c) >= 0 ==> Parent(LeftChild(x, c), c) == x
    ensures RightChild(x, c) >= 0 ==> Parent(RightChild(x, c), c) == x
  {
    if LeftChild(x, c) >= 0 {
      ParentInvertsChildren(x, c, LeftChild(x, c));
    }
    if RightChild(x, c) >= 0 {
      ParentInvertsChildren(x, c, RightChild(x, c));
    }
  }

  /**
   * Left of the centre, every slot of `[lo, limit)` has both children below
   * `lo`: it is a leaf of the window.
   */
  lemma LeftLimitLeaves(lo: nat, c: nat, p: nat)
    requires lo <= c
    requires lo <= p < RecenterLimit(lo, c)
    ensures LeftChild(p, c) < lo && RightChild(p, c) < lo
  {
  }

  /**
   * Right of the centre, every slot of `[limit, hi)` has both children at or
   * beyond `hi`: it is a leaf of the window.
   */
  lemma RightLimitLeaves(hi: nat, c: nat, p: nat)
    requires c <= hi
    requires RecenterLimit(hi, c) <= p < hi
    ensures LeftChild(p, c) >= hi && RightChild(p, c) >= hi
  {
  }

  /** The two limits bracket the centre inside the window. */
  lemma LimitsInWindow(lo: nat, c: nat, hi: nat)
    requires lo <= c <= hi
    ensures lo <= RecenterLimit(lo, c) <= c
    ensures c <= RecenterLimit(hi, c) <= hi
    ensures c < hi ==> c < RecenterLimit(hi, c)
  {
  }

  /**
   * Inside a window `[lo, hi)` around `c`, the slots whose parent is `n` are
   * exactly those of `n`'s two children that fall in the window.
   */
  lemma ChildrenInWindow(lo: nat, c: nat, hi: nat, n: nat)
    ensures forall j :: lo <= j < hi && j != c ==>
      (Parent(j, c) == n <==> j == LeftChild(n, c) || j == RightChild(n, c))
    ensures lo <= LeftChild(n, c) < hi ==> LeftChild(n, c) != c
    ensures lo <= RightChild(n, c) < hi ==> RightChild(n, c) != c
  {
    forall j | lo <= j < hi && j != c
      ensures Parent(j, c) == n <==> j == LeftChild(n, c) || j == RightChild(n, c)
    {
      ParentInvertsChildren(n, c, j);
    }
    RootChildren(c);
    if n != c {
      ChildrenAtDoubleDistance(n, c);
    }
  }
}
