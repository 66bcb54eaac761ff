# Centered heap

A model of the centered heap (`Cheap`) of the `centered-heap` repository
and of the small routines built on it, with proofs of what they promise.

A centered heap lives in place inside a borrowed slice. It owns the window
`[lo, hi)` of the slice, and its best (smallest) element sits at the root
slot `c` inside the window. The slots left of `c` and the slots right of
`c` form two mirrored implicit binary heaps that share the root: a node at
distance `d` from `c` has its children at distances `2d` and `2d + 1` on
its own side, and its parent at distance `d / 2`. Elements enter the heap
by absorbing the slot just outside either end of the window, and the best
element leaves it into the slot at either end, which then leaves the
window. Every change to the slice is an exchange of two slots.

The model has five modules:

- `CheapIndex` (`index.dfy`): the index helpers `get_left_child`,
  `get_right_child`, `get_parent` and `get_recenter_limit`, with lemmas
  about where the children and the parent lie.
- `HeapOrder` (`order.dfy`): the range invariant and heap order stated on
  the slice as a sequence, and the lemmas about single exchanges that the
  sifting loops are built from.
- `SlideMarkers` (`markers.dfy`): the marker updates of `slide_left` as
  written and as corrected (see Findings).
- `CenteredHeap` (`cheap.dfy`): the class `Cheap`. It has the slice as an
  `array<int>` and the markers `lo`, `c` and `hi` as fields. There is one
  method per heap operation, each with `modifies` and the new state in
  its `ensures`.
- `Sorting` (`sorting.dfy`): `small_sort`, `is_sorted`, `heap_sort_left`
  and `heap_sort_right`, and `slice::reverse` as `heap_sort_right` uses
  it.

The class invariant `Valid()` is the conjunction of two predicates:

- `Window`: `hi` lies inside the slice, and either `lo == c == hi` (empty)
  or `lo <= c < hi`.
- `Ordered`: every slot of the window other than the root is no better
  than its parent.

The source asserts `check()` before and after every operation. That check
accepts a root at `hi` above a non-empty window, so it is weaker than
`Window`. It is modelled as `RangeOk`, and the lemmas below relate the two.

Each `assert!` that panics in the source is a `requires` of the matching
operation: a non-empty heap for the pops, room at the end for the pushes
and slides, and a slot `i` outside the window. A pop exchanges the root
with the boundary slot it vacates and then repairs the heap.

## Model

| member | source | states |
|---|---|---|
| CheapIndex.LeftChild | src/main.rs:21-38 | a left child other than the sentinel is the slot just left of the root for the root, and for any other node lies on the node's side at twice its distance from the root (`ChildrenAtDoubleDistance` says when it is the sentinel) |
| CheapIndex.RightChild | src/main.rs:46-59 | a right child other than the sentinel is the slot just right of the root for the root, and for any other node lies on the node's side at twice its distance from the root plus one (`ChildrenAtDoubleDistance` says when it is the sentinel) |
| CheapIndex.RecenterLimit | src/main.rs:79-85 | the limit lies between the root and the given end, at half that end's distance from the root, rounded up |
| CheapIndex.Parent | src/main.rs:65-72 | the parent of a slot other than the root lies between it and the root on the same side, strictly nearer the root (the termination measure of `sift_in`) |
| CheapIndex.RootChildren | src/main.rs:21-58 | the root's children are `c - 1` and `c + 1`; at `c == 0` the left one is the out-of-range sentinel |
| CheapIndex.ChildrenAtDoubleDistance | src/main.rs:21-58 | away from the root both children lie on the node's own side at distances `2d` and `2d + 1`, and a child is the sentinel exactly when that slot would fall below 0 |
| CheapIndex.ParentInvertsChildren | src/main.rs:21-72 | for a slot `j` other than the root, `get_parent(j) == x` exactly when `j` is one of `x`'s two children |
| CheapIndex.ParentOfChildren | src/main.rs:21-72 | both in-range children of a node name it as their parent |
| CheapIndex.LeftLimitLeaves | src/main.rs:79-85 | left of the root, every slot below the recenter limit has both children below `lo`, so the first loop of `recenter` may skip it |
| CheapIndex.RightLimitLeaves | src/main.rs:79-85 | right of the root, every slot from the recenter limit on has both children at or beyond `hi`, so the second loop of `recenter` may skip it |
| CheapIndex.LimitsInWindow | src/main.rs:79-85 | the two recenter limits bracket the root inside the window |
| CheapIndex.ChildrenInWindow | src/main.rs:311-345 | inside the window, the slots whose parent is `n` are exactly `n`'s in-window children, and neither is the root |
| HeapOrder.RangeOk | src/main.rs:226-236 | `check_range` holds exactly when `lo <= c <= hi <= len`: its "all markers equal" alternative is a case of ordered markers |
| HeapOrder.Ordered | src/main.rs:246-266 | heap order: no slot of the window other than the root is better than its parent; `Cheap.IsValid` computes it and `HeapOrder.RootIsMin` derives the minimum at the root from it |
| HeapOrder.WindowIsRangeOkWithRootInside | src/main.rs:226-236 | the invariant is the range check plus "a non-empty window holds its root" |
| HeapOrder.RangeOkAdmitsRootAtHi | src/main.rs:226-236 | the range check alone accepts a root at `hi` above a non-empty window (`lo = 0, c = hi = 1`) |
| HeapOrder.RootIsMin | src/main.rs:273-285 | in a heap-ordered window the element at the root is no greater than the element at any slot of the window |
| HeapOrder.RootBoundsWindow | src/main.rs:273-285 | the root's element bounds every element of the window from below |
| HeapOrder.SiftOutStep | src/main.rs:318-354 | exchanging `n` with its better child moves the only possible heap-order violations one level down, below that child |
| HeapOrder.SiftInStep | src/main.rs:366-377 | exchanging a slot with a worse parent moves the only possible violation one level up, toward the root |
| HeapOrder.WindowPerm | src/main.rs:273-285 | a permutation of the slice that leaves the slots outside `[lo, hi)` alone permutes the window's contents |
| HeapOrder.PoppedIsLeast | src/main.rs:395-453 | the element a pop moves to the end slot was the least of the old window, is no greater than anything left in it, and with the shrunken window makes up the old window |
| HeapOrder.EndSplit | src/main.rs:469-534 | the contents of a window are the contents of the window one slot shorter at either end plus the slot taken off |
| HeapOrder.RootExchangeContents | src/main.rs:554-571 | exchanging the root with an outside slot and then reordering only the window leaves the old root's element at that slot and trades it for the slot's old element in the window |
| HeapOrder.ExchangedIsLeast | src/main.rs:592-608 | an element taken out of the window in exchange for a no-smaller one still bounds the new window |
| HeapOrder.SlideRightContents | src/main.rs:623-651 | exchanging `lo` with `hi` and reordering only the window moved one slot right leaves the old `a[hi]` at the old `lo`, moves the window's contents with it, and keeps every other slot |
| HeapOrder.SlideLeftContents | src/main.rs:666-695 | the mirror image: the old `a[lo - 1]` lands at the old `hi - 1`, the window's contents move one slot left, and every other slot is kept |
| SlideMarkers.SlideLeftMarkersAsWritten | src/main.rs:674-691 | as written, sliding left moves `lo` and `hi` one slot left and keeps only the weaker range check |
| SlideMarkers.SlideLeftMarkers | src/main.rs:674-691 | corrected markers: `lo` and `hi` move one slot left, a non-empty window keeps its root inside, and a root that was not the last slot stays |
| SlideMarkers.SlideLeftAsWrittenBreaksWindow | src/main.rs:681-686 | the markers as written keep the range invariant exactly when the window does not hold a single element |
| SlideMarkers.SlideLeftAsWrittenCounterexample | src/main.rs:683 | one element at slot 1 of a two-slot slice: the root ends at `c = hi = 1` above the window `[0, 1)` |
| SlideMarkers.SlideLeftKeepsWindow | src/main.rs:674-691 | with the root following its element to the new `lo`, sliding left always keeps the range invariant and the window's size |
| CenteredHeap.Cheap.Valid | src/main.rs:239-266 | the invariant that `check()` asserts around every operation, with the root inside a non-empty window: `Window` and `Ordered` |
| CenteredHeap.Cheap.NewLeft | src/main.rs:151-160 | an empty heap at slot 0, valid |
| CenteredHeap.Cheap.NewRight | src/main.rs:162-172 | an empty heap at the end of the slice, valid |
| CenteredHeap.Cheap.NewSpanLeft | src/main.rs:174-184 | the whole slice rooted at slot 0; the markers satisfy the range invariant |
| CenteredHeap.Cheap.NewSpanRight | src/main.rs:186-197 | the whole non-empty slice rooted at its last slot; the markers satisfy the range invariant |
| CenteredHeap.Cheap.IsValid | src/main.rs:245-266 | answers true exactly when the window is in heap order |
| CenteredHeap.Cheap.IsEmpty | src/main.rs:268-271 | under the range invariant, the heap is empty exactly when the root sits at `hi` |
| CenteredHeap.Cheap.BetterChild | src/main.rs:321-345 | finds a child no worse than `n` and no worse than any other child of `n`; reports none exactly when every in-window child is worse than `n`; takes the right child whenever it is no worse than `n` and, if the left one also is, no worse than the left one, and otherwise the left child |
| CenteredHeap.Cheap.SwapDown | src/main.rs:349-352 | exchanging `n` with its chosen child keeps the sift's state, now at the child, with the slice permuted and nothing outside the window changed |
| CenteredHeap.Cheap.SiftOutRound | src/main.rs:318-354 | one round either moves the element strictly farther from the root, keeping the sift's state, or ends with the required edges in order |
| CenteredHeap.Cheap.SiftOut | src/main.rs:311-356 | afterwards every edge from the slots the caller needs is in heap order; the slice is permuted and nothing outside the window changes |
| CenteredHeap.Cheap.SiftIn | src/main.rs:361-379 | a window that was in heap order except at the sifted slot is in heap order afterwards; the slice is permuted and nothing outside the window changes |
| CenteredHeap.Cheap.RecenterLeft | src/main.rs:291-293 | after the first loop every edge from a slot left of the root is in heap order |
| CenteredHeap.Cheap.RecenterRight | src/main.rs:294-296 | after the second loop the whole window is in heap order |
| CenteredHeap.Cheap.Recenter | src/main.rs:273-300 | for any root inside the window, afterwards the heap is valid with the same markers, the slice is permuted, and the slots outside the window are untouched |
| CenteredHeap.Cheap.PopLeftRoot | src/main.rs:401-410 | the root was `lo`: its element stays at the old `lo`, the root moves to `hi - 1` and the heap is rebuilt, or the heap becomes empty |
| CenteredHeap.Cheap.PopLeftSwap | src/main.rs:411-415 | the root's element moves to the old `lo`, the root stays, and the heap is valid again |
| CenteredHeap.Cheap.PopLeft | src/main.rs:395-418 | the least element of the window lands at the old `lo`, `lo` grows by one, `c` moves only when it was `lo`; the shrunken window is a valid heap of the remaining elements, each no less than the popped one |
| CenteredHeap.Cheap.PopRightRoot | src/main.rs:439-445 | the root was `hi - 1`: its element stays there, the root moves to `lo` and the heap is rebuilt, or the heap becomes empty |
| CenteredHeap.Cheap.PopRightSwap | src/main.rs:446-450 | the root's element moves to the old `hi - 1`, the root stays, and the heap is valid again |
| CenteredHeap.Cheap.PopRight | src/main.rs:435-453 | the least element of the window lands at the old `hi - 1`, `hi` shrinks by one, `c` moves to `lo` only when it was that slot; the shrunken window is a valid heap of the remaining elements, each no less than the popped one |
| CenteredHeap.Cheap.PushLeft | src/main.rs:469-486 | absorbs `a[lo - 1]`: `lo` shrinks by one, `c` changes only for an empty heap (to the new `lo`), the heap is valid and holds its old elements plus the new one, and no other slot changes |
| CenteredHeap.Cheap.PushRight | src/main.rs:521-534 | absorbs `a[hi]`: `hi` grows by one, `c` is unchanged (for an empty heap it already is the old `hi`), the heap is valid and holds its old elements plus the new one, and no other slot changes |
| CenteredHeap.Cheap.PushLeftSwap | src/main.rs:488-496 | the element at outside slot `i` joins the heap through the slot `lo - 1`; the rest of the slice is as after that exchange |
| CenteredHeap.Cheap.PushRightSwap | src/main.rs:498-505 | the element at outside slot `i` joins the heap through the slot `hi`; the rest of the slice is as after that exchange |
| CenteredHeap.Cheap.PopPush | src/main.rs:554-571 | slot `i` receives the old least element, which bounds the old window; the old `a[i]` takes its place among the window's elements; markers unchanged, heap valid |
| CenteredHeap.Cheap.PushPop | src/main.rs:592-608 | nothing changes when the heap is empty or `a[i]` is no worse than the root; otherwise it acts as `PopPush`; either way `a[i]` ends no greater than before and no greater than anything in the window |
| CenteredHeap.Cheap.SlideRightRoot | src/main.rs:635-643 | the root was `lo`: it follows its element to the old `hi`, and the moved window is rebuilt into a valid heap |
| CenteredHeap.Cheap.SlideRightSift | src/main.rs:635-645 | the old first element, now at `hi`, is sifted into the window moved one slot right, which is in heap order afterwards |
| CenteredHeap.Cheap.SlideRightLeaf | src/main.rs:643-647 | the root stays, the window moves one slot right, and the heap is valid |
| CenteredHeap.Cheap.SlideRight | src/main.rs:623-651 | `lo` and `hi` move one slot right; the old `a[hi]` lands at the old `lo`; the window keeps its elements; the root follows its element when it was `lo`; the heap stays valid |
| CenteredHeap.Cheap.SlideLeftRoot | src/main.rs:679-687 | the root was `hi - 1`: it follows its element to the new `lo`, and the moved window is rebuilt into a valid heap |
| CenteredHeap.Cheap.SlideLeftSift | src/main.rs:679-689 | the old last element, now at `lo - 1`, is sifted into the window moved one slot left, which is in heap order afterwards |
| CenteredHeap.Cheap.SlideLeftLeaf | src/main.rs:687-691 | the root stays, the window moves one slot left, and the heap is valid |
| CenteredHeap.Cheap.SlideLeft | src/main.rs:666-695 | the markers are those of `SlideMarkers.SlideLeftMarkers`; the old `a[lo - 1]` lands at the old `hi - 1`; the window keeps its elements; the heap stays valid |
| Sorting.NeighboursSorted | src/main.rs:875-890 | a sequence whose every neighbouring pair is in order is sorted |
| Sorting.SortedInSlice | src/main.rs:856-873 | the slots `[lo, hi)` are pairwise in order exactly when the slice `a[lo..hi]` is sorted |
| Sorting.InsertingStep | src/main.rs:864-868 | exchanging the moved element with a greater left neighbour keeps the inner loop's state |
| Sorting.InsertingDone | src/main.rs:864-870 | once the moved element meets a left neighbour no greater than it, `[lo, i]` is sorted |
| Sorting.InsertingFromStep | src/main.rs:864-868 | one exchange of the inner loop keeps its state, the slice's elements and every slot outside `[lo, i]` |
| Sorting.SmallSort | src/main.rs:856-873 | `a[lo..hi]` ends sorted and a permutation of its old contents; the rest of the slice is unchanged |
| Sorting.IsSortedOutcome | src/main.rs:875-890 | the check as written stops on an out-of-bounds read exactly when `lo` is the slice's length, and otherwise answers whether `a[lo..hi]` is sorted |
| Sorting.IsSortedAsWritten | src/main.rs:875-890 | the scan's outcome is `IsSortedOutcome` |
| Sorting.IsSortedAsWrittenPanicsOnEmpty | src/main.rs:881 | the empty slice is sorted, yet the check as written stops on it |
| Sorting.IsSorted | src/main.rs:875-890 | the corrected check always answers, and answers true exactly when `a[lo..hi]` is sorted |
| Sorting.PrefixGrows | src/main.rs:919-921 | one `pop_left` keeps the loop state of `heap_sort_left`: the prefix left of the window is in order and bounded by every element of the window |
| Sorting.PrefixDone | src/main.rs:919-921 | when the window is empty at the end of the slice, the whole slice is sorted |
| Sorting.HeapSortLeft | src/main.rs:916-922 | a non-empty slice ends sorted and a permutation of its old contents |
| Sorting.SuffixGrows | src/main.rs:927-929 | one `pop_right` keeps the loop state of `heap_sort_right`: the suffix right of the window is nonincreasing and bounded by every element of the window |
| Sorting.NeighboursDescending | src/main.rs:927-929 | a sequence whose every neighbouring pair is nonincreasing is nonincreasing |
| Sorting.SuffixDone | src/main.rs:927-929 | when the window is empty at slot 0, the whole slice is nonincreasing |
| Sorting.ReversedDescending | src/main.rs:930 | reading a nonincreasing sequence back to front gives a sorted one |
| Sorting.ReversedPerm | src/main.rs:930 | reading back to front keeps the elements |
| Sorting.ReversalSorts | src/main.rs:930 | a slot-by-slot reversal keeps the elements and turns a nonincreasing sequence into a sorted one |
| Sorting.ReversalIsReversed | src/main.rs:930 | the slot-by-slot reversal relation holds exactly for the reversed sequence |
| Sorting.Reverse | src/main.rs:930 | the slice ends as its old contents back to front, with the same elements, and sorted when it was nonincreasing |
| Sorting.HeapSortRight | src/main.rs:924-931 | any slice, the empty one included, ends sorted and a permutation of its old contents |

## Left out

- The command line, argument parsing, array generation with random shuffling, JSON output and timing in `main` are input and output. They are not part of this model.
- The `Counter` instrumentation (`count_compare`, `count_swap`) does not affect the heap and is dropped, and so are the debug printing macros and the `Debug` formatting.
- `merge`, `MC`, `merge_sort`, `running_sort_left`, `running_sort_right` and the library sort behind `Op::Sort` consume the heap but are outside this model.
- The element type is `int`. The source's generic `E: PartialOrd` may be a partial order (floats with NaN), and that case is not modelled.
- Indices are unbounded naturals, and the `usize::MAX` sentinel of the child helpers is `CheapIndex.Outside` (-1), which lies outside every window. Two `usize` subtractions in the source underflow and panic: `i - 1` in `new_spanright` on an empty slice (line 193), and `self.lo - 1` in `push_left_swap` at `lo == 0` (line 494), evaluated before `push_left`'s own check. The `requires` of `CenteredHeap.Cheap.NewSpanRight` (a non-empty slice) and of `CenteredHeap.Cheap.PushLeftSwap` (`lo > 0`) exclude them.
- A panicking `assert!` in the source is a `requires` on the model: popping an empty heap, pushing or sliding past the slice's ends, or naming a slot inside the window.
- The `#[cfg(debug_assertions)]` calls of `check()` around each operation are the `Valid()` clauses of each method's `requires` and `ensures`. `check` itself is `Valid()`, built from `RangeOk`/`Window` and `IsValid`'s `Ordered`.
- `params`, `swap`, `bt` and `bt_nocount` are inlined: a swap is a parallel assignment of two array slots, and "better than" is `<=`.
- `CenteredHeap.Cheap.Recenter`: requires the range invariant `Window` rather than the weaker `check_range`. Its window permutation is not stated directly; it follows from its `ensures` through `HeapOrder.WindowPerm`.
- `CenteredHeap.Cheap.SiftOut`: its "done" slots and `CenteredHeap.Cheap.SiftIn`'s window bounds are ghost parameters. They say which edges each caller needs repaired, and the source has no such arguments.
- `CenteredHeap.Cheap.SlideLeft`: models the corrected marker update (see Findings), not line 683 as written.
- `CenteredHeap.Cheap.SlideLeftRoot`: sets `c` to the new `lo`, where line 683 sets it to the old `lo`. The correction moves the root on every window whose root was the last slot, not only on one-element windows. On a window of two or more elements, the old `lo` lies inside the moved window, and the `recenter` that follows rebuilds a valid heap around it too; the model then differs from the source only in which slot holds the root.
- `Sorting.HeapSortLeft`: requires a non-empty slice, because `new_spanright` computes `len - 1`.

## Findings

| source | as written | input that shows it | evidently intended | confidence | as-written member | corrected member |
|---|---|---|---|---|---|---|
| src/main.rs:683 | `slide_left`, when the root is the last slot, sets `c` to the old `lo` | a one-element heap `lo = 1, c = 1, hi = 2` in a two-slot slice: after the slide `lo = 0, hi = 1`, but `c = 1 = hi`, outside the non-empty window | the root follows its element to the new `lo`, mirroring `slide_right`'s `c = hi` | not executed | SlideMarkers.SlideLeftAsWrittenBreaksWindow | SlideMarkers.SlideLeftKeepsWindow |
| src/main.rs:881 | `is_sorted` reads `a[lo]` before looking at the range | an empty slice with `lo = hi = 0`, which `main` passes at line 1211 for an array of size 0: the read is out of bounds | an empty range is sorted | not executed | Sorting.IsSortedAsWritten | Sorting.IsSorted |

`SlideMarkers.SlideLeftAsWrittenCounterexample` and `Sorting.IsSortedAsWrittenPanicsOnEmpty` give the concrete inputs. `CenteredHeap.Cheap.SlideLeft` uses the corrected markers.
