/**
 * The records of etkdocking/dockpaned.py (`_DockPanedItem`,
 * `_DockPanedHandle`) and the pure list arithmetic the paned's
 * bookkeeping rests on: which weight a new item starts with, which handle
 * goes when an item goes, `get_nth_item`, `item_num` and the move of
 * `reorder_item`.
 */
module PanedItems {
  import opened Options
  import opened PyList
  import opened Util

  /** The weight a new item requests when nothing better is known. */
  const FALLBACK_WEIGHT: real := 0.2

  /** The default of the `handle-size` property. */
  const DEFAULT_HANDLE_SIZE: nat := 4

  datatype Orientation = Horizontal | Vertical

  /** A `_DockPanedItem`. The child widget is an opaque id. `weight` and
      `weightRequest` hold 0.0 where the source holds None: the source only
      tests them for truthiness, sums truthy ones, or reads a weight that
      insertion or `_redistribute_weight` has already set. `expand` is the
      child's `expand` setting; `alloc` is the child's current allocation. */
  datatype Item = Item(
    child: nat,
    weight: real,
    weightRequest: real,
    minSize: int,
    expand: bool,
    alloc: Rect)

  /** A `_DockPanedHandle`: the source tells handles apart by identity,
      the model by `id`. */
  datatype Handle = Handle(id: nat, area: Rect)

  /** An item or a handle, in the order `_children` yields them. */
  datatype Part = ItemPart(item: Item) | HandlePart(handle: Handle)

  /** `_size`: the extent along the paned's orientation. */
  function Extent(o: Orientation, r: Rect): int
  {
    if o == Horizontal then r.width else r.height
  }

  /** A request for `pixels` of the paned's effective `size`. */
  function PerSize(pixels: int, size: int): real
    requires size != 0
  {
    pixels as real / size as real
  }

  predicate DistinctChildren(items: seq<Item>)
  {
    forall i, j :: 0 <= i < j < |items| ==> items[i].child != items[j].child
  }

  predicate HasChild(items: seq<Item>, child: nat)
  {
    exists i :: 0 <= i < |items| && items[i].child == child
  }

  /** The (weight, weight request) `_insert_item` gives a new item; `count`
      is the number of items once it is in, `size` the effective size less
      one handle, `natural` the child's natural extent. Exactly one of the
      two is set, so every item later has a weight to scale or a request to
      honour. */
  function InitialWeight(weight: real, count: nat, hasAllocation: bool, size: int, natural: int): (r: (real, real))
    requires 0.0 <= weight <= 1.0
    ensures (r.0 == 0.0) != (r.1 == 0.0)
    ensures 0.0 <= r.0 <= 1.0 && r.1 >= 0.0
    ensures weight != 0.0 ==> r == (0.0, weight)
    ensures weight == 0.0 && count == 1 ==> r == (1.0, 0.0)
    ensures weight == 0.0 && count != 1 ==> r.0 == 0.0 && r.1 > 0.0
  {
    if weight != 0.0 then (0.0, weight)
    else if count == 1 then (1.0, 0.0)
    else if hasAllocation && size > 0 && natural > 0 then (0.0, natural as real / size as real)
    else (0.0, FALLBACK_WEIGHT)
  }

  /** Without an explicit weight, an item that is not alone asks for its
      natural extent's share of the size when both are known and positive,
      and for `FALLBACK_WEIGHT` otherwise. */
  lemma InitialShare(count: nat, hasAllocation: bool, size: int, natural: int)
    requires count != 1
    ensures var r := InitialWeight(0.0, count, hasAllocation, size, natural);
      if hasAllocation && size > 0 && natural > 0 then r.1 * size as real == natural as real
      else r.1 == FALLBACK_WEIGHT
  {
  }

  /** `get_nth_item`: the child at `n`, or None out of range. */
  function GetNthItem(items: seq<Item>, n: int): (r: Option<nat>)
    ensures r.Some? <==> 0 <= n < |items|
    ensures r.Some? ==> r.value == items[n].child
  {
    if 0 <= n <= |items| - 1 then Some(items[n].child) else None
  }

  /** `item_num`: the index of the first item holding `child`. */
  function ItemNum(items: seq<Item>, child: nat): (r: Option<nat>)
    ensures r.Some? ==> r.value < |items| && items[r.value].child == child
    ensures r.Some? ==> forall j :: 0 <= j < r.value ==> items[j].child != child
    ensures r.None? <==> !HasChild(items, child)
  {
    if items == [] then None
    else if items[0].child == child then Some(0)
    else match ItemNum(items[1..], child)
      case None => None
      case Some(k) => Some(k + 1)
  }

  /** `item_num` and `get_nth_item` are inverse on a paned whose children
      are distinct. */
  lemma {:induction false} ItemNumOfNthItem(items: seq<Item>, n: nat)
    requires DistinctChildren(items) && n < |items|
    ensures ItemNum(items, GetNthItem(items, n).value) == Some(n)
  {
  }

  /** The handle `_remove_handle` deletes once the item at `k` is gone: the
      one after it, or the one before it when it was the last item. */
  function HandleToRemove(k: nat, handles: nat): (j: nat)
    requires k <= handles && handles > 0
    ensures j < handles
    ensures j == k || (k == handles && j == k - 1)
  {
    if k < handles then k else k - 1
  }

  /** Where `reorder_item` puts the item it moves in a paned of `n` items:
      the requested index, or the end for None, a negative index or one
      past the last item. */
  function ReorderTarget(n: nat, position: Option<int>): (p: nat)
    requires n > 0
    ensures p < n
    ensures position.Some? && 0 <= position.value < n ==> p == position.value
    ensures position.None? || position.value < 0 || position.value >= n ==> p == n - 1
  {
    var pos := if position.None? || position.value < 0 || position.value > n - 1 then n else position.value;
    PyInsertIndex(n - 1, pos)
  }

  /** The list `reorder_item` leaves: the item at `k` removed and put back at `p`. */
  function Reordered<T>(s: seq<T>, k: nat, p: nat): (r: seq<T>)
    requires k < |s| && p < |s|
    ensures |r| == |s|
  {
    InsertAt(RemoveAt(s, k), p, s[k])
  }

  /** Moving an item is a permutation: it lands at `p`, and the other items
      keep their relative order. */
  lemma ReorderedPermutes<T>(s: seq<T>, k: nat, p: nat)
    requires k < |s| && p < |s|
    ensures multiset(Reordered(s, k, p)) == multiset(s)
    ensures Reordered(s, k, p)[p] == s[k]
    ensures RemoveAt(Reordered(s, k, p), p) == RemoveAt(s, k)
  {
    RemoveAtMultiset(s, k);
    InsertAtMultiset(RemoveAt(s, k), p, s[k]);
    RemoveInsert(RemoveAt(s, k), p, s[k]);
  }

  /** The order `_children` yields: items and handles alternating, starting
      and ending with an item (item k at 2k, handle k at 2k + 1). */
  function Interleaved(items: seq<Item>, handles: seq<Handle>): (r: seq<Part>)
    requires |items| == |handles| + 1 || (items == [] && handles == [])
    ensures |r| == |items| + |handles|
    ensures forall k :: 0 <= k < |items| ==> r[2 * k] == ItemPart(items[k])
    ensures forall k :: 0 <= k < |handles| ==> r[2 * k + 1] == HandlePart(handles[k])
    ensures r != [] ==> r[0].ItemPart? && r[|r| - 1].ItemPart?
  {
    seq(|items| + |handles|, k requires 0 <= k < |items| + |handles| =>
      if k % 2 == 0 then ItemPart(items[k / 2]) else HandlePart(handles[k / 2]))
  }

  /** Taking an item out keeps the children distinct and loses exactly
      that item's child. */
  lemma RemoveKeepsDistinct(items: seq<Item>, k: nat)
    requires DistinctChildren(items) && k < |items|
    ensures DistinctChildren(RemoveAt(items, k))
    ensures forall c :: HasChild(RemoveAt(items, k), c) <==> HasChild(items, c) && c != items[k].child
  {
    var r := RemoveAt(items, k);
    assert forall i :: 0 <= i < |r| ==> r[i] == items[if i < k then i else i + 1];
    forall c | HasChild(items, c) && c != items[k].child
      ensures HasChild(r, c)
    {
      var i :| 0 <= i < |items| && items[i].child == c;
      assert r[if i < k then i else i - 1].child == c;
    }
  }

  /** With distinct children, the item holding `child` is the one found. */
  lemma ItemNumDistinct(items: seq<Item>, k: nat, child: nat)
    requires DistinctChildren(items) && k < |items| && items[k].child == child
    ensures ItemNum(items, child) == Some(k)
  {
    assert HasChild(items, child);
  }

  /** Putting in an item whose child is not there keeps the children distinct. */
  lemma InsertKeepsDistinct(items: seq<Item>, i: nat, it: Item)
    requires DistinctChildren(items) && i <= |items| && !HasChild(items, it.child)
    ensures DistinctChildren(InsertAt(items, i, it))
  {
    var r := InsertAt(items, i, it);
    assert forall j :: 0 <= j < |r| ==> r[j] == if j < i then items[j] else if j == i then it else items[j - 1];
  }

  /** A move keeps the children distinct. */
  lemma ReorderKeepsDistinct(items: seq<Item>, k: nat, p: nat)
    requires DistinctChildren(items) && k < |items| && p < |items|
    ensures DistinctChildren(Reordered(items, k, p))
  {
    RemoveKeepsDistinct(items, k);
    InsertKeepsDistinct(RemoveAt(items, k), p, items[k]);
  }

  /** The index `_get_handle_at_pos` finds: the first handle whose area
      overlaps the point, inclusive of its border. */
  function HandleAt(handles: seq<Handle>, x: int, y: int): (r: Option<nat>)
    ensures r.Some? ==> r.value < |handles| && RectOverlaps(handles[r.value].area, x, y)
    ensures r.Some? ==> forall k :: 0 <= k < r.value ==> !RectOverlaps(handles[k].area, x, y)
    ensures r.None? <==> forall k :: 0 <= k < |handles| ==> !RectOverlaps(handles[k].area, x, y)
  {
    if handles == [] then None
    else if RectOverlaps(handles[0].area, x, y) then Some(0)
    else match HandleAt(handles[1..], x, y)
      case None => None
      case Some(k) => Some(k + 1)
  }

  /** `_handles.index(handle)`: where the handle with this id is, if it is
      still in the paned. */
  function HandleIndex(handles: seq<Handle>, id: nat): (r: Option<nat>)
    ensures r.Some? ==> r.value < |handles| && handles[r.value].id == id
    ensures r.None? <==> forall k :: 0 <= k < |handles| ==> handles[k].id != id
  {
    if handles == [] then None
    else if handles[0].id == id then Some(0)
    else match HandleIndex(handles[1..], id)
      case None => None
      case Some(k) => Some(k + 1)
  }

  /** Every index in `idx` is an index of a list of length `n`. */
  predicate ValidIndices(n: nat, idx: seq<nat>)
  {
    forall k :: 0 <= k < |idx| ==> idx[k] < n
  }

  predicate Increasing(idx: seq<nat>)
  {
    forall k, l :: 0 <= k < l < |idx| ==> idx[k] < idx[l]
  }

  predicate Distinct(idx: seq<nat>)
  {
    forall k, l :: 0 <= k < l < |idx| ==> idx[k] != idx[l]
  }

  /** The position of `j` among the indices `idx`, if any. */
  function IndexOf(idx: seq<nat>, j: nat): (r: Option<nat>)
    ensures r.Some? ==> r.value < |idx| && idx[r.value] == j
    ensures r.None? ==> j !in idx
  {
    if idx == [] then None
    else if idx[|idx| - 1] == j then Some(|idx| - 1)
    else IndexOf(idx[..|idx| - 1], j)
  }

  /** Every index in `idx` is found at its own position: no index repeats. */
  predicate Located(idx: seq<nat>)
  {
    forall k :: 0 <= k < |idx| ==> IndexOf(idx, idx[k]) == Some(k)
  }

  lemma {:induction false} DistinctLocated(idx: seq<nat>)
    requires Distinct(idx)
    ensures Located(idx)
  {
    if idx != [] {
      var n := |idx| - 1;
      assert Distinct(idx[..n]);
      DistinctLocated(idx[..n]);
      forall k | 0 <= k < n
        ensures IndexOf(idx, idx[k]) == Some(k)
      {
        assert idx[..n][k] == idx[k];
      }
    }
  }

  /** Dropping the last index keeps the rest located, and the last index
      occurs nowhere before it. */
  lemma LocatedPrefix(idx: seq<nat>)
    requires Located(idx) && idx != []
    ensures Located(idx[..|idx| - 1]) && idx[|idx| - 1] !in idx[..|idx| - 1]
  {
    var n := |idx| - 1;
    forall k | 0 <= k < n
      ensures IndexOf(idx[..n], idx[..n][k]) == Some(k)
    {
      assert IndexOf(idx, idx[k]) == Some(k);
    }
  }
}
