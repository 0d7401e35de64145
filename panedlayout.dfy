/**
 * The layout `do_size_allocate` in etkdocking/dockpaned.py computes once
 * the weights are settled: items and handles are laid out back to back
 * along the paned's orientation, in the order `_children` yields them,
 * every item gets its weight's share of the effective size rounded to a
 * whole pixel, every handle gets exactly the handle size, and the last
 * item absorbs whatever the rounding left over.
 */
module PanedLayout {
  import opened PyList
  import opened Util
  import opened PanedItems
  import opened PanedWeights

  /** Python 3's `round` on a float: to the nearest integer, ties to the
      even one. */
  function RoundHalfEven(x: real): (r: int)
    ensures x - 0.5 <= r as real <= x + 0.5
    ensures (r as real - x == 0.5 || x - r as real == 0.5) ==> r % 2 == 0
  {
    var f := x.Floor;
    var d := x - f as real;
    if d < 0.5 then f
    else if d > 0.5 then f + 1
    else if f % 2 == 0 then f
    else f + 1
  }

  /** An item's share of `size` pixels, before rounding. */
  function Pixels(weight: real, size: int): real
  {
    weight * size as real
  }

  lemma PixelsAdd(a: real, b: real, size: int)
    ensures Pixels(a + b, size) == Pixels(a, size) + Pixels(b, size)
  {
  }

  /** The extent `round(weight * size)` each item gets before the last
      item takes up the remainder. */
  function ItemSizes(items: seq<Item>, size: int): (r: seq<int>)
    ensures |r| == |items|
  {
    seq(|items|, j requires 0 <= j < |items| => RoundHalfEven(Pixels(items[j].weight, size)))
  }

  /** Where part `j` of the layout starts along the orientation: after the
      first `j` item sizes and one handle behind each. */
  function Offset(sizes: seq<int>, hs: int, j: nat): int
    requires j <= |sizes|
  {
    IntSum(sizes[..j]) + j * hs
  }

  /** A rectangle of length `len` at `start` along the orientation that
      spans the allocation across it; the running counter across the
      orientation stays 0. */
  function Span(o: Orientation, alloc: Rect, start: int, len: int): (r: Rect)
    ensures Extent(o, r) == len
  {
    if o == Horizontal then Rect(start, 0, len, alloc.height) else Rect(0, start, alloc.width, len)
  }

  /** The extent of item `j`: its rounded size, and for the last item
      whatever remains of the allocation. */
  function ItemExtent(sizes: seq<int>, hs: int, ext: int, j: nat): int
    requires j < |sizes|
  {
    if j == |sizes| - 1 then ext - Offset(sizes, hs, j) else sizes[j]
  }

  function ItemRect(o: Orientation, alloc: Rect, sizes: seq<int>, hs: int, j: nat): Rect
    requires j < |sizes|
  {
    Span(o, alloc, Offset(sizes, hs, j), ItemExtent(sizes, hs, Extent(o, alloc), j))
  }

  /** Handle `j` sits right after item `j`. */
  function HandleRect(o: Orientation, alloc: Rect, sizes: seq<int>, hs: int, j: nat): Rect
    requires j < |sizes|
  {
    Span(o, alloc, Offset(sizes, hs, j) + sizes[j], hs)
  }

  /** The start of a rectangle along the orientation. */
  function Start(o: Orientation, r: Rect): int
  {
    if o == Horizontal then r.x else r.y
  }

  /** The items with their new allocations. */
  function LaidOutItems(o: Orientation, alloc: Rect, items: seq<Item>, hs: int, size: int): (r: seq<Item>)
    ensures |r| == |items|
  {
    var sizes := ItemSizes(items, size);
    seq(|items|, j requires 0 <= j < |items| => items[j].(alloc := ItemRect(o, alloc, sizes, hs, j)))
  }

  /** The handles with their new areas. */
  function LaidOutHandles(o: Orientation, alloc: Rect, items: seq<Item>, handles: seq<Handle>, hs: int, size: int): (r: seq<Handle>)
    requires |handles| < |items|
    ensures |r| == |handles|
  {
    var sizes := ItemSizes(items, size);
    seq(|handles|, j requires 0 <= j < |handles| => handles[j].(area := HandleRect(o, alloc, sizes, hs, j)))
  }

  lemma OffsetStep(sizes: seq<int>, hs: int, j: nat)
    requires j < |sizes|
    ensures Offset(sizes, hs, j + 1) == Offset(sizes, hs, j) + sizes[j] + hs
  {
    assert sizes[..j + 1] == sizes[..j] + [sizes[j]];
    IntSumAppend(sizes[..j], [sizes[j]]);
  }

  /** Items and handles follow each other without gap or overlap: handle
      `j` starts where item `j` ends and is exactly the handle size long,
      item `j + 1` starts where handle `j` ends, the first item starts at 0
      and the last one ends exactly at the allocation's extent. */
  lemma LayoutBackToBack(o: Orientation, alloc: Rect, items: seq<Item>, hs: int, size: int, j: nat)
    requires j < |items|
    ensures var sizes := ItemSizes(items, size);
      var it := ItemRect(o, alloc, sizes, hs, j);
      (j == 0 ==> Start(o, it) == 0) &&
      (j == |items| - 1 ==> Start(o, it) + Extent(o, it) == Extent(o, alloc)) &&
      (j < |items| - 1 ==>
         var h := HandleRect(o, alloc, sizes, hs, j);
         Start(o, h) == Start(o, it) + Extent(o, it) && Extent(o, h) == hs &&
         Start(o, ItemRect(o, alloc, sizes, hs, j + 1)) == Start(o, h) + hs)
  {
    var sizes := ItemSizes(items, size);
    assert sizes[..0] == [];
    if j < |items| - 1 {
      OffsetStep(sizes, hs, j);
    }
  }

  /** The item extents and the handles between them add up to the
      allocation's extent. */
  lemma {:induction false} LayoutCovers(sizes: seq<int>, hs: int, ext: int, n: nat)
    requires 0 < n <= |sizes|
    ensures IntSum(seq(n, j requires 0 <= j < n => if j == n - 1 then ext - Offset(sizes, hs, j) else sizes[j])) + (n - 1) * hs == ext
  {
    var xs := seq(n, j requires 0 <= j < n => if j == n - 1 then ext - Offset(sizes, hs, j) else sizes[j]);
    assert xs == sizes[..n - 1] + [ext - Offset(sizes, hs, n - 1)];
    IntSumAppend(sizes[..n - 1], [ext - Offset(sizes, hs, n - 1)]);
  }

  /** The extents of all items, in order. */
  function ItemExtents(o: Orientation, alloc: Rect, items: seq<Item>, hs: int, size: int): (r: seq<int>)
    requires items != []
    ensures |r| == |items|
  {
    var sizes := ItemSizes(items, size);
    seq(|items|, j requires 0 <= j < |items| => ItemExtent(sizes, hs, Extent(o, alloc), j))
  }

  /** Every pixel of the allocation goes to an item or a handle. */
  lemma LayoutFills(o: Orientation, alloc: Rect, items: seq<Item>, hs: int, size: int)
    requires items != []
    ensures IntSum(ItemExtents(o, alloc, items, hs, size)) + (|items| - 1) * hs == Extent(o, alloc)
  {
    var sizes := ItemSizes(items, size);
    LayoutCovers(sizes, hs, Extent(o, alloc), |items|);
    assert ItemExtents(o, alloc, items, hs, size) ==
      seq(|items|, j requires 0 <= j < |items| => if j == |items| - 1 then Extent(o, alloc) - Offset(sizes, hs, j) else sizes[j]);
  }

  function Abs(x: real): real
  {
    if x < 0.0 then -x else x
  }

  /** Rounding each share loses at most half a pixel per item. */
  lemma {:induction false} RoundingError(items: seq<Item>, size: int)
    ensures Abs(IntSum(ItemSizes(items, size)) as real - Pixels(Sum(Weights(items)), size)) <= 0.5 * |items| as real
  {
    if items != [] {
      var sizes := ItemSizes(items, size);
      var ws := Weights(items);
      RoundingError(items[1..], size);
      assert sizes[1..] == ItemSizes(items[1..], size) by {
        forall k | 0 <= k < |items| - 1
          ensures sizes[1..][k] == ItemSizes(items[1..], size)[k]
        {
          assert items[1..][k] == items[k + 1];
        }
      }
      assert ws[1..] == Weights(items[1..]) by {
        forall k | 0 <= k < |items| - 1
          ensures ws[1..][k] == Weights(items[1..])[k]
        {
          assert items[1..][k] == items[k + 1];
        }
      }
      PixelsAdd(ws[0], Sum(ws[1..]), size);
    }
  }

  /** When the weights add up to 1 and the handles take `|items| - 1`
      handle sizes, the last item's extent differs from its own rounded
      share by at most half a pixel per item. */
  lemma RemainderBound(o: Orientation, alloc: Rect, items: seq<Item>, hs: int)
    requires items != [] && Sum(Weights(items)) == 1.0
    ensures var size := Extent(o, alloc) - (|items| - 1) * hs;
      var n := |items| - 1;
      Abs((ItemExtents(o, alloc, items, hs, size)[n] - ItemSizes(items, size)[n]) as real) <= 0.5 * |items| as real
  {
    var size := Extent(o, alloc) - (|items| - 1) * hs;
    var n := |items| - 1;
    var sizes := ItemSizes(items, size);
    LastGap(o, alloc, items, hs);
    RoundingError(items, size);
    assert Pixels(Sum(Weights(items)), size) == size as real;
    AbsFlip(IntSum(sizes), size);
  }

  /** The last item's extent exceeds its rounded share by what rounding
      took from the total. */
  lemma LastGap(o: Orientation, alloc: Rect, items: seq<Item>, hs: int)
    requires items != []
    ensures var size := Extent(o, alloc) - (|items| - 1) * hs;
      var n := |items| - 1;
      var sizes := ItemSizes(items, size);
      ItemExtents(o, alloc, items, hs, size)[n] - sizes[n] == size - IntSum(sizes)
  {
    var size := Extent(o, alloc) - (|items| - 1) * hs;
    var n := |items| - 1;
    var sizes := ItemSizes(items, size);
    assert sizes == sizes[..n] + [sizes[n]];
    IntSumAppend(sizes[..n], [sizes[n]]);
  }

  lemma AbsFlip(a: int, b: int)
    ensures Abs((b - a) as real) == Abs(a as real - b as real)
  {
  }
}
