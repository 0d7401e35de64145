/**
 * The `DockPaned` container of etkdocking/dockpaned.py: an ordered list
 * of items with a handle between each two neighbours, the bookkeeping
 * that inserts, removes and moves items, the handle drag that resizes
 * them, and the size allocation that lays them out.
 */
module DockPanedModel {
  import opened Options
  import opened PyList
  import opened Util
  import opened Dnd
  import opened FairScale
  import opened PanedItems
  import opened PanedResize
  import opened PanedWeights
  import opened PanedLayout

  /** The window cursor: the default one, or one of the two resize cursors. */
  datatype Cursor = DefaultCursor | ResizeEastWest | ResizeNorthSouth

  /** The cursor a handle shows: across a horizontal paned's handles the
      pointer moves east-west, across a vertical one's north-south. */
  function HandleCursor(o: Orientation): (c: Cursor)
    ensures c != DefaultCursor
    ensures (c == ResizeEastWest) <==> o == Horizontal
  {
    if o == Horizontal then ResizeEastWest else ResizeNorthSouth
  }

  /** An empty `Gdk.Rectangle`. */
  const EmptyRect := Rect(0, 0, 0, 0)

  /** One handle between each two neighbouring items. */
  predicate HandlesMatch(items: seq<Item>, handles: seq<Handle>)
  {
    |items| == |handles| + 1 || (items == [] && handles == [])
  }

  /** Handle ids are distinct and below the next one to be handed out. */
  predicate FreshIds(handles: seq<Handle>, next: nat)
  {
    (forall j :: 0 <= j < |handles| ==> handles[j].id < next) &&
    (forall j, k :: 0 <= j < k < |handles| ==> handles[j].id != handles[k].id)
  }

  lemma InsertKeepsFresh(handles: seq<Handle>, next: nat, i: nat, area: Rect)
    requires FreshIds(handles, next) && i <= |handles|
    ensures FreshIds(InsertAt(handles, i, Handle(next, area)), next + 1)
  {
    var r := InsertAt(handles, i, Handle(next, area));
    assert forall j :: 0 <= j < |r| ==> r[j] == if j < i then handles[j] else if j == i then Handle(next, area) else handles[j - 1];
  }

  lemma RemoveKeepsFresh(handles: seq<Handle>, next: nat, i: nat)
    requires FreshIds(handles, next) && i < |handles|
    ensures FreshIds(RemoveAt(handles, i), next)
  {
    var r := RemoveAt(handles, i);
    assert forall j :: 0 <= j < |r| ==> r[j] == handles[if j < i then j else j + 1];
  }

  /** Where `_insert_item` puts an item: the requested index, or the end for
      None or a negative index (the list insert clamps the rest). */
  function InsertPosition(n: nat, position: Option<int>): (pos: int)
    ensures position.None? || position.value < 0 ==> pos == n
    ensures position.Some? && position.value >= 0 ==> pos == position.value
  {
    if position.None? || position.value < 0 then n else position.value
  }

  /** The handle being dragged and the drag distance
      `do_motion_notify_event` computes along the orientation; None where
      the source raises (no dragged handle, no offset, or a handle no
      longer in the paned). */
  function DragTarget(o: Orientation, handles: seq<Handle>, f: DragFields<nat>, x: int, y: int): (r: Option<(nat, int)>)
    ensures r.Some? ==> r.value.0 < |handles| && f.draggedObject == Some(handles[r.value.0].id)
    ensures r.Some? && o == Horizontal ==> f.offsetX.Some? && r.value.1 == x - handles[r.value.0].area.x - f.offsetX.value
    ensures r.Some? && o == Vertical ==> f.offsetY.Some? && r.value.1 == y - handles[r.value.0].area.y - f.offsetY.value
    ensures r.None? <==>
      f.draggedObject.None? || HandleIndex(handles, f.draggedObject.value).None? ||
      (o == Horizontal && f.offsetX.None?) || (o == Vertical && f.offsetY.None?)
  {
    if f.draggedObject.None? || HandleIndex(handles, f.draggedObject.value).None? then None
    else
      var hi := HandleIndex(handles, f.draggedObject.value).value;
      var a := handles[hi].area;
      match o
      case Horizontal => if f.offsetX.None? then None else Some((hi, x - a.x - f.offsetX.value))
      case Vertical => if f.offsetY.None? then None else Some((hi, y - a.y - f.offsetY.value))
  }

  /** The enlarge item, the shrink candidates and the distance of a nonzero
      drag of handle `hi` in a paned of `n` items: towards the start the
      item after the handle grows at the expense of those before it,
      nearest first; towards the end the item before it grows at the
      expense of those after it. */
  function DragPlan(hi: nat, delta: int, n: nat): (p: (nat, seq<nat>, nat))
    requires hi + 1 < n && delta != 0
    ensures p.0 < n && ValidIndices(n, p.1) && Located(p.1) && p.0 !in p.1
    ensures delta < 0 ==> p.0 == hi + 1 && (forall j :: j in p.1 <==> 0 <= j <= hi)
    ensures delta > 0 ==> p.0 == hi && (forall j :: j in p.1 <==> hi < j < n)
  {
    if delta < 0 then (hi + 1, ShrinkBefore(hi), -delta) else (hi, ShrinkAfter(hi, n), delta)
  }

  /** What a drag of handle `hi` by `delta` pixels does to the items. */
  function Dragged(o: Orientation, items: seq<Item>, hi: nat, delta: int, size: int): (r: (bool, seq<Item>))
    requires hi + 1 < |items|
    ensures |r.1| == |items| && (!r.0 ==> r.1 == items)
  {
    if delta == 0 then (true, items)
    else
      var p := DragPlan(hi, delta, |items|);
      Resized(o, items, p.0, p.1, p.2, size)
  }

  /** A drag never reaches past the item it enlarges: items on the far
      side of it keep their state, and a zero drag changes nothing. */
  lemma DragLeavesFarSide(o: Orientation, items: seq<Item>, hi: nat, delta: int, size: int, j: nat)
    requires hi + 1 < |items| && j < |items|
    requires delta < 0 ==> j > hi + 1
    requires delta > 0 ==> j < hi
    ensures Dragged(o, items, hi, delta, size).1[j] == items[j]
  {
    if delta != 0 {
      var p := DragPlan(hi, delta, |items|);
      ResizedLeavesOthers(o, items, p.0, p.1, p.2, size, j);
    }
  }

  /** The drag distance is how far the pointer has moved along the
      orientation since the button press that grabbed the handle, as long
      as the handle has not moved. */
  lemma PressThenDrag(o: Orientation, handles: seq<Handle>, next: nat, hi: nat, f: DragFields<nat>, x0: int, y0: int, x: int, y: int)
    requires FreshIds(handles, next) && hi < |handles|
    requires f.draggedObject == Some(handles[hi].id)
    requires f.offsetX == Some(x0 - handles[hi].area.x) && f.offsetY == Some(y0 - handles[hi].area.y)
    ensures DragTarget(o, handles, f, x, y) == Some((hi, if o == Horizontal then x - x0 else y - y0))
  {
    var found := HandleIndex(handles, handles[hi].id);
    assert found == Some(hi);
  }

  /** The loop of `_redistribute_size` over the shrink candidates, on the
      paned's items and effective size. It stops once the drag distance is
      used up, and fails (the source raises) at the first candidate with
      pixels to spare when the effective size is 0. */
  method SizeLoop(o: Orientation, items: seq<Item>, e: nat, shrink: seq<nat>, delta0: nat, size: int)
    returns (ok: bool, r: seq<Item>)
    requires e < |items| && ValidIndices(|items|, shrink) && Located(shrink) && e !in shrink
    ensures (ok, r) == Resized(o, items, e, shrink, delta0, size)
  {
    ghost var spare := Spares(o, items, shrink);
    r := items;
    var delta := delta0;
    var taken := 0;
    var i := 0;
    SizeLoopStart(o, items, e, shrink, spare, delta0, size);
    while i < |shrink|
      invariant i <= |shrink| && SizeLoopState(o, items, e, shrink, spare, delta0, size, i, r, delta, taken) && (delta != 0 || i == 0)
    {
      var going;
      going, r, delta, taken := ShrinkOne(o, items, e, shrink, spare, delta0, size, i, r, delta, taken);
      if !going {
        return false, items;
      }
      i := i + 1;
      if delta == 0 {
        break;
      }
    }
    SizeLoopDone(o, items, e, shrink, spare, delta0, size, i, r, delta, taken);
    ok := true;
  }

  /** Before the first candidate nothing is covered or touched. */
  lemma SizeLoopStart(o: Orientation, items: seq<Item>, e: nat, shrink: seq<nat>, spare: seq<int>, delta0: nat, size: int)
    requires e < |items| && |spare| == |shrink|
    ensures SizeLoopState(o, items, e, shrink, spare, delta0, size, 0, items, delta0, 0)
  {
    if size != 0 {
      ItemsStart(o, items, e, shrink, spare, delta0, size);
    }
  }

  /** Once every candidate is seen or the distance is covered, the loop
      has computed `Resized`. */
  lemma SizeLoopDone(o: Orientation, items: seq<Item>, e: nat, shrink: seq<nat>, spare: seq<int>, delta0: nat,
                     size: int, i: nat, r: seq<Item>, delta: nat, taken: nat)
    requires e < |items| && ValidIndices(|items|, shrink) && spare == Spares(o, items, shrink) && i <= |shrink|
    requires SizeLoopState(o, items, e, shrink, spare, delta0, size, i, r, delta, taken)
    requires i == |shrink| || (i > 0 && delta == 0)
    ensures (true, r) == Resized(o, items, e, shrink, delta0, size)
  {
    LoopEnd(delta0, spare, i);
    if size != 0 {
      ItemsEnd(o, items, e, shrink, spare, delta0, size, i, r);
    }
  }

  /** One round of that loop: the candidate `shrink[i]` gives up what it
      can spare, up to the distance still to cover, and the enlarged item
      gets the pixels taken so far. `going` is false where the source
      divides by a zero effective size. */
  method ShrinkOne(o: Orientation, items: seq<Item>, e: nat, shrink: seq<nat>, ghost spare: seq<int>, delta0: nat,
                   size: int, i: nat, r: seq<Item>, delta: nat, taken: nat)
    returns (going: bool, r': seq<Item>, delta': nat, taken': nat)
    requires e < |items| && ValidIndices(|items|, shrink) && Located(shrink) && e !in shrink
    requires spare == Spares(o, items, shrink) && i < |shrink|
    requires SizeLoopState(o, items, e, shrink, spare, delta0, size, i, r, delta, taken) && (delta != 0 || i == 0)
    ensures !going ==> Resized(o, items, e, shrink, delta0, size) == (false, items)
    ensures going ==> SizeLoopState(o, items, e, shrink, spare, delta0, size, i + 1, r', delta', taken')
  {
    CandidateAt(o, items, e, shrink, spare, delta0, size, i, r);
    var item := r[shrink[i]];
    var available := Extent(o, item.alloc) - item.minSize;
    if available > 0 {
      var adjustment := Adjustment(delta, available);
      if size == 0 {
        TakeNext(o, items, e, shrink, spare, delta0, size, i, r, delta, adjustment, taken + adjustment);
        return false, r, delta, taken;
      }
      TakeStep(o, items, e, shrink, spare, delta0, size, i, r, delta, taken, adjustment);
      taken' := taken + adjustment;
      r' := TakeFrom(o, items, e, r, shrink[i], adjustment, taken', size);
      delta' := delta - adjustment;
    } else {
      SkipStep(o, items, e, shrink, spare, delta0, size, i, r, delta, taken);
      r', delta', taken' := r, delta, taken;
    }
    going := true;
  }

  /** The first loop of `_redistribute_weight`: an item with a weight, no
      `expand` setting and no request asks to keep its extent. */
  method KeepFixed(items: seq<Item>, f: real) returns (r: seq<Item>)
    ensures r == ScaleFixed(items, f)
  {
    r := items;
    var j := 0;
    while j < |r|
      invariant 0 <= j <= |r| == |items|
      invariant forall m :: 0 <= m < j ==> r[m] == ScaleFixed(items, f)[m]
      invariant forall m :: j <= m < |r| ==> r[m] == items[m]
    {
      var it := r[j];
      if it.weight != 0.0 && !it.expand && it.weightRequest == 0.0 {
        r := r[j := it.(weightRequest := Scaled(it.weight, f))];
      }
      j := j + 1;
    }
  }

  /** A `zip` loop of `_redistribute_weight`: the item at `idx[k]` takes the
      weight `ws[k]`, and loses its request when `clear`. */
  method WriteWeights(items: seq<Item>, idx: seq<nat>, ws: seq<real>, clear: bool) returns (r: seq<Item>)
    requires ValidIndices(|items|, idx) && |ws| == |idx|
    ensures r == SetWeights(items, idx, ws, clear)
  {
    r := items;
    var k := 0;
    while k < |idx|
      invariant 0 <= k <= |idx|
      invariant r == SetWeights(items, idx[..k], ws[..k], clear)
    {
      assert idx[..k + 1][..k] == idx[..k] && ws[..k + 1][..k] == ws[..k];
      var i := idx[k];
      r := r[i := r[i].(weight := ws[k], weightRequest := if clear then 0.0 else r[i].weightRequest)];
      k := k + 1;
    }
    assert idx[..k] == idx && ws[..k] == ws;
  }

  /** The two `fair_scale` rounds of `_redistribute_weight`: the items
      without a request share what the requests leave, then the requesting
      ones share what the others took, and lose their requests. */
  method TwoRounds(items: seq<Item>, sf: real, size: int) returns (r: seq<Item>)
    requires size != 0
    ensures r == RequestsScaled(OthersScaled(items, sf, size), sf, size)
  {
    var requested := Picked(items, true);
    var others := Picked(items, false);
    var round := OthersRound(items, sf, size);
    var w := FairScale.FairScale(round.0, round.1);
    r := WriteWeights(items, others, w, false);
    OthersScaledSplit(items, sf, size);
    round := RequestsRound(r, sf, size);
    w := FairScale.FairScale(round.0, round.1);
    r := WriteWeights(r, requested, w, true);
  }

  /** The body of `_redistribute_weight` on the paned's items, where
      `effective` is the effective size of its current allocation. */
  method WeightLoops(items: seq<Item>, size: int, hasAllocation: bool, effective: int) returns (ok: bool, r: seq<Item>)
    ensures (ok, r) == WeightsRedistributed(items, size, hasAllocation, effective)
  {
    r := items;
    if hasAllocation {
      if size == 0 {
        return false, r;
      }
      r := KeepFixed(r, PerSize(effective, size));
    }
    ghost var prepared := r;
    MinSizesKept(items, size, hasAllocation, effective);
    var requested := Picked(r, true);
    var others := Picked(r, false);
    var minTotal := IntSum(MinSizes(r));
    if minTotal > size && minTotal == 0 {
      return false, r;
    }
    if size == 0 && r != [] {
      return false, r;
    }
    if r == [] {
      return true, r;
    }
    var sf := SizeFactor(minTotal, size);
    r := TwoRounds(r, sf, size);
    ok := true;
  }

  /** The loop of `do_size_allocate` over `_children()`: the counters
      `cx`, `cy` run along the orientation, each item gets its rounded
      share, the last one the rest of the allocation, and each handle the
      handle size. */
  method LayOut(o: Orientation, alloc: Rect, items: seq<Item>, handles: seq<Handle>, hs: nat, size: int)
    returns (laid: seq<Item>, areas: seq<Handle>)
    requires items != [] && |items| == |handles| + 1
    ensures laid == LaidOutItems(o, alloc, items, hs, size)
    ensures areas == LaidOutHandles(o, alloc, items, handles, hs, size)
  {
    ghost var sizes := ItemSizes(items, size);
    laid, areas := items, handles;
    var cx, cy := 0, 0;
    var index := 0;
    var switch := true;
    var x := 0;
    assert sizes[..0] == [];
    while x < |items| + |handles|
      invariant 0 <= x <= |items| + |handles| && x == 2 * index + (if switch then 0 else 1)
      invariant |laid| == |items| && |areas| == |handles|
      invariant forall m :: 0 <= m < |items| ==>
        laid[m] == if m < x - index then items[m].(alloc := ItemRect(o, alloc, sizes, hs, m)) else items[m]
      invariant forall m :: 0 <= m < |handles| ==>
        areas[m] == if m < index then handles[m].(area := HandleRect(o, alloc, sizes, hs, m)) else handles[m]
      invariant (if o == Horizontal then cy else cx) == 0
      invariant !switch ==> index < |items|
      invariant (if o == Horizontal then cx else cy) == Offset(sizes, hs, index) + (if switch then 0 else sizes[index])
    {
      var rect := Rect(cx, cy, 0, 0);
      if switch {
        var s := RoundHalfEven(Pixels(laid[index].weight, size));
        if o == Horizontal {
          rect := rect.(height := alloc.height, width := s);
          cx := cx + s;
          if index == |items| - 1 {
            rect := rect.(width := rect.width + alloc.width - cx);
          }
        } else {
          rect := rect.(height := s, width := alloc.width);
          cy := cy + s;
          if index == |items| - 1 {
            rect := rect.(height := rect.height + alloc.height - cy);
          }
        }
        laid := laid[index := laid[index].(alloc := rect)];
        switch := false;
      } else {
        if o == Horizontal {
          rect := rect.(height := alloc.height, width := hs);
          cx := cx + hs;
        } else {
          rect := rect.(height := hs, width := alloc.width);
          cy := cy + hs;
        }
        areas := areas[index := areas[index].(area := rect)];
        OffsetStep(sizes, hs, index);
        switch := true;
        index := index + 1;
      }
      x := x + 1;
    }
  }

  /** `_effective_size`: the extent of `r` less what `handleCount` handles
      of `handleSize` pixels take. */
  function EffectiveSize(o: Orientation, r: Rect, handleCount: nat, handleSize: nat): (size: int)
    ensures size <= Extent(o, r) && (handleCount == 0 ==> size == Extent(o, r))
  {
    Extent(o, r) - handleCount * handleSize
  }

  /** The loop of `_children`: items at even steps, handles at odd ones,
      one `switch` flag telling which comes next. */
  method Interleave(items: seq<Item>, handles: seq<Handle>) returns (parts: seq<Part>)
    requires |items| == |handles| + 1 || (items == [] && handles == [])
    ensures parts == Interleaved(items, handles)
  {
    var index := 0;
    var switch := true;
    parts := [];
    var x := 0;
    while x < |items| + |handles|
      invariant 0 <= x <= |items| + |handles|
      invariant x == 2 * index + (if switch then 0 else 1)
      invariant |parts| == x
      invariant forall k :: 0 <= k < x ==>
        parts[k] == if k % 2 == 0 then ItemPart(items[k / 2]) else HandlePart(handles[k / 2])
    {
      if switch {
        parts := parts + [ItemPart(items[index])];
        switch := false;
      } else {
        parts := parts + [HandlePart(handles[index])];
        switch := true;
        index := index + 1;
      }
      x := x + 1;
    }
  }

  class DockPaned {
    var items: seq<Item>
    var handles: seq<Handle>
    var handleSize: nat
    var orientation: Orientation
    /** The paned's own `weight` property. */
    var weight: real
    var allocation: Rect
    var cursor: Cursor
    /** The id the next new handle gets. */
    var nextHandle: nat
    /** The state of a handle drag. */
    const dragContext: DockDragContext<nat>

    ghost predicate Valid()
      reads this
    {
      HandlesMatch(items, handles) && DistinctChildren(items) && FreshIds(handles, nextHandle)
    }

    /** An empty horizontal paned with the default handle size, not dragging. */
    constructor ()
      ensures Valid() && items == [] && handles == []
      ensures handleSize == DEFAULT_HANDLE_SIZE && orientation == Horizontal && weight == FALLBACK_WEIGHT
      ensures cursor == DefaultCursor
      ensures fresh(dragContext) && dragContext.Fields() == Cleared()
    {
      items := [];
      handles := [];
      handleSize := DEFAULT_HANDLE_SIZE;
      orientation := Horizontal;
      weight := FALLBACK_WEIGHT;
      allocation := Rect(-1, -1, 1, 1);
      cursor := DefaultCursor;
      nextHandle := 0;
      dragContext := new DockDragContext();
    }

    /** `_children`: items and handles in drawing order. */
    method Children() returns (parts: seq<Part>)
      requires Valid()
      ensures parts == Interleaved(items, handles)
    {
      parts := Interleave(items, handles);
    }

    /** `_insert_handle`: a new handle with an empty area, placed as
        `list.insert` places it. */
    method InsertHandle(position: int)
      requires FreshIds(handles, nextHandle)
      modifies this`handles, this`nextHandle
      ensures handles == InsertAt(old(handles), PyInsertIndex(|old(handles)|, position), Handle(old(nextHandle), EmptyRect))
      ensures nextHandle == old(nextHandle) + 1 && FreshIds(handles, nextHandle)
    {
      var i := PyInsertIndex(|handles|, position);
      InsertKeepsFresh(handles, nextHandle, i, EmptyRect);
      handles := InsertAt(handles, i, Handle(nextHandle, EmptyRect));
      nextHandle := nextHandle + 1;
    }

    /** `_remove_handle`: the handle at `position`, or the one before it
        when there is none at `position`. */
    method RemoveHandle(position: nat)
      requires FreshIds(handles, nextHandle) && 0 < |handles| && position <= |handles|
      modifies this`handles
      ensures handles == RemoveAt(old(handles), HandleToRemove(position, |old(handles)|))
      ensures FreshIds(handles, nextHandle)
    {
      if position < |handles| {
        RemoveKeepsFresh(handles, nextHandle, position);
        handles := RemoveAt(handles, position);
      } else {
        RemoveKeepsFresh(handles, nextHandle, position - 1);
        handles := RemoveAt(handles, position - 1);
      }
    }

    /** `_insert_item`. `weight` is 0.0 for None; `hasAllocation` says
        whether the paned and the child both have an allocation, `natural`
        is the child's natural extent along the orientation. A child already
        in the paned, or one that already has a parent (`childHasParent`),
        is refused with nothing changed; a weight outside
        [0, 1] is refused only after the item and its handle are in. On
        success the result is the new item's index. */
    method InsertItem(child: nat, childHasParent: bool, position: Option<int>, weight: real, hasAllocation: bool,
                      natural: int, expand: bool, childAlloc: Rect) returns (r: Option<nat>)
      requires Valid()
      modifies this`items, this`handles, this`nextHandle
      ensures Valid()
      ensures old(HasChild(items, child)) || childHasParent ==>
        r.None? && items == old(items) && handles == old(handles) && nextHandle == old(nextHandle)
      ensures !old(HasChild(items, child)) && !childHasParent ==>
        var pos := InsertPosition(|old(items)|, position);
        var k := PyInsertIndex(|old(items)|, pos);
        var w := if 0.0 <= weight <= 1.0
          then old(NewItemWeight(weight, hasAllocation, natural))
          else (0.0, 0.0);
        items == InsertAt(old(items), k, Item(child, w.0, w.1, 0, expand, childAlloc)) &&
        handles == (if old(items) == [] then old(handles)
                    else InsertAt(old(handles), PyInsertIndex(|old(handles)|, pos - 1), Handle(old(nextHandle), EmptyRect))) &&
        nextHandle == old(nextHandle) + (if old(items) == [] then 0 else 1) &&
        r == (if 0.0 <= weight <= 1.0 then Some(k) else None)
    {
      if ItemNum(items, child).Some? || childHasParent {
        return None;
      }
      r := InsertNew(child, position, weight, hasAllocation, natural, expand, childAlloc);
    }

    /** The (weight, weight request) a new item gets when it joins the
        items there are now: the effective size is taken once its handle is
        in, so with one handle per item there is now, less one more. */
    function NewItemWeight(weight: real, hasAllocation: bool, natural: int): (real, real)
      reads this
      requires 0.0 <= weight <= 1.0
    {
      InitialWeight(weight, |items| + 1, hasAllocation, EffectiveSize(orientation, allocation, |items|, handleSize) - handleSize, natural)
    }

    /** `_insert_item` for a child not yet in the paned. */
    method InsertNew(child: nat, position: Option<int>, weight: real, hasAllocation: bool,
                     natural: int, expand: bool, childAlloc: Rect) returns (r: Option<nat>)
      requires Valid() && !HasChild(items, child)
      modifies this`items, this`handles, this`nextHandle
      ensures Valid()
      ensures var pos := InsertPosition(|old(items)|, position);
        var k := PyInsertIndex(|old(items)|, pos);
        var w := if 0.0 <= weight <= 1.0
          then old(NewItemWeight(weight, hasAllocation, natural))
          else (0.0, 0.0);
        items == InsertAt(old(items), k, Item(child, w.0, w.1, 0, expand, childAlloc))
      ensures var pos := InsertPosition(|old(items)|, position);
        handles == (if old(items) == [] then old(handles)
                    else InsertAt(old(handles), PyInsertIndex(|old(handles)|, pos - 1), Handle(old(nextHandle), EmptyRect)))
      ensures nextHandle == old(nextHandle) + (if old(items) == [] then 0 else 1)
      ensures var pos := InsertPosition(|old(items)|, position);
        var k := PyInsertIndex(|old(items)|, pos);
        r == (if 0.0 <= weight <= 1.0 then Some(k) else None)
    {
      ghost var w := if 0.0 <= weight <= 1.0 then NewItemWeight(weight, hasAllocation, natural) else (0.0, 0.0);
      var pos := InsertPosition(|items|, position);
      var k := PyInsertIndex(|items|, pos);
      var item := Item(child, 0.0, 0.0, 0, expand, childAlloc);
      PutItem(k, item, pos);
      if !(0.0 <= weight <= 1.0) {
        return None;
      }
      r := WeighNew(k, weight, hasAllocation, natural);
      InsertAtReplace(old(items), k, item, Item(child, w.0, w.1, 0, expand, childAlloc));
    }

    /** The last steps of `_insert_item` for a weight in [0, 1]: the new
        item at `k` takes its initial weight, and its index is the result. */
    method WeighNew(k: nat, weight: real, hasAllocation: bool, natural: int) returns (r: Option<nat>)
      requires Valid() && k < |items| && 0.0 <= weight <= 1.0
      modifies this`items
      ensures Valid()
      ensures var w := old(InitialWeight(weight, |items|, hasAllocation, EffectiveSize(orientation, allocation, |handles|, handleSize) - handleSize, natural));
        items == old(items)[k := old(items)[k].(weight := w.0, weightRequest := w.1)]
      ensures r == Some(k)
    {
      var init := InitialWeight(weight, |items|, hasAllocation, EffectiveSize(orientation, allocation, |handles|, handleSize) - handleSize, natural);
      var child := items[k].child;
      ReplaceItem(k, items[k].(weight := init.0, weightRequest := init.1));
      ItemNumDistinct(items, k, child);
      r := ItemNum(items, child);
    }

    /** The first steps of `_insert_item`: the new item goes in at `k` and,
        unless it is the only one, a fresh handle goes in before it. */
    method PutItem(k: nat, item: Item, pos: int)
      requires Valid() && k <= |items| && !HasChild(items, item.child)
      modifies this`items, this`handles, this`nextHandle
      ensures Valid() && items == InsertAt(old(items), k, item) && |handles| == |old(items)|
      ensures handles == (if old(items) == [] then old(handles)
                          else InsertAt(old(handles), PyInsertIndex(|old(handles)|, pos - 1), Handle(old(nextHandle), EmptyRect)))
      ensures nextHandle == old(nextHandle) + (if old(items) == [] then 0 else 1)
    {
      InsertKeepsDistinct(items, k, item);
      items := InsertAt(items, k, item);
      if |items| > 1 {
        InsertHandle(pos - 1);
      }
    }

    /** The item at `k` is replaced by one for the same child, so the
        children stay distinct. */
    method ReplaceItem(k: nat, it: Item)
      requires Valid() && k < |items| && it.child == items[k].child
      modifies this`items
      ensures Valid() && items == old(items)[k := it]
    {
      items := items[k := it];
      assert forall j :: 0 <= j < |items| ==> items[j].child == old(items)[j].child;
    }

    /** `_remove_item`: the item holding `child` and one handle go; a child
        not in the paned is refused with nothing changed. */
    method RemoveChild(child: nat) returns (ok: bool)
      requires Valid()
      modifies this`items, this`handles
      ensures Valid()
      ensures ok <==> old(HasChild(items, child))
      ensures !ok ==> items == old(items) && handles == old(handles)
      ensures ok ==>
        var k := ItemNum(old(items), child).value;
        items == RemoveAt(old(items), k) && !HasChild(items, child) &&
        handles == (if items == [] then old(handles) else RemoveAt(old(handles), HandleToRemove(k, |old(handles)|)))
    {
      var found := ItemNum(items, child);
      if found.None? {
        return false;
      }
      var k := found.value;
      RemoveKeepsDistinct(items, k);
      items := RemoveAt(items, k);
      if items != [] {
        RemoveHandle(k);
      }
      ok := true;
    }

    /** `remove_item`: the item at `itemNum`, or the last one for None or a
        negative index; an index past the end is refused. */
    method RemoveItem(itemNum: Option<int>) returns (ok: bool)
      requires Valid()
      modifies this`items, this`handles
      ensures Valid()
      ensures var target := if itemNum.None? || itemNum.value < 0 then |old(items)| - 1 else itemNum.value;
        (ok <==> 0 <= target < |old(items)|) &&
        (ok ==> items == RemoveAt(old(items), target) &&
                handles == (if items == [] then old(handles) else RemoveAt(old(handles), HandleToRemove(target, |old(handles)|)))) &&
        (!ok ==> items == old(items) && handles == old(handles))
    {
      var target := if itemNum.None? || itemNum.value < 0 then |items| - 1 else itemNum.value;
      var child := GetNthItem(items, target);
      if child.None? {
        return false;
      }
      ItemNumOfNthItem(items, target);
      ok := RemoveChild(child.value);
    }

    /** `reorder_item`: the item holding `child` moves to `position`, or to
        the end; a child not in the paned is refused. Handles stay. */
    method ReorderItem(child: nat, position: Option<int>) returns (ok: bool)
      requires Valid()
      modifies this`items
      ensures Valid()
      ensures ok <==> old(HasChild(items, child))
      ensures ok ==> items == Reordered(old(items), ItemNum(old(items), child).value, ReorderTarget(|old(items)|, position))
      ensures !ok ==> items == old(items)
    {
      var found := ItemNum(items, child);
      if found.None? {
        return false;
      }
      var k := found.value;
      var p := ReorderTarget(|items|, position);
      ReorderKeepsDistinct(items, k, p);
      items := Reordered(items, k, p);
      ok := true;
    }

    /** `_get_handle_at_pos`: the first handle whose area overlaps the point. */
    method HandleAtPos(x: int, y: int) returns (h: Option<nat>)
      ensures h == HandleAt(handles, x, y)
    {
      var i := 0;
      while i < |handles|
        invariant 0 <= i <= |handles|
        invariant forall k :: 0 <= k < i ==> !RectOverlaps(handles[k].area, x, y)
      {
        if RectOverlaps(handles[i].area, x, y) {
          return Some(i);
        }
        i := i + 1;
      }
      return None;
    }
  
    /** `_redistribute_weight` over `size` pixels; `hasAllocation` says
        whether the paned has an allocation yet (the first loop runs only
        then, scaling by the effective size of that allocation). False
        where the source divides by zero, with the items as far as it got. */
    method RedistributeWeight(size: int, hasAllocation: bool) returns (ok: bool)
      requires Valid()
      modifies this`items
      ensures Valid()
      ensures (ok, items) == WeightsRedistributed(old(items), size, hasAllocation, EffectiveSize(orientation, allocation, |handles|, handleSize))
    {
      var r;
      ok, r := WeightLoops(items, size, hasAllocation, EffectiveSize(orientation, allocation, |handles|, handleSize));
      WeightsOnlyChange(items, size, hasAllocation, EffectiveSize(orientation, allocation, |handles|, handleSize));
      assert DistinctChildren(r) by {
        assert forall j :: 0 <= j < |r| ==> r[j].child == items[j].child;
      }
      items := r;
    }

    /** `_redistribute_size`: take up to `delta0` pixels from the items at
        `shrink`, in order and each down to its minimum size, and give them
        to the item at `e`, all as new weight requests over the effective
        size. The request the enlarge item gets is its old extent plus the
        total taken so far. */
    method RedistributeSize(delta0: nat, e: nat, shrink: seq<nat>) returns (ok: bool)
      requires Valid() && e < |items| && ValidIndices(|items|, shrink) && Located(shrink) && e !in shrink
      modifies this`items
      ensures Valid()
      ensures (ok, items) == Resized(orientation, old(items), e, shrink, delta0, EffectiveSize(orientation, allocation, |handles|, handleSize))
    {
      var size := EffectiveSize(orientation, allocation, |handles|, handleSize);
      var r;
      ok, r := SizeLoop(orientation, items, e, shrink, delta0, size);
      if ok {
        assert DistinctChildren(r) by {
          assert forall j :: 0 <= j < |r| ==> r[j].child == old(items)[j].child;
        }
        items := r;
      }
    }

    /** The allocation loop of `do_size_allocate`, writing the items' and
        the handles' new rectangles. */
    method Allocate(alloc: Rect, size: int)
      requires Valid() && items != []
      modifies this`items, this`handles
      ensures Valid()
      ensures items == LaidOutItems(orientation, alloc, old(items), handleSize, size)
      ensures handles == LaidOutHandles(orientation, alloc, old(items), old(handles), handleSize, size)
    {
      var laid, areas := LayOut(orientation, alloc, items, handles, handleSize, size);
      assert DistinctChildren(laid) by {
        assert forall j :: 0 <= j < |laid| ==> laid[j].child == items[j].child;
      }
      assert FreshIds(areas, nextHandle) by {
        assert forall j :: 0 <= j < |areas| ==> areas[j].id == handles[j].id;
      }
      items, handles := laid, areas;
    }

    /** `do_size_allocate`: with items, settle the weights over the new
        allocation's effective size and lay items and handles out in it;
        then accept the allocation. False where the weights divide by zero:
        the allocation is not accepted and nothing is laid out. */
    method SizeAllocate(alloc: Rect, hasAllocation: bool) returns (ok: bool)
      requires Valid()
      modifies this`items, this`handles, this`allocation
      ensures Valid()
      ensures old(items) == [] ==> ok && items == [] && handles == old(handles) && allocation == alloc
      ensures old(items) != [] ==>
        var size := EffectiveSize(orientation, alloc, |old(handles)|, handleSize);
        var w := WeightsRedistributed(old(items), size, hasAllocation,
                                      EffectiveSize(orientation, old(allocation), |old(handles)|, handleSize));
        ok == w.0 &&
        (!ok ==> items == w.1 && handles == old(handles) && allocation == old(allocation)) &&
        (ok ==> items == LaidOutItems(orientation, alloc, w.1, handleSize, size) &&
                handles == LaidOutHandles(orientation, alloc, w.1, old(handles), handleSize, size) &&
                allocation == alloc)
    {
      if items != [] {
        var size := EffectiveSize(orientation, alloc, |handles|, handleSize);
        ok := RedistributeWeight(size, hasAllocation);
        if !ok {
          return;
        }
        Allocate(alloc, size);
      }
      allocation := alloc;
      ok := true;
    }

    /** The handle-drag part of `do_button_press_event`: a press of button 1
        on the paned's own window over a handle grabs that handle, keeping
        where on it the pointer went down. */
    method ButtonPress(onWindow: bool, button: int, x: int, y: int) returns (handled: bool)
      modifies dragContext
      ensures var h := HandleAt(handles, x, y);
        (handled <==> onWindow && button == 1 && h.Some?) &&
        (handled ==>
           h.value < |handles| &&
           dragContext.Fields() == old(dragContext.Fields()).(
             dragging := true, draggedObject := Some(handles[h.value].id), sourceButton := Some(button),
             offsetX := Some(x - handles[h.value].area.x), offsetY := Some(y - handles[h.value].area.y))) &&
        (!handled ==> dragContext.Fields() == old(dragContext.Fields()))
    {
      if onWindow && button == 1 {
        var h := HandleAtPos(x, y);
        if h.Some? {
          var handle := handles[h.value];
          dragContext.dragging := true;
          dragContext.draggedObject := Some(handle.id);
          dragContext.sourceButton := Some(button);
          dragContext.offsetX := Some(x - handle.area.x);
          dragContext.offsetY := Some(y - handle.area.y);
          return true;
        }
      }
      return false;
    }

    /** `do_button_release_event`: releasing the button that started the
        drag ends it and restores the default cursor. */
    method ButtonRelease(button: int) returns (handled: bool)
      modifies dragContext, this`cursor
      ensures handled <==> old(dragContext.sourceButton) == Some(button)
      ensures handled ==> dragContext.Fields() == Cleared() && cursor == DefaultCursor
      ensures !handled ==> dragContext.Fields() == old(dragContext.Fields()) && cursor == old(cursor)
    {
      if dragContext.sourceButton == Some(button) {
        dragContext.Reset();
        cursor := DefaultCursor;
        return true;
      }
      return false;
    }

    /** The resize a drag of handle `hi` by `delta` pixels asks of
        `_redistribute_size`. */
    method DragHandle(hi: nat, delta: int) returns (ok: bool)
      requires Valid() && hi < |handles|
      modifies this`items
      ensures Valid()
      ensures (ok, items) == Dragged(orientation, old(items), hi, delta, EffectiveSize(orientation, allocation, |handles|, handleSize))
    {
      if delta == 0 {
        ok := true;
      } else {
        var p := DragPlan(hi, delta, |items|);
        ok := RedistributeSize(p.2, p.0, p.1);
      }
    }

    /** `do_motion_notify_event`: over a handle, or while dragging one, the
        cursor becomes the resize cursor; while dragging, the items are
        resized by the drag distance. False where the source raises (no
        drag target, or a zero effective size), before the cursor is set. */
    method MotionNotify(x: int, y: int) returns (ok: bool)
      requires Valid()
      modifies this`items, this`cursor
      ensures Valid()
      ensures !dragContext.Fields().dragging ==>
        ok && items == old(items) &&
        cursor == if HandleAt(handles, x, y).Some? then HandleCursor(orientation) else old(cursor)
      ensures dragContext.Fields().dragging && DragTarget(orientation, handles, dragContext.Fields(), x, y).None? ==>
        !ok && items == old(items) && cursor == old(cursor)
      ensures var t := DragTarget(orientation, handles, dragContext.Fields(), x, y);
        dragContext.Fields().dragging && t.Some? ==>
          t.value.0 + 1 < |old(items)| &&
          (ok, items) == Dragged(orientation, old(items), t.value.0, t.value.1, EffectiveSize(orientation, allocation, |handles|, handleSize)) &&
          cursor == if ok then HandleCursor(orientation) else old(cursor)
    {
      var next := DefaultCursor;
      var over := HandleAtPos(x, y);
      if over.Some? {
        next := HandleCursor(orientation);
      }
      if dragContext.dragging {
        ok := DragTo(x, y);
        return;
      }
      if next != DefaultCursor {
        cursor := next;
      }
      ok := true;
    }

    /** The dragging part of `do_motion_notify_event`: the dragged handle
        moves to the pointer, and the cursor becomes the resize cursor once
        the items are resized. */
    method DragTo(x: int, y: int) returns (ok: bool)
      requires Valid() && dragContext.Fields().dragging
      modifies this`items, this`cursor
      ensures Valid()
      ensures DragTarget(orientation, handles, dragContext.Fields(), x, y).None? ==>
        !ok && items == old(items) && cursor == old(cursor)
      ensures var t := DragTarget(orientation, handles, dragContext.Fields(), x, y);
        t.Some? ==>
          t.value.0 + 1 < |old(items)| &&
          (ok, items) == Dragged(orientation, old(items), t.value.0, t.value.1, EffectiveSize(orientation, allocation, |handles|, handleSize)) &&
          cursor == if ok then HandleCursor(orientation) else old(cursor)
    {
      var target := DragTarget(orientation, handles, dragContext.Fields(), x, y);
      if target.None? {
        return false;
      }
      ok := DragHandle(target.value.0, target.value.1);
      if ok {
        cursor := HandleCursor(orientation);
      }
    }
  }
}
