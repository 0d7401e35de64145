/**
 * The arithmetic of `_redistribute_size` in etkdocking/dockpaned.py: a
 * handle drag of `delta` pixels takes pixels from a list of shrink
 * candidates, each down to its minimum size and in list order, and gives
 * them to one enlarge item. The outcome is written as new weight requests
 * (extent over the paned's effective size).
 *
 * The takes are described candidate by candidate, as the loop meets them:
 * `Remaining` is what the loop still wants before a candidate, `Take` what
 * it takes from it.
 */
module PanedResize {
  import opened Options
  import opened PanedItems

  /** What a shrink candidate can give up: its extent above its minimum size. */
  function Spare(o: Orientation, it: Item): int
  {
    Extent(o, it.alloc) - it.minSize
  }

  function Spares(o: Orientation, items: seq<Item>, shrink: seq<nat>): (r: seq<int>)
    requires ValidIndices(|items|, shrink)
    ensures |r| == |shrink|
    ensures forall k :: 0 <= k < |shrink| ==> r[k] == Spare(o, items[shrink[k]])
  {
    seq(|shrink|, k requires 0 <= k < |shrink| => Spare(o, items[shrink[k]]))
  }

  /** What the loop takes from a candidate sparing `available` pixels
      while `delta` pixels are still wanted. */
  function Adjustment(delta: int, available: int): (adj: int)
    ensures adj <= delta && adj <= available && (adj == delta || adj == available)
  {
    if delta > available then available else delta
  }

  /** What the loop takes from a candidate sparing `s`: nothing unless it
      has pixels to spare. */
  function FirstTake(delta: int, s: int): Option<int>
  {
    if s > 0 then Some(Adjustment(delta, s)) else None
  }

  function Amount(t: Option<int>): int
  {
    if t.Some? then t.value else 0
  }

  /** The take at candidate `k` with `d` pixels still wanted: the loop
      reaches a candidate after the first only while pixels are wanted. */
  function Step(d: int, spare: seq<int>, k: nat): Option<int>
    requires k < |spare|
  {
    if k > 0 && d == 0 then None else FirstTake(d, spare[k])
  }

  /** The pixels still wanted before candidate `i`, for a drag of `delta`:
      never negative and never more than the drag. */
  function Remaining(delta: nat, spare: seq<int>, i: nat): (d: int)
    requires i <= |spare|
    ensures 0 <= d <= delta
  {
    if i == 0 then delta
    else
      var p := Remaining(delta, spare, i - 1);
      p - Amount(Step(p, spare, i - 1))
  }

  /** The pixels the loop takes from candidate `k`: some of what it can
      spare, and no more than is still wanted. */
  function Take(delta: nat, spare: seq<int>, k: nat): (t: Option<int>)
    requires k < |spare|
    ensures t.Some? ==> 0 < spare[k] && 0 <= t.value <= spare[k] && t.value <= Remaining(delta, spare, k)
  {
    Step(Remaining(delta, spare, k), spare, k)
  }

  /** Whether any of the first `i` candidates gave pixels. */
  function Touched(delta: nat, spare: seq<int>, i: nat): bool
    requires i <= |spare|
  {
    i > 0 && (Touched(delta, spare, i - 1) || Take(delta, spare, i - 1).Some?)
  }

  /** Total of the positive spares of the first `i` candidates: everything
      they could give. */
  function PositiveSum(spare: seq<int>, i: nat): (r: int)
    requires i <= |spare|
    ensures r >= 0
  {
    if i == 0 then 0 else PositiveSum(spare, i - 1) + (if spare[i - 1] > 0 then spare[i - 1] else 0)
  }

  /** Over the first `i` candidates the loop takes the drag distance, or
      everything they can spare when that is less. */
  lemma {:induction false} TakenTotal(delta: nat, spare: seq<int>, i: nat)
    requires i <= |spare|
    ensures var total := PositiveSum(spare, i);
      delta - Remaining(delta, spare, i) == if delta < total then delta else total
  {
    if i > 0 {
      TakenTotal(delta, spare, i - 1);
    }
  }

  /** Once nothing more is wanted after some candidate, the loop has
      stopped: no later candidate gives anything. */
  lemma {:induction false} StaysStopped(delta: nat, spare: seq<int>, i: nat, k: nat)
    requires 0 < i <= k <= |spare| && Remaining(delta, spare, i) == 0
    ensures Remaining(delta, spare, k) == 0 && Touched(delta, spare, k) == Touched(delta, spare, i)
    ensures k < |spare| ==> Take(delta, spare, k).None?
    decreases k
  {
    if k > i {
      StaysStopped(delta, spare, i, k - 1);
    }
  }

  /** A candidate that gave pixels makes every longer run touched. */
  lemma {:induction false} TouchedAt(delta: nat, spare: seq<int>, k: nat, i: nat)
    requires k < i <= |spare| && Take(delta, spare, k).Some?
    ensures Touched(delta, spare, i)
    decreases i
  {
    if i > k + 1 {
      TouchedAt(delta, spare, k, i - 1);
    }
  }

  /** A candidate's new request once it gives `a` pixels: its old extent
      less them. */
  function ShrunkItem(o: Orientation, it: Item, a: int, size: int): Item
    requires size != 0
  {
    it.(weightRequest := PerSize(Extent(o, it.alloc) - a, size))
  }

  /** The enlarge item's new request: its old extent plus what was taken. */
  function EnlargeRequest(extent: int, taken: int, size: int): real
    requires size != 0
  {
    PerSize(extent + taken, size)
  }

  /** Item `j` once the loop has passed over the first `i` candidates: the
      enlarge item asks for its old extent plus all they gave (if any gave
      anything), a candidate that gave pixels for its old extent less them,
      and every other item is left alone. */
  function ItemAfter(o: Orientation, items: seq<Item>, e: nat, shrink: seq<nat>, spare: seq<int>, delta: nat, size: int,
                     i: nat, j: nat): Item
    requires e < |items| && j < |items| && |spare| == |shrink| && i <= |shrink| && size != 0
  {
    if j == e then
      (if Touched(delta, spare, i)
       then items[e].(weightRequest := EnlargeRequest(Extent(o, items[e].alloc), delta - Remaining(delta, spare, i), size))
       else items[e])
    else
      match IndexOf(shrink, j)
      case Some(k) =>
        if k < i && Take(delta, spare, k).Some? then ShrunkItem(o, items[j], Take(delta, spare, k).value, size) else items[j]
      case None => items[j]
  }

  /** The items once `_redistribute_size` has run over all the candidates. */
  function Redistributed(o: Orientation, items: seq<Item>, e: nat, shrink: seq<nat>, delta: nat, size: int): (r: seq<Item>)
    requires e < |items| && ValidIndices(|items|, shrink) && size != 0
    ensures |r| == |items|
    ensures forall j :: 0 <= j < |items| ==>
      r[j] == ItemAfter(o, items, e, shrink, Spares(o, items, shrink), delta, size, |shrink|, j)
  {
    var spare := Spares(o, items, shrink);
    seq(|items|, j requires 0 <= j < |items| => ItemAfter(o, items, e, shrink, spare, delta, size, |shrink|, j))
  }

  /** `_redistribute_size` including its failure: the division by the
      paned's effective size fails once a candidate has pixels to give and
      that size is 0, before anything has changed. */
  function Resized(o: Orientation, items: seq<Item>, e: nat, shrink: seq<nat>, delta: nat, size: int): (r: (bool, seq<Item>))
    requires e < |items| && ValidIndices(|items|, shrink)
    ensures |r.1| == |items|
    ensures !r.0 <==> size == 0 && Touched(delta, Spares(o, items, shrink), |shrink|)
    ensures !r.0 ==> r.1 == items
    ensures forall j :: 0 <= j < |items| ==> r.1[j] == items[j].(weightRequest := r.1[j].weightRequest)
  {
    if size == 0 then (!Touched(delta, Spares(o, items, shrink), |shrink|), items)
    else (true, Redistributed(o, items, e, shrink, delta, size))
  }

  /** A candidate that gives pixels asks for its old extent less them and
      never drops below its minimum size; one that gives none is left alone. */
  lemma RedistributeShrinks(o: Orientation, items: seq<Item>, e: nat, shrink: seq<nat>, delta: nat, size: int, k: nat)
    requires e < |items| && ValidIndices(|items|, shrink) && Located(shrink) && e !in shrink && size != 0
    requires k < |shrink|
    ensures var t := Take(delta, Spares(o, items, shrink), k);
      var r := Redistributed(o, items, e, shrink, delta, size);
      var it := items[shrink[k]];
      (t.Some? ==>
         r[shrink[k]] == it.(weightRequest := PerSize(Extent(o, it.alloc) - t.value, size)) &&
         Extent(o, it.alloc) - t.value >= it.minSize) &&
      (t.None? ==> r[shrink[k]] == it)
  {
    assert shrink[k] in shrink;
  }

  /** The enlarge item grows by exactly what the candidates gave, which is
      the drag distance or all they can spare when that is less; when no
      candidate gives anything, nothing changes at all. */
  lemma RedistributeEnlarges(o: Orientation, items: seq<Item>, e: nat, shrink: seq<nat>, delta: nat, size: int)
    requires e < |items| && ValidIndices(|items|, shrink) && e !in shrink && size != 0
    ensures var spare := Spares(o, items, shrink);
      var r := Redistributed(o, items, e, shrink, delta, size);
      var total := PositiveSum(spare, |spare|);
      var taken := delta - Remaining(delta, spare, |spare|);
      (Touched(delta, spare, |spare|) ==>
         r[e] == items[e].(weightRequest := PerSize(Extent(o, items[e].alloc) + taken, size)) &&
         taken == (if delta < total then delta else total)) &&
      (!Touched(delta, spare, |spare|) ==> r == items)
  {
    var spare := Spares(o, items, shrink);
    var r := Redistributed(o, items, e, shrink, delta, size);
    TakenTotal(delta, spare, |spare|);
    if !Touched(delta, spare, |spare|) {
      forall j | 0 <= j < |items|
        ensures r[j] == items[j]
      {
        match IndexOf(shrink, j)
        case None =>
        case Some(k) =>
          if Take(delta, spare, k).Some? {
            TouchedAt(delta, spare, k, |spare|);
          }
      }
    }
  }

  /** Items that are neither the enlarge item nor a candidate keep their state. */
  lemma RedistributeLeavesOthers(o: Orientation, items: seq<Item>, e: nat, shrink: seq<nat>, delta: nat, size: int, j: nat)
    requires e < |items| && ValidIndices(|items|, shrink) && size != 0
    requires j < |items| && j != e && j !in shrink
    ensures Redistributed(o, items, e, shrink, delta, size)[j] == items[j]
  {
  }

  /** The same, failure included: an item that is neither the enlarge
      item nor a candidate keeps its state whether or not the resize
      finishes. */
  lemma ResizedLeavesOthers(o: Orientation, items: seq<Item>, e: nat, shrink: seq<nat>, delta: nat, size: int, j: nat)
    requires e < |items| && ValidIndices(|items|, shrink)
    requires j < |items| && j != e && j !in shrink
    ensures Resized(o, items, e, shrink, delta, size).1[j] == items[j]
  {
    if size != 0 {
      RedistributeLeavesOthers(o, items, e, shrink, delta, size, j);
    }
  }

  /** The items once the loop takes `adj` pixels from candidate `s`, with
      `taken` pixels taken in all: the enlarge item `e` asks for its old
      extent plus `taken`, the candidate for its extent less `adj`. */
  function TakeFrom(o: Orientation, items: seq<Item>, e: nat, r: seq<Item>, s: nat, adj: int, taken: int, size: int): (r': seq<Item>)
    requires e < |r| == |items| && s < |r| && size != 0
    ensures |r'| == |r|
  {
    var r1 := r[e := r[e].(weightRequest := EnlargeRequest(Extent(o, items[e].alloc), taken, size))];
    r1[s := r1[s].(weightRequest := PerSize(Extent(o, r[s].alloc) - adj, size))]
  }

  /** The items the loop has produced before candidate `i`: those the
      takes of the first `i` candidates give. */
  ghost predicate LoopItems(o: Orientation, items: seq<Item>, e: nat, shrink: seq<nat>, spare: seq<int>, delta: nat, size: int,
                            i: nat, r: seq<Item>)
    requires e < |items| && |spare| == |shrink| && i <= |shrink| && size != 0
  {
    |r| == |items| && forall j :: 0 <= j < |r| ==> r[j] == ItemAfter(o, items, e, shrink, spare, delta, size, i, j)
  }

  /** What the loop of `_redistribute_size` holds before candidate `i`:
      `delta` is the distance still to cover, `taken` what was covered, and
      the items are those the first `i` candidates' takes give (untouched
      when the effective size is 0, which no candidate so far had pixels
      for). */
  ghost predicate SizeLoopState(o: Orientation, items: seq<Item>, e: nat, shrink: seq<nat>, spare: seq<int>, delta0: nat,
                                size: int, i: nat, r: seq<Item>, delta: nat, taken: nat)
    requires e < |items| && |spare| == |shrink| && i <= |shrink|
  {
    delta == Remaining(delta0, spare, i) && taken == delta0 - delta &&
    (size == 0 ==> r == items && !Touched(delta0, spare, i)) &&
    (size != 0 ==> LoopItems(o, items, e, shrink, spare, delta0, size, i, r))
  }

  /** Before the first candidate, the items are as they were. */
  lemma ItemsStart(o: Orientation, items: seq<Item>, e: nat, shrink: seq<nat>, spare: seq<int>, delta: nat, size: int)
    requires e < |items| && |spare| == |shrink| && size != 0
    ensures LoopItems(o, items, e, shrink, spare, delta, size, 0, items)
  {
  }

  /** What the loop meets at candidate `i`: a candidate that is not the
      enlarge item, still in its old state, sparing what `Spare` says. */
  lemma CandidateAt(o: Orientation, items: seq<Item>, e: nat, shrink: seq<nat>, spare: seq<int>, delta: nat, size: int,
                    i: nat, r: seq<Item>)
    requires e < |items| && ValidIndices(|items|, shrink) && Located(shrink) && e !in shrink
    requires spare == Spares(o, items, shrink) && i < |shrink|
    requires size == 0 ==> r == items
    requires size != 0 ==> LoopItems(o, items, e, shrink, spare, delta, size, i, r)
    ensures shrink[i] != e && |r| == |items| && shrink[i] < |r|
    ensures spare[i] == Extent(o, r[shrink[i]].alloc) - r[shrink[i]].minSize
  {
    assert shrink[i] in shrink;
  }

  /** A candidate the loop reaches with `delta` pixels still wanted and
      nothing to spare gives nothing and leaves the items alone. */
  lemma SkipNext(o: Orientation, items: seq<Item>, e: nat, shrink: seq<nat>, spare: seq<int>, delta0: nat, size: int,
                 i: nat, r: seq<Item>, delta: int)
    requires e < |items| && |spare| == |shrink| && Located(shrink) && i < |shrink|
    requires size != 0 ==> LoopItems(o, items, e, shrink, spare, delta0, size, i, r)
    requires delta == Remaining(delta0, spare, i) && (i == 0 || delta != 0) && spare[i] <= 0
    ensures Remaining(delta0, spare, i + 1) == delta
    ensures Touched(delta0, spare, i + 1) == Touched(delta0, spare, i)
    ensures size != 0 ==> LoopItems(o, items, e, shrink, spare, delta0, size, i + 1, r)
  {
    assert Take(delta0, spare, i).None?;
  }

  /** A candidate the loop reaches with `delta` pixels still wanted and
      pixels to spare gives `adj` of them: it asks for that much less, and
      the enlarge item for its old extent plus the `taken` pixels so far. */
  lemma TakeNext(o: Orientation, items: seq<Item>, e: nat, shrink: seq<nat>, spare: seq<int>, delta0: nat, size: int,
                 i: nat, r: seq<Item>, delta: int, adj: int, taken: int)
    requires e < |items| && ValidIndices(|items|, shrink) && |spare| == |shrink| && Located(shrink) && e !in shrink
    requires i < |shrink|
    requires size != 0 ==> LoopItems(o, items, e, shrink, spare, delta0, size, i, r)
    requires delta == Remaining(delta0, spare, i) && (i == 0 || delta != 0) && spare[i] > 0
    requires adj == Adjustment(delta, spare[i]) && taken == delta0 - delta + adj
    ensures Remaining(delta0, spare, i + 1) == delta - adj
    ensures Touched(delta0, spare, |spare|)
    ensures size != 0 ==> LoopItems(o, items, e, shrink, spare, delta0, size, i + 1,
                                    TakeFrom(o, items, e, r, shrink[i], adj, taken, size))
  {
    assert Take(delta0, spare, i) == Some(adj);
    TouchedAt(delta0, spare, i, |spare|);
    assert shrink[i] in shrink;
  }

  /** A candidate with nothing to spare keeps the loop state. */
  lemma SkipStep(o: Orientation, items: seq<Item>, e: nat, shrink: seq<nat>, spare: seq<int>, delta0: nat, size: int,
                 i: nat, r: seq<Item>, delta: nat, taken: nat)
    requires e < |items| && |spare| == |shrink| && Located(shrink) && i < |shrink|
    requires SizeLoopState(o, items, e, shrink, spare, delta0, size, i, r, delta, taken)
    requires (i == 0 || delta != 0) && spare[i] <= 0
    ensures SizeLoopState(o, items, e, shrink, spare, delta0, size, i + 1, r, delta, taken)
  {
    SkipNext(o, items, e, shrink, spare, delta0, size, i, r, delta);
  }

  /** With a nonzero effective size, a candidate with pixels to spare gives
      `adj` of them and the loop state moves on with them taken. */
  lemma TakeStep(o: Orientation, items: seq<Item>, e: nat, shrink: seq<nat>, spare: seq<int>, delta0: nat, size: int,
                 i: nat, r: seq<Item>, delta: nat, taken: nat, adj: nat)
    requires e < |items| && ValidIndices(|items|, shrink) && |spare| == |shrink| && Located(shrink) && e !in shrink
    requires i < |shrink| && size != 0
    requires SizeLoopState(o, items, e, shrink, spare, delta0, size, i, r, delta, taken)
    requires (i == 0 || delta != 0) && spare[i] > 0 && adj == Adjustment(delta, spare[i]) && adj <= delta
    ensures SizeLoopState(o, items, e, shrink, spare, delta0, size, i + 1,
                          TakeFrom(o, items, e, r, shrink[i], adj, taken + adj, size), delta - adj, taken + adj)
  {
    TakeNext(o, items, e, shrink, spare, delta0, size, i, r, delta, adj, taken + adj);
  }

  /** Where the loop ends, after the last candidate or once nothing more
      is wanted, no candidate left gives anything. */
  lemma LoopEnd(delta: nat, spare: seq<int>, i: nat)
    requires i <= |spare| && (i == |spare| || (i > 0 && Remaining(delta, spare, i) == 0))
    ensures Touched(delta, spare, |spare|) == Touched(delta, spare, i)
    ensures Remaining(delta, spare, |spare|) == Remaining(delta, spare, i)
    ensures forall k :: i <= k < |spare| ==> Take(delta, spare, k).None?
  {
    if i < |spare| {
      StaysStopped(delta, spare, i, |spare|);
      forall k | i <= k < |spare|
        ensures Take(delta, spare, k).None?
      {
        StaysStopped(delta, spare, i, k);
      }
    }
  }

  /** When the loop ends, the items it has produced are the finished ones. */
  lemma ItemsEnd(o: Orientation, items: seq<Item>, e: nat, shrink: seq<nat>, spare: seq<int>, delta: nat, size: int,
                 i: nat, r: seq<Item>)
    requires e < |items| && ValidIndices(|items|, shrink) && i <= |shrink| && size != 0
    requires spare == Spares(o, items, shrink)
    requires LoopItems(o, items, e, shrink, spare, delta, size, i, r)
    requires i == |shrink| || (i > 0 && Remaining(delta, spare, i) == 0)
    ensures r == Redistributed(o, items, e, shrink, delta, size)
  {
    LoopEnd(delta, spare, i);
  }

  /** Dragging a handle towards the start: the items before it give up
      pixels, nearest first (`reversed(items[:hi + 1])`). */
  function ShrinkBefore(hi: nat): (r: seq<nat>)
    ensures |r| == hi + 1 && forall k :: 0 <= k < |r| ==> r[k] == hi - k
    ensures forall j :: j in r <==> 0 <= j <= hi
    ensures Located(r)
  {
    var r := seq(hi + 1, k requires 0 <= k <= hi => hi - k);
    assert forall j: nat :: j <= hi ==> j in r by {
      forall j: nat | j <= hi
        ensures j in r
      {
        assert r[hi - j] == j;
      }
    }
    assert Distinct(r);
    DistinctLocated(r);
    r
  }

  /** Dragging a handle towards the end: the items after it give up
      pixels, nearest first (`items[hi + 1:]`). */
  function ShrinkAfter(hi: nat, n: nat): (r: seq<nat>)
    requires hi < n
    ensures |r| == n - hi - 1 && forall k :: 0 <= k < |r| ==> r[k] == hi + 1 + k
    ensures forall j :: j in r <==> hi < j < n
    ensures Located(r)
  {
    var r := seq(n - hi - 1, k requires 0 <= k < n - hi - 1 => hi + 1 + k);
    assert forall j: nat :: hi < j < n ==> j in r by {
      forall j: nat | hi < j < n
        ensures j in r
      {
        assert r[j - hi - 1] == j;
      }
    }
    assert Distinct(r);
    DistinctLocated(r);
    r
  }

  /** The pixels taken from the last of the first `i` candidates that gave any. */
  function LastAmount(delta: nat, spare: seq<int>, i: nat): int
    requires i <= |spare|
  {
    if i == 0 then 0
    else if Take(delta, spare, i - 1).Some? then Take(delta, spare, i - 1).value
    else LastAmount(delta, spare, i - 1)
  }

  /** The request `_redistribute_size` as written leaves the enlarge item
      with: its old extent plus only the LAST adjustment made, not the total. */
  function EnlargeRequestAsWritten(extent: int, delta: nat, spare: seq<int>, size: int): real
    requires size != 0
  {
    PerSize(extent + LastAmount(delta, spare, |spare|), size)
  }

  /** Dragging 50 pixels with two candidates sparing 20 and 50: the code as
      written takes 20 + 30 pixels but adds only 30 to the enlarge item, so
      20 pixels of requested extent vanish; the corrected request adds all 50. */
  lemma RedistributeSizeAsWrittenLosesPixels()
    ensures var spare := [20, 50];
      Take(50, spare, 0) == Some(20) && Take(50, spare, 1) == Some(30) &&
      50 - Remaining(50, spare, 2) == 50 &&
      EnlargeRequestAsWritten(100, 50, spare, 300) == 130.0 / 300.0 &&
      EnlargeRequest(100, 50 - Remaining(50, spare, 2), 300) == 150.0 / 300.0
  {
    var spare := [20, 50];
    assert Remaining(50, spare, 1) == 30;
    assert Remaining(50, spare, 2) == 0;
  }
}
