/**
 * The weight arithmetic of `_redistribute_weight` in
 * etkdocking/dockpaned.py. Items that asked for a new weight (a truthy
 * `weight_request`) and the others are handled by two `fair_scale` rounds:
 * first the others share what the requests leave, then the requesting
 * items share what the others took. Every item is kept at or above its
 * minimum size's share of the paned, scaled down when the minimums do not
 * fit.
 */
module PanedWeights {
  import opened Options
  import opened PyList
  import opened FairScale
  import opened PanedItems

  /** A weight times a size factor. */
  function Scaled(w: real, f: real): real
  {
    w * f
  }

  /** The first loop: an item that has a weight, no request and no
      `expand` setting asks to keep its pixel extent, by requesting its
      weight scaled by old over new effective size. */
  function ScaleFixed(items: seq<Item>, f: real): (r: seq<Item>)
    ensures |r| == |items|
  {
    seq(|items|, j requires 0 <= j < |items| =>
      var it := items[j];
      if it.weight != 0.0 && !it.expand && it.weightRequest == 0.0 then it.(weightRequest := Scaled(it.weight, f))
      else it)
  }

  /** The indices, in order, of the items whose request is truthy
      (`requesting`) or falsy (not `requesting`): the source's
      `requested_items` and `other_items`. */
  function Picked(items: seq<Item>, requesting: bool): (r: seq<nat>)
    ensures ValidIndices(|items|, r)
  {
    if items == [] then []
    else
      var n := |items| - 1;
      var prev := Picked(items[..n], requesting);
      if (items[n].weightRequest != 0.0) == requesting then prev + [n] else prev
  }

  /** Exactly the items whose request's truth is `requesting` are picked. */
  lemma {:induction false} PickedMembers(items: seq<Item>, requesting: bool)
    ensures var r := Picked(items, requesting);
      (forall k :: 0 <= k < |r| ==> (items[r[k]].weightRequest != 0.0) == requesting) &&
      (forall j :: 0 <= j < |items| && (items[j].weightRequest != 0.0) == requesting ==> j in r)
  {
    if items != [] {
      var n := |items| - 1;
      var prev := Picked(items[..n], requesting);
      PickedMembers(items[..n], requesting);
      var r := Picked(items, requesting);
      forall k | 0 <= k < |r|
        ensures (items[r[k]].weightRequest != 0.0) == requesting
      {
        if k < |prev| {
          assert r[k] == prev[k] && items[..n][prev[k]] == items[prev[k]];
        }
      }
      forall j | 0 <= j < |items| && (items[j].weightRequest != 0.0) == requesting
        ensures j in r
      {
        if j < n {
          assert items[..n][j] == items[j];
          assert j in prev;
        }
      }
    }
  }

  /** No index is picked twice. */
  lemma {:induction false} PickedLocated(items: seq<Item>, requesting: bool)
    ensures Located(Picked(items, requesting))
  {
    if items != [] {
      var n := |items| - 1;
      var prev := Picked(items[..n], requesting);
      PickedLocated(items[..n], requesting);
      if (items[n].weightRequest != 0.0) == requesting {
        var r := prev + [n];
        assert r[..|prev|] == prev;
        forall k | 0 <= k < |r|
          ensures IndexOf(r, r[k]) == Some(k)
        {
          if k < |prev| {
            assert IndexOf(prev, prev[k]) == Some(k);
          }
        }
      }
    }
  }

  /** The picked indices keep the items' order. */
  lemma {:induction false} PickedIncreasing(items: seq<Item>, requesting: bool)
    ensures Increasing(Picked(items, requesting))
  {
    if items != [] {
      PickedIncreasing(items[..|items| - 1], requesting);
    }
  }

  function Weights(items: seq<Item>): (r: seq<real>)
    ensures |r| == |items|
  {
    seq(|items|, j requires 0 <= j < |items| => items[j].weight)
  }

  function Requests(items: seq<Item>): (r: seq<real>)
    ensures |r| == |items|
  {
    seq(|items|, j requires 0 <= j < |items| => items[j].weightRequest)
  }

  function MinSizes(items: seq<Item>): (r: seq<int>)
    ensures |r| == |items|
  {
    seq(|items|, j requires 0 <= j < |items| => items[j].minSize)
  }

  /** The entries of `ws` at the indices `idx`, in order. */
  function Pick(ws: seq<real>, idx: seq<nat>): (r: seq<real>)
    requires ValidIndices(|ws|, idx)
    ensures |r| == |idx|
  {
    seq(|idx|, k requires 0 <= k < |idx| => ws[idx[k]])
  }

  /** The scale applied to every minimum: 1, or size over the sum of the
      minimums when they do not fit. */
  function SizeFactor(minTotal: int, size: int): real
    requires !(minTotal > size && minTotal == 0)
  {
    if minTotal > size then size as real / minTotal as real else 1.0
  }

  /** An item's minimum weight: its scaled minimum size over the paned's size. */
  function MinShare(sf: real, minSize: int, size: int): real
    requires size != 0
  {
    sf * (minSize as real / size as real)
  }

  /** The (weight, minimum weight) pairs handed to `fair_scale` for the
      items at `idx`: their request when `useRequest`, else their weight. */
  function FloorPairs(items: seq<Item>, idx: seq<nat>, useRequest: bool, sf: real, size: int): (r: seq<Pair>)
    requires ValidIndices(|items|, idx) && size != 0
    ensures |r| == |idx|
  {
    seq(|idx|, k requires 0 <= k < |idx| =>
      (if useRequest then items[idx[k]].weightRequest else items[idx[k]].weight,
       MinShare(sf, items[idx[k]].minSize, size)))
  }

  /** Items with the weights `ws` written at `idx`, and their requests
      cleared when `clear`. */
  function SetWeights(items: seq<Item>, idx: seq<nat>, ws: seq<real>, clear: bool): (r: seq<Item>)
    requires ValidIndices(|items|, idx) && |ws| == |idx|
    ensures |r| == |items|
    decreases |idx|
  {
    if idx == [] then items
    else
      var n := |idx| - 1;
      var prev := SetWeights(items, idx[..n], ws[..n], clear);
      prev[idx[n] := prev[idx[n]].(weight := ws[n], weightRequest := if clear then 0.0 else prev[idx[n]].weightRequest)]
  }

  /** What `SetWeights` does to item `j`. */
  lemma {:induction false} SetWeightsAt(items: seq<Item>, idx: seq<nat>, ws: seq<real>, clear: bool, j: nat)
    requires ValidIndices(|items|, idx) && |ws| == |idx| && Located(idx) && j < |items|
    ensures SetWeights(items, idx, ws, clear)[j] ==
      match IndexOf(idx, j)
      case Some(k) => items[j].(weight := ws[k], weightRequest := if clear then 0.0 else items[j].weightRequest)
      case None => items[j]
    decreases |idx|
  {
    if idx != [] {
      var n := |idx| - 1;
      LocatedPrefix(idx);
      SetWeightsAt(items, idx[..n], ws[..n], clear, j);
    }
  }

  /** The items once the first loop has run; it runs only when the paned
      has an allocation, and then `size` is not 0 (else it divides by zero). */
  function Prepared(items: seq<Item>, size: int, hasAllocation: bool, effective: int): (r: seq<Item>)
    requires !(hasAllocation && size == 0)
    ensures |r| == |items|
  {
    if hasAllocation then ScaleFixed(items, PerSize(effective, size)) else items
  }

  /** The first `fair_scale` call: the other items share what the requests
      leave of 1.0. */
  function OthersRound(items: seq<Item>, sf: real, size: int): (r: (real, seq<Pair>))
    requires size != 0
  {
    (1.0 - Sum(Pick(Requests(items), Picked(items, true))),
     FloorPairs(items, Picked(items, false), false, sf, size))
  }

  /** The second call: the requesting items share what the others now hold
      less than 1.0. */
  function RequestsRound(items: seq<Item>, sf: real, size: int): (r: (real, seq<Pair>))
    requires size != 0
  {
    (1.0 - Sum(Pick(Weights(items), Picked(items, false))),
     FloorPairs(items, Picked(items, true), true, sf, size))
  }

  /** The items once the others have their new weights. */
  function OthersScaled(items: seq<Item>, sf: real, size: int): (r: seq<Item>)
    requires size != 0
    ensures |r| == |items|
  {
    var round := OthersRound(items, sf, size);
    SetWeights(items, Picked(items, false), FairScaleOf(round.0, round.1), false)
  }

  /** The items once the requesting items have their new weights, and
      their requests are cleared. */
  function RequestsScaled(items: seq<Item>, sf: real, size: int): (r: seq<Item>)
    requires size != 0
    ensures |r| == |items|
  {
    var round := RequestsRound(items, sf, size);
    SetWeights(items, Picked(items, true), FairScaleOf(round.0, round.1), true)
  }

  /** The division by zero the source runs into: with an allocation and a
      zero size (the first loop), with minimums adding up to 0 above a
      negative size (the size factor), or with items and a zero size (the
      minimum weights). */
  predicate DividesByZero(items: seq<Item>, size: int, hasAllocation: bool)
  {
    var minTotal := IntSum(MinSizes(items));
    (hasAllocation && size == 0) || (minTotal > size && minTotal == 0) || (size == 0 && items != [])
  }

  /** `_redistribute_weight` on `items`: whether it finishes without a
      division by zero, and the items it leaves (on a failure, the items as
      the first loop left them). */
  function WeightsRedistributed(items: seq<Item>, size: int, hasAllocation: bool, effective: int): (r: (bool, seq<Item>))
    ensures |r.1| == |items|
    ensures r.0 <==> !DividesByZero(items, size, hasAllocation)
  {
    if hasAllocation && size == 0 then (false, items)
    else
      var prepared := Prepared(items, size, hasAllocation, effective);
      MinSizesKept(items, size, hasAllocation, effective);
      var minTotal := IntSum(MinSizes(prepared));
      if minTotal > size && minTotal == 0 then (false, prepared)
      else if size == 0 && items != [] then (false, prepared)
      else if items == [] then (true, prepared)
      else
        var sf := SizeFactor(minTotal, size);
        (true, RequestsScaled(OthersScaled(prepared, sf, size), sf, size))
  }

  /** `_redistribute_weight` changes nothing but weights and requests,
      whether or not it finishes. */
  lemma WeightsOnlyChange(items: seq<Item>, size: int, hasAllocation: bool, effective: int)
    ensures var r := WeightsRedistributed(items, size, hasAllocation, effective).1;
      forall j :: 0 <= j < |r| ==> r[j] == items[j].(weight := r[j].weight, weightRequest := r[j].weightRequest)
  {
    var r := WeightsRedistributed(items, size, hasAllocation, effective).1;
    forall j | 0 <= j < |r|
      ensures r[j] == items[j].(weight := r[j].weight, weightRequest := r[j].weightRequest)
    {
      if !DividesByZero(items, size, hasAllocation) {
        WeightsRedistributedAt(items, size, hasAllocation, effective, j);
      }
    }
  }

  /** The first loop touches only requests. */
  lemma MinSizesKept(items: seq<Item>, size: int, hasAllocation: bool, effective: int)
    requires !(hasAllocation && size == 0)
    ensures MinSizes(Prepared(items, size, hasAllocation, effective)) == MinSizes(items)
  {
  }

  /** The split into requesting and other items depends only on requests. */
  lemma {:induction false} PickedKept(a: seq<Item>, b: seq<Item>, requesting: bool)
    requires |a| == |b| && forall j :: 0 <= j < |a| ==> a[j].weightRequest == b[j].weightRequest
    ensures Picked(a, requesting) == Picked(b, requesting)
  {
    if a != [] {
      var n := |a| - 1;
      PickedKept(a[..n], b[..n], requesting);
    }
  }

  /** The first round: an item without a request takes the weight
      `fair_scale` gave it, a requesting item is left as it was. */
  lemma OthersScaledAt(items: seq<Item>, sf: real, size: int, j: nat)
    requires size != 0 && j < |items|
    ensures var oth := Picked(items, false);
      var r1 := OthersRound(items, sf, size);
      var s := OthersScaled(items, sf, size);
      (items[j].weightRequest != 0.0 ==> s[j] == items[j]) &&
      (items[j].weightRequest == 0.0 ==>
        IndexOf(oth, j).Some? && s[j] == items[j].(weight := FairScaleOf(r1.0, r1.1)[IndexOf(oth, j).value]))
  {
    var oth := Picked(items, false);
    var r1 := OthersRound(items, sf, size);
    PickedLocated(items, false);
    PickedMembers(items, false);
    SetWeightsAt(items, oth, FairScaleOf(r1.0, r1.1), false, j);
    if items[j].weightRequest == 0.0 {
      assert j in oth;
    }
  }

  /** The second round: a requesting item takes the weight `fair_scale`
      gave it and loses its request, the others are left as they were. */
  lemma RequestsScaledAt(s: seq<Item>, sf: real, size: int, j: nat)
    requires size != 0 && j < |s|
    ensures var req := Picked(s, true);
      var r2 := RequestsRound(s, sf, size);
      var r := RequestsScaled(s, sf, size);
      (s[j].weightRequest == 0.0 ==> r[j] == s[j]) &&
      (s[j].weightRequest != 0.0 ==>
        IndexOf(req, j).Some? &&
        r[j] == s[j].(weight := FairScaleOf(r2.0, r2.1)[IndexOf(req, j).value], weightRequest := 0.0))
  {
    var req := Picked(s, true);
    var r2 := RequestsRound(s, sf, size);
    PickedLocated(s, true);
    PickedMembers(s, true);
    SetWeightsAt(s, req, FairScaleOf(r2.0, r2.1), true, j);
    if s[j].weightRequest != 0.0 {
      assert j in req;
    }
  }

  /** The first round changes no request, so both rounds split the items
      the same way. */
  lemma OthersScaledSplit(items: seq<Item>, sf: real, size: int)
    requires size != 0
    ensures var s := OthersScaled(items, sf, size);
      Picked(s, true) == Picked(items, true) && Picked(s, false) == Picked(items, false)
  {
    var s := OthersScaled(items, sf, size);
    forall i | 0 <= i < |items|
      ensures s[i].weightRequest == items[i].weightRequest
    {
      OthersScaledAt(items, sf, size, i);
    }
    PickedKept(s, items, true);
    PickedKept(s, items, false);
  }

  /** The two rounds clear every request, change only weights, and leave
      every weight at or above the item's minimum share. */
  lemma RoundsFloor(items: seq<Item>, sf: real, size: int, j: nat)
    requires size != 0 && j < |items|
    ensures var r := RequestsScaled(OthersScaled(items, sf, size), sf, size);
      r[j] == items[j].(weight := r[j].weight, weightRequest := 0.0) &&
      r[j].weight >= MinShare(sf, items[j].minSize, size)
  {
    var s := OthersScaled(items, sf, size);
    OthersScaledAt(items, sf, size, j);
    RequestsScaledAt(s, sf, size, j);
    if items[j].weightRequest == 0.0 {
      var k := IndexOf(Picked(items, false), j).value;
      assert OthersRound(items, sf, size).1[k].1 == MinShare(sf, items[j].minSize, size);
    } else {
      var k := IndexOf(Picked(s, true), j).value;
      assert RequestsRound(s, sf, size).1[k].1 == MinShare(sf, s[j].minSize, size);
    }
  }

  /** After `_redistribute_weight` every request is cleared, nothing but
      the weights changed, and every weight is at least the item's
      (scaled) minimum size over the paned's size. */
  lemma WeightsRedistributedAt(items: seq<Item>, size: int, hasAllocation: bool, effective: int, j: nat)
    requires j < |items| && !DividesByZero(items, size, hasAllocation)
    ensures var r := WeightsRedistributed(items, size, hasAllocation, effective).1;
      var sf := SizeFactor(IntSum(MinSizes(items)), size);
      r[j] == items[j].(weight := r[j].weight, weightRequest := 0.0) &&
      r[j].weight >= MinShare(sf, items[j].minSize, size)
  {
    var p := Prepared(items, size, hasAllocation, effective);
    assert p[j] == items[j].(weightRequest := p[j].weightRequest);
    MinSizesKept(items, size, hasAllocation, effective);
    var sf := SizeFactor(IntSum(MinSizes(p)), size);
    assert WeightsRedistributed(items, size, hasAllocation, effective).1 == RequestsScaled(OthersScaled(p, sf, size), sf, size);
    RoundsFloor(p, sf, size, j);
  }

  lemma PickedExtend(part: seq<Item>, ws: seq<real>, requesting: bool)
    requires |ws| == |part| && part != []
    ensures var n := |part| - 1;
      Sum(Pick(ws, Picked(part, requesting))) ==
        Sum(Pick(ws[..n], Picked(part[..n], requesting))) +
        (if (part[n].weightRequest != 0.0) == requesting then ws[n] else 0.0)
  {
    var n := |part| - 1;
    var prev := Picked(part[..n], requesting);
    if (part[n].weightRequest != 0.0) == requesting {
      assert Pick(ws, prev + [n]) == Pick(ws[..n], prev) + [ws[n]];
      SumAppend(Pick(ws[..n], prev), [ws[n]]);
    } else {
      assert Pick(ws, prev) == Pick(ws[..n], prev);
    }
  }

  /** Any per-item quantity sums to its total over the requesting items
      plus its total over the others. */
  lemma {:induction false} SumSplit(part: seq<Item>, ws: seq<real>)
    requires |ws| == |part|
    ensures Sum(ws) == Sum(Pick(ws, Picked(part, true))) + Sum(Pick(ws, Picked(part, false)))
  {
    if part != [] {
      var n := |part| - 1;
      var t := Sum(Pick(ws[..n], Picked(part[..n], true)));
      var f := Sum(Pick(ws[..n], Picked(part[..n], false)));
      assert Sum(ws[..n]) == t + f by {
        SumSplit(part[..n], ws[..n]);
      }
      assert Sum(ws) == Sum(ws[..n]) + ws[n] by {
        assert ws == ws[..n] + [ws[n]];
        SumAppend(ws[..n], [ws[n]]);
      }
      PickedExtend(part, ws, true);
      PickedExtend(part, ws, false);
    }
  }

  /** The requesting items have positive requests and what the others
      leave them covers their minimum weights. */
  predicate RequestsFitAt(items: seq<Item>, sf: real, size: int)
    requires size != 0
  {
    var round := RequestsRound(OthersScaled(items, sf, size), sf, size);
    |round.1| > 0 && (forall k :: 0 <= k < |round.1| ==> round.1[k].0 > 0.0) && round.0 >= Sum(Mins(round.1))
  }

  /** No item requests anything, every weight is positive, and the
      minimum weights add up to at most 1. */
  predicate OthersFitAt(items: seq<Item>, sf: real, size: int)
    requires size != 0
  {
    var round := OthersRound(items, sf, size);
    Picked(items, true) == [] && (forall k :: 0 <= k < |round.1| ==> round.1[k].0 > 0.0) && round.0 >= Sum(Mins(round.1))
  }

  /** The first round writes the weights `fair_scale` returned at the
      other items, and the second keeps them. */
  lemma OthersPick(items: seq<Item>, sf: real, size: int)
    requires size != 0 && items != []
    ensures var oth := Picked(items, false);
      var r1 := OthersRound(items, sf, size);
      var s := OthersScaled(items, sf, size);
      var r := RequestsScaled(s, sf, size);
      Picked(s, false) == oth &&
      Pick(Weights(r), oth) == FairScaleOf(r1.0, r1.1) &&
      Pick(Weights(s), oth) == FairScaleOf(r1.0, r1.1)
  {
    var oth := Picked(items, false);
    var r1 := OthersRound(items, sf, size);
    var w1 := FairScaleOf(r1.0, r1.1);
    var s := OthersScaled(items, sf, size);
    var r := RequestsScaled(s, sf, size);
    OthersScaledSplit(items, sf, size);
    PickedLocated(items, false);
    PickedMembers(items, false);
    forall k | 0 <= k < |oth|
      ensures Weights(r)[oth[k]] == w1[k] && Weights(s)[oth[k]] == w1[k]
    {
      var j := oth[k];
      OthersScaledAt(items, sf, size, j);
      RequestsScaledAt(s, sf, size, j);
      assert IndexOf(oth, j).value == k;
    }
  }

  /** The second round writes the weights `fair_scale` returned at the
      requesting items. */
  lemma RequestsPick(items: seq<Item>, sf: real, size: int)
    requires size != 0 && items != []
    ensures var s := OthersScaled(items, sf, size);
      var req := Picked(s, true);
      var r2 := RequestsRound(s, sf, size);
      var r := RequestsScaled(s, sf, size);
      req == Picked(items, true) &&
      Pick(Weights(r), req) == FairScaleOf(r2.0, r2.1)
  {
    var s := OthersScaled(items, sf, size);
    var req := Picked(s, true);
    var r2 := RequestsRound(s, sf, size);
    var w2 := FairScaleOf(r2.0, r2.1);
    var r := RequestsScaled(s, sf, size);
    OthersScaledSplit(items, sf, size);
    PickedLocated(s, true);
    PickedMembers(s, true);
    forall k | 0 <= k < |req|
      ensures Weights(r)[req[k]] == w2[k]
    {
      RequestsScaledAt(s, sf, size, req[k]);
      assert IndexOf(req, req[k]).value == k;
    }
  }

  /** The weights the two rounds leave add up to 1 when either round fits. */
  lemma RoundsSumToOne(items: seq<Item>, sf: real, size: int)
    requires size != 0 && items != []
    requires RequestsFitAt(items, sf, size) || OthersFitAt(items, sf, size)
    ensures Sum(Weights(RequestsScaled(OthersScaled(items, sf, size), sf, size))) == 1.0
  {
    var r1 := OthersRound(items, sf, size);
    var s := OthersScaled(items, sf, size);
    var r2 := RequestsRound(s, sf, size);
    var r := RequestsScaled(s, sf, size);
    OthersPick(items, sf, size);
    RequestsPick(items, sf, size);
    SumSplit(s, Weights(r));
    if RequestsFitAt(items, sf, size) {
      FairScaleFeasible(r2.0, r2.1);
    } else {
      assert Pick(Requests(items), Picked(items, true)) == [];
      assert FairScaleOf(r2.0, r2.1) == [];
      assert |r1.1| > 0;
      FairScaleFeasible(r1.0, r1.1);
    }
  }

  /** The weights `_redistribute_weight` leaves add up to 1 whenever the
      requesting items fit, or nothing is requested and the others fit
      (both judged on the items as the first loop leaves them). */
  lemma WeightsSumToOne(items: seq<Item>, size: int, hasAllocation: bool, effective: int)
    requires !DividesByZero(items, size, hasAllocation) && items != []
    requires var p := Prepared(items, size, hasAllocation, effective);
      var sf := SizeFactor(IntSum(MinSizes(items)), size);
      RequestsFitAt(p, sf, size) || OthersFitAt(p, sf, size)
    ensures Sum(Weights(WeightsRedistributed(items, size, hasAllocation, effective).1)) == 1.0
  {
    var p := Prepared(items, size, hasAllocation, effective);
    MinSizesKept(items, size, hasAllocation, effective);
    var sf := SizeFactor(IntSum(MinSizes(p)), size);
    assert WeightsRedistributed(items, size, hasAllocation, effective).1 == RequestsScaled(OthersScaled(p, sf, size), sf, size);
    RoundsSumToOne(p, sf, size);
  }
}
