/**
 * `fair_scale` of etkdocking/dockpaned.py: hand out a total weight in
 * proportion to each entry's request, pinning every entry whose share would
 * fall below its minimum to that minimum and sharing what is left among the
 * others (water filling).
 *
 * Weights are exact reals here, not IEEE doubles.
 */
module FairScale {
  import opened Options
  import opened PyList

  /** A (requested weight, minimum weight) pair. */
  type Pair = (real, real)

  function NoneSkipped(n: nat): (skip: seq<bool>)
    ensures |skip| == n && forall i :: 0 <= i < n ==> !skip[i]
  {
    seq(n, _ => false)
  }

  /** Number of entries not yet pinned to their minimum. */
  function Unpinned(skip: seq<bool>): nat
  {
    if skip == [] then 0 else (if skip[0] then 0 else 1) + Unpinned(skip[1..])
  }

  /** Sum of the requests of the entries not yet pinned. */
  function ReqSum(pairs: seq<Pair>, skip: seq<bool>): real
    requires |skip| == |pairs|
  {
    if pairs == [] then 0.0
    else (if skip[0] then 0.0 else pairs[0].0) + ReqSum(pairs[1..], skip[1..])
  }

  /** Sum of the minimums of the entries already pinned. */
  function PinnedMins(pairs: seq<Pair>, skip: seq<bool>): real
    requires |skip| == |pairs|
  {
    if pairs == [] then 0.0
    else (if skip[0] then pairs[0].1 else 0.0) + PinnedMins(pairs[1..], skip[1..])
  }

  /** Sum of the minimums of the entries not yet pinned. */
  function FreeMins(pairs: seq<Pair>, skip: seq<bool>): real
    requires |skip| == |pairs|
  {
    if pairs == [] then 0.0
    else (if skip[0] then 0.0 else pairs[0].1) + FreeMins(pairs[1..], skip[1..])
  }

  function Mins(pairs: seq<Pair>): seq<real>
  {
    seq(|pairs|, i requires 0 <= i < |pairs| => pairs[i].1)
  }

  /** An unpinned entry's share in a round with factor `f`. */
  function Share(p: Pair, f: real): real
  {
    p.0 * f
  }

  /** The round's factor: what is left to hand out over the requests of the
      unpinned entries, and 0 instead of a division by zero. */
  function Factor(weight: real, pairs: seq<Pair>, skip: seq<bool>): real
    requires |skip| == |pairs|
  {
    var s := ReqSum(pairs, skip);
    if s == 0.0 then 0.0 else weight / s
  }

  /** The first unpinned entry at or after `from` whose share falls below
      its minimum: the entry at which a round stops and restarts. */
  function FirstBelow(pairs: seq<Pair>, skip: seq<bool>, f: real, from: nat): (r: Option<nat>)
    requires |skip| == |pairs| && from <= |pairs|
    ensures r.Some? ==> from <= r.value < |pairs| && !skip[r.value] && Share(pairs[r.value], f) < pairs[r.value].1
    ensures r.None? ==> forall j :: from <= j < |pairs| && !skip[j] ==> Share(pairs[j], f) >= pairs[j].1
    decreases |pairs| - from
  {
    if from == |pairs| then None
    else if !skip[from] && Share(pairs[from], f) < pairs[from].1 then Some(from)
    else FirstBelow(pairs, skip, f, from + 1)
  }

  /** The weight left and the pinned set in the last round, the one that
      runs through every entry without pinning another. */
  function FinalRound(weight: real, pairs: seq<Pair>, skip: seq<bool>): (r: (real, seq<bool>))
    requires |skip| == |pairs|
    ensures |r.1| == |pairs|
    ensures FirstBelow(pairs, r.1, Factor(r.0, pairs, r.1), 0).None?
    decreases Unpinned(skip)
  {
    match FirstBelow(pairs, skip, Factor(weight, pairs, skip), 0)
    case None => (weight, skip)
    case Some(i) =>
      PinOne(skip, i);
      FinalRound(weight - pairs[i].1, pairs, skip[i := true])
  }

  /** Pinned entries get their minimum, the others their share. */
  function Shares(pairs: seq<Pair>, skip: seq<bool>, f: real): (r: seq<real>)
    requires |skip| == |pairs|
    ensures |r| == |pairs|
  {
    seq(|pairs|, i requires 0 <= i < |pairs| => if skip[i] then pairs[i].1 else Share(pairs[i], f))
  }

  /** What `fair_scale(weight, pairs)` returns: one weight per pair, none of
      them below its pair's minimum. */
  function FairScaleOf(weight: real, pairs: seq<Pair>): (r: seq<real>)
    ensures |r| == |pairs|
    ensures forall i :: 0 <= i < |pairs| ==> r[i] >= pairs[i].1
  {
    var fin := FinalRound(weight, pairs, NoneSkipped(|pairs|));
    Shares(pairs, fin.1, Factor(fin.0, pairs, fin.1))
  }

  /** Pinning one more entry leaves one fewer unpinned. */
  lemma {:induction false} PinOne(skip: seq<bool>, i: nat)
    requires i < |skip| && !skip[i]
    ensures Unpinned(skip[i := true]) == Unpinned(skip) - 1
  {
    if i > 0 {
      PinOne(skip[1..], i - 1);
      assert skip[i := true][1..] == skip[1..][i - 1 := true];
    }
  }

  /** One pass of `fair_scale`'s inner `for` loop: give every unpinned entry
      its share, stopping at the first one that falls below its minimum
      (which gets its minimum instead). */
  method ScaleRound(weight: real, wmpairs: seq<Pair>, skip: seq<bool>, n0: seq<real>)
    returns (n: seq<real>, pinned: Option<nat>)
    requires |n0| == |skip| == |wmpairs|
    requires forall j :: 0 <= j < |wmpairs| && skip[j] ==> n0[j] == wmpairs[j].1
    ensures pinned == FirstBelow(wmpairs, skip, Factor(weight, wmpairs, skip), 0)
    ensures |n| == |wmpairs|
    ensures forall j :: 0 <= j < |wmpairs| && skip[j] ==> n[j] == wmpairs[j].1
    ensures pinned.Some? ==> n[pinned.value] == wmpairs[pinned.value].1
    ensures pinned.None? ==> n == Shares(wmpairs, skip, Factor(weight, wmpairs, skip))
  {
    var s := ReqSum(wmpairs, skip);
    var f := if s == 0.0 then 0.0 else weight / s;
    n := n0;
    var i := 0;
    while i < |wmpairs|
      invariant 0 <= i <= |wmpairs| && |n| == |wmpairs|
      invariant forall j :: 0 <= j < i && !skip[j] ==> n[j] == Share(wmpairs[j], f) >= wmpairs[j].1
      invariant forall j :: 0 <= j < |wmpairs| && skip[j] ==> n[j] == wmpairs[j].1
      invariant FirstBelow(wmpairs, skip, f, 0) == FirstBelow(wmpairs, skip, f, i)
    {
      if !skip[i] {
        n := n[i := Share(wmpairs[i], f)];
        if n[i] < wmpairs[i].1 {
          n := n[i := wmpairs[i].1];
          return n, Some(i);
        }
      }
      i := i + 1;
    }
    forall j | 0 <= j < |wmpairs|
      ensures n[j] == Shares(wmpairs, skip, f)[j]
    {
    }
    return n, None;
  }

  /** `fair_scale`: restart the round whenever an entry was pinned, with that
      entry's minimum taken off the weight still to hand out. */
  method FairScale(weight0: real, wmpairs: seq<Pair>) returns (n: seq<real>)
    ensures n == FairScaleOf(weight0, wmpairs)
  {
    n := seq(|wmpairs|, _ => 0.0);
    var skip := NoneSkipped(|wmpairs|);
    var weight := weight0;
    while true
      invariant |n| == |skip| == |wmpairs|
      invariant forall j :: 0 <= j < |wmpairs| && skip[j] ==> n[j] == wmpairs[j].1
      invariant FinalRound(weight, wmpairs, skip) == FinalRound(weight0, wmpairs, NoneSkipped(|wmpairs|))
      decreases Unpinned(skip)
    {
      var pinned;
      n, pinned := ScaleRound(weight, wmpairs, skip, n);
      if pinned.None? {
        return;
      }
      var i := pinned.value;
      PinOne(skip, i);
      weight := weight - wmpairs[i].1;
      skip := skip[i := true];
    }
  }

  // ---------------------------------------------------------------------
  // Sums over the pinned and unpinned entries

  lemma {:induction false} PinnedMinsPin(pairs: seq<Pair>, skip: seq<bool>, i: nat)
    requires |skip| == |pairs| && i < |pairs| && !skip[i]
    ensures PinnedMins(pairs, skip[i := true]) == PinnedMins(pairs, skip) + pairs[i].1
    ensures FreeMins(pairs, skip[i := true]) == FreeMins(pairs, skip) - pairs[i].1
  {
    if i > 0 {
      PinnedMinsPin(pairs[1..], skip[1..], i - 1);
      assert skip[i := true][1..] == skip[1..][i - 1 := true];
    }
  }

  lemma {:induction false} NoneSkippedSums(pairs: seq<Pair>)
    ensures PinnedMins(pairs, NoneSkipped(|pairs|)) == 0.0
    ensures FreeMins(pairs, NoneSkipped(|pairs|)) == Sum(Mins(pairs))
  {
    if pairs != [] {
      NoneSkippedSums(pairs[1..]);
      assert NoneSkipped(|pairs|)[1..] == NoneSkipped(|pairs| - 1);
      assert Mins(pairs)[1..] == Mins(pairs[1..]);
    }
  }

  lemma {:induction false} SharesSum(pairs: seq<Pair>, skip: seq<bool>, f: real)
    requires |skip| == |pairs|
    ensures Sum(Shares(pairs, skip, f)) == PinnedMins(pairs, skip) + f * ReqSum(pairs, skip)
  {
    if pairs != [] {
      SharesSum(pairs[1..], skip[1..], f);
      assert Shares(pairs, skip, f)[1..] == Shares(pairs[1..], skip[1..], f);
      var r := ReqSum(pairs[1..], skip[1..]);
      var a := if skip[0] then 0.0 else pairs[0].0;
      assert f * (a + r) == f * a + f * r;
    }
  }

  /** The final round keeps every pin of the earlier ones, and what it has
      left to hand out is the total minus the minimums pinned on the way. */
  lemma {:induction false} FinalRoundConserves(weight: real, pairs: seq<Pair>, skip: seq<bool>)
    requires |skip| == |pairs|
    ensures var fin := FinalRound(weight, pairs, skip);
      fin.0 + PinnedMins(pairs, fin.1) == weight + PinnedMins(pairs, skip) &&
      forall j :: 0 <= j < |pairs| && skip[j] ==> fin.1[j]
    decreases Unpinned(skip)
  {
    match FirstBelow(pairs, skip, Factor(weight, pairs, skip), 0)
    case None =>
    case Some(i) =>
      PinOne(skip, i);
      PinnedMinsPin(pairs, skip, i);
      FinalRoundConserves(weight - pairs[i].1, pairs, skip[i := true]);
  }

  /** The final round of `fair_scale(weight, pairs)`. */
  function Final(weight: real, pairs: seq<Pair>): (real, seq<bool>)
  {
    FinalRound(weight, pairs, NoneSkipped(|pairs|))
  }

  /** What the last round shares out plus what the rounds pinned is the
      total. */
  lemma FinalConserves(weight: real, pairs: seq<Pair>)
    ensures Final(weight, pairs).0 + PinnedMins(pairs, Final(weight, pairs).1) == weight
  {
    FinalRoundConserves(weight, pairs, NoneSkipped(|pairs|));
    NoneSkippedSums(pairs);
  }

  /** When the last round still shares among unpinned entries whose
      requests do not sum to zero, the weights add up to the total. */
  lemma FairScaleSum(weight: real, pairs: seq<Pair>)
    requires ReqSum(pairs, Final(weight, pairs).1) != 0.0
    ensures Sum(FairScaleOf(weight, pairs)) == weight
  {
    var fin := Final(weight, pairs);
    var f := Factor(fin.0, pairs, fin.1);
    FactorTimes(fin.0, pairs, fin.1);
    ScaledSharesSum(pairs, fin.1, fin.0, f);
    FinalConserves(weight, pairs);
    assert FairScaleOf(weight, pairs) == Shares(pairs, fin.1, f);
  }

  /** Scaling the free entries' requests so they add up to `w` shares out
      exactly `w`. */
  lemma ScaledSharesSum(pairs: seq<Pair>, skip: seq<bool>, w: real, f: real)
    requires |skip| == |pairs| && f * ReqSum(pairs, skip) == w
    ensures Sum(Shares(pairs, skip, f)) == PinnedMins(pairs, skip) + w
  {
    SharesSum(pairs, skip, f);
  }

  lemma FactorTimes(w: real, pairs: seq<Pair>, skip: seq<bool>)
    requires |skip| == |pairs| && ReqSum(pairs, skip) != 0.0
    ensures Factor(w, pairs, skip) * ReqSum(pairs, skip) == w
  {
    DivTimes(w, ReqSum(pairs, skip));
  }

  lemma DivTimes(w: real, s: real)
    requires s != 0.0
    ensures (w / s) * s == w
  {
  }

  lemma {:induction false} ReqSumPin(pairs: seq<Pair>, skip: seq<bool>, i: nat)
    requires |skip| == |pairs| && i < |pairs| && !skip[i]
    ensures ReqSum(pairs, skip) == ReqSum(pairs, skip[i := true]) + pairs[i].0
  {
    if i > 0 {
      ReqSumPin(pairs[1..], skip[1..], i - 1);
      assert skip[i := true][1..] == skip[1..][i - 1 := true];
    }
  }

  lemma {:induction false} NothingFree(pairs: seq<Pair>, skip: seq<bool>)
    requires |skip| == |pairs| && Unpinned(skip) == 0
    ensures ReqSum(pairs, skip) == 0.0 && FreeMins(pairs, skip) == 0.0
  {
    if pairs != [] {
      NothingFree(pairs[1..], skip[1..]);
    }
  }

  lemma {:induction false} UnpinnedWitness(skip: seq<bool>) returns (i: nat)
    requires Unpinned(skip) > 0
    ensures i < |skip| && !skip[i]
  {
    if skip[0] {
      i := UnpinnedWitness(skip[1..]);
      i := i + 1;
    } else {
      i := 0;
    }
  }

  lemma {:induction false} NoneSkippedUnpinned(n: nat)
    ensures Unpinned(NoneSkipped(n)) == n
  {
    if n > 0 {
      assert NoneSkipped(n)[1..] == NoneSkipped(n - 1);
      NoneSkippedUnpinned(n - 1);
    }
  }

  /** With positive requests, some unpinned entry makes the request sum positive. */
  lemma {:induction false} PositiveReqSum(pairs: seq<Pair>, skip: seq<bool>)
    requires |skip| == |pairs| && Unpinned(skip) > 0
    requires forall j :: 0 <= j < |pairs| ==> pairs[j].0 > 0.0
    ensures ReqSum(pairs, skip) > 0.0
  {
    if skip[0] || Unpinned(skip[1..]) > 0 {
      PositiveReqSum(pairs[1..], skip[1..]);
    }
    else {
      NothingFree(pairs[1..], skip[1..]);
    }
  }

  /** With nonnegative requests, a zero request sum means every unpinned
      entry requested nothing. */
  lemma {:induction false} ZeroReqSum(pairs: seq<Pair>, skip: seq<bool>)
    requires |skip| == |pairs| && ReqSum(pairs, skip) == 0.0
    requires forall j :: 0 <= j < |pairs| ==> pairs[j].0 >= 0.0
    ensures forall j :: 0 <= j < |pairs| && !skip[j] ==> pairs[j].0 == 0.0
  {
    if pairs != [] {
      assert ReqSum(pairs[1..], skip[1..]) >= 0.0 by {
        ReqSumNonneg(pairs[1..], skip[1..]);
      }
      ZeroReqSum(pairs[1..], skip[1..]);
      forall j | 1 <= j < |pairs| && !skip[j]
        ensures pairs[j].0 == 0.0
      {
        assert pairs[1..][j - 1] == pairs[j];
      }
    }
  }

  lemma {:induction false} ReqSumNonneg(pairs: seq<Pair>, skip: seq<bool>)
    requires |skip| == |pairs|
    requires forall j :: 0 <= j < |pairs| ==> pairs[j].0 >= 0.0
    ensures ReqSum(pairs, skip) >= 0.0
  {
    if pairs != [] {
      ReqSumNonneg(pairs[1..], skip[1..]);
    }
  }

  lemma {:induction false} SumMono(a: seq<real>, b: seq<real>)
    requires |a| == |b| && forall i :: 0 <= i < |a| ==> a[i] >= b[i]
    ensures Sum(a) >= Sum(b)
  {
    if a != [] {
      SumMono(a[1..], b[1..]);
    }
  }

  /** While the weight still left covers the minimums of the unpinned
      entries and every request is positive, no round pins the last
      unpinned entry. */
  lemma {:induction false} FeasibleKeepsOneFree(weight: real, pairs: seq<Pair>, skip: seq<bool>)
    requires |skip| == |pairs| && Unpinned(skip) > 0
    requires forall j :: 0 <= j < |pairs| ==> pairs[j].0 > 0.0
    requires weight >= FreeMins(pairs, skip)
    ensures Unpinned(FinalRound(weight, pairs, skip).1) > 0
    decreases Unpinned(skip)
  {
    var f := Factor(weight, pairs, skip);
    match FirstBelow(pairs, skip, f, 0)
    case None =>
    case Some(i) =>
      PinOne(skip, i);
      PinnedMinsPin(pairs, skip, i);
      if Unpinned(skip) == 1 {
        ReqSumPin(pairs, skip, i);
        NothingFree(pairs, skip[i := true]);
        assert ReqSum(pairs, skip) == pairs[i].0;
        assert f == weight / pairs[i].0;
        DivTimes(weight, pairs[i].0);
        assert false;
      }
      FeasibleKeepsOneFree(weight - pairs[i].1, pairs, skip[i := true]);
  }

  /** When every request is positive and the total covers all minimums, the
      weights `fair_scale` returns add up to the total. */
  lemma FairScaleFeasible(weight: real, pairs: seq<Pair>)
    requires |pairs| > 0
    requires forall j :: 0 <= j < |pairs| ==> pairs[j].0 > 0.0
    requires weight >= Sum(Mins(pairs))
    ensures Sum(FairScaleOf(weight, pairs)) == weight
  {
    NoneSkippedUnpinned(|pairs|);
    NoneSkippedSums(pairs);
    FeasibleKeepsOneFree(weight, pairs, NoneSkipped(|pairs|));
    PositiveReqSum(pairs, Final(weight, pairs).1);
    FairScaleSum(weight, pairs);
  }

  /** When the total does not cover the minimums (and nothing is negative),
      every entry ends up pinned at its minimum. */
  lemma FairScaleAllPinned(weight: real, pairs: seq<Pair>)
    requires forall j :: 0 <= j < |pairs| ==> pairs[j].0 >= 0.0 && pairs[j].1 >= 0.0
    requires weight < Sum(Mins(pairs))
    ensures FairScaleOf(weight, pairs) == Mins(pairs)
  {
    var r := FairScaleOf(weight, pairs);
    var fin := Final(weight, pairs);
    if ReqSum(pairs, fin.1) != 0.0 {
      FairScaleSum(weight, pairs);
      SumMono(r, Mins(pairs));
      assert false;
    }
    ZeroReqSum(pairs, fin.1);
    assert Factor(fin.0, pairs, fin.1) == 0.0;
    forall j | 0 <= j < |pairs|
      ensures r[j] == Mins(pairs)[j]
    {
    }
  }

  /** The pairs used in `fair_scale`'s own examples. */
  const ExamplePairs: seq<Pair> := [(0.3, 0.2), (0.5, 0.1)]

  /** 0.7 covers both minimums: plain proportional shares. */
  lemma FairScaleExampleProportional()
    ensures FairScaleOf(0.7, ExamplePairs) == [0.2625, 0.4375]
  {
    var none := NoneSkipped(2);
    assert ReqSum(ExamplePairs, none) == 0.8;
    assert Factor(0.7, ExamplePairs, none) == 0.875;
    assert FirstBelow(ExamplePairs, none, 0.875, 0) == None;
  }

  /** 0.5: the first entry's share (0.1875) falls below 0.2, so it is pinned
      and the second gets the remaining 0.3. */
  lemma FairScaleExamplePinFirst()
    ensures FairScaleOf(0.5, ExamplePairs) == [0.2, 0.3]
  {
    var none := NoneSkipped(2);
    assert ReqSum(ExamplePairs, none) == 0.8;
    assert FirstBelow(ExamplePairs, none, 0.625, 0) == Some(0);
    var one := none[0 := true];
    assert ReqSum(ExamplePairs, one) == 0.5;
    assert FirstBelow(ExamplePairs, one, 0.6, 0) == None;
  }

  /** 0.4: the first entry is pinned at 0.2 and the second gets the 0.2 left. */
  lemma FairScaleExampleLow()
    ensures FairScaleOf(0.4, ExamplePairs) == [0.2, 0.2]
  {
    var none := NoneSkipped(2);
    assert ReqSum(ExamplePairs, none) == 0.8;
    assert FirstBelow(ExamplePairs, none, 0.5, 0) == Some(0);
    var one := none[0 := true];
    assert ReqSum(ExamplePairs, one) == 0.5;
    assert FirstBelow(ExamplePairs, one, 0.4, 0) == None;
  }
}
