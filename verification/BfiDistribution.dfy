/** A distribution of weights over the targets of a block's edges. */
module BfiDistribution {
  import opened BfiProbability
  import opened BfiCombining
  import opened BfiNormalize

  ghost predicate SingleTarget(ws: seq<Weight>) {
    ws != [] && forall i :: 0 <= i < |ws| ==> ws[i].target == ws[0].target
  }

  /** What a normalized list says of the edges `ws`: one entry per target, each with the saturated
      sum of its edges scaled down by `shift` bits, to the nearest number but not to zero. */
  ghost predicate Normalized(out: seq<Weight>, ws: seq<Weight>, shift: nat) {
    && CoversTargets(out, ws)
    && forall j :: 0 <= j < |out| ==>
         && out[j].amount == ScaledAmount(Min(SumFor(ws, out[j].target), UINT64_MAX), shift)
         && forall i :: 0 <= i < |ws| && ws[i].target == out[j].target ==> ws[i].kind == out[j].kind
  }

  /** The total that normalizing the edges `ws` leads to. */
  ghost function NormalizedTotal(ws: seq<Weight>): nat {
    if ws == [] then 0
    else if SingleTarget(ws) then 1
    else ScaledTotal(AmountsOf(Combined(ws)), ShiftFor(Sum(ws) >= TWO64, Sum(ws) % TWO64))
  }

  /** The normalized total fits in 32 bits, as the source asserts. */
  ghost predicate Fits(ws: seq<Weight>) {
    NormalizedTotal(ws) <= UINT32_MAX
  }

  /** What holds of every normalized list: a positive 32-bit entry for each target, and their total. */
  ghost predicate NormalForm(out: seq<Weight>, total: nat, ws: seq<Weight>) {
    && total == Sum(out) == NormalizedTotal(ws)
    && (forall j :: 0 <= j < |out| ==> 0 < out[j].amount <= UINT32_MAX)
    && CoversTargets(out, ws) && |out| == |Combined(ws)|
  }

  // ----- the precision that normalizing keeps -----

  /** The power of two that sums of edges are divided by: none up to 32 bits, then the one that
      leaves 31 bits of the sum of all edges, and 2^33 if that sum does not fit in 64 bits. */
  ghost predicate Divisor(sum: nat, d: nat) {
    && (sum <= 0xFFFF_FFFF ==> d == 1)
    && (0xFFFF_FFFF < sum <= 0xFFFF_FFFF_FFFF_FFFF ==> 0x4000_0000 * d <= sum < 0x8000_0000 * d)
    && (sum > 0xFFFF_FFFF_FFFF_FFFF ==> d == 0x2_0000_0000)
  }

  /** Each entry is the saturated sum of its edges divided by `d`. */
  ghost predicate DividedBy(out: seq<Weight>, ws: seq<Weight>, d: nat)
    requires d > 0
  {
    forall j :: 0 <= j < |out| ==> EntryDivided(out[j], ws, d)
  }

  ghost predicate EntryDivided(w: Weight, ws: seq<Weight>, d: nat)
    requires d > 0
  {
    w.amount == Nearest(Min(SumFor(ws, w.target), 0xFFFF_FFFF_FFFF_FFFF), d)
  }

  ghost predicate Rescaled(out: seq<Weight>, ws: seq<Weight>) {
    exists k :: Divisor(Sum(ws), Pow2(k)) && DividedBy(out, ws, Pow2(k))
  }

  /** What normalizing makes of the amounts of any edges. */
  ghost predicate Precise(out: seq<Weight>, ws: seq<Weight>) {
    && (ws == [] ==> out == [])
    && (SingleTarget(ws) ==> out == [ws[0].(amount := 1)])
    && (ws != [] && !SingleTarget(ws) ==> Rescaled(out, ws))
  }

  /** A total of more than 32 bits comes down to at least 31, but for half a unit for each weight. */
  ghost predicate Keeps31Bits(out: seq<Weight>, total: nat, ws: seq<Weight>) {
    !SingleTarget(ws) && 0xFFFF_FFFF < Sum(ws) <= 0xFFFF_FFFF_FFFF_FFFF ==> 2 * total + |out| >= 0x8000_0000
  }

  lemma ShiftDivides(sum: nat, shift: nat)
    requires sum < 2 * TWO64 && shift == ShiftFor(sum >= TWO64, sum % TWO64)
    ensures Divisor(sum, Pow2(shift))
  {
    Pow2Is64();
    if UINT32_MAX < sum < TWO64 {
      ShiftKeeps31(sum);
    }
  }

  lemma EntriesDivided(out: seq<Weight>, ws: seq<Weight>, shift: nat, d: nat)
    requires d == Pow2(shift)
    requires forall j :: 0 <= j < |out| ==>
               out[j].amount == ScaledAmount(Min(SumFor(ws, out[j].target), UINT64_MAX), shift)
    ensures DividedBy(out, ws, d)
  {
    forall j | 0 <= j < |out|
      ensures EntryDivided(out[j], ws, d)
    {
      var _ := ScaledIsDivided(Min(SumFor(ws, out[j].target), UINT64_MAX), shift);
    }
  }

  lemma NormalizedIsRescaled(out: seq<Weight>, ws: seq<Weight>, shift: nat)
    requires Sum(ws) < 2 * TWO64 && shift == ShiftFor(Sum(ws) >= TWO64, Sum(ws) % TWO64)
    requires Normalized(out, ws, shift)
    ensures Rescaled(out, ws)
  {
    ShiftDivides(Sum(ws), shift);
    EntriesDivided(out, ws, shift, Pow2(shift));
  }

  lemma PrecisionKept(out: seq<Weight>, total: nat, ws: seq<Weight>)
    requires InRange(ws) && TypesAgree(ws) && ws != [] && !SingleTarget(ws) && NormalForm(out, total, ws)
    requires UINT32_MAX < Sum(ws) < TWO64
    ensures 2 * total + |out| >= TWO31
  {
    assert Sum(ws) % TWO64 == Sum(ws);
    CombinedTotal(ws);
    ScaledTotalPrecise(AmountsOf(Combined(ws)), Sum(ws));
  }

  lemma CombinedTotal(ws: seq<Weight>)
    requires InRange(ws) && TypesAgree(ws) && Sum(ws) < TWO64
    ensures Total(AmountsOf(Combined(ws))) == Sum(ws)
  {
    CombinedIsCombination(ws);
    CombinedAmounts(Combined(ws), ws);
    SumIsTotal(Combined(ws));
  }

  class Distribution {
    var weights: seq<Weight>
    var total: nat
    var didOverflow: bool

    /** Nothing but additions so far: the total is their sum in 64 bits, and the sum has wrapped
        around at most once, as recorded. */
    ghost predicate Added()
      reads this
    {
      && InRange(weights) && Sum(weights) < 2 * TWO64
      && total == Sum(weights) % TWO64 && (didOverflow <==> Sum(weights) >= TWO64)
    }

    constructor ()
      ensures Added() && weights == []
    {
      weights, total, didOverflow := [], 0, false;
    }

    method Add(node: Node, amount: nat, kind: DistType)
      requires Added() && 0 < amount <= UINT64_MAX
      requires !(didOverflow && total + amount >= TWO64)
      modifies this
      ensures Added() && weights == old(weights) + [Weight(kind, node, amount)]
    {
      var newTotal := (total + amount) % TWO64;
      var isOverflow := newTotal < total;
      didOverflow := didOverflow || isOverflow;
      total := newTotal;
      SumAppend(weights, Weight(kind, node, amount));
      WrapsAtMostOnce(Sum(weights), amount, old(total), newTotal);
      weights := weights + [Weight(kind, node, amount)];
    }

    /** Combine edges to the same target, and scale the amounts down. Each then fits in 32 bits;
        their total does for up to 2^31 targets, after an overflow provided that the sum of the
        combined amounts is below the threshold. */
    method Normalize()
      requires Added() && TypesAgree(weights)
      modifies this
      ensures old(weights) == [] ==> weights == [] && total == old(total)
      ensures SingleTarget(old(weights)) ==> weights == [old(weights)[0].(amount := 1)] && total == 1
      ensures old(weights) != [] && !SingleTarget(old(weights)) ==>
                Normalized(weights, old(weights), ShiftFor(old(didOverflow), old(total)))
      ensures NormalForm(weights, total, old(weights)) && Precise(weights, old(weights))
      ensures Keeps31Bits(weights, total, old(weights))
      ensures !old(didOverflow) && |weights| <= TWO31 ==> total <= UINT32_MAX
      ensures old(didOverflow) && |weights| <= TWO31 && Sum(Combined(old(weights))) < Threshold(|weights|) ==>
                total <= UINT32_MAX
    {
      ghost var ws := weights;
      NormalizeEdges();
      NormalFormFits(weights, total, ws);
      NormalFormPrecise(weights, total, ws);
    }

    method NormalizeEdges()
      requires Added() && TypesAgree(weights)
      modifies this
      ensures old(weights) == [] ==> weights == [] && total == old(total)
      ensures SingleTarget(old(weights)) ==> weights == [old(weights)[0].(amount := 1)] && total == 1
      ensures old(weights) != [] && !SingleTarget(old(weights)) ==>
                Normalized(weights, old(weights), ShiftFor(old(didOverflow), old(total)))
      ensures NormalForm(weights, total, old(weights))
    {
      if weights == [] {
        return;
      }
      ghost var ws := weights;
      if |weights| > 1 {
        weights := CombineWeights(weights);
      } else {
        DistinctCombines(weights);
      }
      if |weights| == 1 {
        OneNormalized(weights, ws);
        total := 1;
        weights := [weights[0].(amount := 1)];
        return;
      }
      SeveralTargets(weights, ws);
      NormalizeSeveral(ws);
    }

    /** Scale the combined weights of several targets. */
    method NormalizeSeveral(ghost ws: seq<Weight>)
      requires Combination(weights, ws) && InRange(ws) && TypesAgree(ws) && |weights| > 1
      requires ws != [] && !SingleTarget(ws)
      requires Sum(ws) < 2 * TWO64 && total == Sum(ws) % TWO64 && (didOverflow <==> Sum(ws) >= TWO64)
      modifies this`weights, this`total
      ensures Normalized(weights, ws, ShiftFor(didOverflow, old(total)))
      ensures NormalForm(weights, total, ws)
    {
      var shift := ShiftFor(didOverflow, total);
      ghost var combined := weights;
      if shift == 0 {
        Unscaled(combined, ws, didOverflow, total);
        return;
      }
      ScaleWeights(shift);
      Scaled(weights, combined, ws, shift);
    }

    /** Scale every weight down, and total them afresh. */
    method ScaleWeights(shift: nat)
      modifies this`weights, this`total
      ensures |weights| == |old(weights)| && total == Sum(weights)
      ensures forall j :: 0 <= j < |weights| ==>
                weights[j] == old(weights)[j].(amount := ScaledAmount(old(weights)[j].amount, shift))
    {
      ghost var combined := weights;
      total := 0;
      for i := 0 to |weights|
        invariant |weights| == |combined|
        invariant forall j :: 0 <= j < i ==>
                    weights[j] == combined[j].(amount := ScaledAmount(combined[j].amount, shift))
        invariant forall j :: i <= j < |weights| ==> weights[j] == combined[j]
        invariant total == Sum(weights[..i])
      {
        var scaled := ScaledAmount(weights[i].amount, shift);
        ghost var before := weights[..i];
        weights := weights[i := weights[i].(amount := scaled)];
        total := total + scaled;
        assert weights[..i] == before && weights[..i + 1] == before + [weights[i]];
        SumAppend(before, weights[i]);
      }
      assert weights[..|weights|] == weights;
    }
  }

  /** A sum that has wrapped around is below the number added last. */
  lemma WrapsAtMostOnce(sum: nat, amount: nat, total: nat, newTotal: nat)
    requires sum < 2 * TWO64 && 0 < amount <= UINT64_MAX && !(sum >= TWO64 && total + amount >= TWO64)
    requires total == sum % TWO64 && newTotal == (total + amount) % TWO64
    ensures sum + amount < 2 * TWO64 && newTotal == (sum + amount) % TWO64
    ensures sum >= TWO64 || newTotal < total <==> sum + amount >= TWO64
  {
  }

  // ----- the cases of Normalize -----

  lemma OneTarget(out: seq<Weight>, ws: seq<Weight>)
    requires Combination(out, ws) && |out| == 1 && ws != []
    ensures SingleTarget(ws) && out[0].target == ws[0].target && out[0].kind == ws[0].kind
    ensures CoversTargets([out[0].(amount := 1)], ws)
  {
    forall i | 0 <= i < |ws|
      ensures ws[i].target == out[0].target
    {
      assert HasTarget(ws, ws[i].target);
    }
    var one := [out[0].(amount := 1)];
    forall t
      ensures HasTarget(one, t) <==> HasTarget(ws, t)
    {
      assert HasTarget(out, t) <==> HasTarget(ws, t);
      assert HasTarget(out, t) ==> one[0].target == t;
    }
  }

  /** A single target gets the weight 1. */
  lemma OneNormalized(out: seq<Weight>, ws: seq<Weight>)
    requires Combination(out, ws) && TypesAgree(ws) && |out| == 1 && ws != []
    ensures SingleTarget(ws) && [out[0].(amount := 1)] == [ws[0].(amount := 1)]
    ensures NormalForm([ws[0].(amount := 1)], 1, ws)
  {
    OneTarget(out, ws);
    SameLength(out, ws);
    assert Sum([ws[0].(amount := 1)][..0]) == 0;
  }

  lemma SeveralTargets(out: seq<Weight>, ws: seq<Weight>)
    requires Combination(out, ws) && |out| != 1 && ws != []
    ensures !SingleTarget(ws) && |out| > 1
  {
    assert HasTarget(ws, ws[0].target);
    assert |out| > 1 ==> out[0].target != out[1].target;
    if SingleTarget(ws) {
      var i :| 0 <= i < |out| && out[i].target == ws[0].target;
      forall j | 0 <= j < |out|
        ensures out[j].target == ws[0].target
      {
        assert HasTarget(out, out[j].target);
      }
      assert false;
    }
  }

  lemma {:induction false} SumForAtMostSum(ws: seq<Weight>, t: Node)
    ensures SumFor(ws, t) <= Sum(ws)
  {
    if ws != [] {
      SumForAtMostSum(ws[..|ws| - 1], t);
    }
  }

  /** The combined amounts are positive and fit in 64 bits; unless a sum overflowed, they add up to
      the same total. */
  lemma CombinedAmounts(out: seq<Weight>, ws: seq<Weight>)
    requires Combination(out, ws) && InRange(ws)
    ensures InRange(out) && Sum(out) <= Sum(ws)
    ensures Sum(ws) < TWO64 ==> Sum(out) == Sum(ws)
  {
    forall j | 0 <= j < |out|
      ensures 0 < out[j].amount <= UINT64_MAX && out[j].amount <= SumFor(ws, out[j].target)
      ensures Sum(ws) < TWO64 ==> out[j].amount == SumFor(ws, out[j].target)
    {
      assert HasTarget(out, out[j].target);
      SumForPositive(ws, out[j].target);
      SumForAtMostSum(ws, out[j].target);
    }
    SumOfCombined(out, ws);
  }

  lemma SameLength(out: seq<Weight>, ws: seq<Weight>)
    requires Combination(out, ws) && TypesAgree(ws)
    ensures |out| == |Combined(ws)|
  {
    CombinedIsCombination(ws);
    CombinationUnique(out, Combined(ws), ws);
    assert |multiset(out)| == |out|;
  }

  /** Either way of combining leads to the same total. */
  lemma ScaledIsNormalizedTotal(combined: seq<Weight>, ws: seq<Weight>)
    requires Combination(combined, ws) && TypesAgree(ws) && ws != [] && !SingleTarget(ws)
    ensures ScaledTotal(AmountsOf(combined), ShiftFor(Sum(ws) >= TWO64, Sum(ws) % TWO64)) == NormalizedTotal(ws)
  {
    CombinedIsCombination(ws);
    CombinationUnique(combined, Combined(ws), ws);
    ScaledTotalPermuted(combined, Combined(ws), ShiftFor(Sum(ws) >= TWO64, Sum(ws) % TWO64));
  }

  lemma SeveralCombined(ws: seq<Weight>)
    requires TypesAgree(ws) && ws != [] && !SingleTarget(ws)
    ensures Combination(Combined(ws), ws) && |Combined(ws)| > 1
  {
    CombinedIsCombination(ws);
    if |Combined(ws)| == 1 {
      OneTarget(Combined(ws), ws);
    } else {
      SeveralTargets(Combined(ws), ws);
    }
  }

  lemma CombinedFits(combined: seq<Weight>, ws: seq<Weight>)
    requires Combination(combined, ws) && InRange(ws) && Sum(ws) < 2 * TWO64 && 2 <= |combined| <= TWO31
    requires Sum(ws) >= TWO64 ==> Sum(combined) < Threshold(|combined|)
    ensures ScaledTotal(AmountsOf(combined), ShiftFor(Sum(ws) >= TWO64, Sum(ws) % TWO64)) <= UINT32_MAX
  {
    CombinedAmounts(combined, ws);
    SumIsTotal(combined);
    AmountsFit(AmountsOf(combined), Sum(ws));
  }

  /** Up to 2^31 targets fit, after an overflow if the combined sum is below the threshold. */
  lemma BelowThresholdIsFit(ws: seq<Weight>)
    requires InRange(ws) && TypesAgree(ws) && Sum(ws) < 2 * TWO64 && |Combined(ws)| <= TWO31
    requires Sum(ws) >= TWO64 ==> Sum(Combined(ws)) < Threshold(|Combined(ws)|)
    ensures Fits(ws)
  {
    if ws != [] && !SingleTarget(ws) {
      SeveralCombined(ws);
      CombinedFits(Combined(ws), ws);
    }
  }

  lemma ShiftIsZero(didOverflow: bool, total: nat)
    requires total < TWO64 && ShiftFor(didOverflow, total) == 0
    ensures !didOverflow && total <= UINT32_MAX
  {
    if !didOverflow && total > UINT32_MAX {
      ShiftBrings31(total);
    }
  }

  lemma UnscaledTotals(out: seq<Weight>, ws: seq<Weight>)
    requires Combination(out, ws) && InRange(ws) && Sum(ws) <= UINT32_MAX
    ensures Normalized(out, ws, 0) && Sum(out) == Sum(ws) == ScaledTotal(AmountsOf(out), 0)
    ensures forall j :: 0 <= j < |out| ==> 0 < out[j].amount <= UINT32_MAX
  {
    CombinedAmounts(out, ws);
    SumIsTotal(out);
    UnscaledTotal(AmountsOf(out));
    forall j | 0 <= j < |out|
      ensures out[j].amount <= UINT32_MAX
    {
      SumForAtMostSum(ws, out[j].target);
    }
  }

  /** Without a shift the combined weights are normal already. */
  lemma Unscaled(out: seq<Weight>, ws: seq<Weight>, didOverflow: bool, total: nat)
    requires Combination(out, ws) && InRange(ws) && TypesAgree(ws) && ws != [] && !SingleTarget(ws)
    requires Sum(ws) < 2 * TWO64 && total == Sum(ws) % TWO64 && (didOverflow <==> Sum(ws) >= TWO64)
    requires ShiftFor(didOverflow, total) == 0
    ensures Normalized(out, ws, 0) && NormalForm(out, total, ws)
  {
    ShiftIsZero(didOverflow, total);
    assert Sum(ws) == total;
    UnscaledTotals(out, ws);
    SameLength(out, ws);
    NormalizedTotalUnscaled(out, ws);
  }

  lemma NormalizedTotalUnscaled(out: seq<Weight>, ws: seq<Weight>)
    requires Combination(out, ws) && TypesAgree(ws) && ws != [] && !SingleTarget(ws) && Sum(ws) <= UINT32_MAX
    ensures NormalizedTotal(ws) == ScaledTotal(AmountsOf(out), 0)
  {
    assert Sum(ws) % TWO64 == Sum(ws);
    ScaledIsNormalizedTotal(out, ws);
  }

  /** Each scaled weight fits in 32 bits. */
  lemma ScaledWeightsFit(out: seq<Weight>, combined: seq<Weight>, ws: seq<Weight>)
    requires Combination(combined, ws) && InRange(ws) && |out| == |combined|
    requires var shift := ShiftFor(Sum(ws) >= TWO64, Sum(ws) % TWO64);
             forall j :: 0 <= j < |out| ==> out[j].amount == ScaledAmount(combined[j].amount, shift)
    ensures forall j :: 0 <= j < |out| ==> 0 < out[j].amount <= UINT32_MAX
  {
    CombinedAmounts(combined, ws);
    forall j | 0 <= j < |out|
      ensures 0 < out[j].amount <= UINT32_MAX
    {
      SumForAtMostSum(ws, combined[j].target);
      ScaledWeightFits(combined[j].amount, Sum(ws) >= TWO64, Sum(ws) % TWO64);
    }
  }

  lemma {:induction false} SumOfScaled(out: seq<Weight>, combined: seq<Weight>, shift: nat)
    requires |out| == |combined|
    requires forall j :: 0 <= j < |out| ==> out[j].amount == ScaledAmount(combined[j].amount, shift)
    ensures Sum(out) == ScaledTotal(AmountsOf(combined), shift)
    decreases |out|
  {
    if out != [] {
      SumOfScaled(out[..|out| - 1], combined[..|out| - 1], shift);
      assert AmountsOf(combined)[..|out| - 1] == AmountsOf(combined[..|out| - 1]);
    }
  }

  lemma RescaledCovers(out: seq<Weight>, combined: seq<Weight>, ws: seq<Weight>)
    requires CoversTargets(combined, ws) && |out| == |combined|
    requires forall j :: 0 <= j < |out| ==> out[j].target == combined[j].target
    ensures CoversTargets(out, ws)
  {
    forall t
      ensures HasTarget(out, t) <==> HasTarget(ws, t)
    {
      assert HasTarget(combined, t) <==> HasTarget(ws, t);
      if HasTarget(combined, t) {
        var i :| 0 <= i < |combined| && combined[i].target == t;
        assert out[i].target == t;
      }
      if HasTarget(out, t) {
        var i :| 0 <= i < |out| && out[i].target == t;
        assert combined[i].target == t;
      }
    }
  }

  lemma ScaledDown(out: seq<Weight>, combined: seq<Weight>, ws: seq<Weight>, shift: nat)
    requires Combination(combined, ws) && |out| == |combined|
    requires forall j :: 0 <= j < |out| ==>
               out[j] == combined[j].(amount := ScaledAmount(combined[j].amount, shift))
    ensures Normalized(out, ws, shift)
  {
    RescaledCovers(out, combined, ws);
    forall j | 0 <= j < |out|
      ensures out[j].amount == ScaledAmount(Min(SumFor(ws, out[j].target), UINT64_MAX), shift)
      ensures forall i :: 0 <= i < |ws| && ws[i].target == out[j].target ==> ws[i].kind == out[j].kind
    {
      assert StandsFor(combined[j], ws);
    }
  }

  /** With a shift, scaling makes them normal. */
  lemma Scaled(out: seq<Weight>, combined: seq<Weight>, ws: seq<Weight>, shift: nat)
    requires Combination(combined, ws) && InRange(ws) && TypesAgree(ws) && ws != [] && !SingleTarget(ws)
    requires shift == ShiftFor(Sum(ws) >= TWO64, Sum(ws) % TWO64) && |out| == |combined|
    requires forall j :: 0 <= j < |out| ==>
               out[j] == combined[j].(amount := ScaledAmount(combined[j].amount, shift))
    ensures Normalized(out, ws, shift) && NormalForm(out, Sum(out), ws)
  {
    SameLength(combined, ws);
    ScaledIsNormalizedTotal(combined, ws);
    ScaledDown(out, combined, ws, shift);
    ScaledWeightsFit(out, combined, ws);
    SumOfScaled(out, combined, shift);
  }

  lemma NormalFormPrecise(out: seq<Weight>, total: nat, ws: seq<Weight>)
    requires InRange(ws) && TypesAgree(ws) && Sum(ws) < 2 * TWO64 && NormalForm(out, total, ws)
    requires ws == [] ==> out == []
    requires SingleTarget(ws) ==> out == [ws[0].(amount := 1)]
    requires ws != [] && !SingleTarget(ws) ==> Normalized(out, ws, ShiftFor(Sum(ws) >= TWO64, Sum(ws) % TWO64))
    ensures Precise(out, ws) && Keeps31Bits(out, total, ws)
  {
    if ws != [] && !SingleTarget(ws) {
      NormalizedIsRescaled(out, ws, ShiftFor(Sum(ws) >= TWO64, Sum(ws) % TWO64));
      if UINT32_MAX < Sum(ws) < TWO64 {
        PrecisionKept(out, total, ws);
      }
    }
  }

  lemma NormalFormFits(out: seq<Weight>, total: nat, ws: seq<Weight>)
    requires InRange(ws) && TypesAgree(ws) && Sum(ws) < 2 * TWO64 && NormalForm(out, total, ws)
    ensures Sum(ws) < TWO64 && |out| <= TWO31 ==> total <= UINT32_MAX
    ensures |out| <= TWO31 && Sum(Combined(ws)) < Threshold(|out|) ==> total <= UINT32_MAX
  {
    if |out| <= TWO31 && (Sum(ws) < TWO64 || Sum(Combined(ws)) < Threshold(|out|)) {
      BelowThresholdIsFit(ws);
    }
  }
}
