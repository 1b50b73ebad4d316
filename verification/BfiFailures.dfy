/** Inputs for which two promises of the block frequency analysis fail. */
module BfiFailures {
  import opened Wrappers

  import opened BfiProbability
  import opened BfiCombining
  import opened BfiNormalize
  import opened BfiDistribution
  import opened BfiMass
  import opened BfiDistribute
  import opened BfiHeaderMass
  import opened BfiSeeding
  import opened BfiLoopMass
  import opened BfiFrequencyInfo

  // ----- the normalized total is asserted to fit in 32 bits -----

  const FULL_EDGES: seq<Weight> := [Weight(Local, 0, UINT64_MAX), Weight(Local, 1, UINT64_MAX)]

  lemma FullWeightScales()
    ensures ScaledAmount(UINT64_MAX, OVERFLOW_SHIFT) == TWO31
  {
    ScaledAfterOverflow(UINT64_MAX);
    LargeScales(UINT64_MAX, 0);
  }

  lemma FullEdgesAre()
    ensures InRange(FULL_EDGES) && TypesAgree(FULL_EDGES) && Distinct(FULL_EDGES) && !SingleTarget(FULL_EDGES)
    ensures Sum(FULL_EDGES) == 2 * UINT64_MAX && AmountsOf(FULL_EDGES) == [UINT64_MAX, UINT64_MAX]
  {
    assert FULL_EDGES[..1] == [Weight(Local, 0, UINT64_MAX)];
    assert FULL_EDGES[..1][..0] == [];
    assert Sum(FULL_EDGES[..1]) == UINT64_MAX;
    assert FULL_EDGES[1].target != FULL_EDGES[0].target;
  }

  /** Two weights of 2^64-1 round up to one more than fits, which is 0 in 32 bits. */
  lemma FullEdgesDoNotFit()
    ensures NormalizedTotal(FULL_EDGES) == TWO32 && !Fits(FULL_EDGES)
  {
    FullEdgesAre();
    FullWeightScales();
    DistinctCombines(FULL_EDGES);
    ScaledIsNormalizedTotal(FULL_EDGES, FULL_EDGES);
    var cs := [UINT64_MAX, UINT64_MAX];
    assert cs[..1] == [UINT64_MAX] && cs[..1][..0] == [];
    assert ScaledTotal(cs[..1], OVERFLOW_SHIFT) == TWO31;
  }

  method NormalizeFullEdges() returns (dist: Distribution)
    ensures fresh(dist) && dist.total > UINT32_MAX && dist.total % TWO32 == 0
  {
    FullEdgesAre();
    FullEdgesDoNotFit();
    dist := AddAll(FULL_EDGES);
    dist.Normalize();
  }

  // ----- adjusting is said to distribute the full mass among the headers -----

  const TWO_HEADERS: Shape := Shape([Some(0), Some(0)], [LoopShape(None, false, 2, [0, 1])])

  /** Mass flows back to the first header only. */
  const ONE_SIDED: Masses := Masses([0, 0], [0], [[7, 0]], [[]])

  lemma OneSidedIs()
    ensures ONE_SIDED.For(TWO_HEADERS) && TWO_HEADERS.Headers(0) == [0, 1] && DistinctSlots(TWO_HEADERS, [0, 1])
    ensures BackWeights([0, 1], [7, 0]) == [Weight(Local, 0, 7)]
    ensures Total([7, 0]) == 7
  {
    assert [0, 1][..1] == [0] && [7, 0][..1] == [7];
    assert [0][..0] == [] && [7][..0] == [];
    assert BackWeights([0], [7]) == [Weight(Local, 0, 7)];
    assert Total([7]) == 7;
  }

  /** With one unit on each header, the second keeps its unit beside the full mass of the first. */
  lemma IdleHeaderIsExtra()
    ensures var m := ONE_SIDED.(node := [1, 1]);
            && m.For(TWO_HEADERS) && !IdleHeadersEmpty(TWO_HEADERS, m, [0, 1], [7, 0])
            && Takeable([Weight(Local, 0, 1)]) && InMassRange([FULL])
            && Portions([Weight(Local, 0, 1)], FULL) == [FULL]
            && HeaderMasses(TWO_HEADERS, AssignAll(TWO_HEADERS, m, [Weight(Local, 0, 1)], [FULL]), [0, 1]) == [FULL, 1]
  {
    var m, w := ONE_SIDED.(node := [1, 1]), Weight(Local, 0, 1);
    OneSidedIs();
    assert Sum([w][..0]) == 0;
    OnePortionIsAll(w, FULL);
    assert TWO_HEADERS.SlotOf(0) == OfNode(0) && TWO_HEADERS.SlotOf(1) == OfNode(1);
    AssignOnlyOne(TWO_HEADERS, m, w, FULL);
    assert [1, 1][0 := FULL] == [FULL, 1];
  }

  lemma AssignOnlyOne(s: Shape, m: Masses, w: Weight, mass: nat)
    requires m.For(s) && w.target < |s.loopOf| && mass <= UINT64_MAX
    ensures TargetNodes(s, [w]) && InMassRange([mass])
    ensures AssignAll(s, m, [w], [mass]) == m.Set(s.SlotOf(w.target), mass)
  {
    assert [w][1..] == [] && [mass][1..] == [];
  }

  lemma OnePortionIsAll(w: Weight, mass: nat)
    requires Takeable([w]) && mass <= UINT64_MAX
    ensures Portions([w], mass) == [mass]
  {
    PortionsAddUp([w], mass);
    TotalFront(Portions([w], mass));
  }

  /** The second header keeps its share, and the headers together hold more than the full mass. */
  method AdjustOneSided() returns (b: BlockFrequencyInfo)
    ensures fresh(b) && b.Valid() && b.shape == TWO_HEADERS
    ensures Total(HeaderMasses(TWO_HEADERS, b.masses, [0, 1])) > FULL
  {
    OneSidedIs();
    b := new BlockFrequencyInfo(TWO_HEADERS, ONE_SIDED);
    b.SeedHeaders(0);
    SeedsKeepBack(TWO_HEADERS, ONE_SIDED, b.masses, [0, 1]);
    BackWeightsFit([0, 1], [7, 0]);
    var _, _ := b.AdjustLoopHeaderMass(0);
  }
}
