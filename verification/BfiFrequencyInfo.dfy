/** The masses of a function's blocks and loops, and the operations that move them. */
module BfiFrequencyInfo {
  import opened Wrappers

  import opened BfiProbability
  import opened BfiCombining
  import opened BfiNormalize
  import opened BfiDistribution
  import opened BfiMass
  import opened BfiDistribute
  import opened BfiDelivery
  import opened BfiHeaderMass
  import opened BfiSeeding
  import opened BfiHandOut
  import opened BfiLoopMass

  class BlockFrequencyInfo {
    const shape: Shape
    var masses: Masses

    ghost predicate Valid()
      reads this
    {
      masses.For(shape)
    }

    constructor (shape: Shape, masses: Masses)
      requires masses.For(shape)
      ensures Valid() && this.shape == shape && this.masses == masses
    {
      this.shape, this.masses := shape, masses;
    }

    /** Credit a portion to where the edge `w` leads. */
    method Credit(outer: Option<nat>, w: Weight, taken: nat)
      requires Valid() && Depositable(shape, outer, w) && taken <= UINT64_MAX
      modifies this
      ensures Valid() && masses == Deposit(shape, old(masses), outer, w, taken)
      ensures Delivered(shape, old(masses), masses, outer, [w], [taken])
    {
      DepositDelivers(shape, masses, outer, w, taken);
      if w.kind == Local {
        var slot := shape.SlotOf(w.target);
        MassArithmetic(masses.Get(slot), taken);
        masses := masses.Set(slot, AddMass(masses.Get(slot), taken));
        return;
      }
      var l := outer.value;
      if w.kind == Backedge {
        var i := GetHeaderIndex(shape, l, w.target);
        var row: seq<nat> := masses.back[l];
        MassArithmetic(row[i], taken);
        masses := masses.(back := masses.back[l := row[i := AddMass(row[i], taken)]]);
        return;
      }
      masses := masses.(exits := masses.exits[l := masses.exits[l] + [(w.target, taken)]]);
    }

    /** Take the portion of each weight and credit it to where the weight's edge leads. */
    method DepositEach(outer: Option<nat>, ws: seq<Weight>, d: DitheringDistributer, ghost goal: Masses)
      requires ToDeposit(shape, masses, outer, ws, d.remWeight, d.remMass, goal)
      modifies this, d
      ensures masses == goal && d.remWeight == 0
      ensures ws != [] ==> d.remMass == 0
    {
      var i := 0;
      assert ws[0..] == ws;
      while i < |ws|
        invariant 0 <= i <= |ws|
        invariant ToDeposit(shape, masses, outer, ws[i..], d.remWeight, d.remMass, goal)
        invariant 0 < i == |ws| ==> d.remMass == 0
      {
        DepositNext(outer, ws, i, d, goal);
        i := i + 1;
      }
    }

    method DepositNext(outer: Option<nat>, ws: seq<Weight>, i: nat, d: DitheringDistributer, ghost goal: Masses)
      requires i < |ws| && ToDeposit(shape, masses, outer, ws[i..], d.remWeight, d.remMass, goal)
      modifies this, d
      ensures ToDeposit(shape, masses, outer, ws[i + 1..], d.remWeight, d.remMass, goal)
      ensures i == |ws| - 1 ==> d.remMass == 0
    {
      ghost var portion, next, weight, mass := DepositOne(shape, masses, outer, ws, i, d.remWeight, d.remMass, goal);
      var taken := d.TakeMass(ws[i].amount);
      Credit(outer, ws[i], taken);
      assert taken == portion && masses == next && d.remWeight == weight && d.remMass == mass;
    }

    /** Take the portion of each weight and make it the mass of the weight's target. */
    method AssignEach(ws: seq<Weight>, d: DitheringDistributer, ghost goal: Masses)
      requires ToAssign(shape, masses, ws, d.remWeight, d.remMass, goal)
      modifies this, d
      ensures masses == goal && d.remWeight == 0
      ensures ws != [] ==> d.remMass == 0
    {
      var i := 0;
      assert ws[0..] == ws;
      while i < |ws|
        invariant 0 <= i <= |ws|
        invariant ToAssign(shape, masses, ws[i..], d.remWeight, d.remMass, goal)
        invariant 0 < i == |ws| ==> d.remMass == 0
      {
        AssignNext(ws, i, d, goal);
        i := i + 1;
      }
    }

    method AssignNext(ws: seq<Weight>, i: nat, d: DitheringDistributer, ghost goal: Masses)
      requires i < |ws| && ToAssign(shape, masses, ws[i..], d.remWeight, d.remMass, goal)
      modifies this, d
      ensures ToAssign(shape, masses, ws[i + 1..], d.remWeight, d.remMass, goal)
      ensures i == |ws| - 1 ==> d.remMass == 0
    {
      ghost var portion, next, weight, mass := AssignOne(shape, masses, ws, i, d.remWeight, d.remMass, goal);
      var taken := d.TakeMass(ws[i].amount);
      masses := masses.Set(shape.SlotOf(ws[i].target), taken);
      assert taken == portion && masses == next && d.remWeight == weight && d.remMass == mass;
    }

    /** Distribute the mass of a node over its outgoing edges: when there are any, the portions
        add up to all of it, and as much is added to all masses taken together, exactly when no
        single mass saturates. */
    method DistributeMass(source: Node, outer: Option<nat>, dist: Distribution) returns (ghost ps: seq<nat>)
      requires Valid() && source < |shape.loopOf|
      requires dist.Added() && TypesAgree(dist.weights) && Fits(dist.weights)
      requires AllDepositable(shape, outer, dist.weights)
      modifies this, dist
      ensures Valid() && Takeable(dist.weights) && AllDepositable(shape, outer, dist.weights)
      ensures ps == Portions(dist.weights, old(masses).Get(shape.SlotOf(source))) && InMassRange(ps)
      ensures masses == DepositAll(shape, old(masses), outer, dist.weights, ps)
      ensures Distributed(shape, old(masses), masses, outer, source, old(dist.weights), dist.weights, ps)
      ensures NoneLower(shape, old(masses), masses)
      ensures old(dist.weights) != [] ==>
                && Total(ps) == old(masses).Get(shape.SlotOf(source))
                && (TotalMass(masses) == TotalMass(old(masses)) + old(masses).Get(shape.SlotOf(source))
                    <==> AllHaveRoom(shape, old(masses), outer, dist.weights, ps))
    {
      var mass := masses.Get(shape.SlotOf(source));
      ghost var edges := dist.weights;
      var d := new DitheringDistributer(dist, mass);
      ghost var goal;
      ps, goal := PortionsToDeposit(shape, masses, outer, source, edges, dist.weights);
      DepositEach(outer, dist.weights, d, goal);
    }

    /** Before mass is propagated through an irreducible loop, its headers share exactly the full
        mass, each taking an equal part of what the earlier ones have left. None goes away empty. */
    method SeedHeaders(l: nat)
      requires Valid() && l < |shape.loops| && shape.loops[l].numHeaders < TWO32
      requires DistinctSlots(shape, shape.Headers(l))
      modifies this
      ensures Valid() && SharedEqually(shape, old(masses), masses, shape.Headers(l))
      ensures EqualShares(HeaderMasses(shape, masses, shape.Headers(l)), 0xFFFF_FFFF_FFFF_FFFF)
      ensures OthersKept(shape, old(masses), masses, shape.Headers(l))
      ensures Total(HeaderMasses(shape, masses, shape.Headers(l))) == FULL
      ensures HeadersHoldSome(shape, masses, shape.Headers(l))
    {
      var remaining := FULL;
      ghost var headers, start := shape.Headers(l), masses;
      ghost var ws := UnitWeights(headers);
      ghost var goal := Seeded(shape, start, headers);
      var h := 0;
      while h < shape.loops[l].numHeaders
        invariant 0 <= h <= shape.loops[l].numHeaders
        invariant ToAssign(shape, masses, ws[h..], shape.loops[l].numHeaders - h, remaining, goal)
      {
        remaining := SeedNext(l, h, remaining, ws, goal);
        h := h + 1;
      }
      AllAssigned(shape, masses, ws, shape.loops[l].numHeaders - h, remaining, goal);
    }

    method SeedNext(l: nat, h: nat, remaining0: nat, ghost ws: seq<Weight>, ghost goal: Masses) returns (remaining: nat)
      requires Valid() && l < |shape.loops| && h < shape.loops[l].numHeaders && ws == UnitWeights(shape.Headers(l))
      requires ToAssign(shape, masses, ws[h..], shape.loops[l].numHeaders - h, remaining0, goal)
      modifies this
      ensures ToAssign(shape, masses, ws[h + 1..], shape.loops[l].numHeaders - h - 1, remaining, goal)
    {
      var _, _, _, _ := AssignOne(shape, masses, ws, h, shape.loops[l].numHeaders - h, remaining0, goal);
      var mass := Scale(remaining0, Probability(1, shape.loops[l].numHeaders - h), TWO31);
      MassArithmetic(remaining0, mass);
      masses := masses.Set(shape.SlotOf(shape.loops[l].nodes[h]), mass);
      remaining := SubMass(remaining0, mass);
    }

    /** Hand the full mass to the headers of an irreducible loop by the mass that flows back to
        each. They then hold exactly the full mass if and only if no header lacks back-edge mass
        while holding mass of its own; where all of them hold some, if and only if some flows back
        to each. */
    method AdjustLoopHeaderMass(l: nat) returns (ghost ws: seq<Weight>, ghost ps: seq<nat>)
      requires Valid() && l < |shape.loops| && shape.loops[l].numHeaders > 1
      requires DistinctSlots(shape, shape.Headers(l))
      requires var bs := BackWeights(shape.Headers(l), masses.back[l]); Sum(bs) < 2 * TWO64 && Fits(bs)
      modifies this
      ensures Valid() && HandedOut(shape, old(masses), masses, shape.Headers(l), old(masses).back[l], ws, ps)
      ensures AfterAdjusting(shape, old(masses), masses, shape.Headers(l), old(masses).back[l])
    {
      var headers, back := shape.Headers(l), masses.back[l];
      HeadersIncrease(shape, l);
      var dist := AddBackWeights(headers, back);
      DistinctTypesAgree(headers, back);
      ws, ps := HandOut(headers, back, dist);
    }

    /** Give the full mass to the headers by the weights of the distribution. */
    method HandOut(headers: seq<Node>, back: seq<nat>, dist: Distribution)
        returns (ghost ws: seq<Weight>, ghost ps: seq<nat>)
      requires Valid() && ToHandOut(shape, headers, back) && dist.Added() && dist.weights == BackWeights(headers, back)
      requires TypesAgree(dist.weights) && Fits(dist.weights)
      modifies this, dist
      ensures Valid() && HandedOut(shape, old(masses), masses, headers, back, ws, ps)
      ensures AfterAdjusting(shape, old(masses), masses, headers, back)
    {
      var d := new DitheringDistributer(dist, FULL);
      ws := dist.weights;
      ghost var goal;
      ps, goal := Adjusted(shape, masses, headers, back, ws);
      AssignEach(dist.weights, d, goal);
    }

    /** Propagate the mass of a node along its edges: to nodes that remain, back or out. */
    method PropagateMass(source: Node, l: nat, edges: seq<Weight>, ghost rest: seq<Node>)
        returns (ghost ws: seq<Weight>, ghost ps: seq<nat>)
      requires Valid() && l < |shape.loops| && Sendable(shape, l, edges)
      requires Nodes(shape, [source] + rest) && DistinctSlots(shape, [source] + rest)
      modifies this
      ensures Valid() && Nodes(shape, rest) && NoneLower(shape, old(masses), masses)
      ensures source < |shape.loopOf| && Distributed(shape, old(masses), masses, Some(l), source, edges, ws, ps)
      ensures InFlight(shape, masses, l, rest) <= InFlight(shape, old(masses), l, [source] + rest)
      ensures edges != [] && AllStayIn(edges, rest) && InFlight(shape, old(masses), l, [source] + rest) <= FULL ==>
                InFlight(shape, masses, l, rest) == InFlight(shape, old(masses), l, [source] + rest)
    {
      ghost var start := masses;
      NodesFront(shape, source, rest);
      var dist := AddAll(edges);
      ps := DistributeMass(source, Some(l), dist);
      ws := dist.weights;
      Propagated(shape, start, masses, l, source, rest, edges, ws, ps);
    }

    /** Propagate the masses of all nodes of a loop, once, in order. */
    method PropagateAll(l: nat, edges: seq<seq<Weight>>)
      requires Valid() && l < |shape.loops| && |edges| == |shape.loops[l].nodes|
      requires DistinctSlots(shape, shape.loops[l].nodes) && AllSendable(shape, l, edges)
      requires InFlight(shape, masses, l, shape.loops[l].nodes) == FULL
      modifies this
      ensures Valid() && NoneLower(shape, old(masses), masses)
      ensures Through(masses, l) <= FULL
      ensures Forward(shape, l, edges) ==> Through(masses, l) == FULL
    {
      ghost var nodes := shape.loops[l].nodes;
      assert nodes[0..] == nodes;
      for k := 0 to |shape.loops[l].nodes|
        invariant Valid() && NoneLower(shape, old(masses), masses)
        invariant InFlight(shape, masses, l, nodes[k..]) <= FULL
        invariant Forward(shape, l, edges) ==> InFlight(shape, masses, l, nodes[k..]) == FULL
      {
        PropagateNext(l, edges, k);
      }
    }

    method PropagateNext(l: nat, edges: seq<seq<Weight>>, k: nat)
      requires Valid() && l < |shape.loops| && |edges| == |shape.loops[l].nodes| && k < |edges|
      requires DistinctSlots(shape, shape.loops[l].nodes) && AllSendable(shape, l, edges)
      requires InFlight(shape, masses, l, shape.loops[l].nodes[k..]) <= FULL
      modifies this
      ensures Valid() && NoneLower(shape, old(masses), masses)
      ensures InFlight(shape, masses, l, shape.loops[l].nodes[k + 1..])
              <= InFlight(shape, old(masses), l, shape.loops[l].nodes[k..])
      ensures Forward(shape, l, edges) ==>
                InFlight(shape, masses, l, shape.loops[l].nodes[k + 1..])
                == InFlight(shape, old(masses), l, shape.loops[l].nodes[k..])
    {
      ghost var nodes := shape.loops[l].nodes;
      assert nodes[k..] == [nodes[k]] + nodes[k + 1..];
      SlotsOfRest(shape, nodes, k);
      var _, _ := PropagateMass(shape.loops[l].nodes[k], l, edges[k], nodes[k + 1..]);
    }

    /** The mass left to leave the loop, when the back edges have taken theirs. */
    method ExitMass(l: nat) returns (mass: nat)
      requires Valid() && l < |shape.loops|
      ensures mass == FULL - Min(Total(masses.back[l]), FULL)
    {
      var back := masses.back[l];
      var total: nat := 0;
      for h := 0 to |back|
        invariant total == Min(Total(back[..h]), FULL)
      {
        MassArithmetic(total, back[h]);
        total := AddMass(total, back[h]);
        assert back[..h + 1][..h] == back[..h];
      }
      assert back[..|back|] == back;
      MassArithmetic(FULL, total);
      mass := SubMass(FULL, total);
    }

    /** Put the full mass on the header of a loop, or share it among its headers. */
    method StartLoop(l: nat)
      requires Valid() && l < |shape.loops| && shape.loops[l].numHeaders <= TWO31
      requires DistinctSlots(shape, shape.loops[l].nodes) && Untouched(shape, masses, l)
      modifies this
      ensures Valid() && InFlight(shape, masses, l, shape.loops[l].nodes) == FULL
      ensures HeadersHoldSome(shape, masses, shape.Headers(l))
      ensures shape.loops[l].numHeaders == 1 ==> masses.Get(shape.SlotOf(shape.loops[l].nodes[0])) == FULL
    {
      ghost var start := masses;
      SlotsOfHeaders(shape, l);
      if shape.loops[l].numHeaders > 1 {
        SeedHeaders(l);
        SeedsLeaveMembers(shape, start, masses, l);
      } else {
        masses := masses.Set(shape.SlotOf(shape.loops[l].nodes[0]), FULL);
        OnlyHeaderSet(shape, start, masses, l);
      }
      SeededInFlight(shape, start, masses, l);
    }

    /** Several headers get the full mass anew, by what has flowed back to each. */
    method AdjustIfIrreducible(l: nat)
      requires Valid() && l < |shape.loops| && shape.loops[l].numHeaders <= TWO31
      requires DistinctSlots(shape, shape.loops[l].nodes) && HeadersHoldSome(shape, masses, shape.Headers(l))
      requires Total(masses.back[l]) <= FULL
      modifies this
      ensures Valid() && masses.back == old(masses).back && masses.exits == old(masses).exits
      ensures shape.loops[l].numHeaders == 1 ==> masses == old(masses)
      ensures shape.loops[l].numHeaders > 1 && Total(masses.back[l]) > 0 ==>
                var after := Total(HeaderMasses(shape, masses, shape.Headers(l)));
                after >= FULL && (after == FULL <==> AllPositive(masses.back[l]))
    {
      if shape.loops[l].numHeaders > 1 {
        BackWeightsFit(shape.Headers(l), masses.back[l]);
        SlotsOfHeaders(shape, l);
        var _, _ := AdjustLoopHeaderMass(l);
      }
    }

    /** The mass of a loop: it starts on the headers, goes once through all nodes, and ends up
        flowing back or leaving, all of it if the edges lead forward. What is left for the exits is
        then exactly what they carry. A single header keeps the full mass; several headers get it
        anew, by what has flowed back to each, and hold just that if and only if none is left out. */
    method ComputeMassInLoop(l: nat, edges: seq<seq<Weight>>) returns (exitMass: nat)
      requires Valid() && l < |shape.loops| && shape.loops[l].numHeaders <= TWO31
      requires |edges| == |shape.loops[l].nodes| && AllSendable(shape, l, edges)
      requires DistinctSlots(shape, shape.loops[l].nodes) && Untouched(shape, masses, l)
      modifies this
      ensures Valid() && Through(masses, l) <= FULL && exitMass == FULL - Total(masses.back[l])
      ensures Forward(shape, l, edges) ==> Through(masses, l) == FULL && exitMass == ExitTotal(masses.exits[l])
      ensures shape.loops[l].numHeaders == 1 ==> masses.Get(shape.SlotOf(shape.loops[l].nodes[0])) == FULL
      ensures shape.loops[l].numHeaders > 1 && Total(masses.back[l]) > 0 ==>
                var after := Total(HeaderMasses(shape, masses, shape.Headers(l)));
                after >= FULL && (after == FULL <==> AllPositive(masses.back[l]))
    {
      StartLoop(l);
      ghost var started := masses;
      PropagateAll(l, edges);
      StillHoldSome(shape, started, masses, shape.Headers(l));
      AdjustIfIrreducible(l);
      exitMass := ExitMass(l);
    }
  }

  // ----- runs -----

  /** No node has less mass in `m'` than in `m`. */
  ghost predicate NoneLower(s: Shape, m: Masses, m': Masses)
    requires m.For(s) && m'.For(s)
  {
    forall n :: 0 <= n < |s.loopOf| ==> m.Get(s.SlotOf(n)) <= m'.Get(s.SlotOf(n))
  }

  lemma DepositedNoneLower(s: Shape, m: Masses, outer: Option<nat>, ws: seq<Weight>, ps: seq<nat>)
    requires m.For(s) && AllDepositable(s, outer, ws) && InMassRange(ps) && |ps| == |ws|
    ensures NoneLower(s, m, DepositAll(s, m, outer, ws, ps))
  {
    forall n | 0 <= n < |s.loopOf|
      ensures m.Get(s.SlotOf(n)) <= DepositAll(s, m, outer, ws, ps).Get(s.SlotOf(n))
    {
      DepositAllGrows(s, m, outer, ws, ps, n);
    }
  }

  lemma StillHoldSome(s: Shape, m: Masses, m': Masses, headers: seq<Node>)
    requires m.For(s) && m'.For(s) && Nodes(s, headers) && NoneLower(s, m, m') && HeadersHoldSome(s, m, headers)
    ensures HeadersHoldSome(s, m', headers)
  {
    forall i | 0 <= i < |headers|
      ensures 0 < m'.Get(s.SlotOf(headers[i]))
    {
      assert m.Get(s.SlotOf(headers[i])) <= m'.Get(s.SlotOf(headers[i]));
    }
  }

  /** The portions of the mass of a node over its normalized edges, and what depositing them does. */
  lemma PortionsToDeposit(s: Shape, m: Masses, outer: Option<nat>, source: Node, edges: seq<Weight>, ws: seq<Weight>)
      returns (ps: seq<nat>, goal: Masses)
    requires m.For(s) && source < |s.loopOf| && AllDepositable(s, outer, edges) && Takeable(ws)
    requires CoversTargets(ws, edges) && KeepsKinds(ws, edges) && Precise(ws, edges)
    ensures ps == Portions(ws, m.Get(s.SlotOf(source))) && InMassRange(ps) && AllDepositable(s, outer, ws)
    ensures goal == DepositAll(s, m, outer, ws, ps) && Distributed(s, m, goal, outer, source, edges, ws, ps)
    ensures ToDeposit(s, m, outer, ws, Sum(ws), m.Get(s.SlotOf(source)), goal) && NoneLower(s, m, goal)
    ensures edges != [] ==>
              && Total(ps) == m.Get(s.SlotOf(source)) && ws != []
              && (TotalMass(goal) == TotalMass(m) + m.Get(s.SlotOf(source)) <==> AllHaveRoom(s, m, outer, ws, ps))
  {
    var mass := m.Get(s.SlotOf(source));
    ps := Portions(ws, mass);
    DepositableKept(s, outer, ws, edges);
    PortionsInRange(ws, mass);
    goal := DepositAll(s, m, outer, ws, ps);
    DepositedNoneLower(s, m, outer, ws, ps);
    PortionsDistribute(s, m, outer, source, edges, ws);
    if edges != [] {
      CoversNonempty(ws, edges);
      PortionsAddUp(ws, mass);
      DepositAllAdds(s, m, outer, ws, ps);
    }
  }

  /** Propagating the mass of a node over its normalized edges. */
  lemma Propagated(s: Shape, m: Masses, m': Masses, l: nat, source: Node, rest: seq<Node>,
                   edges: seq<Weight>, ws: seq<Weight>, ps: seq<nat>)
    requires m.For(s) && l < |s.loops| && Nodes(s, [source] + rest) && DistinctSlots(s, [source] + rest)
    requires AllDepositable(s, Some(l), ws) && InMassRange(ps) && |ps| == |ws|
    requires m' == DepositAll(s, m, Some(l), ws, ps) && CoversTargets(ws, edges) && KeepsKinds(ws, edges)
    requires source < |s.loopOf| && (edges != [] ==> Total(ps) == m.Get(s.SlotOf(source)))
    ensures Nodes(s, rest) && InFlight(s, m', l, rest) <= InFlight(s, m, l, [source] + rest)
    ensures edges != [] && AllStayIn(edges, rest) && InFlight(s, m, l, [source] + rest) <= FULL ==>
              InFlight(s, m', l, rest) == InFlight(s, m, l, [source] + rest)
  {
    CoversNonempty(ws, edges);
    PropagatedInFlight(s, m, l, source, rest, ws, ps);
    if AllStayIn(edges, rest) {
      KindsStayIn(ws, edges, rest);
    }
  }

  // ----- what the two loops have left to do -----

  /** Depositing the portions of the remaining weights leads to `goal`. */
  ghost predicate ToDeposit(s: Shape, m: Masses, outer: Option<nat>, rest: seq<Weight>,
                            remWeight: nat, remMass: nat, goal: Masses) {
    && m.For(s) && Takeable(rest) && AllDepositable(s, outer, rest)
    && remWeight == Sum(rest) && remMass <= UINT64_MAX && InMassRange(Portions(rest, remMass))
    && DepositAll(s, m, outer, rest, Portions(rest, remMass)) == goal
  }

  /** One portion is taken and deposited; `weight` and `mass` remain. */
  lemma DepositOne(s: Shape, m: Masses, outer: Option<nat>, ws: seq<Weight>, i: nat,
                   remWeight: nat, remMass: nat, goal: Masses)
      returns (taken: nat, next: Masses, weight: nat, mass: nat)
    requires i < |ws| && ToDeposit(s, m, outer, ws[i..], remWeight, remMass, goal)
    ensures 0 < ws[i].amount <= remWeight < TWO32 && remMass <= UINT64_MAX && m.For(s) && Depositable(s, outer, ws[i])
    ensures taken == Share(remMass, ws[i].amount, remWeight) <= remMass && (i == |ws| - 1 ==> taken == remMass)
    ensures next == Deposit(s, m, outer, ws[i], taken) && weight == remWeight - ws[i].amount && mass == remMass - taken
    ensures ToDeposit(s, next, outer, ws[i + 1..], weight, mass, goal)
  {
    var rest := ws[i..];
    OnePortion(rest, remMass);
    assert rest[1..] == ws[i + 1..] && rest[0] == ws[i];
    assert Depositable(s, outer, rest[0]);
    taken := Share(remMass, ws[i].amount, remWeight);
    next, weight, mass := Deposit(s, m, outer, ws[i], taken), remWeight - ws[i].amount, remMass - taken;
  }

  /** Assigning the portions of the remaining weights leads to `goal`. */
  ghost predicate ToAssign(s: Shape, m: Masses, rest: seq<Weight>, remWeight: nat, remMass: nat, goal: Masses) {
    && m.For(s) && Takeable(rest) && TargetNodes(s, rest)
    && remWeight == Sum(rest) && remMass <= UINT64_MAX && InMassRange(Portions(rest, remMass))
    && AssignAll(s, m, rest, Portions(rest, remMass)) == goal
  }

  /** One portion is taken and assigned; `weight` and `mass` remain. */
  lemma AssignOne(s: Shape, m: Masses, ws: seq<Weight>, i: nat, remWeight: nat, remMass: nat, goal: Masses)
      returns (taken: nat, next: Masses, weight: nat, mass: nat)
    requires i < |ws| && ToAssign(s, m, ws[i..], remWeight, remMass, goal)
    ensures 0 < ws[i].amount <= remWeight < TWO32 && remMass <= UINT64_MAX && m.For(s) && ws[i].target < |s.loopOf|
    ensures taken == Share(remMass, ws[i].amount, remWeight) <= remMass && (i == |ws| - 1 ==> taken == remMass)
    ensures next == m.Set(s.SlotOf(ws[i].target), taken)
    ensures weight == remWeight - ws[i].amount && mass == remMass - taken
    ensures ToAssign(s, next, ws[i + 1..], weight, mass, goal)
  {
    var rest := ws[i..];
    OnePortion(rest, remMass);
    assert rest[1..] == ws[i + 1..] && rest[0] == ws[i];
    assert rest[0].target < |s.loopOf|;
    taken := Share(remMass, ws[i].amount, remWeight);
    next, weight, mass := m.Set(s.SlotOf(ws[i].target), taken), remWeight - ws[i].amount, remMass - taken;
  }

  /** What the headers hold once all of them have been seeded. */
  lemma Seeded(s: Shape, m: Masses, headers: seq<Node>) returns (goal: Masses)
    requires m.For(s) && Nodes(s, headers) && DistinctSlots(s, headers) && 0 < |headers| < TWO32
    ensures goal.For(s) && ToAssign(s, m, UnitWeights(headers)[0..], |headers|, FULL, goal)
    ensures SharedEqually(s, m, goal, headers) && EqualShares(HeaderMasses(s, goal, headers), FULL)
    ensures OthersKept(s, m, goal, headers) && HeadersHoldSome(s, goal, headers)
    ensures Total(HeaderMasses(s, goal, headers)) == FULL
  {
    var ws := UnitWeights(headers);
    SeedsAreTakeable(s, headers);
    goal := AssignAll(s, m, ws, Portions(ws, FULL));
    SeedsShareEqually(s, m, headers);
    SeedsAreEqualShares(headers);
    SeedsKeepOthers(s, m, headers);
    SeedsToAssign(s, m, headers, ws, goal);
  }

  lemma SeedsToAssign(s: Shape, m: Masses, headers: seq<Node>, ws: seq<Weight>, goal: Masses)
    requires m.For(s) && Takeable(ws) && TargetNodes(s, ws) && |ws| == |headers| && Unit(ws)
    requires InMassRange(Portions(ws, FULL)) && goal == AssignAll(s, m, ws, Portions(ws, FULL))
    ensures ToAssign(s, m, ws[0..], |headers|, FULL, goal)
  {
    UnitSum(ws);
    assert ws[0..] == ws;
  }

  lemma AllAssigned(s: Shape, m: Masses, ws: seq<Weight>, remWeight: nat, remMass: nat, goal: Masses)
    requires ToAssign(s, m, ws[|ws|..], remWeight, remMass, goal)
    ensures m == goal
  {
  }

  /** A distribution with a local weight for each header that has back-edge mass. */
  method AddBackWeights(headers: seq<Node>, back: seq<nat>) returns (dist: Distribution)
    requires |headers| == |back| && Sum(BackWeights(headers, back)) < 2 * TWO64
    requires forall i :: 0 <= i < |back| ==> back[i] <= UINT64_MAX
    ensures fresh(dist) && dist.Added() && dist.weights == BackWeights(headers, back)
  {
    dist := new Distribution();
    for h := 0 to |headers|
      invariant fresh(dist) && dist.Added() && dist.weights == BackWeights(headers[..h], back[..h])
    {
      BackWeightsStep(headers, back, h);
      if back[h] > 0 {
        dist.Add(headers[h], back[h], Local);
      }
    }
    assert headers[..|headers|] == headers && back[..|back|] == back;
  }

  lemma BackWeightsStep(headers: seq<Node>, back: seq<nat>, h: nat)
    requires |headers| == |back| && h < |headers|
    ensures BackWeights(headers[..h + 1], back[..h + 1])
            == BackWeights(headers[..h], back[..h]) + (if back[h] > 0 then [Weight(Local, headers[h], back[h])] else [])
    ensures Sum(BackWeights(headers[..h], back[..h])) + back[h] <= Sum(BackWeights(headers, back))
  {
    assert headers[..h + 1][..h] == headers[..h] && back[..h + 1][..h] == back[..h];
    BackWeightsGrow(headers, back, h + 1);
    if back[h] > 0 {
      SumAppend(BackWeights(headers[..h], back[..h]), Weight(Local, headers[h], back[h]));
    }
  }

  lemma {:induction false} BackWeightsGrow(headers: seq<Node>, back: seq<nat>, h: nat)
    requires |headers| == |back| && h <= |headers|
    ensures Sum(BackWeights(headers[..h], back[..h])) <= Sum(BackWeights(headers, back))
    decreases |headers|
  {
    if h == |headers| {
      assert headers[..h] == headers && back[..h] == back;
    } else {
      var last := |headers| - 1;
      BackWeightsGrow(headers[..last], back[..last], h);
      assert headers[..last][..h] == headers[..h] && back[..last][..h] == back[..h];
      if back[last] > 0 {
        SumAppend(BackWeights(headers[..last], back[..last]), Weight(Local, headers[last], back[last]));
      }
    }
  }

  lemma DistinctTypesAgree(headers: seq<Node>, back: seq<nat>)
    requires |headers| == |back| && Increasing(headers)
    ensures TypesAgree(BackWeights(headers, back))
  {
    BackWeightsTargets(headers, back);
  }

  /** The first portion is the share of the first weight. */
  lemma OnePortion(ws: seq<Weight>, mass: nat)
    requires Takeable(ws) && ws != [] && mass <= UINT64_MAX && InMassRange(Portions(ws, mass))
    ensures 0 < ws[0].amount <= Sum(ws) < TWO32 && Takeable(ws[1..]) && Sum(ws[1..]) == Sum(ws) - ws[0].amount
    ensures Share(mass, ws[0].amount, Sum(ws)) <= mass
    ensures |ws| == 1 ==> Share(mass, ws[0].amount, Sum(ws)) == mass
    ensures Portions(ws, mass)[0] == Share(mass, ws[0].amount, Sum(ws))
    ensures Portions(ws, mass)[1..] == Portions(ws[1..], mass - Share(mass, ws[0].amount, Sum(ws)))
    ensures InMassRange(Portions(ws[1..], mass - Share(mass, ws[0].amount, Sum(ws))))
  {
    TakeableRest(ws);
    ScaleByProbability(mass, ws[0].amount, Sum(ws));
    var p := Share(mass, ws[0].amount, Sum(ws));
    assert Portions(ws, mass) == [p] + Portions(ws[1..], mass - p);
    PortionsInRange(ws[1..], mass - p);
  }

  lemma CoversNonempty(out: seq<Weight>, ws: seq<Weight>)
    requires CoversTargets(out, ws)
    ensures out == [] <==> ws == []
  {
    if out != [] {
      assert HasTarget(out, out[0].target);
    }
    if ws != [] {
      assert HasTarget(ws, ws[0].target);
    }
  }

  /** The total that the headers hold, once the back-edge masses have been handed out. */
  ghost predicate AfterAdjusting(s: Shape, m: Masses, m': Masses, headers: seq<Node>, back: seq<nat>)
    requires m.For(s) && m'.For(s) && Nodes(s, headers) && |back| == |headers|
  {
    && m'.back == m.back && m'.exits == m.exits
    && (Total(back) == 0 ==> m' == m)
    && (Total(back) > 0 ==>
          var after := Total(HeaderMasses(s, m', headers));
          && after >= FULL
          && (after == FULL <==> IdleHeadersEmpty(s, m, headers, back))
          && (HeadersHoldSome(s, m, headers) ==> (after == FULL <==> AllPositive(back))))
  }

  /** What assigning the portions of the back-edge masses does. */
  lemma AdjustedMasses(s: Shape, m: Masses, headers: seq<Node>, back: seq<nat>, ws: seq<Weight>)
    requires m.For(s) && Nodes(s, headers) && DistinctSlots(s, headers) && Increasing(headers) && headers != []
    requires |back| == |headers| && CoversTargets(ws, BackWeights(headers, back)) && Takeable(ws)
    requires TargetNodes(s, ws) && InMassRange(Portions(ws, FULL))
    ensures AfterAdjusting(s, m, AssignAll(s, m, ws, Portions(ws, FULL)), headers, back)
  {
    AssignAllElsewhere(s, m, ws, Portions(ws, FULL), headers[0]);
    BackWeightsTargets(headers, back);
    CoversNonempty(ws, BackWeights(headers, back));
    NoBackWeights(BackWeights(headers, back), headers, back);
    if ws != [] {
      HeadersHoldFullMass(s, m, headers, back, ws);
    }
  }

  ghost predicate ToHandOut(s: Shape, headers: seq<Node>, back: seq<nat>) {
    && s.Valid() && Nodes(s, headers) && DistinctSlots(s, headers) && Increasing(headers) && headers != []
    && |back| == |headers| && InMassRange(back)
  }

  lemma HeadersIncrease(s: Shape, l: nat)
    requires s.Valid() && l < |s.loops|
    ensures Nodes(s, s.Headers(l)) && Increasing(s.Headers(l)) && s.Headers(l) != []
  {
  }

  /** Each header that some mass flows back to gets its portion, and the total is what it is. */
  lemma Adjusted(s: Shape, m: Masses, headers: seq<Node>, back: seq<nat>, ws: seq<Weight>)
      returns (ps: seq<nat>, goal: Masses)
    requires m.For(s) && ToHandOut(s, headers, back) && Takeable(ws)
    requires CoversTargets(ws, BackWeights(headers, back)) && Precise(ws, BackWeights(headers, back))
    ensures goal.For(s) && ToAssign(s, m, ws, Sum(ws), FULL, goal)
    ensures HandedOut(s, m, goal, headers, back, ws, ps) && AfterAdjusting(s, m, goal, headers, back)
  {
    ps := Portions(ws, FULL);
    BackWeightsTargets(headers, back);
    HeaderTargets(s, headers, ws, BackWeights(headers, back));
    PortionsInRange(ws, FULL);
    goal := AssignAll(s, m, ws, ps);
    NormalizedBackWeights(ws, headers, back);
    PortionsHandedOut(s, m, headers, back, ws);
    AdjustedMasses(s, m, headers, back, ws);
  }

  lemma NoBackWeights(ws: seq<Weight>, headers: seq<Node>, back: seq<nat>)
    requires |headers| == |back| && WeightsFor(ws, headers, back)
    ensures ws == [] <==> Total(back) == 0
  {
    TotalIsZero(back);
    if ws != [] {
      var i :| 0 <= i < |headers| && headers[i] == ws[0].target;
      assert HasTarget(ws, headers[i]);
      assert back[i] > 0;
    }
  }

  lemma HeaderTargets(s: Shape, headers: seq<Node>, out: seq<Weight>, ws: seq<Weight>)
    requires CoversTargets(out, ws) && Nodes(s, headers)
    requires forall j :: 0 <= j < |ws| ==> ws[j].target in headers
    ensures TargetNodes(s, out)
  {
    forall j | 0 <= j < |out|
      ensures out[j].target < |s.loopOf|
    {
      assert HasTarget(out, out[j].target);
      assert HasTarget(ws, out[j].target);
    }
  }
}
