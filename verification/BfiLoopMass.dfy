/** The mass that is on its way through a loop: what its remaining nodes hold, what has flowed back
    to its headers, and what has left by its exits. */
module BfiLoopMass {
  import opened Wrappers

  import opened BfiProbability
  import opened BfiCombining
  import opened BfiNormalize
  import opened BfiDistribution
  import opened BfiMass
  import opened BfiDistribute
  import opened BfiHeaderMass
  import opened BfiSeeding

  /** The mass that has gone through the loop. */
  ghost function Through(m: Masses, l: nat): nat
    requires l < |m.back| && l < |m.exits|
  {
    Total(m.back[l]) + ExitTotal(m.exits[l])
  }

  ghost function InFlight(s: Shape, m: Masses, l: nat, ns: seq<Node>): nat
    requires m.For(s) && l < |s.loops| && Nodes(s, ns)
  {
    Total(HeaderMasses(s, m, ns)) + Through(m, l)
  }

  /** The mass goes to one of `ns`, unless it leaves them. */
  ghost predicate StaysIn(w: Weight, ns: seq<Node>) {
    w.kind == Local ==> w.target in ns
  }

  // ----- depositing one portion -----

  lemma SetOneMass(s: Shape, m: Masses, ns: seq<Node>, n: Node, mass: nat, i: nat)
    requires m.For(s) && Nodes(s, ns) && DistinctSlots(s, ns) && n < |s.loopOf| && mass <= UINT64_MAX
    requires i < |ns| && s.SlotOf(ns[i]) == s.SlotOf(n)
    ensures HeaderMasses(s, m.Set(s.SlotOf(n), mass), ns) == HeaderMasses(s, m, ns)[i := mass]
    ensures HeaderMasses(s, m, ns)[i] == m.Get(s.SlotOf(n))
  {
    var m' := m.Set(s.SlotOf(n), mass);
    forall k | 0 <= k < |ns|
      ensures HeaderMasses(s, m', ns)[k] == if k == i then mass else HeaderMasses(s, m, ns)[k]
    {
      assert k != i ==> s.SlotOf(ns[k]) != s.SlotOf(ns[i]);
    }
  }

  lemma SetNoMass(s: Shape, m: Masses, ns: seq<Node>, n: Node, mass: nat)
    requires m.For(s) && Nodes(s, ns) && n < |s.loopOf| && mass <= UINT64_MAX
    requires forall i :: 0 <= i < |ns| ==> s.SlotOf(ns[i]) != s.SlotOf(n)
    ensures HeaderMasses(s, m.Set(s.SlotOf(n), mass), ns) == HeaderMasses(s, m, ns)
  {
  }

  /** A local portion is in flight afterwards if it goes to one of the remaining nodes. */
  lemma LocalInFlight(s: Shape, m: Masses, l: nat, ns: seq<Node>, w: Weight, taken: nat)
    requires m.For(s) && l < |s.loops| && Depositable(s, Some(l), w) && taken <= UINT64_MAX && w.kind == Local
    requires Nodes(s, ns) && DistinctSlots(s, ns)
    ensures InFlight(s, Deposit(s, m, Some(l), w, taken), l, ns) <= InFlight(s, m, l, ns) + taken
    ensures StaysIn(w, ns) && InFlight(s, m, l, ns) + taken <= UINT64_MAX ==>
              InFlight(s, Deposit(s, m, Some(l), w, taken), l, ns) == InFlight(s, m, l, ns) + taken
  {
    var slot := s.SlotOf(w.target);
    MassArithmetic(m.Get(slot), taken);
    var mass := AddMass(m.Get(slot), taken);
    if i :| 0 <= i < |ns| && s.SlotOf(ns[i]) == slot {
      SetOneMass(s, m, ns, w.target, mass, i);
      TotalUpdate(HeaderMasses(s, m, ns), i, mass);
    } else {
      SetNoMass(s, m, ns, w.target, mass);
    }
  }

  lemma OtherInFlight(s: Shape, m: Masses, l: nat, ns: seq<Node>, w: Weight, taken: nat)
    requires m.For(s) && l < |s.loops| && Depositable(s, Some(l), w) && taken <= UINT64_MAX && w.kind != Local
    requires Nodes(s, ns)
    ensures InFlight(s, Deposit(s, m, Some(l), w, taken), l, ns) <= InFlight(s, m, l, ns) + taken
    ensures InFlight(s, m, l, ns) + taken <= UINT64_MAX ==>
              InFlight(s, Deposit(s, m, Some(l), w, taken), l, ns) == InFlight(s, m, l, ns) + taken
  {
    var m' := Deposit(s, m, Some(l), w, taken);
    assert HeaderMasses(s, m', ns) == HeaderMasses(s, m, ns);
    if w.kind == Backedge {
      var i := HeaderIndex(s, l, w.target);
      MassArithmetic(m.back[l][i], taken);
      TotalUpdate(m.back[l], i, AddMass(m.back[l][i], taken));
    } else {
      assert (m.exits[l] + [(w.target, taken)])[..|m.exits[l]|] == m.exits[l];
    }
  }

  // ----- depositing all portions -----

  ghost predicate AllStayIn(ws: seq<Weight>, ns: seq<Node>) {
    forall j :: 0 <= j < |ws| ==> StaysIn(ws[j], ns)
  }

  /** Depositing adds at most the portions to the mass in flight, and exactly the portions if none
      of them goes astray. */
  lemma {:induction false} DepositAllInFlight(s: Shape, m: Masses, l: nat, ns: seq<Node>, ws: seq<Weight>, ps: seq<nat>)
    requires m.For(s) && l < |s.loops| && AllDepositable(s, Some(l), ws) && InMassRange(ps) && |ps| == |ws|
    requires Nodes(s, ns) && DistinctSlots(s, ns)
    ensures InFlight(s, DepositAll(s, m, Some(l), ws, ps), l, ns) <= InFlight(s, m, l, ns) + Total(ps)
    ensures AllStayIn(ws, ns) && InFlight(s, m, l, ns) + Total(ps) <= UINT64_MAX ==>
              InFlight(s, DepositAll(s, m, Some(l), ws, ps), l, ns) == InFlight(s, m, l, ns) + Total(ps)
    decreases |ws|
  {
    if ws != [] {
      TotalFront(ps);
      if ws[0].kind == Local {
        LocalInFlight(s, m, l, ns, ws[0], ps[0]);
      } else {
        OtherInFlight(s, m, l, ns, ws[0], ps[0]);
      }
      DepositAllInFlight(s, Deposit(s, m, Some(l), ws[0], ps[0]), l, ns, ws[1..], ps[1..]);
    }
  }

  /** Depositing never takes mass away. */
  lemma {:induction false} DepositAllGrows(s: Shape, m: Masses, outer: Option<nat>, ws: seq<Weight>, ps: seq<nat>,
                                           n: Node)
    requires m.For(s) && AllDepositable(s, outer, ws) && InMassRange(ps) && |ps| == |ws| && n < |s.loopOf|
    ensures m.Get(s.SlotOf(n)) <= DepositAll(s, m, outer, ws, ps).Get(s.SlotOf(n))
    decreases |ws|
  {
    if ws != [] {
      DepositGrows(s, m, outer, ws[0], ps[0], n);
      DepositAllGrows(s, Deposit(s, m, outer, ws[0], ps[0]), outer, ws[1..], ps[1..], n);
    }
  }

  lemma DepositGrows(s: Shape, m: Masses, outer: Option<nat>, w: Weight, taken: nat, n: Node)
    requires m.For(s) && Depositable(s, outer, w) && taken <= UINT64_MAX && n < |s.loopOf|
    ensures m.Get(s.SlotOf(n)) <= Deposit(s, m, outer, w, taken).Get(s.SlotOf(n))
  {
    if w.kind == Local {
      MassArithmetic(m.Get(s.SlotOf(w.target)), taken);
    }
  }

  // ----- propagating the mass of one node -----

  /** Edges of a node of loop `l`, as a distribution can hold them. */
  ghost predicate Sendable(s: Shape, l: nat, es: seq<Weight>)
    requires s.Valid() && l < |s.loops|
  {
    InRange(es) && TypesAgree(es) && Sum(es) < 2 * TWO64 && Fits(es) && AllDepositable(s, Some(l), es)
  }

  ghost predicate AllSendable(s: Shape, l: nat, edges: seq<seq<Weight>>)
    requires s.Valid() && l < |s.loops|
  {
    forall k :: 0 <= k < |edges| ==> Sendable(s, l, edges[k])
  }

  lemma SlotsOfRest(s: Shape, ns: seq<Node>, k: nat)
    requires s.Valid() && DistinctSlots(s, ns) && k <= |ns|
    ensures DistinctSlots(s, ns[k..])
  {
  }

  lemma {:induction false} SumPrefix(ws: seq<Weight>, i: nat)
    requires i < |ws|
    ensures Sum(ws[..i]) + ws[i].amount <= Sum(ws)
    decreases |ws|
  {
    if i < |ws| - 1 {
      SumPrefix(ws[..|ws| - 1], i);
      assert ws[..|ws| - 1][..i] == ws[..i];
    }
  }

  /** A distribution of the given edges. */
  method AddAll(es: seq<Weight>) returns (dist: Distribution)
    requires InRange(es) && Sum(es) < 2 * TWO64
    ensures fresh(dist) && dist.Added() && dist.weights == es
  {
    dist := new Distribution();
    for i := 0 to |es|
      invariant fresh(dist) && dist.Added() && dist.weights == es[..i]
    {
      SumPrefix(es, i);
      dist.Add(es[i].target, es[i].amount, es[i].kind);
      assert es[..i + 1] == es[..i] + [es[i]];
    }
    assert es[..|es|] == es;
  }

  lemma KindsStayIn(out: seq<Weight>, es: seq<Weight>, ns: seq<Node>)
    requires KeepsKinds(out, es) && AllStayIn(es, ns)
    ensures AllStayIn(out, ns)
  {
    forall j | 0 <= j < |out|
      ensures StaysIn(out[j], ns)
    {
      assert HasEdgeLike(es, out[j]);
      var i :| 0 <= i < |es| && es[i].target == out[j].target && es[i].kind == out[j].kind;
      assert StaysIn(es[i], ns);
    }
  }

  lemma {:induction false} TotalJoin(a: seq<nat>, b: seq<nat>)
    ensures Total(a + b) == Total(a) + Total(b)
  {
    if b == [] {
      assert a + b == a;
    } else {
      assert (a + b)[..|a + b| - 1] == a + b[..|b| - 1];
      TotalJoin(a, b[..|b| - 1]);
    }
  }

  lemma MassesJoin(s: Shape, m: Masses, a: seq<Node>, b: seq<Node>)
    requires m.For(s) && Nodes(s, a) && Nodes(s, b)
    ensures Nodes(s, a + b)
    ensures Total(HeaderMasses(s, m, a + b)) == Total(HeaderMasses(s, m, a)) + Total(HeaderMasses(s, m, b))
  {
    assert HeaderMasses(s, m, a + b) == HeaderMasses(s, m, a) + HeaderMasses(s, m, b);
    TotalJoin(HeaderMasses(s, m, a), HeaderMasses(s, m, b));
  }

  lemma NodesFront(s: Shape, source: Node, rest: seq<Node>)
    requires Nodes(s, [source] + rest)
    ensures Nodes(s, [source]) && Nodes(s, rest) && source < |s.loopOf|
  {
    var ns := [source] + rest;
    assert ns[0] == source;
    assert forall i :: 0 <= i < |rest| ==> rest[i] == ns[i + 1];
  }

  lemma InFlightFront(s: Shape, m: Masses, l: nat, source: Node, rest: seq<Node>)
    requires m.For(s) && l < |s.loops| && Nodes(s, [source] + rest)
    ensures Nodes(s, rest) && source < |s.loopOf|
    ensures InFlight(s, m, l, [source] + rest) == m.Get(s.SlotOf(source)) + InFlight(s, m, l, rest)
  {
    NodesFront(s, source, rest);
    MassesJoin(s, m, [source], rest);
    TotalFront(HeaderMasses(s, m, [source]));
  }

  /** Propagating the mass of a node passes it on to the nodes that remain, back or out. */
  lemma PropagatedInFlight(s: Shape, m: Masses, l: nat, source: Node, rest: seq<Node>, ws: seq<Weight>, ps: seq<nat>)
    requires m.For(s) && l < |s.loops| && Nodes(s, [source] + rest) && DistinctSlots(s, [source] + rest)
    requires AllDepositable(s, Some(l), ws) && InMassRange(ps) && |ps| == |ws|
    requires source < |s.loopOf| && (ws != [] ==> Total(ps) == m.Get(s.SlotOf(source)))
    ensures Nodes(s, rest)
    ensures var m' := DepositAll(s, m, Some(l), ws, ps);
            && InFlight(s, m', l, rest) <= InFlight(s, m, l, [source] + rest)
            && (ws != [] && AllStayIn(ws, rest) && InFlight(s, m, l, [source] + rest) <= UINT64_MAX ==>
                  InFlight(s, m', l, rest) == InFlight(s, m, l, [source] + rest))
  {
    var ns := [source] + rest;
    InFlightFront(s, m, l, source, rest);
    assert forall i :: 0 <= i < |rest| ==> rest[i] == ns[i + 1];
    DepositAllInFlight(s, m, l, rest, ws, ps);
  }

  // ----- the whole loop -----

  /** Nothing has gone through the loop yet, and its members hold nothing. */
  ghost predicate Untouched(s: Shape, m: Masses, l: nat)
    requires m.For(s) && l < |s.loops|
  {
    && Through(m, l) == 0
    && forall i :: s.loops[l].numHeaders <= i < |s.loops[l].nodes| ==> m.Get(s.SlotOf(s.loops[l].nodes[i])) == 0
  }

  /** Every node has edges, and each of them leads back to a header, out of the loop, or to a node
      further on in the list. */
  ghost predicate Forward(s: Shape, l: nat, edges: seq<seq<Weight>>)
    requires l < |s.loops| && |edges| == |s.loops[l].nodes|
  {
    forall k :: 0 <= k < |edges| ==> edges[k] != [] && AllStayIn(edges[k], s.loops[l].nodes[k + 1..])
  }

  lemma SlotsOfHeaders(s: Shape, l: nat)
    requires s.Valid() && l < |s.loops| && DistinctSlots(s, s.loops[l].nodes)
    ensures DistinctSlots(s, s.Headers(l))
  {
  }

  ghost predicate MembersKept(s: Shape, m: Masses, m': Masses, l: nat)
    requires m.For(s) && m'.For(s) && l < |s.loops|
  {
    forall i :: s.loops[l].numHeaders <= i < |s.loops[l].nodes| ==>
      m'.Get(s.SlotOf(s.loops[l].nodes[i])) == m.Get(s.SlotOf(s.loops[l].nodes[i]))
  }

  /** Once the headers share the full mass, it is all that is in flight. */
  lemma SeededInFlight(s: Shape, m: Masses, m': Masses, l: nat)
    requires m.For(s) && m'.For(s) && l < |s.loops| && Untouched(s, m, l)
    requires Through(m', l) == Through(m, l) && Total(HeaderMasses(s, m', s.Headers(l))) == FULL
    requires MembersKept(s, m, m', l)
    ensures InFlight(s, m', l, s.loops[l].nodes) == FULL
  {
    var nodes, headers := s.loops[l].nodes, s.Headers(l);
    var members := nodes[|headers|..];
    assert nodes == headers + members;
    forall i | 0 <= i < |members|
      ensures HeaderMasses(s, m', members)[i] == 0
    {
      assert members[i] == nodes[|headers| + i];
    }
    TotalIsZero(HeaderMasses(s, m', members));
    MassesJoin(s, m', headers, members);
  }

  lemma SeedsLeaveMembers(s: Shape, m: Masses, m': Masses, l: nat)
    requires m.For(s) && m'.For(s) && l < |s.loops| && DistinctSlots(s, s.loops[l].nodes)
    requires SharedEqually(s, m, m', s.Headers(l))
    ensures MembersKept(s, m, m', l) && Through(m', l) == Through(m, l)
  {
    var nodes, ws := s.loops[l].nodes, UnitWeights(s.Headers(l));
    AssignAllElsewhere(s, m, ws, Portions(ws, FULL), nodes[0]);
    forall i | s.loops[l].numHeaders <= i < |nodes|
      ensures m'.Get(s.SlotOf(nodes[i])) == m.Get(s.SlotOf(nodes[i]))
    {
      forall j | 0 <= j < |ws|
        ensures s.SlotOf(ws[j].target) != s.SlotOf(nodes[i])
      {
        assert ws[j].target == nodes[j];
      }
      AssignAllElsewhere(s, m, ws, Portions(ws, FULL), nodes[i]);
    }
  }

  lemma OnlyHeaderSet(s: Shape, m: Masses, m': Masses, l: nat)
    requires m.For(s) && l < |s.loops| && DistinctSlots(s, s.loops[l].nodes) && s.loops[l].numHeaders == 1
    requires m' == m.Set(s.SlotOf(s.loops[l].nodes[0]), FULL)
    ensures m'.For(s) && MembersKept(s, m, m', l) && Through(m', l) == Through(m, l)
    ensures Total(HeaderMasses(s, m', s.Headers(l))) == FULL && HeadersHoldSome(s, m', s.Headers(l))
    ensures m'.Get(s.SlotOf(s.loops[l].nodes[0])) == FULL
  {
    TotalFront(HeaderMasses(s, m', s.Headers(l)));
  }

  /** Back-edge masses that add up to at most the full mass can be normalized. */
  lemma BackWeightsFit(headers: seq<Node>, back: seq<nat>)
    requires |headers| == |back| <= TWO31 && Increasing(headers) && Total(back) <= FULL
    requires forall i :: 0 <= i < |back| ==> back[i] <= UINT64_MAX
    ensures Sum(BackWeights(headers, back)) == Total(back) && Fits(BackWeights(headers, back))
  {
    var bs := BackWeights(headers, back);
    BackWeightsTargets(headers, back);
    BackWeightsInRange(headers, back);
    CombinedNoLonger(bs);
    BelowThresholdIsFit(bs);
  }

  lemma {:induction false} BackWeightsInRange(headers: seq<Node>, back: seq<nat>)
    requires |headers| == |back|
    requires forall i :: 0 <= i < |back| ==> back[i] <= UINT64_MAX
    ensures InRange(BackWeights(headers, back))
  {
    if headers != [] {
      BackWeightsInRange(headers[..|headers| - 1], back[..|back| - 1]);
    }
  }
}
