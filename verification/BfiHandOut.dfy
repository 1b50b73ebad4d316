/** What the headers of an irreducible loop are given: each its portion, in place of what it had, by
    equal weights at first and by the mass that has flowed back to it afterwards. */
module BfiHandOut {
  import opened BfiProbability
  import opened BfiCombining
  import opened BfiNormalize
  import opened BfiDistribution
  import opened BfiMass
  import opened BfiDistribute
  import opened BfiHeaderMass
  import opened BfiSeeding

  // ----- which masses change -----

  ghost predicate AwayFrom(s: Shape, ns: seq<Node>, slot: Slot)
    requires s.Valid() && Nodes(s, ns)
  {
    forall i :: 0 <= i < |ns| ==> s.SlotOf(ns[i]) != slot
  }

  /** No mass changes but those of the given nodes. */
  ghost predicate OthersKept(s: Shape, m: Masses, m': Masses, ns: seq<Node>)
    requires m.For(s) && m'.For(s) && Nodes(s, ns)
  {
    && m'.back == m.back && m'.exits == m.exits
    && (forall n :: 0 <= n < |m.node| && AwayFrom(s, ns, OfNode(n)) ==> m'.node[n] == m.node[n])
    && (forall l :: 0 <= l < |m.loop| && AwayFrom(s, ns, OfLoop(l)) ==> m'.loop[l] == m.loop[l])
  }

  lemma {:induction false} AssignAllKeepsOthers(s: Shape, m: Masses, ws: seq<Weight>, ps: seq<nat>, ns: seq<Node>)
    requires m.For(s) && TargetNodes(s, ws) && InMassRange(ps) && |ps| == |ws|
    requires Nodes(s, ns) && TargetsAmong(ws, ns)
    ensures OthersKept(s, m, AssignAll(s, m, ws, ps), ns)
    decreases |ws|
  {
    if ws != [] {
      var m1 := m.Set(s.SlotOf(ws[0].target), ps[0]);
      assert ws[0].target in ns;
      assert OthersKept(s, m, m1, ns);
      AssignAllKeepsOthers(s, m1, ws[1..], ps[1..], ns);
    }
  }

  // ----- equal shares -----

  /** Each of the masses is an equal share of what those before it have left. */
  ghost predicate EqualShares(ks: seq<nat>, mass: nat) {
    forall h :: 0 <= h < |ks| ==> EqualShare(ks, mass, h)
  }

  ghost predicate EqualShare(ks: seq<nat>, mass: nat, h: nat)
    requires h < |ks|
  {
    Total(ks[..h]) <= mass && Proportional(ks[h], mass - Total(ks[..h]), 1, |ks| - h)
  }

  lemma SeedsAreEqualShares(headers: seq<Node>)
    requires Takeable(UnitWeights(headers))
    ensures EqualShares(Portions(UnitWeights(headers), FULL), FULL)
  {
    var ws := UnitWeights(headers);
    var ps := Portions(ws, FULL);
    PortionsAreProportional(ws, FULL);
    forall h | 0 <= h < |ps|
      ensures EqualShare(ps, FULL, h)
    {
      assert PortionFits(ps, ws, FULL, h);
      UnitSum(ws[h..]);
    }
  }

  lemma SeedsKeepOthers(s: Shape, m: Masses, headers: seq<Node>)
    requires m.For(s) && Nodes(s, headers) && Takeable(UnitWeights(headers))
    requires TargetNodes(s, UnitWeights(headers)) && InMassRange(Portions(UnitWeights(headers), FULL))
    ensures OthersKept(s, m, AssignAll(s, m, UnitWeights(headers), Portions(UnitWeights(headers), FULL)), headers)
  {
    AssignAllKeepsOthers(s, m, UnitWeights(headers), Portions(UnitWeights(headers), FULL), headers);
  }

  // ----- shares by back-edge mass -----

  ghost predicate NearestToBack(ws: seq<Weight>, headers: seq<Node>, back: seq<nat>, d: nat)
    requires |headers| == |back| && d > 0
  {
    forall i, j :: 0 <= i < |headers| && 0 <= j < |ws| && ws[j].target == headers[i] ==>
      ws[j].amount == Nearest(back[i], d)
  }

  /** One weight for each header that some mass flows back to: that mass, scaled down. */
  ghost predicate WeighedByBack(ws: seq<Weight>, headers: seq<Node>, back: seq<nat>)
    requires |headers| == |back|
  {
    && Distinct(ws) && TargetsAmong(ws, headers) && ForBackMass(ws, headers, back)
    && (|ws| == 1 ==> ws[0].amount == 1)
    && (|ws| > 1 ==> exists k :: Divisor(Total(back), Pow2(k)) && NearestToBack(ws, headers, back, Pow2(k)))
  }

  lemma {:induction false} BackWeightAmount(headers: seq<Node>, back: seq<nat>, i: nat)
    requires |headers| == |back| && Increasing(headers) && i < |headers|
    ensures SumFor(BackWeights(headers, back), headers[i]) == back[i]
    decreases |headers|
  {
    var last := |headers| - 1;
    var hs, bs := headers[..last], back[..last];
    var init, w := BackWeights(hs, bs), Weight(Local, headers[last], back[last]);
    SumForAppend(init, w, headers[i]);
    if i < last {
      BackWeightAmount(hs, bs, i);
    } else {
      BackWeightsTargets(hs, bs);
      NoneFor(init, headers[last]);
    }
  }

  lemma {:induction false} NoneFor(ws: seq<Weight>, t: Node)
    requires forall j :: 0 <= j < |ws| ==> ws[j].target != t
    ensures SumFor(ws, t) == 0
  {
    if ws != [] {
      NoneFor(ws[..|ws| - 1], t);
    }
  }

  lemma RescaledBack(ws: seq<Weight>, headers: seq<Node>, back: seq<nat>)
    requires |headers| == |back| && Increasing(headers) && Rescaled(ws, BackWeights(headers, back))
    requires forall i :: 0 <= i < |back| ==> back[i] <= UINT64_MAX
    ensures exists k :: Divisor(Total(back), Pow2(k)) && NearestToBack(ws, headers, back, Pow2(k))
  {
    var bs := BackWeights(headers, back);
    BackWeightsTargets(headers, back);
    var k :| Divisor(Sum(bs), Pow2(k)) && DividedBy(ws, bs, Pow2(k));
    forall i, j | 0 <= i < |headers| && 0 <= j < |ws| && ws[j].target == headers[i]
      ensures ws[j].amount == Nearest(back[i], Pow2(k))
    {
      BackWeightAmount(headers, back, i);
      assert EntryDivided(ws[j], bs, Pow2(k));
    }
    assert NearestToBack(ws, headers, back, Pow2(k));
  }

  lemma NormalizedBackWeights(ws: seq<Weight>, headers: seq<Node>, back: seq<nat>)
    requires |headers| == |back| && Increasing(headers)
    requires forall i :: 0 <= i < |back| ==> back[i] <= UINT64_MAX
    requires CoversTargets(ws, BackWeights(headers, back)) && Precise(ws, BackWeights(headers, back))
    ensures WeighedByBack(ws, headers, back)
  {
    var bs := BackWeights(headers, back);
    BackWeightsTargets(headers, back);
    forall j | 0 <= j < |ws|
      ensures ws[j].target in headers
    {
      assert HasTarget(ws, ws[j].target);
      assert HasTarget(bs, ws[j].target);
    }
    forall i | 0 <= i < |headers|
      ensures HasTarget(ws, headers[i]) <==> back[i] > 0
    {
      assert HasTarget(ws, headers[i]) <==> HasTarget(bs, headers[i]);
    }
    if |ws| == 1 {
      OnlyTarget(ws, bs);
    }
    if |ws| > 1 {
      assert HasTarget(ws, ws[0].target);
      RescaledBack(ws, headers, back);
    }
  }

  lemma OnlyTarget(out: seq<Weight>, ws: seq<Weight>)
    requires CoversTargets(out, ws) && |out| == 1
    ensures SingleTarget(ws)
  {
    assert HasTarget(out, out[0].target);
    forall i | 0 <= i < |ws|
      ensures ws[i].target == out[0].target
    {
      assert HasTarget(ws, ws[i].target);
      assert HasTarget(out, ws[i].target);
    }
  }

  /** `m'` is `m` with the full mass handed to the headers that some of it has flowed back to, in
      proportion; the other headers keep what they have. */
  ghost predicate HandedOut(s: Shape, m: Masses, m': Masses, headers: seq<Node>, back: seq<nat>,
                            ws: seq<Weight>, ps: seq<nat>)
    requires m.For(s) && m'.For(s) && Nodes(s, headers) && |headers| == |back|
  {
    && WeighedByBack(ws, headers, back) && SharedByWeight(ps, ws, FULL)
    && (forall i, j :: 0 <= i < |headers| && 0 <= j < |ws| && ws[j].target == headers[i] ==>
          m'.Get(s.SlotOf(headers[i])) == ps[j])
    && (forall i :: 0 <= i < |headers| && back[i] == 0 ==>
          m'.Get(s.SlotOf(headers[i])) == m.Get(s.SlotOf(headers[i])))
    && OthersKept(s, m, m', headers)
  }

  lemma PortionsHandedOut(s: Shape, m: Masses, headers: seq<Node>, back: seq<nat>, ws: seq<Weight>)
    requires m.For(s) && Nodes(s, headers) && DistinctSlots(s, headers) && |headers| == |back| && Takeable(ws)
    requires WeighedByBack(ws, headers, back) && TargetNodes(s, ws) && InMassRange(Portions(ws, FULL))
    ensures HandedOut(s, m, AssignAll(s, m, ws, Portions(ws, FULL)), headers, back, ws, Portions(ws, FULL))
  {
    var ps := Portions(ws, FULL);
    var m' := AssignAll(s, m, ws, ps);
    PortionsAreProportional(ws, FULL);
    AssignAllKeepsOthers(s, m, ws, ps, headers);
    HeaderSlotsDiffer(s, headers, ws);
    forall j | 0 <= j < |ws|
      ensures m'.Get(s.SlotOf(ws[j].target)) == ps[j]
    {
      AssignAllGets(s, m, ws, ps, j);
    }
    forall i | 0 <= i < |headers| && back[i] == 0
      ensures m'.Get(s.SlotOf(headers[i])) == m.Get(s.SlotOf(headers[i]))
    {
      IdleElsewhere(s, headers, ws, i);
      AssignAllElsewhere(s, m, ws, ps, headers[i]);
    }
  }

  lemma HeaderSlotsDiffer(s: Shape, headers: seq<Node>, ws: seq<Weight>)
    requires s.Valid() && Nodes(s, headers) && DistinctSlots(s, headers)
    requires Distinct(ws) && TargetsAmong(ws, headers) && TargetNodes(s, ws)
    ensures TargetSlotsDiffer(s, ws)
  {
    forall i, j | 0 <= i < j < |ws|
      ensures s.SlotOf(ws[i].target) != s.SlotOf(ws[j].target)
    {
      assert ws[i].target in headers && ws[j].target in headers;
      var a :| 0 <= a < |headers| && headers[a] == ws[i].target;
      var b :| 0 <= b < |headers| && headers[b] == ws[j].target;
      assert a != b;
    }
  }

  lemma IdleElsewhere(s: Shape, headers: seq<Node>, ws: seq<Weight>, i: nat)
    requires s.Valid() && Nodes(s, headers) && DistinctSlots(s, headers) && i < |headers|
    requires !HasTarget(ws, headers[i]) && TargetsAmong(ws, headers) && TargetNodes(s, ws)
    ensures forall j :: 0 <= j < |ws| ==> s.SlotOf(ws[j].target) != s.SlotOf(headers[i])
  {
    forall j | 0 <= j < |ws|
      ensures s.SlotOf(ws[j].target) != s.SlotOf(headers[i])
    {
      assert ws[j].target in headers && ws[j].target != headers[i];
      var b :| 0 <= b < |headers| && headers[b] == ws[j].target;
      assert i != b;
    }
  }
}
