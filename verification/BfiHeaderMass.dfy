/** Replacing the masses of the headers of an irreducible loop by what flows back to them. */
module BfiHeaderMass {
  import opened BfiProbability
  import opened BfiCombining
  import opened BfiNormalize
  import opened BfiMass
  import opened BfiDistribute

  /** One weight for each header that some mass flows back to. */
  function BackWeights(headers: seq<Node>, back: seq<nat>): (ws: seq<Weight>)
    requires |headers| == |back|
  {
    if headers == [] then []
    else
      var init := BackWeights(headers[..|headers| - 1], back[..|back| - 1]);
      var last := |headers| - 1;
      if back[last] > 0 then init + [Weight(Local, headers[last], back[last])] else init
  }

  ghost predicate Increasing(headers: seq<Node>) {
    forall i, j :: 0 <= i < j < |headers| ==> headers[i] < headers[j]
  }

  ghost predicate AmongHeaders(ws: seq<Weight>, headers: seq<Node>) {
    forall j :: 0 <= j < |ws| ==> ws[j].kind == Local && ws[j].target in headers
  }

  /** A header has a weight if and only if it has back-edge mass. */
  ghost predicate ForBackMass(ws: seq<Weight>, headers: seq<Node>, back: seq<nat>)
    requires |headers| == |back|
  {
    forall i :: 0 <= i < |headers| ==> (HasTarget(ws, headers[i]) <==> back[i] > 0)
  }

  ghost predicate WeightsFor(ws: seq<Weight>, headers: seq<Node>, back: seq<nat>)
    requires |headers| == |back|
  {
    Sum(ws) == Total(back) && |ws| <= |headers| && AmongHeaders(ws, headers) && ForBackMass(ws, headers, back)
  }

  /** The headers with a weight are those with back-edge mass. */
  lemma {:induction false} BackWeightsTargets(headers: seq<Node>, back: seq<nat>)
    requires |headers| == |back| && Increasing(headers)
    ensures WeightsFor(BackWeights(headers, back), headers, back)
    decreases |headers|
  {
    if headers != [] {
      var last := |headers| - 1;
      var hs, bs := headers[..last], back[..last];
      assert hs + [headers[last]] == headers && bs + [back[last]] == back;
      BackWeightsTargets(hs, bs);
      BackWeightsSnoc(hs, bs, headers[last], back[last]);
    }
  }

  lemma BackWeightsSnoc(headers: seq<Node>, back: seq<nat>, h: Node, mass: nat)
    requires |headers| == |back| && WeightsFor(BackWeights(headers, back), headers, back)
    requires forall i :: 0 <= i < |headers| ==> headers[i] < h
    ensures WeightsFor(BackWeights(headers + [h], back + [mass]), headers + [h], back + [mass])
  {
    var init := BackWeights(headers, back);
    assert (headers + [h])[..|headers|] == headers && (back + [mass])[..|back|] == back;
    assert BackWeights(headers + [h], back + [mass]) == if mass > 0 then init + [Weight(Local, h, mass)] else init;
    OneMoreHeader(init, headers, back, h, mass);
    SumAppend(init, Weight(Local, h, mass));
  }

  /** One more header, with a weight if it has back-edge mass. */
  lemma OneMoreHeader(init: seq<Weight>, headers: seq<Node>, back: seq<nat>, h: Node, mass: nat)
    requires |headers| == |back| && AmongHeaders(init, headers) && ForBackMass(init, headers, back)
    requires forall i :: 0 <= i < |headers| ==> headers[i] < h
    ensures var ws := if mass > 0 then init + [Weight(Local, h, mass)] else init;
            AmongHeaders(ws, headers + [h]) && ForBackMass(ws, headers + [h], back + [mass])
  {
    forall i | 0 <= i < |headers| + 1
      ensures var ws := if mass > 0 then init + [Weight(Local, h, mass)] else init;
              HasTarget(ws, (headers + [h])[i]) <==> (back + [mass])[i] > 0
    {
      HasTargetAppend(init, Weight(Local, h, mass), (headers + [h])[i]);
      assert i < |headers| ==> (HasTarget(init, headers[i]) <==> back[i] > 0);
    }
  }

  /** Different headers keep their mass in different places. */
  ghost predicate DistinctSlots(s: Shape, headers: seq<Node>)
    requires s.Valid()
  {
    forall i, j :: 0 <= i < j < |headers| && headers[i] < |s.loopOf| && headers[j] < |s.loopOf| ==>
      s.SlotOf(headers[i]) != s.SlotOf(headers[j])
  }

  ghost predicate Nodes(s: Shape, ns: seq<Node>) {
    forall i :: 0 <= i < |ns| ==> ns[i] < |s.loopOf|
  }

  ghost predicate TargetNodes(s: Shape, ws: seq<Weight>) {
    forall j :: 0 <= j < |ws| ==> ws[j].target < |s.loopOf|
  }

  /** Give each target its portion, in place of what it had. */
  ghost function AssignAll(s: Shape, m: Masses, ws: seq<Weight>, ps: seq<nat>): (r: Masses)
    requires m.For(s) && TargetNodes(s, ws) && InMassRange(ps) && |ps| == |ws|
    ensures r.For(s)
    decreases |ws|
  {
    if ws == [] then m
    else AssignAll(s, m.Set(s.SlotOf(ws[0].target), ps[0]), ws[1..], ps[1..])
  }

  /** The masses of the headers, counting those with a weight as nothing. */
  ghost function Kept(s: Shape, m: Masses, headers: seq<Node>, ws: seq<Weight>): (ks: seq<nat>)
    requires m.For(s) && Nodes(s, headers)
    ensures |ks| == |headers|
    ensures forall i :: 0 <= i < |headers| ==>
              ks[i] == if HasTarget(ws, headers[i]) then 0 else m.Get(s.SlotOf(headers[i]))
  {
    seq(|headers|, i requires 0 <= i < |headers| =>
      if HasTarget(ws, headers[i]) then 0 else m.Get(s.SlotOf(headers[i])))
  }

  ghost function HeaderMasses(s: Shape, m: Masses, headers: seq<Node>): (ks: seq<nat>)
    requires m.For(s) && Nodes(s, headers)
    ensures |ks| == |headers|
  {
    Kept(s, m, headers, [])
  }

  lemma KeptElsewhere(s: Shape, m: Masses, headers: seq<Node>, ws: seq<Weight>, p: nat, k: nat)
    requires m.For(s) && Nodes(s, headers) && p <= UINT64_MAX && k < |headers|
    requires ws != [] && ws[0].target < |s.loopOf| && ws[0].target != headers[k]
    requires s.SlotOf(headers[k]) != s.SlotOf(ws[0].target)
    ensures Kept(s, m.Set(s.SlotOf(ws[0].target), p), headers, ws[1..])[k] == Kept(s, m, headers, ws)[k]
  {
    OtherTarget(ws, headers[k]);
  }

  /** One assignment replaces the nothing of its header by the portion. */
  lemma KeptStep(s: Shape, m: Masses, headers: seq<Node>, ws: seq<Weight>, p: nat)
    requires m.For(s) && Nodes(s, headers) && DistinctSlots(s, headers) && p <= UINT64_MAX
    requires ws != [] && Distinct(ws) && ws[0].target in headers
    ensures Total(Kept(s, m.Set(s.SlotOf(ws[0].target), p), headers, ws[1..])) == Total(Kept(s, m, headers, ws)) + p
  {
    var h := ws[0].target;
    var i :| 0 <= i < |headers| && headers[i] == h;
    var before, after := Kept(s, m, headers, ws), Kept(s, m.Set(s.SlotOf(h), p), headers, ws[1..]);
    assert HasTarget(ws, headers[i]);
    assert !HasTarget(ws[1..], h);
    forall k | 0 <= k < |headers| && k != i
      ensures after[k] == before[k]
    {
      assert s.SlotOf(headers[k]) != s.SlotOf(headers[i]);
      KeptElsewhere(s, m, headers, ws, p, k);
    }
    assert after == before[i := p];
    TotalUpdate(before, i, p);
  }

  lemma OtherTarget(ws: seq<Weight>, t: Node)
    requires ws != [] && ws[0].target != t
    ensures HasTarget(ws, t) <==> HasTarget(ws[1..], t)
  {
    if HasTarget(ws, t) {
      var j :| 0 <= j < |ws| && ws[j].target == t;
      assert ws[1..][j - 1].target == t;
    }
    if HasTarget(ws[1..], t) {
      var j :| 0 <= j < |ws[1..]| && ws[1..][j].target == t;
      assert ws[j + 1].target == t;
    }
  }

  ghost predicate TargetsAmong(ws: seq<Weight>, headers: seq<Node>) {
    forall j :: 0 <= j < |ws| ==> ws[j].target in headers
  }

  lemma RestOfTargets(s: Shape, ws: seq<Weight>, headers: seq<Node>)
    requires ws != [] && Distinct(ws) && TargetNodes(s, ws) && TargetsAmong(ws, headers)
    ensures Distinct(ws[1..]) && TargetNodes(s, ws[1..]) && TargetsAmong(ws[1..], headers)
  {
  }

  /** After all assignments the headers hold the portions and whatever was kept. */
  lemma {:induction false} AssignAllTotal(s: Shape, m: Masses, headers: seq<Node>, ws: seq<Weight>, ps: seq<nat>)
    requires m.For(s) && Nodes(s, headers) && DistinctSlots(s, headers)
    requires Distinct(ws) && TargetNodes(s, ws) && InMassRange(ps) && |ps| == |ws|
    requires TargetsAmong(ws, headers)
    ensures Total(HeaderMasses(s, AssignAll(s, m, ws, ps), headers)) == Total(Kept(s, m, headers, ws)) + Total(ps)
    decreases |ws|
  {
    if ws != [] {
      var m' := m.Set(s.SlotOf(ws[0].target), ps[0]);
      KeptStep(s, m, headers, ws, ps[0]);
      TotalFront(ps);
      RestOfTargets(s, ws, headers);
      AssignAllTotal(s, m', headers, ws[1..], ps[1..]);
    }
  }

  /** Nodes that keep their mass elsewhere are not affected, nor is what has left the nodes. */
  lemma {:induction false} AssignAllElsewhere(s: Shape, m: Masses, ws: seq<Weight>, ps: seq<nat>, n: Node)
    requires m.For(s) && TargetNodes(s, ws) && InMassRange(ps) && |ps| == |ws| && n < |s.loopOf|
    ensures (forall j :: 0 <= j < |ws| ==> s.SlotOf(ws[j].target) != s.SlotOf(n)) ==>
              AssignAll(s, m, ws, ps).Get(s.SlotOf(n)) == m.Get(s.SlotOf(n))
    ensures AssignAll(s, m, ws, ps).back == m.back && AssignAll(s, m, ws, ps).exits == m.exits
    decreases |ws|
  {
    if ws != [] {
      AssignAllElsewhere(s, m.Set(s.SlotOf(ws[0].target), ps[0]), ws[1..], ps[1..], n);
    }
  }

  ghost predicate TargetSlotsDiffer(s: Shape, ws: seq<Weight>)
    requires s.Valid() && TargetNodes(s, ws)
  {
    forall i, j :: 0 <= i < j < |ws| ==> s.SlotOf(ws[i].target) != s.SlotOf(ws[j].target)
  }

  /** Each target ends up with its portion. */
  lemma {:induction false} AssignAllGets(s: Shape, m: Masses, ws: seq<Weight>, ps: seq<nat>, i: nat)
    requires m.For(s) && TargetNodes(s, ws) && InMassRange(ps) && |ps| == |ws| && i < |ws|
    requires TargetSlotsDiffer(s, ws)
    ensures AssignAll(s, m, ws, ps).Get(s.SlotOf(ws[i].target)) == ps[i]
    decreases |ws|
  {
    var m' := m.Set(s.SlotOf(ws[0].target), ps[0]);
    if i == 0 {
      AssignAllElsewhere(s, m', ws[1..], ps[1..], ws[0].target);
    } else {
      AssignAllGets(s, m', ws[1..], ps[1..], i - 1);
    }
  }

  // ----- when the full mass ends up on the headers -----

  /** Headers nothing flows back to hold no mass. */
  ghost predicate IdleHeadersEmpty(s: Shape, m: Masses, headers: seq<Node>, back: seq<nat>)
    requires m.For(s) && Nodes(s, headers) && |back| == |headers|
  {
    forall i :: 0 <= i < |headers| && back[i] == 0 ==> m.Get(s.SlotOf(headers[i])) == 0
  }

  /** Every header holds some mass. */
  ghost predicate HeadersHoldSome(s: Shape, m: Masses, headers: seq<Node>)
    requires m.For(s) && Nodes(s, headers)
  {
    forall i :: 0 <= i < |headers| ==> 0 < m.Get(s.SlotOf(headers[i]))
  }

  lemma {:induction false} TotalIsZero(cs: seq<nat>)
    ensures Total(cs) == 0 <==> forall i :: 0 <= i < |cs| ==> cs[i] == 0
    decreases |cs|
  {
    if cs != [] {
      TotalIsZero(cs[..|cs| - 1]);
      assert forall i :: 0 <= i < |cs| - 1 ==> cs[..|cs| - 1][i] == cs[i];
    }
  }

  /** Distributing the full mass over the back-edge masses leaves exactly the full mass on the
      headers if and only if the headers without back-edge mass had none of their own. */
  lemma HeadersHoldFullMass(s: Shape, m: Masses, headers: seq<Node>, back: seq<nat>, ws: seq<Weight>)
    requires m.For(s) && Nodes(s, headers) && DistinctSlots(s, headers) && Increasing(headers)
    requires |back| == |headers| && CoversTargets(ws, BackWeights(headers, back)) && Takeable(ws) && ws != []
    requires TargetNodes(s, ws) && InMassRange(Portions(ws, FULL))
    ensures var after := Total(HeaderMasses(s, AssignAll(s, m, ws, Portions(ws, FULL)), headers));
            && after >= FULL
            && (after == FULL <==> IdleHeadersEmpty(s, m, headers, back))
            && (HeadersHoldSome(s, m, headers) ==> (after == FULL <==> forall i :: 0 <= i < |back| ==> 0 < back[i]))
  {
    BackWeightsTargets(headers, back);
    var bs := BackWeights(headers, back);
    forall j | 0 <= j < |ws|
      ensures ws[j].target in headers
    {
      assert HasTarget(ws, ws[j].target);
      assert HasTarget(bs, ws[j].target);
      var i :| 0 <= i < |bs| && bs[i].target == ws[j].target;
    }
    PortionsAddUp(ws, FULL);
    AssignAllTotal(s, m, headers, ws, Portions(ws, FULL));
    var ks := Kept(s, m, headers, ws);
    TotalIsZero(ks);
    forall i | 0 <= i < |headers|
      ensures ks[i] == if back[i] > 0 then 0 else m.Get(s.SlotOf(headers[i]))
    {
      assert HasTarget(ws, headers[i]) <==> HasTarget(bs, headers[i]);
    }
    if IdleHeadersEmpty(s, m, headers, back) {
      assert forall i :: 0 <= i < |ks| ==> ks[i] == 0;
    }
    if Total(ks) == 0 {
      forall i | 0 <= i < |headers| && back[i] == 0
        ensures m.Get(s.SlotOf(headers[i])) == 0
      {
        assert ks[i] == 0;
      }
    }
  }

  // ----- seeding the headers -----

  /** Equal weights for all headers. */
  function UnitWeights(headers: seq<Node>): (ws: seq<Weight>)
    ensures |ws| == |headers| && forall i :: 0 <= i < |ws| ==> ws[i] == Weight(Local, headers[i], 1)
  {
    seq(|headers|, i requires 0 <= i < |headers| => Weight(Local, headers[i], 1))
  }

  lemma {:induction false} UnitSum(ws: seq<Weight>)
    requires forall i :: 0 <= i < |ws| ==> ws[i].amount == 1
    ensures Sum(ws) == |ws|
  {
    if ws != [] {
      UnitSum(ws[..|ws| - 1]);
    }
  }

  lemma SeedsAreTakeable(s: Shape, headers: seq<Node>)
    requires Nodes(s, headers) && |headers| < TWO32
    ensures Takeable(UnitWeights(headers)) && TargetNodes(s, UnitWeights(headers))
    ensures InMassRange(Portions(UnitWeights(headers), FULL))
  {
    UnitSum(UnitWeights(headers));
    PortionsInRange(UnitWeights(headers), FULL);
  }

  /** Equal weights hand exactly the full mass to the headers, a share to each. */
  lemma SeedsHoldFullMass(s: Shape, m: Masses, headers: seq<Node>)
    requires m.For(s) && Nodes(s, headers) && DistinctSlots(s, headers)
    requires 0 < |headers| && Takeable(UnitWeights(headers)) && TargetNodes(s, UnitWeights(headers))
    requires InMassRange(Portions(UnitWeights(headers), FULL))
    ensures var ps := Portions(UnitWeights(headers), FULL);
            && HeaderMasses(s, AssignAll(s, m, UnitWeights(headers), ps), headers) == ps
            && Total(ps) == FULL
  {
    var ws := UnitWeights(headers);
    var ps := Portions(ws, FULL);
    PortionsAddUp(ws, FULL);
    forall i | 0 <= i < |headers|
      ensures HeaderMasses(s, AssignAll(s, m, ws, ps), headers)[i] == ps[i]
    {
      AssignAllGets(s, m, ws, ps, i);
    }
  }
}
