/** Where distributed mass arrives: at every node, at every header by its back edges, and at every
    exit, exactly the portions of the edges that lead there. */
module BfiDelivery {
  import opened Wrappers

  import opened BfiProbability
  import opened BfiCombining
  import opened BfiNormalize
  import opened BfiDistribution
  import opened BfiMass
  import opened BfiDistribute

  /** The portions of the weights of one type for one target, added up. */
  ghost function PortionSum(ws: seq<Weight>, ps: seq<nat>, kind: DistType, t: Node): nat
    requires |ps| == |ws|
  {
    if ws == [] then 0
    else (if ws[0].kind == kind && ws[0].target == t then ps[0] else 0) + PortionSum(ws[1..], ps[1..], kind, t)
  }

  /** The portions of the local weights for the nodes that keep their mass in one place. */
  ghost function LocalSum(s: Shape, ws: seq<Weight>, ps: seq<nat>, slot: Slot): nat
    requires s.Valid() && |ps| == |ws|
  {
    if ws == [] then 0
    else
      (if ws[0].kind == Local && ws[0].target < |s.loopOf| && s.SlotOf(ws[0].target) == slot then ps[0] else 0)
      + LocalSum(s, ws[1..], ps[1..], slot)
  }

  /** The mass of the exits to one node. */
  ghost function ExitsTo(es: seq<(Node, nat)>, t: Node): nat {
    if es == [] then 0
    else ExitsTo(es[..|es| - 1], t) + (if es[|es| - 1].0 == t then es[|es| - 1].1 else 0)
  }

  /** A mass after an addition that stops at 64 bits. */
  function Raised(mass: nat, more: nat): nat {
    Min(mass + more, 0xFFFF_FFFF_FFFF_FFFF)
  }

  /** A place that keeps the mass of nodes. */
  ghost predicate SlotReceives(s: Shape, m: Masses, m': Masses, ws: seq<Weight>, ps: seq<nat>, slot: Slot)
    requires m.For(s) && m'.For(s) && |ps| == |ws|
    requires match slot case OfNode(n) => n < |m.node| case OfLoop(l) => l < |m.loop|
  {
    m'.Get(slot) == Raised(m.Get(slot), LocalSum(s, ws, ps, slot))
  }

  ghost predicate NodesReceive(s: Shape, m: Masses, m': Masses, ws: seq<Weight>, ps: seq<nat>)
    requires m.For(s) && m'.For(s) && |ps| == |ws|
  {
    && (forall n :: 0 <= n < |m.node| ==> SlotReceives(s, m, m', ws, ps, OfNode(n)))
    && (forall l :: 0 <= l < |m.loop| ==> SlotReceives(s, m, m', ws, ps, OfLoop(l)))
  }

  /** The back edges to the `i`-th header of loop `l`. */
  ghost predicate HeaderReceives(s: Shape, m: Masses, m': Masses, outer: Option<nat>, ws: seq<Weight>, ps: seq<nat>,
                                 l: nat, i: nat)
    requires m.For(s) && m'.For(s) && |ps| == |ws| && l < |m.back| && i < |m.back[l]|
  {
    m'.back[l][i] == if outer == Some(l)
                     then Raised(m.back[l][i], PortionSum(ws, ps, Backedge, s.loops[l].nodes[i]))
                     else m.back[l][i]
  }

  ghost predicate HeadersReceive(s: Shape, m: Masses, m': Masses, outer: Option<nat>, ws: seq<Weight>, ps: seq<nat>)
    requires m.For(s) && m'.For(s) && |ps| == |ws|
  {
    forall l, i :: 0 <= l < |m.back| && 0 <= i < |m.back[l]| ==> HeaderReceives(s, m, m', outer, ws, ps, l, i)
  }

  /** The exits of loop `l`: more of them, with exactly the portions for each node. */
  ghost predicate ExitReceives(s: Shape, m: Masses, m': Masses, outer: Option<nat>, ws: seq<Weight>, ps: seq<nat>,
                               l: nat)
    requires m.For(s) && m'.For(s) && |ps| == |ws| && l < |m.exits|
  {
    if outer == Some(l) then
      && m.exits[l] <= m'.exits[l]
      && forall t :: ExitsTo(m'.exits[l], t) == ExitsTo(m.exits[l], t) + PortionSum(ws, ps, Exit, t)
    else m'.exits[l] == m.exits[l]
  }

  ghost predicate ExitsReceive(s: Shape, m: Masses, m': Masses, outer: Option<nat>, ws: seq<Weight>, ps: seq<nat>)
    requires m.For(s) && m'.For(s) && |ps| == |ws|
  {
    forall l :: 0 <= l < |m.exits| ==> ExitReceives(s, m, m', outer, ws, ps, l)
  }

  /** `m'` is `m` after every weight's portion has arrived where its edge leads. */
  ghost predicate Delivered(s: Shape, m: Masses, m': Masses, outer: Option<nat>, ws: seq<Weight>, ps: seq<nat>) {
    && m.For(s) && m'.For(s) && |ps| == |ws|
    && NodesReceive(s, m, m', ws, ps)
    && HeadersReceive(s, m, m', outer, ws, ps)
    && ExitsReceive(s, m, m', outer, ws, ps)
  }

  // ----- one portion -----

  lemma OneSum(w: Weight, taken: nat, kind: DistType, t: Node)
    ensures PortionSum([w], [taken], kind, t) == if w.kind == kind && w.target == t then taken else 0
  {
    assert PortionSum([w][1..], [taken][1..], kind, t) == 0;
  }

  lemma OneLocalSum(s: Shape, w: Weight, taken: nat, slot: Slot)
    requires s.Valid() && w.target < |s.loopOf|
    ensures LocalSum(s, [w], [taken], slot) == if w.kind == Local && s.SlotOf(w.target) == slot then taken else 0
  {
    assert LocalSum(s, [w][1..], [taken][1..], slot) == 0;
  }

  lemma NodeReceivesOne(s: Shape, m: Masses, outer: Option<nat>, w: Weight, taken: nat)
    requires m.For(s) && Depositable(s, outer, w) && taken <= UINT64_MAX
    ensures NodesReceive(s, m, Deposit(s, m, outer, w, taken), [w], [taken])
  {
    var m' := Deposit(s, m, outer, w, taken);
    MassArithmetic(m.Get(s.SlotOf(w.target)), taken);
    forall n | 0 <= n < |m.node|
      ensures SlotReceives(s, m, m', [w], [taken], OfNode(n))
    {
      OneLocalSum(s, w, taken, OfNode(n));
    }
    forall l | 0 <= l < |m.loop|
      ensures SlotReceives(s, m, m', [w], [taken], OfLoop(l))
    {
      OneLocalSum(s, w, taken, OfLoop(l));
    }
  }

  lemma HeaderReceivesOne(s: Shape, m: Masses, outer: Option<nat>, w: Weight, taken: nat)
    requires m.For(s) && Depositable(s, outer, w) && taken <= UINT64_MAX
    ensures HeadersReceive(s, m, Deposit(s, m, outer, w, taken), outer, [w], [taken])
  {
    var m' := Deposit(s, m, outer, w, taken);
    forall l, i | 0 <= l < |m.back| && 0 <= i < |m.back[l]|
      ensures HeaderReceives(s, m, m', outer, [w], [taken], l, i)
    {
      OneSum(w, taken, Backedge, s.loops[l].nodes[i]);
      MassArithmetic(m.back[l][i], taken);
      if outer == Some(l) && w.kind == Backedge {
        var h := HeaderIndex(s, l, w.target);
        assert i != h ==> s.loops[l].nodes[i] != s.loops[l].nodes[h];
      }
    }
  }

  lemma ExitReceivesOne(s: Shape, m: Masses, outer: Option<nat>, w: Weight, taken: nat)
    requires m.For(s) && Depositable(s, outer, w) && taken <= UINT64_MAX
    ensures ExitsReceive(s, m, Deposit(s, m, outer, w, taken), outer, [w], [taken])
  {
    var m' := Deposit(s, m, outer, w, taken);
    forall l | 0 <= l < |m.exits|
      ensures ExitReceives(s, m, m', outer, [w], [taken], l)
    {
      forall t
        ensures outer == Some(l) ==>
                  ExitsTo(m'.exits[l], t) == ExitsTo(m.exits[l], t) + PortionSum([w], [taken], Exit, t)
      {
        OneSum(w, taken, Exit, t);
        assert (m.exits[l] + [(w.target, taken)])[..|m.exits[l]|] == m.exits[l];
      }
    }
  }

  lemma DepositDelivers(s: Shape, m: Masses, outer: Option<nat>, w: Weight, taken: nat)
    requires m.For(s) && Depositable(s, outer, w) && taken <= UINT64_MAX
    ensures Delivered(s, m, Deposit(s, m, outer, w, taken), outer, [w], [taken])
  {
    NodeReceivesOne(s, m, outer, w, taken);
    HeaderReceivesOne(s, m, outer, w, taken);
    ExitReceivesOne(s, m, outer, w, taken);
  }

  // ----- all portions -----

  lemma FirstAndRest(s: Shape, ws: seq<Weight>, ps: seq<nat>)
    requires s.Valid() && |ps| == |ws| && ws != []
    ensures forall kind, t ::
              PortionSum(ws, ps, kind, t)
              == PortionSum([ws[0]], [ps[0]], kind, t) + PortionSum(ws[1..], ps[1..], kind, t)
    ensures forall slot ::
              LocalSum(s, ws, ps, slot) == LocalSum(s, [ws[0]], [ps[0]], slot) + LocalSum(s, ws[1..], ps[1..], slot)
  {
    assert [ws[0]][1..] == [] && [ps[0]][1..] == [];
  }

  /** First one portion, then the others. */
  lemma DeliveredThen(s: Shape, m: Masses, m1: Masses, m': Masses, outer: Option<nat>, ws: seq<Weight>, ps: seq<nat>)
    requires ws != [] && |ps| == |ws| && Delivered(s, m, m1, outer, [ws[0]], [ps[0]])
    requires Delivered(s, m1, m', outer, ws[1..], ps[1..])
    ensures Delivered(s, m, m', outer, ws, ps)
  {
    FirstAndRest(s, ws, ps);
    forall n | 0 <= n < |m.node|
      ensures SlotReceives(s, m, m', ws, ps, OfNode(n))
    {
      assert SlotReceives(s, m, m1, [ws[0]], [ps[0]], OfNode(n));
      assert SlotReceives(s, m1, m', ws[1..], ps[1..], OfNode(n));
    }
    forall l | 0 <= l < |m.loop|
      ensures SlotReceives(s, m, m', ws, ps, OfLoop(l))
    {
      assert SlotReceives(s, m, m1, [ws[0]], [ps[0]], OfLoop(l));
      assert SlotReceives(s, m1, m', ws[1..], ps[1..], OfLoop(l));
    }
    forall l, i | 0 <= l < |m.back| && 0 <= i < |m.back[l]|
      ensures HeaderReceives(s, m, m', outer, ws, ps, l, i)
    {
      assert HeaderReceives(s, m, m1, outer, [ws[0]], [ps[0]], l, i);
      assert HeaderReceives(s, m1, m', outer, ws[1..], ps[1..], l, i);
    }
    forall l | 0 <= l < |m.exits|
      ensures ExitReceives(s, m, m', outer, ws, ps, l)
    {
      assert ExitReceives(s, m, m1, outer, [ws[0]], [ps[0]], l);
      assert ExitReceives(s, m1, m', outer, ws[1..], ps[1..], l);
    }
  }

  lemma NothingDelivered(s: Shape, m: Masses, outer: Option<nat>)
    requires m.For(s)
    ensures Delivered(s, m, m, outer, [], [])
  {
  }

  /** Crediting all portions, in whatever order, gives each place exactly the portions that are for
      it, up to the largest 64-bit number, and leaves all others alone. */
  lemma {:induction false} DepositAllDelivers(s: Shape, m: Masses, outer: Option<nat>, ws: seq<Weight>, ps: seq<nat>)
    requires m.For(s) && AllDepositable(s, outer, ws) && InMassRange(ps) && |ps| == |ws|
    ensures Delivered(s, m, DepositAll(s, m, outer, ws, ps), outer, ws, ps)
    decreases |ws|
  {
    if ws == [] {
      NothingDelivered(s, m, outer);
    } else {
      var m1 := Deposit(s, m, outer, ws[0], ps[0]);
      DepositDelivers(s, m, outer, ws[0], ps[0]);
      DepositAllDelivers(s, m1, outer, ws[1..], ps[1..]);
      DeliveredThen(s, m, m1, DepositAll(s, m, outer, ws, ps), outer, ws, ps);
    }
  }

  /** `m'` is `m` after the mass of a node has been distributed over its edges: one weight for each
      target, as precise as 31 bits allow; to each weight a portion in proportion; and each portion
      to where its edge leads. */
  ghost predicate Distributed(s: Shape, m: Masses, m': Masses, outer: Option<nat>, source: Node,
                              edges: seq<Weight>, ws: seq<Weight>, ps: seq<nat>)
    requires m.For(s) && source < |s.loopOf|
  {
    && CoversTargets(ws, edges) && KeepsKinds(ws, edges) && Precise(ws, edges)
    && SharedByWeight(ps, ws, m.Get(s.SlotOf(source)))
    && Delivered(s, m, m', outer, ws, ps)
  }

  lemma PortionsDistribute(s: Shape, m: Masses, outer: Option<nat>, source: Node, edges: seq<Weight>, ws: seq<Weight>)
    requires m.For(s) && source < |s.loopOf| && AllDepositable(s, outer, ws) && Takeable(ws)
    requires CoversTargets(ws, edges) && KeepsKinds(ws, edges) && Precise(ws, edges)
    requires m.Get(s.SlotOf(source)) <= UINT64_MAX && InMassRange(Portions(ws, m.Get(s.SlotOf(source))))
    ensures var ps := Portions(ws, m.Get(s.SlotOf(source)));
            Distributed(s, m, DepositAll(s, m, outer, ws, ps), outer, source, edges, ws, ps)
  {
    PortionsAreProportional(ws, m.Get(s.SlotOf(source)));
    DepositAllDelivers(s, m, outer, ws, Portions(ws, m.Get(s.SlotOf(source))));
  }
}
