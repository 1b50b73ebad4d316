/** Moving mass along edges: to successors, back to loop headers and out of loops. */
module BfiDistribute {
  import opened Wrappers

  import opened BfiProbability
  import opened BfiCombining
  import opened BfiNormalize
  import opened BfiMass

  /** All masses: of nodes, of packaged loops, of the back edges to each header of each loop, and
      of the exits of each loop. */
  datatype Masses = Masses(node: seq<nat>, loop: seq<nat>, back: seq<seq<nat>>, exits: seq<seq<(Node, nat)>>) {
    ghost predicate For(s: Shape) {
      && s.Valid() && |node| == |s.loopOf| && |loop| == |back| == |exits| == |s.loops|
      && (forall l :: 0 <= l < |back| ==> |back[l]| == s.loops[l].numHeaders)
      && (forall i :: 0 <= i < |node| ==> node[i] <= UINT64_MAX)
      && (forall l :: 0 <= l < |loop| ==> loop[l] <= UINT64_MAX)
      && (forall l, i :: 0 <= l < |back| && 0 <= i < |back[l]| ==> back[l][i] <= UINT64_MAX)
    }

    function Get(slot: Slot): nat
      requires match slot case OfNode(n) => n < |node| case OfLoop(l) => l < |loop|
    {
      match slot
      case OfNode(n) => node[n]
      case OfLoop(l) => loop[l]
    }

    function Set(slot: Slot, mass: nat): Masses
      requires match slot case OfNode(n) => n < |node| case OfLoop(l) => l < |loop|
    {
      match slot
      case OfNode(n) => this.(node := node[n := mass])
      case OfLoop(l) => this.(loop := loop[l := mass])
    }
  }

  /** Back edges and exits only make sense inside a loop. */
  ghost predicate Depositable(s: Shape, outer: Option<nat>, w: Weight)
    requires s.Valid()
  {
    && w.target < |s.loopOf|
    && (w.kind == Local || (outer.Some? && outer.value < |s.loops|))
    && (w.kind == Backedge ==> s.IsHeader(outer.value, w.target))
  }

  /** Credit a portion to where an edge leads. */
  ghost function Deposit(s: Shape, m: Masses, outer: Option<nat>, w: Weight, taken: nat): (r: Masses)
    requires m.For(s) && Depositable(s, outer, w) && taken <= UINT64_MAX
    ensures r.For(s)
  {
    match w.kind
    case Local =>
      var slot := s.SlotOf(w.target);
      MassArithmetic(m.Get(slot), taken);
      m.Set(slot, AddMass(m.Get(slot), taken))
    case Backedge =>
      var l, i := outer.value, HeaderIndex(s, outer.value, w.target);
      MassArithmetic(m.back[l][i], taken);
      var row: seq<nat> := m.back[l];
      m.(back := m.back[l := row[i := AddMass(row[i], taken)]])
    case Exit =>
      var l := outer.value;
      m.(exits := m.exits[l := m.exits[l] + [(w.target, taken)]])
  }

  /** The place the edge leads to can take the portion without saturating. */
  ghost predicate HasRoom(s: Shape, m: Masses, outer: Option<nat>, w: Weight, taken: nat)
    requires m.For(s) && Depositable(s, outer, w)
  {
    match w.kind
    case Local => m.Get(s.SlotOf(w.target)) + taken <= UINT64_MAX
    case Backedge => m.back[outer.value][HeaderIndex(s, outer.value, w.target)] + taken <= UINT64_MAX
    case Exit => true
  }

  // ----- totals -----

  function Totals(css: seq<seq<nat>>): nat {
    if css == [] then 0 else Totals(css[..|css| - 1]) + Total(css[|css| - 1])
  }

  function ExitTotal(es: seq<(Node, nat)>): nat {
    if es == [] then 0 else ExitTotal(es[..|es| - 1]) + es[|es| - 1].1
  }

  function ExitTotals(ess: seq<seq<(Node, nat)>>): nat {
    if ess == [] then 0 else ExitTotals(ess[..|ess| - 1]) + ExitTotal(ess[|ess| - 1])
  }

  /** All the mass there is. */
  function TotalMass(m: Masses): nat {
    Total(m.node) + Total(m.loop) + Totals(m.back) + ExitTotals(m.exits)
  }

  lemma {:induction false} TotalUpdate(cs: seq<nat>, i: nat, c: nat)
    requires i < |cs|
    ensures Total(cs[i := c]) == Total(cs) - cs[i] + c
    ensures cs[i] <= Total(cs)
    decreases |cs|
  {
    if i < |cs| - 1 {
      TotalUpdate(cs[..|cs| - 1], i, c);
      assert cs[i := c][..|cs| - 1] == cs[..|cs| - 1][i := c];
    } else {
      assert cs[i := c][..|cs| - 1] == cs[..|cs| - 1];
    }
  }

  lemma {:induction false} TotalsUpdate(css: seq<seq<nat>>, l: nat, cs: seq<nat>)
    requires l < |css|
    ensures Totals(css[l := cs]) == Totals(css) - Total(css[l]) + Total(cs)
    ensures Total(css[l]) <= Totals(css)
    decreases |css|
  {
    if l < |css| - 1 {
      TotalsUpdate(css[..|css| - 1], l, cs);
      assert css[l := cs][..|css| - 1] == css[..|css| - 1][l := cs];
    } else {
      assert css[l := cs][..|css| - 1] == css[..|css| - 1];
    }
  }

  lemma {:induction false} ExitTotalsUpdate(ess: seq<seq<(Node, nat)>>, l: nat, e: (Node, nat))
    requires l < |ess|
    ensures ExitTotals(ess[l := ess[l] + [e]]) == ExitTotals(ess) + e.1
    decreases |ess|
  {
    if l < |ess| - 1 {
      ExitTotalsUpdate(ess[..|ess| - 1], l, e);
      assert ess[l := ess[l] + [e]][..|ess| - 1] == ess[..|ess| - 1][l := ess[l] + [e]];
    } else {
      assert ess[l := ess[l] + [e]][..|ess| - 1] == ess[..|ess| - 1];
      assert (ess[l] + [e])[..|ess[l]|] == ess[l];
    }
  }

  /** Depositing adds the portion to the total, unless the place it goes to saturates. */
  lemma DepositAdds(s: Shape, m: Masses, outer: Option<nat>, w: Weight, taken: nat)
    requires m.For(s) && Depositable(s, outer, w) && taken <= UINT64_MAX
    ensures TotalMass(Deposit(s, m, outer, w, taken)) <= TotalMass(m) + taken
    ensures TotalMass(Deposit(s, m, outer, w, taken)) == TotalMass(m) + taken <==> HasRoom(s, m, outer, w, taken)
    ensures TotalMass(m) + taken <= UINT64_MAX ==> HasRoom(s, m, outer, w, taken)
  {
    match w.kind
    case Local =>
      var slot := s.SlotOf(w.target);
      MassArithmetic(m.Get(slot), taken);
      match slot {
        case OfNode(n) => TotalUpdate(m.node, n, AddMass(m.node[n], taken));
        case OfLoop(l) => TotalUpdate(m.loop, l, AddMass(m.loop[l], taken));
      }
    case Backedge =>
      var l, i := outer.value, HeaderIndex(s, outer.value, w.target);
      var c := AddMass(m.back[l][i], taken);
      MassArithmetic(m.back[l][i], taken);
      TotalUpdate(m.back[l], i, c);
      TotalsUpdate(m.back, l, m.back[l][i := c]);
    case Exit =>
      ExitTotalsUpdate(m.exits, outer.value, (w.target, taken));
  }

  // ----- distributing -----

  ghost predicate AllDepositable(s: Shape, outer: Option<nat>, ws: seq<Weight>)
    requires s.Valid()
  {
    forall j :: 0 <= j < |ws| ==> Depositable(s, outer, ws[j])
  }

  ghost predicate InMassRange(ps: seq<nat>) {
    forall j :: 0 <= j < |ps| ==> ps[j] <= UINT64_MAX
  }

  /** Credit one portion to each edge. */
  ghost function DepositAll(s: Shape, m: Masses, outer: Option<nat>, ws: seq<Weight>, ps: seq<nat>): (r: Masses)
    requires m.For(s) && AllDepositable(s, outer, ws) && InMassRange(ps) && |ps| == |ws|
    ensures r.For(s)
    decreases |ws|
  {
    if ws == [] then m else DepositAll(s, Deposit(s, m, outer, ws[0], ps[0]), outer, ws[1..], ps[1..])
  }

  ghost predicate AllHaveRoom(s: Shape, m: Masses, outer: Option<nat>, ws: seq<Weight>, ps: seq<nat>)
    requires m.For(s) && AllDepositable(s, outer, ws) && InMassRange(ps) && |ps| == |ws|
    decreases |ws|
  {
    ws == [] ||
    (HasRoom(s, m, outer, ws[0], ps[0])
     && AllHaveRoom(s, Deposit(s, m, outer, ws[0], ps[0]), outer, ws[1..], ps[1..]))
  }

  /** The total grows by all the portions exactly when no addition saturates, and none does if
      that total fits in a mass. */
  lemma {:induction false} DepositAllAdds(s: Shape, m: Masses, outer: Option<nat>, ws: seq<Weight>, ps: seq<nat>)
    requires m.For(s) && AllDepositable(s, outer, ws) && InMassRange(ps) && |ps| == |ws|
    ensures TotalMass(DepositAll(s, m, outer, ws, ps)) <= TotalMass(m) + Total(ps)
    ensures TotalMass(DepositAll(s, m, outer, ws, ps)) == TotalMass(m) + Total(ps)
            <==> AllHaveRoom(s, m, outer, ws, ps)
    ensures TotalMass(m) + Total(ps) <= UINT64_MAX ==> AllHaveRoom(s, m, outer, ws, ps)
    decreases |ws|
  {
    if ws != [] {
      TotalFront(ps);
      DepositAdds(s, m, outer, ws[0], ps[0]);
      DepositAllAdds(s, Deposit(s, m, outer, ws[0], ps[0]), outer, ws[1..], ps[1..]);
    }
  }

  lemma {:induction false} PortionsInRange(ws: seq<Weight>, mass: nat)
    requires Takeable(ws) && mass <= UINT64_MAX
    ensures InMassRange(Portions(ws, mass))
    decreases |ws|
  {
    if ws != [] {
      TakeableRest(ws);
      ScaleByProbability(mass, ws[0].amount, Sum(ws));
      var p := Share(mass, ws[0].amount, Sum(ws));
      PortionsInRange(ws[1..], mass - p);
      assert Portions(ws, mass) == [p] + Portions(ws[1..], mass - p);
    }
  }

  lemma DepositableKept(s: Shape, outer: Option<nat>, out: seq<Weight>, ws: seq<Weight>)
    requires s.Valid() && AllDepositable(s, outer, ws) && KeepsKinds(out, ws)
    ensures AllDepositable(s, outer, out)
  {
    forall j | 0 <= j < |out|
      ensures Depositable(s, outer, out[j])
    {
      assert HasEdgeLike(ws, out[j]);
      var i :| 0 <= i < |ws| && ws[i].target == out[j].target && ws[i].kind == out[j].kind;
      assert Depositable(s, outer, ws[i]);
    }
  }
}
