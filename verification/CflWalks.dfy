/** Reachability in terms of walks: what the automaton accepts is what the closed sets hold. */
module CflWalks {
  import opened CflGraph
  import opened CflRules
  import opened CflReach

  /** A walk along assignments, against assignments and over memory aliases. A memory alias is
      witnessed by a walk between the two nodes above. */
  datatype Walk =
    | Start(at: Node)
    | Assign(prev: Walk, to: Node)
    | RevAssign(prev: Walk, to: Node)
    | MemAlias(prev: Walk, to: Node, via: Walk)
  {
    function From(): Node {
      match this
      case Start(at) => at
      case Assign(prev, _) => prev.From()
      case RevAssign(prev, _) => prev.From()
      case MemAlias(prev, _, _) => prev.From()
    }

    function End(): Node {
      match this
      case Start(at) => at
      case Assign(_, to) => to
      case RevAssign(_, to) => to
      case MemAlias(_, to, _) => to
    }

    /** Has the walk used an assignment? */
    predicate Assigned() {
      match this
      case Start(_) => false
      case Assign(_, _) => true
      case RevAssign(prev, _) => prev.Assigned()
      case MemAlias(prev, _, _) => prev.Assigned()
    }

    /** Has the walk gone against an assignment? */
    predicate Reversed() {
      match this
      case Start(_) => false
      case Assign(prev, _) => prev.Reversed()
      case RevAssign(_, _) => true
      case MemAlias(prev, _, _) => prev.Reversed()
    }

    /** How the walk reads and writes is what the suffix of the state says; a walk that goes nowhere
        is in none. */
    predicate In(s: MatchState) {
      match s
      case FlowFromReadOnly => !MemAlias? && Reversed() && !Assigned()
      case FlowFromMemAliasNoReadWrite => MemAlias? && !Reversed() && !Assigned()
      case FlowFromMemAliasReadOnly => MemAlias? && Reversed() && !Assigned()
      case FlowToWriteOnly => !MemAlias? && !Reversed() && Assigned()
      case FlowToReadWrite => !MemAlias? && Reversed() && Assigned()
      case FlowToMemAliasWriteOnly => MemAlias? && !Reversed() && Assigned()
      case FlowToMemAliasReadWrite => MemAlias? && Reversed() && Assigned()
    }

    function Phase(): Phase {
      if Assigned() then (if MemAlias? then S4 else S3) else (if MemAlias? then S2 else S1)
    }

    /** Reverse assignments come before assignments, and no two memory aliases follow each other. */
    ghost predicate Accepted(g: Graph) {
      match this
      case Start(at) => Has(g, at)
      case Assign(prev, to) => prev.Accepted(g) && Assigns(g, prev.End(), to)
      case RevAssign(prev, to) => prev.Accepted(g) && Assigns(g, to, prev.End()) && !prev.Assigned()
      case MemAlias(prev, to, via) =>
        && prev.Accepted(g) && via.Accepted(g) && !prev.MemAlias? && Has(g, to)
        && prev.End() == Below(via.From()) && to == Below(via.End())
    }
  }

  /** The four states of the automaton. */
  datatype Phase = S1 | S2 | S3 | S4

  function PhaseOf(s: MatchState): Phase {
    match s
    case FlowFromReadOnly => S1
    case FlowFromMemAliasNoReadWrite => S2
    case FlowFromMemAliasReadOnly => S2
    case FlowToWriteOnly => S3
    case FlowToReadWrite => S3
    case FlowToMemAliasWriteOnly => S4
    case FlowToMemAliasReadWrite => S4
  }

  /** Whatever may follow in `q` may follow in `p`. */
  predicate Allows(p: Phase, q: Phase) {
    p == q || p == S1 || q == S4
  }

  ghost predicate Related(facts: set<Item>, a: Node, b: Node) {
    exists s :: Item(a, b, s) in facts
  }

  ghost predicate RelatedIn(facts: set<Item>, a: Node, b: Node, q: Phase) {
    exists s :: Item(a, b, s) in facts && Allows(PhaseOf(s), q)
  }

  /** An accepted walk joins the nodes. */
  ghost predicate Joined(g: Graph, a: Node, b: Node) {
    exists w: Walk :: w.Accepted(g) && w.From() == a && w.End() == b
  }

  // ----- every walk is recorded -----

  lemma AssignRecorded(g: Graph, facts: set<Item>, mem: set<(Node, Node)>, a: Node, p: Node, t: Node, q: Phase)
    requires Closed(g, facts, mem) && Assigns(g, p, t) && a != t
    requires a == p || RelatedIn(facts, a, p, q)
    ensures RelatedIn(facts, a, t, S3)
  {
    if a == p {
      assert EdgeRule(g, facts, p, t);
      assert Item(a, t, FlowToWriteOnly) in facts;
    } else {
      var s :| Item(a, p, s) in facts && Allows(PhaseOf(s), q);
      assert Expanded(g, facts, mem, Item(a, p, s));
      assert AssignRule(g, facts, Item(a, p, s), t);
      assert Item(a, t, OnAssign(s)) in facts;
    }
  }

  lemma RevAssignRecorded(g: Graph, facts: set<Item>, mem: set<(Node, Node)>, a: Node, p: Node, t: Node, q: Phase)
    requires WellFormed(g) && Closed(g, facts, mem) && Assigns(g, t, p) && a != t
    requires a == p || (RelatedIn(facts, a, p, q) && (q == S1 || q == S2))
    ensures RelatedIn(facts, a, t, S1)
  {
    if a == p {
      assert EdgeRule(g, facts, t, p);
      assert Item(a, t, FlowFromReadOnly) in facts;
    } else {
      var s :| Item(a, p, s) in facts && Allows(PhaseOf(s), q);
      assert Expanded(g, facts, mem, Item(a, p, s));
      assert EdgeMatches(g, t, p);
      assert RevAssignRule(g, facts, Item(a, p, s), t);
      assert Item(a, t, FlowFromReadOnly) in facts;
    }
  }

  lemma MemAliasRecorded(g: Graph, facts: set<Item>, mem: set<(Node, Node)>, a: Node, p: Node, t: Node, q: Phase)
    requires Closed(g, facts, mem) && (p, t) in mem && a != t
    requires a == p || RelatedIn(facts, a, p, q)
    requires q == S1 || (q == S3 && a != p)
    ensures RelatedIn(facts, a, t, if q == S1 then S2 else S4)
  {
    if a == p {
      assert AliasRule(facts, mem, p, t);
      assert Item(a, t, FlowFromMemAliasNoReadWrite) in facts;
    } else {
      var s :| Item(a, p, s) in facts && Allows(PhaseOf(s), q);
      assert Expanded(g, facts, mem, Item(a, p, s));
      assert MemRule(facts, mem, Item(a, p, s), t);
      assert Item(a, t, OnMem(s).value) in facts;
    }
  }

  /** The ends of an accepted walk are the same node or recorded, in a state that allows at least
      what the walk allows. Nothing is lost by not recording a node with itself: a walk through
      its own start may drop the round trip. */
  lemma {:induction false} WalkIsRecorded(g: Graph, facts: set<Item>, mem: set<(Node, Node)>, w: Walk)
    requires WellFormed(g) && Closed(g, facts, mem) && w.Accepted(g)
    ensures w.From() == w.End() || RelatedIn(facts, w.From(), w.End(), w.Phase())
    ensures Has(g, w.From()) && Has(g, w.End())
    decreases w
  {
    match w
    case Start(_) =>
    case Assign(prev, to) =>
      WalkIsRecorded(g, facts, mem, prev);
      assert EdgeMatches(g, prev.End(), to);
      if w.From() != to {
        AssignRecorded(g, facts, mem, w.From(), prev.End(), to, prev.Phase());
      }
    case RevAssign(prev, to) =>
      WalkIsRecorded(g, facts, mem, prev);
      assert EdgeMatches(g, to, prev.End());
      if w.From() != to {
        RevAssignRecorded(g, facts, mem, w.From(), prev.End(), to, prev.Phase());
      }
    case MemAlias(prev, to, via) =>
      WalkIsRecorded(g, facts, mem, prev);
      WalkIsRecorded(g, facts, mem, via);
      MemAliasStep(g, facts, mem, w);
  }

  lemma MemAliasStep(g: Graph, facts: set<Item>, mem: set<(Node, Node)>, w: Walk)
    requires WellFormed(g) && Closed(g, facts, mem) && w.MemAlias? && w.Accepted(g)
    requires w.prev.From() == w.prev.End() || RelatedIn(facts, w.prev.From(), w.prev.End(), w.prev.Phase())
    requires w.via.From() == w.via.End() || RelatedIn(facts, w.via.From(), w.via.End(), w.via.Phase())
    requires Has(g, w.prev.End())
    ensures w.From() == w.End() || RelatedIn(facts, w.From(), w.End(), w.Phase())
  {
    var a, p, t, q := w.From(), w.prev.End(), w.to, w.prev.Phase();
    if w.via.From() == w.via.End() {
      assert p == t;
    } else if a != t {
      var s :| Item(w.via.From(), w.via.End(), s) in facts && Allows(PhaseOf(s), w.via.Phase());
      assert Expanded(g, facts, mem, Item(w.via.From(), w.via.End(), s));
      assert (p, t) in mem;
      if a == p {
        MemAliasRecorded(g, facts, mem, a, p, t, S1);
      } else {
        MemAliasRecorded(g, facts, mem, a, p, t, q);
      }
    }
  }

  // ----- everything recorded is a walk -----

  ghost predicate JoinedIn(g: Graph, a: Node, b: Node, s: MatchState) {
    exists w: Walk :: w.Accepted(g) && w.From() == a && w.End() == b && w.In(s)
  }

  /** An accepted walk that reads and writes as the state says joins the nodes. */
  ghost predicate WalkedItem(g: Graph, f: Item) {
    JoinedIn(g, f.from, f.to, f.state)
  }

  /** The nodes above the pair are joined. */
  ghost predicate WalkedAlias(g: Graph, p: (Node, Node)) {
    exists w: Walk :: w.Accepted(g) && Below(w.From()) == p.0 && Below(w.End()) == p.1
  }

  lemma ItemAfterAssign(g: Graph, f: Item, t: Node)
    requires WalkedItem(g, f) && Assigns(g, f.to, t)
    ensures WalkedItem(g, Item(f.from, t, OnAssign(f.state)))
  {
    var w: Walk :| w.Accepted(g) && w.From() == f.from && w.End() == f.to && w.In(f.state);
    OverAssign(g, w, t);
  }

  lemma OverAssign(g: Graph, w: Walk, t: Node)
    requires w.Accepted(g) && Assigns(g, w.End(), t)
    ensures JoinedIn(g, w.From(), t, if w.Reversed() then FlowToReadWrite else FlowToWriteOnly)
  {
    var longer := Assign(w, t);
    assert longer.Accepted(g) && longer.From() == w.From() && longer.End() == t && longer.Assigned();
    assert longer.In(if w.Reversed() then FlowToReadWrite else FlowToWriteOnly);
  }

  lemma OverRevAssign(g: Graph, w: Walk, t: Node)
    requires w.Accepted(g) && Assigns(g, t, w.End()) && !w.Assigned()
    ensures JoinedIn(g, w.From(), t, FlowFromReadOnly)
  {
    var longer := RevAssign(w, t);
    assert longer.Accepted(g) && longer.From() == w.From() && longer.End() == t && longer.In(FlowFromReadOnly);
  }

  lemma ItemAfterRevAssign(g: Graph, f: Item, t: Node)
    requires WalkedItem(g, f) && Assigns(g, t, f.to) && OnRevAssign(f.state).Some?
    ensures WalkedItem(g, Item(f.from, t, OnRevAssign(f.state).value))
  {
    var w: Walk :| w.Accepted(g) && w.From() == f.from && w.End() == f.to && w.In(f.state);
    OverRevAssign(g, w, t);
  }

  lemma ItemAfterMem(g: Graph, f: Item, t: Node)
    requires WalkedItem(g, f) && WalkedAlias(g, (f.to, t)) && Has(g, t) && OnMem(f.state).Some?
    ensures WalkedItem(g, Item(f.from, t, OnMem(f.state).value))
  {
    var w: Walk :| w.Accepted(g) && w.From() == f.from && w.End() == f.to && w.In(f.state);
    var via: Walk :| via.Accepted(g) && Below(via.From()) == f.to && Below(via.End()) == t;
    OverMem(g, w, t, via, f.state);
  }

  lemma OverMem(g: Graph, w: Walk, t: Node, via: Walk, s: MatchState)
    requires w.Accepted(g) && w.In(s) && OnMem(s).Some? && Has(g, t)
    requires via.Accepted(g) && w.End() == Below(via.From()) && t == Below(via.End())
    ensures JoinedIn(g, w.From(), t, OnMem(s).value)
  {
    var longer := MemAlias(w, t, via);
    assert longer.Accepted(g) && longer.From() == w.From() && longer.End() == t && longer.MemAlias?;
    assert longer.Reversed() == w.Reversed() && longer.Assigned() == w.Assigned();
    assert longer.In(OnMem(s).value);
  }

  lemma FirstItems(g: Graph, a: Node, b: Node)
    requires WellFormed(g) && Assigns(g, a, b)
    ensures WalkedItem(g, Item(b, a, FlowFromReadOnly)) && WalkedItem(g, Item(a, b, FlowToWriteOnly))
  {
    assert EdgeMatches(g, a, b);
    OverRevAssign(g, Start(b), a);
    OverAssign(g, Start(a), b);
  }

  lemma AliasItem(g: Graph, a: Node, b: Node)
    requires WalkedAlias(g, (a, b)) && Has(g, a) && Has(g, b)
    ensures WalkedItem(g, Item(a, b, FlowFromMemAliasNoReadWrite))
  {
    var via: Walk :| via.Accepted(g) && Below(via.From()) == a && Below(via.End()) == b;
    var w := MemAlias(Start(a), b, via);
    assert !w.prev.Reversed() && !w.prev.Assigned() && w.prev.Accepted(g);
    assert w.Accepted(g) && w.From() == a && w.End() == b;
    assert !w.Reversed() && !w.Assigned();
    assert w.In(FlowFromMemAliasNoReadWrite);
  }

  lemma WalkedExpanded(g: Graph, facts: set<Item>, mem: set<(Node, Node)>, cf: set<Item>,
                       cm: set<(Node, Node)>, f: Item)
    requires WellFormed(g) && InGraph(g, facts, mem) && Expanded(g, facts, mem, f)
    requires forall it :: it in cf <==> it in facts && WalkedItem(g, it)
    requires forall p :: p in cm <==> p in mem && WalkedAlias(g, p)
    requires f in cf
    ensures Expanded(g, cf, cm, f)
  {
    assert BelowRule(g, cm, f) by {
      var w: Walk :| w.Accepted(g) && w.From() == f.from && w.End() == f.to && w.In(f.state);
      assert WalkedAlias(g, (Below(f.from), Below(f.to)));
    }
    forall o
      ensures AssignRule(g, cf, f, o) && RevAssignRule(g, cf, f, o) && MemRule(cf, cm, f, o)
    {
      assert AssignRule(g, facts, f, o) && RevAssignRule(g, facts, f, o) && MemRule(facts, mem, f, o);
      assert EdgeMatches(g, o, f.to);
      if Assigns(g, f.to, o) { ItemAfterAssign(g, f, o); }
      if RevAssigns(g, f.to, o) && OnRevAssign(f.state).Some? { ItemAfterRevAssign(g, f, o); }
      if (f.to, o) in cm && OnMem(f.state).Some? { ItemAfterMem(g, f, o); }
    }
  }

  /** The recorded items that walks account for are closed among themselves. */
  lemma WalkedIsClosed(g: Graph, facts: set<Item>, mem: set<(Node, Node)>, cf: set<Item>, cm: set<(Node, Node)>)
    requires WellFormed(g) && InGraph(g, facts, mem) && Closed(g, facts, mem)
    requires forall it :: it in cf <==> it in facts && WalkedItem(g, it)
    requires forall p :: p in cm <==> p in mem && WalkedAlias(g, p)
    ensures Closed(g, cf, cm)
  {
    forall a, b
      ensures EdgeRule(g, cf, a, b) && AliasRule(cf, cm, a, b)
    {
      assert EdgeRule(g, facts, a, b) && AliasRule(facts, mem, a, b);
      if Assigns(g, a, b) { FirstItems(g, a, b); }
      if (a, b) in cm { AliasItem(g, a, b); }
    }
    forall f | f in cf
      ensures Expanded(g, cf, cm, f)
    {
      WalkedExpanded(g, facts, mem, cf, cm, f);
    }
  }

  /** Every recorded item is a walk that reads and writes just as the suffix of its state says. */
  lemma RecordedIsWalk(g: Graph, facts: set<Item>, mem: set<(Node, Node)>)
    requires WellFormed(g) && InGraph(g, facts, mem) && IsLeastClosed(g, facts, mem)
    ensures forall f :: f in facts ==> WalkedItem(g, f)
    ensures forall p :: p in mem ==> WalkedAlias(g, p)
  {
    var cf, cm := set it | it in facts && WalkedItem(g, it), set p | p in mem && WalkedAlias(g, p);
    WalkedIsClosed(g, facts, mem, cf, cm);
    assert facts <= cf && mem <= cm;
  }

  /** Two different nodes are recorded as related exactly when an accepted walk joins them. */
  lemma RelatedIffJoined(g: Graph, facts: set<Item>, mem: set<(Node, Node)>, a: Node, b: Node)
    requires WellFormed(g) && InGraph(g, facts, mem) && IsLeastClosed(g, facts, mem) && a != b
    ensures Related(facts, a, b) <==> Joined(g, a, b)
  {
    RecordedIsWalk(g, facts, mem);
    if s :| Item(a, b, s) in facts {
      assert WalkedItem(g, Item(a, b, s));
    }
    if Joined(g, a, b) {
      var w: Walk :| w.Accepted(g) && w.From() == a && w.End() == b;
      WalkIsRecorded(g, facts, mem, w);
    }
  }

  // ----- walks backwards -----

  /** `acc` continued by `w` backwards. */
  function BackOnto(w: Walk, acc: Walk): Walk
    decreases w
  {
    match w
    case Start(_) => acc
    case Assign(prev, _) => BackOnto(prev, RevAssign(acc, prev.End()))
    case RevAssign(prev, _) => BackOnto(prev, Assign(acc, prev.End()))
    case MemAlias(prev, _, via) => BackOnto(prev, MemAlias(acc, prev.End(), BackOnto(via, Start(via.End()))))
  }

  lemma {:induction false} BackOntoAccepted(g: Graph, w: Walk, acc: Walk)
    requires WellFormed(g) && w.Accepted(g) && acc.Accepted(g) && acc.End() == w.End()
    requires !(w.Assigned() && acc.Assigned()) && !(w.MemAlias? && acc.MemAlias?)
    ensures BackOnto(w, acc).Accepted(g) && BackOnto(w, acc).From() == acc.From() && BackOnto(w, acc).End() == w.From()
    decreases w
  {
    match w
    case Start(_) =>
    case Assign(prev, to) =>
      BackOntoAccepted(g, prev, RevAssign(acc, prev.End()));
    case RevAssign(prev, to) =>
      BackOntoAccepted(g, prev, Assign(acc, prev.End()));
    case MemAlias(prev, to, via) =>
      AcceptedEnds(g, via);
      AcceptedEnds(g, prev);
      BackOntoAccepted(g, via, Start(via.End()));
      BackOntoAccepted(g, prev, MemAlias(acc, prev.End(), BackOnto(via, Start(via.End()))));
  }

  lemma AcceptedEnds(g: Graph, w: Walk)
    requires WellFormed(g) && w.Accepted(g)
    ensures Has(g, w.End())
  {
    match w
    case Start(_) =>
    case Assign(prev, to) => assert EdgeMatches(g, prev.End(), to);
    case RevAssign(prev, to) => assert EdgeMatches(g, to, prev.End());
    case MemAlias(_, _, _) =>
  }

  lemma JoinedIsSymmetric(g: Graph, a: Node, b: Node)
    requires WellFormed(g) && Joined(g, a, b)
    ensures Joined(g, b, a)
  {
    var w: Walk :| w.Accepted(g) && w.From() == a && w.End() == b;
    AcceptedEnds(g, w);
    BackOntoAccepted(g, w, Start(b));
  }

  /** Being recorded as related, in whatever state, is symmetric. */
  lemma RelatedIsSymmetric(g: Graph, facts: set<Item>, mem: set<(Node, Node)>, a: Node, b: Node)
    requires WellFormed(g) && InGraph(g, facts, mem) && IsLeastClosed(g, facts, mem)
    ensures Related(facts, a, b) <==> Related(facts, b, a)
  {
    if a != b {
      RelatedIffJoined(g, facts, mem, a, b);
      RelatedIffJoined(g, facts, mem, b, a);
      if Joined(g, a, b) { JoinedIsSymmetric(g, a, b); }
      if Joined(g, b, a) { JoinedIsSymmetric(g, b, a); }
    }
  }

  /** So is being recorded as memory aliases, as the source claims of both sets. */
  lemma MemoryAliasIsSymmetric(g: Graph, facts: set<Item>, mem: set<(Node, Node)>, a: Node, b: Node)
    requires WellFormed(g) && InGraph(g, facts, mem) && IsLeastClosed(g, facts, mem)
    requires (a, b) in mem && a != b
    ensures (b, a) in mem
  {
    RecordedIsWalk(g, facts, mem);
    assert WalkedAlias(g, (a, b));
    var w: Walk :| w.Accepted(g) && Below(w.From()) == a && Below(w.End()) == b;
    var x, y := w.From(), w.End();
    assert x != y;
    RelatedIffJoined(g, facts, mem, x, y);
    RelatedIsSymmetric(g, facts, mem, x, y);
    var s :| Item(y, x, s) in facts;
    assert Expanded(g, facts, mem, Item(y, x, s));
  }
}
