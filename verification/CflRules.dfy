/** The rules that relate nodes: which states lead where, and what it takes to be closed under them. */
module CflRules {
  import opened Wrappers

  import opened CflGraph

  datatype MatchState =
    | FlowFromReadOnly
    | FlowFromMemAliasNoReadWrite
    | FlowFromMemAliasReadOnly
    | FlowToWriteOnly
    | FlowToReadWrite
    | FlowToMemAliasWriteOnly
    | FlowToMemAliasReadWrite

  /** `to` is reachable from `from` in `state`. */
  datatype Item = Item(from: Node, to: Node, state: MatchState)

  /** The state after an assignment edge. */
  function OnAssign(s: MatchState): MatchState {
    match s
    case FlowFromReadOnly => FlowToReadWrite
    case FlowFromMemAliasNoReadWrite => FlowToWriteOnly
    case FlowFromMemAliasReadOnly => FlowToReadWrite
    case FlowToWriteOnly => FlowToWriteOnly
    case FlowToReadWrite => FlowToReadWrite
    case FlowToMemAliasWriteOnly => FlowToWriteOnly
    case FlowToMemAliasReadWrite => FlowToReadWrite
  }

  /** The state after a reverse assignment edge, which no assignment edge may precede. */
  function OnRevAssign(s: MatchState): Option<MatchState> {
    match s
    case FlowFromReadOnly => Some(FlowFromReadOnly)
    case FlowFromMemAliasNoReadWrite => Some(FlowFromReadOnly)
    case FlowFromMemAliasReadOnly => Some(FlowFromReadOnly)
    case _ => None
  }

  /** The state after a memory alias, which no other memory alias may precede. */
  function OnMem(s: MatchState): Option<MatchState> {
    match s
    case FlowFromReadOnly => Some(FlowFromMemAliasReadOnly)
    case FlowToWriteOnly => Some(FlowToMemAliasWriteOnly)
    case FlowToReadWrite => Some(FlowToMemAliasReadWrite)
    case _ => None
  }

  // ----- the rules -----

  /** Nothing is recorded about a node and itself. */
  ghost predicate Known(facts: set<Item>, from: Node, to: Node, s: MatchState) {
    from == to || Item(from, to, s) in facts
  }

  /** What an assignment edge says of its ends. */
  ghost predicate EdgeRule(g: Graph, facts: set<Item>, a: Node, b: Node) {
    Assigns(g, a, b) ==> Known(facts, b, a, FlowFromReadOnly) && Known(facts, a, b, FlowToWriteOnly)
  }

  /** Memory aliases reach each other. */
  ghost predicate AliasRule(facts: set<Item>, mem: set<(Node, Node)>, a: Node, b: Node) {
    (a, b) in mem ==> Known(facts, a, b, FlowFromMemAliasNoReadWrite)
  }

  /** What two related values point to are memory aliases. */
  ghost predicate BelowRule(g: Graph, mem: set<(Node, Node)>, f: Item) {
    Has(g, Below(f.from)) && Has(g, Below(f.to)) ==> (Below(f.from), Below(f.to)) in mem
  }

  ghost predicate AssignRule(g: Graph, facts: set<Item>, f: Item, o: Node) {
    Assigns(g, f.to, o) ==> Known(facts, f.from, o, OnAssign(f.state))
  }

  ghost predicate RevAssignRule(g: Graph, facts: set<Item>, f: Item, o: Node) {
    RevAssigns(g, f.to, o) && OnRevAssign(f.state).Some? ==> Known(facts, f.from, o, OnRevAssign(f.state).value)
  }

  ghost predicate MemRule(facts: set<Item>, mem: set<(Node, Node)>, f: Item, o: Node) {
    (f.to, o) in mem && OnMem(f.state).Some? ==> Known(facts, f.from, o, OnMem(f.state).value)
  }

  /** All that follows from one item has been drawn. */
  ghost predicate Expanded(g: Graph, facts: set<Item>, mem: set<(Node, Node)>, f: Item) {
    && BelowRule(g, mem, f)
    && (forall o :: AssignRule(g, facts, f, o))
    && (forall o :: RevAssignRule(g, facts, f, o))
    && (forall o :: MemRule(facts, mem, f, o))
  }

  ghost predicate EdgesCovered(g: Graph, facts: set<Item>) {
    forall a, b :: EdgeRule(g, facts, a, b)
  }

  ghost predicate AliasesCovered(facts: set<Item>, mem: set<(Node, Node)>) {
    forall a, b :: AliasRule(facts, mem, a, b)
  }

  /** Nothing more follows. */
  ghost predicate Closed(g: Graph, facts: set<Item>, mem: set<(Node, Node)>) {
    && EdgesCovered(g, facts) && AliasesCovered(facts, mem)
    && forall f :: f in facts ==> Expanded(g, facts, mem, f)
  }

  /** Everything in the two sets is in all closed pairs of sets. */
  ghost predicate Derived(g: Graph, facts: set<Item>, mem: set<(Node, Node)>) {
    forall cf: set<Item>, cm: set<(Node, Node)> :: Closed(g, cf, cm) ==> facts <= cf && mem <= cm
  }

  /** The two sets are the least closed ones. */
  ghost predicate IsLeastClosed(g: Graph, facts: set<Item>, mem: set<(Node, Node)>) {
    Closed(g, facts, mem) && Derived(g, facts, mem)
  }

  lemma LeastClosedIsUnique(g: Graph, facts: set<Item>, mem: set<(Node, Node)>,
                            facts': set<Item>, mem': set<(Node, Node)>)
    requires IsLeastClosed(g, facts, mem) && IsLeastClosed(g, facts', mem')
    ensures facts == facts' && mem == mem'
  {
    assert Closed(g, facts, mem) && Closed(g, facts', mem');
  }

  // ----- single derivations -----

  /** The item follows from the sets in one step. */
  ghost predicate Follows(g: Graph, facts: set<Item>, mem: set<(Node, Node)>, it: Item) {
    || (it.state == FlowFromReadOnly && Assigns(g, it.to, it.from))
    || (it.state == FlowToWriteOnly && Assigns(g, it.from, it.to))
    || (it.state == FlowFromMemAliasNoReadWrite && (it.from, it.to) in mem)
    || (exists f :: StepsTo(g, facts, mem, f, it))
  }

  ghost predicate StepsTo(g: Graph, facts: set<Item>, mem: set<(Node, Node)>, f: Item, it: Item) {
    f in facts && f.from == it.from
    && ((Assigns(g, f.to, it.to) && it.state == OnAssign(f.state))
        || (RevAssigns(g, f.to, it.to) && OnRevAssign(f.state) == Some(it.state))
        || ((f.to, it.to) in mem && OnMem(f.state) == Some(it.state)))
  }

  /** A memory alias follows when the nodes above are related. */
  ghost predicate AliasFollows(g: Graph, facts: set<Item>, a: Node, b: Node) {
    Has(g, a) && Has(g, b) && exists f :: f in facts && Below(f.from) == a && Below(f.to) == b
  }

  lemma FollowsInClosed(g: Graph, facts: set<Item>, mem: set<(Node, Node)>, it: Item,
                        cf: set<Item>, cm: set<(Node, Node)>)
    requires Follows(g, facts, mem, it) && it.from != it.to
    requires Closed(g, cf, cm) && facts <= cf && mem <= cm
    ensures it in cf
  {
    assert EdgeRule(g, cf, it.to, it.from) && EdgeRule(g, cf, it.from, it.to);
    assert AliasRule(cf, cm, it.from, it.to);
    if f :| StepsTo(g, facts, mem, f, it) {
      assert Expanded(g, cf, cm, f);
      assert AssignRule(g, cf, f, it.to) && RevAssignRule(g, cf, f, it.to) && MemRule(cf, cm, f, it.to);
    }
  }

  lemma FollowingIsDerived(g: Graph, facts: set<Item>, mem: set<(Node, Node)>, it: Item)
    requires Derived(g, facts, mem) && Follows(g, facts, mem, it) && it.from != it.to
    ensures Derived(g, facts + {it}, mem)
  {
    forall cf: set<Item>, cm: set<(Node, Node)> | Closed(g, cf, cm)
      ensures facts + {it} <= cf && mem <= cm
    {
      FollowsInClosed(g, facts, mem, it, cf, cm);
    }
  }

  lemma AliasIsDerived(g: Graph, facts: set<Item>, mem: set<(Node, Node)>, a: Node, b: Node)
    requires Derived(g, facts, mem) && AliasFollows(g, facts, a, b)
    ensures Derived(g, facts, mem + {(a, b)})
  {
    forall cf: set<Item>, cm: set<(Node, Node)> | Closed(g, cf, cm)
      ensures facts <= cf && mem + {(a, b)} <= cm
    {
      var f :| f in facts && Below(f.from) == a && Below(f.to) == b;
      assert Expanded(g, cf, cm, f);
    }
  }

  // ----- growing sets -----

  lemma ExpandedGrows(g: Graph, facts: set<Item>, facts': set<Item>, mem: set<(Node, Node)>, f: Item)
    requires Expanded(g, facts, mem, f) && facts <= facts'
    ensures Expanded(g, facts', mem, f)
  {
    forall o
      ensures AssignRule(g, facts', f, o)
      ensures RevAssignRule(g, facts', f, o)
      ensures MemRule(facts', mem, f, o)
    {
      assert AssignRule(g, facts, f, o) && RevAssignRule(g, facts, f, o) && MemRule(facts, mem, f, o);
    }
  }

  /** A new memory alias asks for one more fact of each item that ends at it. */
  lemma ExpandedWithAlias(g: Graph, facts: set<Item>, mem: set<(Node, Node)>, f: Item, a: Node, b: Node)
    requires Expanded(g, facts, mem, f)
    requires f.to == a && OnMem(f.state).Some? ==> Known(facts, f.from, b, OnMem(f.state).value)
    ensures Expanded(g, facts, mem + {(a, b)}, f)
  {
    forall o
      ensures MemRule(facts, mem + {(a, b)}, f, o)
    {
      assert MemRule(facts, mem, f, o);
    }
  }
}
