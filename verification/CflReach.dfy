/** Reachability and memory aliasing, found together by a worklist. */
module CflReach {
  import opened Wrappers

  import opened CflGraph
  import opened CflRules

  /** For each node, which nodes reach it and in which states. */
  type ReachMap = map<Node, map<Node, set<MatchState>>>

  predicate Recorded(m: ReachMap, it: Item) {
    it.to in m && it.from in m[it.to] && it.state in m[it.to][it.from]
  }

  class ReachabilitySet {
    var reachMap: ReachMap
    ghost var facts: set<Item>

    ghost predicate Valid()
      reads this
    {
      && (forall it :: it in facts <==> Recorded(reachMap, it))
      && (forall t, f :: t in reachMap && f in reachMap[t] ==> reachMap[t][f] != {})
    }

    constructor ()
      ensures Valid() && facts == {}
    {
      reachMap, facts := map[], {};
    }

    method Insert(from: Node, to: Node, state: MatchState) returns (isNew: bool)
      requires Valid() && from != to
      modifies this
      ensures Valid() && facts == old(facts) + {Item(from, to, state)}
      ensures isNew <==> Item(from, to, state) !in old(facts)
    {
      var row := ReachableValueAliases(to);
      var states := if from in row then row[from] else {};
      isNew := state !in states;
      reachMap := reachMap[to := row[from := states + {state}]];
      facts := facts + {Item(from, to, state)};
    }

    function ReachableValueAliases(v: Node): map<Node, set<MatchState>>
      reads this
    {
      if v in reachMap then reachMap[v] else map[]
    }
  }

  class AliasMemSet {
    var memMap: map<Node, set<Node>>
    ghost var pairs: set<(Node, Node)>

    ghost predicate Valid()
      reads this
    {
      forall a, b :: (a, b) in pairs <==> a in memMap && b in memMap[a]
    }

    constructor ()
      ensures Valid() && pairs == {}
    {
      memMap, pairs := map[], {};
    }

    /** Top-level values have no address, so they are never memory aliases. */
    method Insert(lhs: Node, rhs: Node) returns (isNew: bool)
      requires Valid() && lhs.level > 0 && rhs.level > 0
      modifies this
      ensures Valid() && pairs == old(pairs) + {(lhs, rhs)}
      ensures isNew <==> (lhs, rhs) !in old(pairs)
    {
      var row := if lhs in memMap then memMap[lhs] else {};
      isNew := rhs !in row;
      memMap := memMap[lhs := row + {rhs}];
      pairs := pairs + {(lhs, rhs)};
    }

    function GetMemoryAliases(v: Node): Option<set<Node>>
      reads this
    {
      if v in memMap then Some(memMap[v]) else None
    }
  }

  // ----- the state of the search -----

  ghost predicate InGraph(g: Graph, facts: set<Item>, mem: set<(Node, Node)>) {
    && (forall f :: f in facts ==> Has(g, f.from) && Has(g, f.to) && f.from != f.to)
    && (forall a, b :: (a, b) in mem ==> Has(g, a) && Has(g, b))
  }

  /** Nothing has been recorded that does not follow. */
  ghost predicate Sound(g: Graph, facts: set<Item>, mem: set<(Node, Node)>) {
    WellFormed(g) && InGraph(g, facts, mem) && Derived(g, facts, mem)
  }

  /** Every item that is not on one of the two lists has been expanded. */
  ghost predicate Progress(g: Graph, facts: set<Item>, mem: set<(Node, Node)>, rest: seq<Item>, next: seq<Item>) {
    && AliasesCovered(facts, mem)
    && (forall it :: it in rest || it in next ==> it in facts)
    && (forall f :: f in facts && f !in rest && f !in next ==> Expanded(g, facts, mem, f))
  }

  ghost function Queued(facts: set<Item>, it: Item): seq<Item> {
    if it.from == it.to || it in facts then [] else [it]
  }

  ghost function With(facts: set<Item>, it: Item): set<Item> {
    if it.from == it.to then facts else facts + {it}
  }

  /** What the list has gained since it was `next0` is what the facts have, each item once. */
  ghost predicate Grew(facts0: set<Item>, next0: seq<Item>, facts: set<Item>, next: seq<Item>) {
    facts0 <= facts && multiset(next) == multiset(next0) + multiset(facts - facts0)
  }

  lemma GrewNot(facts: set<Item>, next: seq<Item>)
    ensures Grew(facts, next, facts, next)
  {
    assert facts - facts == {};
  }

  lemma GrewWith(facts: set<Item>, next: seq<Item>, it: Item)
    ensures Grew(facts, next, With(facts, it), next + Queued(facts, it))
  {
    if it.from != it.to && it !in facts {
      assert facts + {it} - facts == {it};
    } else {
      assert With(facts, it) - facts == {};
    }
  }

  lemma GrewOn(facts0: set<Item>, next0: seq<Item>, facts1: set<Item>, next1: seq<Item>,
               facts2: set<Item>, next2: seq<Item>)
    requires Grew(facts0, next0, facts1, next1) && Grew(facts1, next1, facts2, next2)
    ensures Grew(facts0, next0, facts2, next2)
  {
    assert facts2 - facts0 == (facts1 - facts0) + (facts2 - facts1);
    assert (facts1 - facts0) * (facts2 - facts1) == {};
    assert multiset(facts2 - facts0) == multiset(facts1 - facts0) + multiset(facts2 - facts1);
  }

  lemma SoundWith(g: Graph, facts: set<Item>, mem: set<(Node, Node)>, it: Item)
    requires Sound(g, facts, mem) && Follows(g, facts, mem, it) && Has(g, it.from) && Has(g, it.to)
    ensures Sound(g, With(facts, it), mem)
  {
    if it.from != it.to {
      FollowingIsDerived(g, facts, mem, it);
    }
  }

  lemma ProgressWith(g: Graph, facts: set<Item>, mem: set<(Node, Node)>, rest: seq<Item>, next: seq<Item>, it: Item)
    requires Progress(g, facts, mem, rest, next)
    ensures Progress(g, With(facts, it), mem, rest, next + Queued(facts, it))
  {
    var facts', next' := With(facts, it), next + Queued(facts, it);
    forall a, b
      ensures AliasRule(facts', mem, a, b)
    {
      assert AliasRule(facts, mem, a, b);
    }
    forall f | f in facts' && f !in rest && f !in next'
      ensures Expanded(g, facts', mem, f)
    {
      assert f !in next;
      assert f in facts;
      ExpandedGrows(g, facts, facts', mem, f);
    }
  }

  lemma EdgesStayCovered(g: Graph, facts: set<Item>, facts': set<Item>)
    requires EdgesCovered(g, facts) && facts <= facts'
    ensures EdgesCovered(g, facts')
  {
    forall a, b
      ensures EdgeRule(g, facts', a, b)
    {
      assert EdgeRule(g, facts, a, b);
    }
  }

  /** What stays fixed while one item is being expanded: the items still to come, the memory aliases
      the expanded items are complete for, and those that may be used already. */
  datatype Search = Search(g: Graph, mem: set<(Node, Node)>, memNow: set<(Node, Node)>, rest: seq<Item>)

  ghost predicate Keeps(s: Search, facts: set<Item>, next: seq<Item>) {
    Sound(s.g, facts, s.memNow) && Progress(s.g, facts, s.mem, s.rest, next)
  }

  /** Record an item that follows, and put it on the list if it is new. */
  method Propagate(from: Node, to: Node, state: MatchState, reach: ReachabilitySet, next: seq<Item>, ghost s: Search)
      returns (out: seq<Item>)
    requires reach.Valid() && Keeps(s, reach.facts, next)
    requires Follows(s.g, reach.facts, s.memNow, Item(from, to, state)) && Has(s.g, from) && Has(s.g, to)
    modifies reach
    ensures reach.Valid() && Keeps(s, reach.facts, out)
    ensures reach.facts == With(old(reach.facts), Item(from, to, state))
    ensures Grew(old(reach.facts), next, reach.facts, out)
  {
    GrewWith(reach.facts, next, Item(from, to, state));
    SoundWith(s.g, reach.facts, s.memNow, Item(from, to, state));
    ProgressWith(s.g, reach.facts, s.mem, s.rest, next, Item(from, to, state));
    out := next;
    if from == to {
      return;
    }
    ghost var before := reach.facts;
    var isNew := reach.Insert(from, to, state);
    if isNew {
      out := out + [Item(from, to, state)];
    } else {
      assert reach.facts == before;
    }
  }

  /** The same, with regard to what the list was earlier. */
  method PropagateOn(from: Node, to: Node, state: MatchState, reach: ReachabilitySet, next: seq<Item>, ghost s: Search,
                     ghost facts0: set<Item>, ghost next0: seq<Item>) returns (out: seq<Item>)
    requires reach.Valid() && Keeps(s, reach.facts, next) && Grew(facts0, next0, reach.facts, next)
    requires Follows(s.g, reach.facts, s.memNow, Item(from, to, state)) && Has(s.g, from) && Has(s.g, to)
    modifies reach
    ensures reach.Valid() && Keeps(s, reach.facts, out) && Grew(facts0, next0, reach.facts, out)
    ensures reach.facts == With(old(reach.facts), Item(from, to, state))
  {
    out := Propagate(from, to, state, reach, next, s);
    GrewOn(facts0, next0, old(reach.facts), next, reach.facts, out);
  }

  // ----- expanding one item -----

  lemma AssignFollows(s: Search, facts: set<Item>, f: Item, i: nat)
    requires Sound(s.g, facts, s.memNow) && f in facts && i < |InfoOf(s.g, f.to).edges|
    ensures var o := InfoOf(s.g, f.to).edges[i].other;
            Follows(s.g, facts, s.memNow, Item(f.from, o, OnAssign(f.state))) && Has(s.g, o)
  {
    var o := InfoOf(s.g, f.to).edges[i].other;
    assert EdgeMatches(s.g, f.to, o);
    assert StepsTo(s.g, facts, s.memNow, f, Item(f.from, o, OnAssign(f.state)));
  }

  lemma RevAssignFollows(s: Search, facts: set<Item>, f: Item, i: nat)
    requires Sound(s.g, facts, s.memNow) && f in facts && i < |InfoOf(s.g, f.to).reverseEdges|
    requires OnRevAssign(f.state).Some?
    ensures var o := InfoOf(s.g, f.to).reverseEdges[i].other;
            Follows(s.g, facts, s.memNow, Item(f.from, o, OnRevAssign(f.state).value)) && Has(s.g, o)
  {
    var o := InfoOf(s.g, f.to).reverseEdges[i].other;
    assert EdgeMatches(s.g, o, f.to);
    assert StepsTo(s.g, facts, s.memNow, f, Item(f.from, o, OnRevAssign(f.state).value));
  }

  lemma MemFollows(s: Search, facts: set<Item>, f: Item, o: Node)
    requires Sound(s.g, facts, s.memNow) && f in facts && (f.to, o) in s.memNow && OnMem(f.state).Some?
    ensures Follows(s.g, facts, s.memNow, Item(f.from, o, OnMem(f.state).value)) && Has(s.g, o)
  {
    assert StepsTo(s.g, facts, s.memNow, f, Item(f.from, o, OnMem(f.state).value));
  }

  /** Follow the assignment edges from the end of an item. */
  method NextAssignState(f: Item, g: Graph, reach: ReachabilitySet, next: seq<Item>, ghost s: Search)
      returns (out: seq<Item>)
    requires reach.Valid() && Keeps(s, reach.facts, next) && s.g == g && f in reach.facts
    modifies reach
    ensures reach.Valid() && Keeps(s, reach.facts, out)
    ensures Grew(old(reach.facts), next, reach.facts, out)
    ensures forall o :: AssignRule(g, reach.facts, f, o)
  {
    out := next;
    var edges := InfoOf(g, f.to).edges;
    GrewNot(reach.facts, next);
    for i := 0 to |edges|
      invariant reach.Valid() && Keeps(s, reach.facts, out)
      invariant Grew(old(reach.facts), next, reach.facts, out)
      invariant KnownAlong(reach.facts, f.from, edges[..i], OnAssign(f.state))
    {
      AssignFollows(s, reach.facts, f, i);
      out := FollowEdge(f.from, edges, i, OnAssign(f.state), reach, out, s, old(reach.facts), next);
    }
    AlongAll(g, reach.facts, f);
  }

  /** Follow the reverse edges from the end of an item, in the states that allow it. */
  method NextRevAssignState(f: Item, g: Graph, reach: ReachabilitySet, next: seq<Item>, ghost s: Search)
      returns (out: seq<Item>)
    requires reach.Valid() && Keeps(s, reach.facts, next) && s.g == g && f in reach.facts
    modifies reach
    ensures reach.Valid() && Keeps(s, reach.facts, out)
    ensures Grew(old(reach.facts), next, reach.facts, out)
    ensures forall o :: RevAssignRule(g, reach.facts, f, o)
  {
    out := next;
    GrewNot(reach.facts, next);
    var state := OnRevAssign(f.state);
    if state.None? {
      return;
    }
    var edges := InfoOf(g, f.to).reverseEdges;
    for i := 0 to |edges|
      invariant reach.Valid() && Keeps(s, reach.facts, out)
      invariant Grew(old(reach.facts), next, reach.facts, out)
      invariant KnownAlong(reach.facts, f.from, edges[..i], state.value)
    {
      RevAssignFollows(s, reach.facts, f, i);
      out := FollowEdge(f.from, edges, i, state.value, reach, out, s, old(reach.facts), next);
    }
    RevAlongAll(g, reach.facts, f);
  }

  /** The ends of the edges are known to be reached from `from`. */
  ghost predicate KnownAlong(facts: set<Item>, from: Node, edges: seq<Edge>, state: MatchState) {
    forall k :: 0 <= k < |edges| ==> Known(facts, from, edges[k].other, state)
  }

  lemma AlongAll(g: Graph, facts: set<Item>, f: Item)
    requires var edges := InfoOf(g, f.to).edges; KnownAlong(facts, f.from, edges[..|edges|], OnAssign(f.state))
    ensures forall o :: AssignRule(g, facts, f, o)
  {
    var edges := InfoOf(g, f.to).edges;
    assert edges[..|edges|] == edges;
  }

  lemma RevAlongAll(g: Graph, facts: set<Item>, f: Item)
    requires OnRevAssign(f.state).Some?
    requires var edges := InfoOf(g, f.to).reverseEdges;
             KnownAlong(facts, f.from, edges[..|edges|], OnRevAssign(f.state).value)
    ensures forall o :: RevAssignRule(g, facts, f, o)
  {
    var edges := InfoOf(g, f.to).reverseEdges;
    assert edges[..|edges|] == edges;
  }

  method FollowEdge(from: Node, edges: seq<Edge>, i: nat, state: MatchState, reach: ReachabilitySet, next: seq<Item>,
                    ghost s: Search, ghost facts0: set<Item>, ghost next0: seq<Item>) returns (out: seq<Item>)
    requires reach.Valid() && Keeps(s, reach.facts, next) && Grew(facts0, next0, reach.facts, next)
    requires i < |edges| && KnownAlong(reach.facts, from, edges[..i], state)
    requires Follows(s.g, reach.facts, s.memNow, Item(from, edges[i].other, state))
    requires Has(s.g, from) && Has(s.g, edges[i].other)
    modifies reach
    ensures reach.Valid() && Keeps(s, reach.facts, out) && Grew(facts0, next0, reach.facts, out)
    ensures KnownAlong(reach.facts, from, edges[..i + 1], state) && old(reach.facts) <= reach.facts
  {
    out := PropagateOn(from, edges[i].other, state, reach, next, s, facts0, next0);
    assert edges[..i + 1] == edges[..i] + [edges[i]];
  }

  method NextMemState(f: Item, mem: AliasMemSet, reach: ReachabilitySet, next: seq<Item>, ghost s: Search)
      returns (out: seq<Item>)
    requires reach.Valid() && Keeps(s, reach.facts, next) && f in reach.facts
    requires mem.Valid() && mem.pairs == s.mem == s.memNow
    modifies reach
    ensures reach.Valid() && Keeps(s, reach.facts, out)
    ensures Grew(old(reach.facts), next, reach.facts, out)
    ensures forall o :: MemRule(reach.facts, s.mem, f, o)
  {
    out := next;
    GrewNot(reach.facts, next);
    var state, aliases := OnMem(f.state), mem.GetMemoryAliases(f.to);
    if state.None? || aliases.None? {
      return;
    }
    var todo := aliases.value;
    while todo != {}
      invariant todo <= aliases.value
      invariant reach.Valid() && Keeps(s, reach.facts, out)
      invariant Grew(old(reach.facts), next, reach.facts, out)
      invariant KnownExcept(reach.facts, f.from, aliases.value, todo, state.value) && old(reach.facts) <= reach.facts
      decreases todo
    {
      var o :| o in todo;
      MemFollows(s, reach.facts, f, o);
      out := FollowAlias(f.from, aliases.value, todo, o, state.value, reach, out, s, old(reach.facts), next);
      todo := todo - {o};
    }
  }

  /** The nodes of `targets` that are not left to do are known to be reached from `from`. */
  ghost predicate KnownExcept(facts: set<Item>, from: Node, targets: set<Node>, todo: set<Node>, state: MatchState) {
    forall o :: o in targets && o !in todo ==> Known(facts, from, o, state)
  }

  method FollowAlias(from: Node, targets: set<Node>, todo: set<Node>, o: Node, state: MatchState,
                     reach: ReachabilitySet, next: seq<Item>, ghost s: Search,
                     ghost facts0: set<Item>, ghost next0: seq<Item>) returns (out: seq<Item>)
    requires reach.Valid() && Keeps(s, reach.facts, next) && Grew(facts0, next0, reach.facts, next)
    requires KnownExcept(reach.facts, from, targets, todo, state)
    requires Follows(s.g, reach.facts, s.memNow, Item(from, o, state)) && Has(s.g, from) && Has(s.g, o)
    modifies reach
    ensures reach.Valid() && Keeps(s, reach.facts, out) && Grew(facts0, next0, reach.facts, out)
    ensures KnownExcept(reach.facts, from, targets, todo - {o}, state) && old(reach.facts) <= reach.facts
  {
    out := PropagateOn(from, o, state, reach, next, s, facts0, next0);
  }

  // ----- a new memory alias -----

  lemma AliasIsSound(g: Graph, facts: set<Item>, mem: set<(Node, Node)>, f: Item)
    requires Sound(g, facts, mem) && f in facts && Has(g, Below(f.from)) && Has(g, Below(f.to))
    ensures Sound(g, facts, mem + {(Below(f.from), Below(f.to))})
  {
    AliasIsDerived(g, facts, mem, Below(f.from), Below(f.to));
  }

  /** The items that end at `a` have been carried over the alias from `a` to `b`. */
  ghost predicate CarriedOver(facts: set<Item>, a: Node, b: Node, f: Item) {
    f in facts && f.to == a && OnMem(f.state).Some? ==> Known(facts, f.from, b, OnMem(f.state).value)
  }

  lemma AliasMakesProgress(g: Graph, facts: set<Item>, mem: set<(Node, Node)>, rest: seq<Item>, next: seq<Item>,
                           a: Node, b: Node)
    requires Progress(g, facts, mem, rest, next) && Known(facts, a, b, FlowFromMemAliasNoReadWrite)
    requires forall f :: CarriedOver(facts, a, b, f)
    ensures Progress(g, facts, mem + {(a, b)}, rest, next)
  {
    forall x, y
      ensures AliasRule(facts, mem + {(a, b)}, x, y)
    {
      assert AliasRule(facts, mem, x, y);
    }
    forall f | f in facts && f !in rest && f !in next
      ensures Expanded(g, facts, mem + {(a, b)}, f)
    {
      assert CarriedOver(facts, a, b, f);
      ExpandedWithAlias(g, facts, mem, f, a, b);
    }
  }

  /** Items from `f.from` that end at `b` are the only ones that differ. */
  ghost predicate OnlyAdds(before: set<Item>, after: set<Item>, b: Node) {
    before <= after && forall it :: it in after && it.to != b ==> it in before
  }

  /** If `src` reaches the one end of an alias in `state`, it reaches the other end `b` as well. */
  ghost predicate CarriedIn(facts: set<Item>, src: Node, b: Node, states: set<MatchState>, state: MatchState) {
    state in states && OnMem(state).Some? ==> Known(facts, src, b, OnMem(state).value)
  }

  ghost predicate AllCarriedIn(facts: set<Item>, src: Node, b: Node, states: set<MatchState>) {
    forall st :: CarriedIn(facts, src, b, states, st)
  }

  /** If `src` reaches `a` in a state that a memory alias may follow, it reaches `b` as well. */
  method MemAliasPropagate(src: Node, a: Node, b: Node, states: set<MatchState>, state: MatchState,
                           reach: ReachabilitySet, next: seq<Item>, ghost s: Search,
                           ghost facts0: set<Item>, ghost next0: seq<Item>) returns (out: seq<Item>)
    requires reach.Valid() && Keeps(s, reach.facts, next) && (a, b) in s.memNow && a != b
    requires Grew(facts0, next0, reach.facts, next) && OnlyAdds(facts0, reach.facts, b)
    requires state in states ==> Item(src, a, state) in facts0 && OnMem(state).Some?
    modifies reach
    ensures reach.Valid() && Keeps(s, reach.facts, out)
    ensures Grew(facts0, next0, reach.facts, out) && OnlyAdds(facts0, reach.facts, b)
    ensures CarriedIn(reach.facts, src, b, states, state) && old(reach.facts) <= reach.facts
  {
    out := next;
    if state in states {
      MemFollows(s, reach.facts, Item(src, a, state), b);
      out := PropagateOn(src, b, OnMem(state).value, reach, next, s, facts0, next0);
    }
  }

  /** The first two of the three states that carry over. */
  method CarryTwo(src: Node, a: Node, b: Node, states: set<MatchState>,
                  reach: ReachabilitySet, next: seq<Item>, ghost s: Search,
                  ghost facts0: set<Item>, ghost next0: seq<Item>) returns (out: seq<Item>)
    requires reach.Valid() && Keeps(s, reach.facts, next) && (a, b) in s.memNow && a != b
    requires Grew(facts0, next0, reach.facts, next) && OnlyAdds(facts0, reach.facts, b)
    requires forall st :: st in states ==> Item(src, a, st) in facts0
    modifies reach
    ensures reach.Valid() && Keeps(s, reach.facts, out)
    ensures Grew(facts0, next0, reach.facts, out) && OnlyAdds(facts0, reach.facts, b)
    ensures CarriedIn(reach.facts, src, b, states, FlowFromReadOnly) && old(reach.facts) <= reach.facts
    ensures CarriedIn(reach.facts, src, b, states, FlowToWriteOnly)
  {
    out := MemAliasPropagate(src, a, b, states, FlowFromReadOnly, reach, next, s, facts0, next0);
    out := MemAliasPropagate(src, a, b, states, FlowToWriteOnly, reach, out, s, facts0, next0);
  }

  /** Carry the items from `src` over an alias. */
  method CarryOver(src: Node, a: Node, b: Node, states: set<MatchState>,
                   reach: ReachabilitySet, next: seq<Item>, ghost s: Search,
                   ghost facts0: set<Item>, ghost next0: seq<Item>) returns (out: seq<Item>)
    requires reach.Valid() && Keeps(s, reach.facts, next) && (a, b) in s.memNow && a != b
    requires Grew(facts0, next0, reach.facts, next) && OnlyAdds(facts0, reach.facts, b)
    requires forall st :: st in states ==> Item(src, a, st) in facts0
    modifies reach
    ensures reach.Valid() && Keeps(s, reach.facts, out)
    ensures Grew(facts0, next0, reach.facts, out) && OnlyAdds(facts0, reach.facts, b)
    ensures old(reach.facts) <= reach.facts && AllCarriedIn(reach.facts, src, b, states)
  {
    out := CarryTwo(src, a, b, states, reach, next, s, facts0, next0);
    ghost var facts2 := reach.facts;
    out := MemAliasPropagate(src, a, b, states, FlowToReadWrite, reach, out, s, facts0, next0);
    ThreeStates(facts2, reach.facts, src, b, states);
  }

  /** No other state can follow a memory alias. */
  lemma ThreeStates(facts2: set<Item>, facts: set<Item>, src: Node, b: Node, states: set<MatchState>)
    requires CarriedIn(facts2, src, b, states, FlowFromReadOnly) && CarriedIn(facts2, src, b, states, FlowToWriteOnly)
    requires facts2 <= facts && CarriedIn(facts, src, b, states, FlowToReadWrite)
    ensures AllCarriedIn(facts, src, b, states)
  {
  }

  /** The nodes below the two ends of an item are memory aliases. If that is new, extend all that
      reaches the first of them to the second. */
  method AddMemoryAlias(f: Item, reach: ReachabilitySet, mem: AliasMemSet, next: seq<Item>, ghost s: Search)
      returns (out: seq<Item>)
    requires reach.Valid() && Keeps(s, reach.facts, next) && f in reach.facts
    requires mem.Valid() && mem.pairs == s.mem == s.memNow
    requires Has(s.g, Below(f.from)) && Has(s.g, Below(f.to))
    modifies reach, mem
    ensures reach.Valid() && mem.Valid() && mem.pairs == old(mem.pairs) + {(Below(f.from), Below(f.to))}
    ensures Keeps(s.(mem := mem.pairs, memNow := mem.pairs), reach.facts, out)
    ensures Grew(old(reach.facts), next, reach.facts, out)
  {
    var a, b := Below(f.from), Below(f.to);
    out := next;
    AliasIsSound(s.g, reach.facts, s.mem, f);
    var isNew := mem.Insert(a, b);
    if !isNew {
      assert mem.pairs == s.mem;
      return;
    }
    ghost var now := s.(memNow := s.mem + {(a, b)});
    out := Propagate(a, b, FlowFromMemAliasNoReadWrite, reach, out, now);
    ghost var facts1, out1 := reach.facts, out;
    out := CarryAllOver(a, b, reach, out, now);
    GrewOn(old(reach.facts), next, facts1, out1, reach.facts, out);
    AliasMakesProgress(s.g, reach.facts, s.mem, s.rest, out, a, b);
  }

  method CarryAllOver(a: Node, b: Node, reach: ReachabilitySet, next: seq<Item>, ghost s: Search)
    returns (out: seq<Item>)
    requires reach.Valid() && Keeps(s, reach.facts, next) && (a, b) in s.memNow && a != b
    modifies reach
    ensures reach.Valid() && Keeps(s, reach.facts, out) && OnlyAdds(old(reach.facts), reach.facts, b)
    ensures Grew(old(reach.facts), next, reach.facts, out)
    ensures forall f :: CarriedOver(reach.facts, a, b, f)
  {
    out := next;
    GrewNot(reach.facts, next);
    var row := reach.ReachableValueAliases(a);
    assert RowIs(reach.facts, a, row);
    var todo := row.Keys;
    while todo != {}
      invariant todo <= row.Keys
      invariant reach.Valid() && Keeps(s, reach.facts, out) && OnlyAdds(old(reach.facts), reach.facts, b)
      invariant Grew(old(reach.facts), next, reach.facts, out)
      invariant RowCarried(reach.facts, b, row, todo)
      decreases todo
    {
      var src :| src in todo;
      out := CarryRow(src, a, b, row, todo, reach, out, s, old(reach.facts), next);
      todo := todo - {src};
    }
    AllCarried(old(reach.facts), reach.facts, a, b, row);
  }

  /** `row` lists what reaches `a`. */
  ghost predicate RowIs(facts: set<Item>, a: Node, row: map<Node, set<MatchState>>) {
    forall src: Node, st: MatchState :: Item(src, a, st) in facts <==> src in row && st in row[src]
  }

  /** The sources that are not left to do reach `b` in all states that carry over. */
  ghost predicate RowCarried(facts: set<Item>, b: Node, row: map<Node, set<MatchState>>, todo: set<Node>) {
    forall src: Node, st: MatchState :: src in row && src !in todo ==> CarriedIn(facts, src, b, row[src], st)
  }

  method CarryRow(src: Node, a: Node, b: Node, row: map<Node, set<MatchState>>, ghost todo: set<Node>,
                  reach: ReachabilitySet, next: seq<Item>, ghost s: Search,
                  ghost facts0: set<Item>, ghost next0: seq<Item>) returns (out: seq<Item>)
    requires reach.Valid() && Keeps(s, reach.facts, next) && (a, b) in s.memNow && a != b
    requires Grew(facts0, next0, reach.facts, next) && OnlyAdds(facts0, reach.facts, b)
    requires RowIs(facts0, a, row) && RowCarried(reach.facts, b, row, todo) && src in row
    modifies reach
    ensures reach.Valid() && Keeps(s, reach.facts, out)
    ensures Grew(facts0, next0, reach.facts, out) && OnlyAdds(facts0, reach.facts, b)
    ensures RowCarried(reach.facts, b, row, todo - {src})
  {
    out := CarryOver(src, a, b, row[src], reach, next, s, facts0, next0);
    RowGrows(old(reach.facts), reach.facts, b, row, todo, src);
  }

  lemma RowGrows(before: set<Item>, facts: set<Item>, b: Node, row: map<Node, set<MatchState>>, todo: set<Node>,
                 src: Node)
    requires RowCarried(before, b, row, todo) && before <= facts && src in row
    requires AllCarriedIn(facts, src, b, row[src])
    ensures RowCarried(facts, b, row, todo - {src})
  {
    forall x: Node, st: MatchState | x in row && x !in todo - {src}
      ensures CarriedIn(facts, x, b, row[x], st)
    {
      if x == src {
        assert CarriedIn(facts, x, b, row[x], st);
      } else {
        assert CarriedIn(before, x, b, row[x], st);
      }
    }
  }

  lemma AllCarried(before: set<Item>, facts: set<Item>, a: Node, b: Node, row: map<Node, set<MatchState>>)
    requires RowIs(before, a, row) && RowCarried(facts, b, row, {}) && OnlyAdds(before, facts, b) && a != b
    ensures forall f :: CarriedOver(facts, a, b, f)
  {
    forall f | f in facts && f.to == a
      ensures CarriedOver(facts, a, b, f)
    {
      assert f == Item(f.from, a, f.state) && f in before;
      assert CarriedIn(facts, f.from, b, row[f.from], f.state);
    }
  }
}
