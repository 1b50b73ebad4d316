/** The worklist algorithm, which ends with the least closed sets. */
module CflSolve {
  import opened Sets

  import opened CflGraph
  import opened CflRules
  import opened CflReach

  // ----- seeding the worklist -----

  /** Every edge out of `a` has been taken in. */
  ghost predicate NodeSeeded(g: Graph, facts: set<Item>, a: Node) {
    forall b :: EdgeRule(g, facts, a, b)
  }

  lemma SeededGrows(g: Graph, facts: set<Item>, facts': set<Item>, a: Node)
    requires NodeSeeded(g, facts, a) && facts <= facts'
    ensures NodeSeeded(g, facts', a)
  {
    forall b
      ensures EdgeRule(g, facts', a, b)
    {
      assert EdgeRule(g, facts, a, b);
    }
  }

  ghost function Seeding(g: Graph): Search {
    Search(g, {}, {}, [])
  }

  lemma EdgeFollows(g: Graph, facts: set<Item>, a: Node, i: nat)
    requires Sound(g, facts, {}) && i < |InfoOf(g, a).edges|
    ensures var b := InfoOf(g, a).edges[i].other;
            && Has(g, a) && Has(g, b)
            && (forall fs ::
                  Follows(g, fs, {}, Item(b, a, FlowFromReadOnly)) && Follows(g, fs, {}, Item(a, b, FlowToWriteOnly)))
  {
    assert EdgeMatches(g, a, InfoOf(g, a).edges[i].other);
  }

  /** The target of an assignment is reachable from its source, and the other way around. */
  method SeedEdge(g: Graph, src: Node, i: nat, reach: ReachabilitySet, workList: seq<Item>,
                  ghost facts0: set<Item>, ghost list0: seq<Item>) returns (out: seq<Item>)
    requires reach.Valid() && Keeps(Seeding(g), reach.facts, workList) && Grew(facts0, list0, reach.facts, workList)
    requires i < |InfoOf(g, src).edges| && EdgesSeeded(g, reach.facts, src, i)
    modifies reach
    ensures reach.Valid() && Keeps(Seeding(g), reach.facts, out) && Grew(facts0, list0, reach.facts, out)
    ensures EdgesSeeded(g, reach.facts, src, i + 1) && old(reach.facts) <= reach.facts
  {
    var other := InfoOf(g, src).edges[i].other;
    EdgeFollows(g, reach.facts, src, i);
    out := PropagateOn(other, src, FlowFromReadOnly, reach, workList, Seeding(g), facts0, list0);
    ghost var between := reach.facts;
    out := PropagateOn(src, other, FlowToWriteOnly, reach, out, Seeding(g), facts0, list0);
    OneMoreEdge(g, old(reach.facts), between, reach.facts, src, i);
  }

  lemma OneMoreEdge(g: Graph, facts0: set<Item>, facts1: set<Item>, facts2: set<Item>, src: Node, i: nat)
    requires i < |InfoOf(g, src).edges| && EdgesSeeded(g, facts0, src, i)
    requires var o := InfoOf(g, src).edges[i].other;
             && facts1 == With(facts0, Item(o, src, FlowFromReadOnly))
             && facts2 == With(facts1, Item(src, o, FlowToWriteOnly))
    ensures EdgesSeeded(g, facts2, src, i + 1) && facts0 <= facts2
  {
  }

  /** The first `n` edges out of `src` have been taken in. */
  ghost predicate EdgesSeeded(g: Graph, facts: set<Item>, src: Node, n: nat) {
    forall k :: 0 <= k < n && k < |InfoOf(g, src).edges| ==> EdgeRule(g, facts, src, InfoOf(g, src).edges[k].other)
  }

  /** Relate a node and its immediate assignment neighbours, both ways. */
  method SeedNode(g: Graph, src: Node, reach: ReachabilitySet, workList: seq<Item>,
                  ghost facts0: set<Item>, ghost list0: seq<Item>) returns (out: seq<Item>)
    requires reach.Valid() && Keeps(Seeding(g), reach.facts, workList) && Grew(facts0, list0, reach.facts, workList)
    modifies reach
    ensures reach.Valid() && Keeps(Seeding(g), reach.facts, out) && Grew(facts0, list0, reach.facts, out)
    ensures NodeSeeded(g, reach.facts, src) && old(reach.facts) <= reach.facts
  {
    out := workList;
    var edges := InfoOf(g, src).edges;
    for i := 0 to |edges|
      invariant reach.Valid() && Keeps(Seeding(g), reach.facts, out) && Grew(facts0, list0, reach.facts, out)
      invariant EdgesSeeded(g, reach.facts, src, i) && old(reach.facts) <= reach.facts
    {
      out := SeedEdge(g, src, i, reach, out, facts0, list0);
    }
  }

  /** Take in the edges out of all levels of a value. */
  method SeedValue(g: Graph, val: Value, reach: ReachabilitySet, workList: seq<Item>,
                   ghost facts0: set<Item>, ghost list0: seq<Item>) returns (out: seq<Item>)
    requires reach.Valid() && Keeps(Seeding(g), reach.facts, workList) && Grew(facts0, list0, reach.facts, workList)
    requires val in g
    modifies reach
    ensures reach.Valid() && Keeps(Seeding(g), reach.facts, out) && Grew(facts0, list0, reach.facts, out)
    ensures LevelsSeeded(g, reach.facts, val, |g[val]|) && old(reach.facts) <= reach.facts
  {
    out := workList;
    for i := 0 to |g[val]|
      invariant reach.Valid() && Keeps(Seeding(g), reach.facts, out) && Grew(facts0, list0, reach.facts, out)
      invariant LevelsSeeded(g, reach.facts, val, i) && old(reach.facts) <= reach.facts
    {
      ghost var before := reach.facts;
      out := SeedNode(g, Node(val, i), reach, out, facts0, list0);
      OneMoreLevel(g, before, reach.facts, val, i);
    }
  }

  /** The edges out of the first `n` levels of a value have been taken in. */
  ghost predicate LevelsSeeded(g: Graph, facts: set<Item>, val: Value, n: nat) {
    forall k :: 0 <= k < n ==> NodeSeeded(g, facts, Node(val, k))
  }

  lemma OneMoreLevel(g: Graph, before: set<Item>, facts: set<Item>, val: Value, i: nat)
    requires LevelsSeeded(g, before, val, i) && before <= facts && NodeSeeded(g, facts, Node(val, i))
    ensures LevelsSeeded(g, facts, val, i + 1)
  {
    forall k | 0 <= k < i
      ensures NodeSeeded(g, facts, Node(val, k))
    {
      SeededGrows(g, before, facts, Node(val, k));
    }
  }

  /** Take in all edges, value by value in whatever order the graph yields them. */
  method InitializeWorkList(g: Graph, reach: ReachabilitySet) returns (workList: seq<Item>)
    requires WellFormed(g) && reach.Valid() && reach.facts == {}
    modifies reach
    ensures reach.Valid() && Keeps(Seeding(g), reach.facts, workList)
    ensures multiset(workList) == multiset(reach.facts)
    ensures EdgesCovered(g, reach.facts)
  {
    workList := [];
    GrewNot({}, []);
    var todo := g.Keys;
    while todo != {}
      invariant todo <= g.Keys
      invariant reach.Valid() && Keeps(Seeding(g), reach.facts, workList)
      invariant Grew({}, [], reach.facts, workList)
      invariant forall a :: Has(g, a) && a.val !in todo ==> NodeSeeded(g, reach.facts, a)
      decreases todo
    {
      var val :| val in todo;
      ghost var before := reach.facts;
      workList := SeedValue(g, val, reach, workList, {}, []);
      todo := todo - {val};
      forall a | Has(g, a) && a.val !in todo
        ensures NodeSeeded(g, reach.facts, a)
      {
        if a.val == val {
          assert NodeSeeded(g, reach.facts, Node(val, a.level));
        } else {
          SeededGrows(g, before, reach.facts, a);
        }
      }
    }
    assert reach.facts - {} == reach.facts;
  }

  // ----- expanding the items -----

  lemma ExpandedNow(g: Graph, withRev: set<Item>, withAssign: set<Item>, facts: set<Item>,
                    mem: set<(Node, Node)>, f: Item)
    requires withRev <= withAssign <= facts && BelowRule(g, mem, f)
    requires forall o :: RevAssignRule(g, withRev, f, o)
    requires forall o :: AssignRule(g, withAssign, f, o)
    requires forall o :: MemRule(facts, mem, f, o)
    ensures Expanded(g, facts, mem, f)
  {
    forall o
      ensures AssignRule(g, facts, f, o) && RevAssignRule(g, facts, f, o)
    {
      assert AssignRule(g, withAssign, f, o) && RevAssignRule(g, withRev, f, o);
    }
  }

  method ProcessWorkListItem(f: Item, g: Graph, reach: ReachabilitySet, mem: AliasMemSet, next: seq<Item>,
                             ghost rest: seq<Item>) returns (out: seq<Item>)
    requires reach.Valid() && mem.Valid() && rest != [] && rest[0] == f
    requires Keeps(Search(g, mem.pairs, mem.pairs, rest), reach.facts, next)
    modifies reach, mem
    ensures reach.Valid() && mem.Valid()
    ensures Keeps(Search(g, mem.pairs, mem.pairs, rest[1..]), reach.facts, out)
    ensures Grew(old(reach.facts), next, reach.facts, out)
  {
    out := next;
    assert f in rest;
    if Has(g, Below(f.from)) && Has(g, Below(f.to)) {
      out := AddMemoryAlias(f, reach, mem, next, Search(g, mem.pairs, mem.pairs, rest));
    }
    ghost var s := Search(g, mem.pairs, mem.pairs, rest);
    ghost var facts1, out1 := reach.facts, out;
    out := NextRevAssignState(f, g, reach, out, s);
    ghost var withRev, out2 := reach.facts, out;
    GrewOn(old(reach.facts), next, facts1, out1, withRev, out2);
    out := NextAssignState(f, g, reach, out, s);
    ghost var withAssign, out3 := reach.facts, out;
    GrewOn(old(reach.facts), next, withRev, out2, withAssign, out3);
    out := NextMemState(f, mem, reach, out, s);
    GrewOn(old(reach.facts), next, withAssign, out3, reach.facts, out);
    ExpandedNow(g, withRev, withAssign, reach.facts, mem.pairs, f);
  }

  // ----- termination -----

  /** There are at most seven items from a node to one of `ts`. */
  lemma {:induction false} CountFrom(items: set<Item>, from: Node, ts: set<Node>)
    requires forall it :: it in items ==> it.from == from && it.to in ts
    ensures |items| <= 7 * |ts|
    decreases ts
  {
    if t :| t in ts {
      var these := set it | it in items && it.to == t;
      var seven := {Item(from, t, FlowFromReadOnly), Item(from, t, FlowFromMemAliasNoReadWrite),
                    Item(from, t, FlowFromMemAliasReadOnly), Item(from, t, FlowToWriteOnly),
                    Item(from, t, FlowToReadWrite), Item(from, t, FlowToMemAliasWriteOnly),
                    Item(from, t, FlowToMemAliasReadWrite)};
      forall it | it in these
        ensures it in seven
      {
        StateIsOneOfSeven(it);
      }
      SubsetSize(these, seven);
      CountFrom(items - these, from, ts - {t});
      assert |items| == |these| + |items - these|;
    } else {
      assert items == {};
    }
  }

  lemma StateIsOneOfSeven(it: Item)
    ensures it.state in {FlowFromReadOnly, FlowFromMemAliasNoReadWrite, FlowFromMemAliasReadOnly, FlowToWriteOnly,
                         FlowToReadWrite, FlowToMemAliasWriteOnly, FlowToMemAliasReadWrite}
  {
    match it.state
    case FlowFromReadOnly =>
    case FlowFromMemAliasNoReadWrite =>
    case FlowFromMemAliasReadOnly =>
    case FlowToWriteOnly =>
    case FlowToReadWrite =>
    case FlowToMemAliasWriteOnly =>
    case FlowToMemAliasReadWrite =>
  }

  lemma {:induction false} CountItems(items: set<Item>, fs: set<Node>, ts: set<Node>)
    requires forall it :: it in items ==> it.from in fs && it.to in ts
    ensures |items| <= 7 * |fs| * |ts|
    decreases fs
  {
    if f :| f in fs {
      var these := set it | it in items && it.from == f;
      CountFrom(these, f, ts);
      CountItems(items - these, fs - {f}, ts);
      assert |items| == |these| + |items - these|;
    } else {
      assert items == {};
    }
  }

  lemma AtMostSevenPerPair(g: Graph, facts: set<Item>, mem: set<(Node, Node)>)
    requires InGraph(g, facts, mem)
    ensures |facts| <= 7 * |NodesOf(g)| * |NodesOf(g)|
  {
    CountItems(facts, NodesOf(g), NodesOf(g));
  }

  /** Each round expands every item of the list; the items found meanwhile make up the next list.
      Every fact is expanded exactly once. */
  method BuildReach(g: Graph) returns (reach: ReachabilitySet, mem: AliasMemSet, ghost expanded: seq<Item>)
    requires WellFormed(g)
    ensures fresh(reach) && fresh(mem) && reach.Valid() && mem.Valid()
    ensures IsLeastClosed(g, reach.facts, mem.pairs) && InGraph(g, reach.facts, mem.pairs)
    ensures multiset(expanded) == multiset(reach.facts)
    ensures |expanded| == |reach.facts| <= 7 * |NodesOf(g)| * |NodesOf(g)|
  {
    reach := new ReachabilitySet();
    mem := new AliasMemSet();
    var workList := InitializeWorkList(g, reach);
    expanded := ProcessLists(g, reach, mem, workList);
  }

  method ProcessLists(g: Graph, reach: ReachabilitySet, mem: AliasMemSet, workList0: seq<Item>)
    returns (ghost expanded: seq<Item>)
    requires WellFormed(g) && reach.Valid() && mem.Valid() && EdgesCovered(g, reach.facts)
    requires Keeps(Search(g, mem.pairs, mem.pairs, []), reach.facts, workList0)
    requires multiset(workList0) == multiset(reach.facts)
    modifies reach, mem
    ensures reach.Valid() && mem.Valid()
    ensures IsLeastClosed(g, reach.facts, mem.pairs) && InGraph(g, reach.facts, mem.pairs)
    ensures multiset(expanded) == multiset(reach.facts)
    ensures |expanded| == |reach.facts| <= 7 * |NodesOf(g)| * |NodesOf(g)|
  {
    var workList := workList0;
    expanded := [];
    ghost var limit := 7 * |NodesOf(g)| * |NodesOf(g)|;
    assert [] + workList == workList;
    AtMostSevenPerPair(g, reach.facts, mem.pairs);
    while workList != []
      invariant reach.Valid() && mem.Valid()
      invariant Keeps(Search(g, mem.pairs, mem.pairs, []), reach.facts, workList)
      invariant EdgesCovered(g, reach.facts)
      invariant Accounted(expanded, workList, reach.facts) && |reach.facts| <= limit
      decreases limit - |reach.facts|, |workList|
    {
      ghost var before, expanding := reach.facts, workList;
      workList := ProcessAll(g, reach, mem, workList);
      ExpandedOnce(expanded, expanding, before, workList, reach.facts);
      expanded := expanded + expanding;
      AtMostSevenPerPair(g, reach.facts, mem.pairs);
    }
    AllExpanded(expanded, reach.facts);
  }

  /** The facts are the items expanded so far and those queued, each of them once. */
  ghost predicate Accounted(expanded: seq<Item>, workList: seq<Item>, facts: set<Item>) {
    multiset(expanded + workList) == multiset(facts)
  }

  lemma AllExpanded(expanded: seq<Item>, facts: set<Item>)
    requires Accounted(expanded, [], facts)
    ensures multiset(expanded) == multiset(facts) && |expanded| == |facts|
  {
    assert expanded + [] == expanded;
    assert |multiset(expanded)| == |expanded|;
  }

  /** One more round keeps the items expanded and queued the same as the facts, and finds new facts
      unless the next list is empty. */
  lemma ExpandedOnce(expanded: seq<Item>, workList: seq<Item>, before: set<Item>, next: seq<Item>, after: set<Item>)
    requires Accounted(expanded, workList, before) && Grew(before, [], after, next)
    ensures Accounted(expanded + workList, next, after)
    ensures |after| == |before| + |next|
  {
    assert after == before + (after - before);
    assert before * (after - before) == {};
    assert multiset(after) == multiset(before) + multiset(after - before);
    assert |multiset(next)| == |next| && |multiset(after - before)| == |after - before|;
  }

  method ProcessAll(g: Graph, reach: ReachabilitySet, mem: AliasMemSet, workList: seq<Item>)
    returns (nextList: seq<Item>)
    requires reach.Valid() && mem.Valid() && EdgesCovered(g, reach.facts)
    requires Keeps(Search(g, mem.pairs, mem.pairs, []), reach.facts, workList)
    modifies reach, mem
    ensures reach.Valid() && mem.Valid() && EdgesCovered(g, reach.facts)
    ensures Keeps(Search(g, mem.pairs, mem.pairs, []), reach.facts, nextList)
    ensures Grew(old(reach.facts), [], reach.facts, nextList)
  {
    nextList := [];
    for i := 0 to |workList|
      invariant reach.Valid() && mem.Valid()
      invariant Keeps(Search(g, mem.pairs, mem.pairs, workList[i..]), reach.facts, nextList)
      invariant Grew(old(reach.facts), [], reach.facts, nextList)
    {
      ghost var facts1, next1 := reach.facts, nextList;
      nextList := ProcessWorkListItem(workList[i], g, reach, mem, nextList, workList[i..]);
      GrewOn(old(reach.facts), [], facts1, next1, reach.facts, nextList);
      assert workList[i..][1..] == workList[i + 1..];
    }
    EdgesStayCovered(g, old(reach.facts), reach.facts);
  }
}
