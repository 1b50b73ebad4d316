/** Headers of irreducible regions: the graph they are found in, and how they are chosen. */
module BfiIrreducible {
  import opened Sets

  type Node = nat

  /** The predecessors of a node come first among its edges, then its successors. */
  datatype IrrNode = IrrNode(numIn: nat, edges: seq<Node>) {
    predicate Valid() { numIn <= |edges| }

    function Preds(): seq<Node> {
      if Valid() then edges[..numIn] else []
    }

    function Succs(): seq<Node> {
      if Valid() then edges[numIn..] else []
    }
  }

  ghost predicate Edge(nodes: map<Node, IrrNode>, a: Node, b: Node) {
    b in nodes && a in nodes[b].Preds()
  }

  /** An edge is in the lists of both its ends, as often in one as in the other. */
  ghost predicate EndsMatch(nodes: map<Node, IrrNode>, a: Node, b: Node) {
    a in nodes && b in nodes ==> multiset(nodes[a].Succs())[b] == multiset(nodes[b].Preds())[a]
  }

  ghost predicate Matched(nodes: map<Node, IrrNode>) {
    && (forall n :: n in nodes ==> nodes[n].Valid())
    && (forall a, b :: EndsMatch(nodes, a, b))
    && (forall a, b :: Edge(nodes, a, b) ==> a in nodes)
  }

  class IrreducibleGraph {
    var nodes: map<Node, IrrNode>

    ghost predicate Valid()
      reads this
    {
      Matched(nodes)
    }

    constructor (members: seq<Node>)
      ensures Valid() && nodes.Keys == (set n | n in members) && forall n :: n in nodes ==> nodes[n].edges == []
    {
      nodes := map n | n in members :: IrrNode(0, []);
    }

    /** Edges to the headers of the enclosing loop and edges out of the graph are ignored. */
    method AddEdge(irr: Node, succ: Node, outerHeaders: seq<Node>)
      requires Valid() && irr in nodes
      modifies this
      ensures Valid() && nodes.Keys == old(nodes).Keys
      ensures forall a, b :: Edge(nodes, a, b) <==>
                Edge(old(nodes), a, b) || (a == irr && b == succ && succ !in outerHeaders && succ in nodes)
      ensures if succ in outerHeaders || succ !in nodes then nodes == old(nodes)
              else forall n :: n in nodes ==> Grown(old(nodes), nodes, irr, succ, n)
    {
      if succ in outerHeaders || succ !in nodes {
        return;
      }
      var before := nodes;
      nodes := nodes[irr := IrrNode(nodes[irr].numIn, nodes[irr].edges + [succ])];
      nodes := nodes[succ := IrrNode(nodes[succ].numIn + 1, [irr] + nodes[succ].edges)];
      EdgeAdded(before, nodes, irr, succ);
    }
  }

  /** What adding an edge does to the two halves of each list. */
  lemma EdgeAdded(before: map<Node, IrrNode>, after: map<Node, IrrNode>, a: Node, b: Node)
    requires Matched(before) && a in before && b in before
    requires var mid := before[a := IrrNode(before[a].numIn, before[a].edges + [b])];
             after == mid[b := IrrNode(mid[b].numIn + 1, [a] + mid[b].edges)]
    ensures Matched(after) && after.Keys == before.Keys
    ensures forall n :: n in after ==> Grown(before, after, a, b, n)
    ensures forall x, y :: Edge(after, x, y) <==> Edge(before, x, y) || (x == a && y == b)
  {
    forall n | n in after
      ensures Grown(before, after, a, b, n)
    {
      ListAfter(before[n], after[n], if n == b then [a] else [], if n == a then [b] else []);
    }
    forall x, y
      ensures EndsMatch(after, x, y)
      ensures Edge(after, x, y) <==> Edge(before, x, y) || (x == a && y == b)
    {
      PairAfter(before, after, a, b, x, y);
    }
  }

  /** The lists of `n` after an edge from `a` to `b` has been added. */
  ghost predicate Grown(before: map<Node, IrrNode>, after: map<Node, IrrNode>, a: Node, b: Node, n: Node) {
    && n in before && n in after && after[n].Valid()
    && after[n].Succs() == before[n].Succs() + (if n == a then [b] else [])
    && after[n].Preds() == (if n == b then [a] else []) + before[n].Preds()
  }

  lemma ListAfter(before: IrrNode, after: IrrNode, pred: seq<Node>, succ: seq<Node>)
    requires before.Valid() && after == IrrNode(before.numIn + |pred|, pred + (before.edges + succ))
    ensures after.Valid() && after.Preds() == pred + before.Preds() && after.Succs() == before.Succs() + succ
  {
  }

  lemma PairAfter(before: map<Node, IrrNode>, after: map<Node, IrrNode>, a: Node, b: Node, x: Node, y: Node)
    requires EndsMatch(before, x, y) && after.Keys == before.Keys
    requires x in after ==> Grown(before, after, a, b, x)
    requires y in after ==> Grown(before, after, a, b, y)
    requires b in before
    ensures EndsMatch(after, x, y)
    ensures Edge(after, x, y) <==> Edge(before, x, y) || (x == a && y == b)
  {
    if y in after {
      if y == b {
        assert multiset([a] + before[y].Preds()) == multiset([a]) + multiset(before[y].Preds());
      }
      if x in after && x == a {
        assert multiset(before[x].Succs() + [b]) == multiset(before[x].Succs()) + multiset([b]);
      }
    }
  }

  // ----- choosing the headers -----

  ghost predicate InGraph(nodes: map<Node, IrrNode>, scc: seq<Node>) {
    forall n :: n in scc ==> n in nodes && nodes[n].Valid()
  }

  /** A block entered from outside the component. */
  ghost predicate IsEntry(nodes: map<Node, IrrNode>, scc: seq<Node>, n: Node) {
    n in scc && exists p :: Edge(nodes, p, n) && p !in scc
  }

  /** A block with a predecessor that is neither ordered before it nor an entry. */
  ghost predicate IsExtra(nodes: map<Node, IrrNode>, scc: seq<Node>, n: Node) {
    n in scc && exists p :: Edge(nodes, p, n) && n <= p && !IsEntry(nodes, scc, p)
  }

  ghost predicate IsHeader(nodes: map<Node, IrrNode>, scc: seq<Node>, n: Node) {
    IsEntry(nodes, scc, n) || IsExtra(nodes, scc, n)
  }

  predicate StrictlySorted(ns: seq<Node>) {
    forall i, j :: 0 <= i < j < |ns| ==> ns[i] < ns[j]
  }

  predicate NoDuplicates(ns: seq<Node>) {
    forall i, j :: 0 <= i < j < |ns| ==> ns[i] != ns[j]
  }

  method Sort(ns: seq<Node>) returns (s: seq<Node>)
    requires NoDuplicates(ns)
    ensures StrictlySorted(s) && |s| == |ns| && forall n :: n in s <==> n in ns
  {
    s := [];
    for i := 0 to |ns|
      invariant StrictlySorted(s) && |s| == i && forall n :: n in s <==> n in ns[..i]
    {
      var p := i;
      while p > 0 && s[p - 1] > ns[i]
        invariant 0 <= p <= i && forall k :: p <= k < i ==> s[k] > ns[i]
      {
        p := p - 1;
      }
      Inserted(s, p, ns[i]);
      InsertedMembers(s, p, ns[i]);
      assert ns[..i + 1] == ns[..i] + [ns[i]];
      assert ns[i] !in ns[..i];
      s := s[..p] + [ns[i]] + s[p..];
    }
    assert ns[..|ns|] == ns;
  }

  lemma Inserted(s: seq<Node>, p: nat, n: Node)
    requires StrictlySorted(s) && p <= |s| && n !in s
    requires (p > 0 ==> s[p - 1] <= n) && forall k :: p <= k < |s| ==> s[k] > n
    ensures StrictlySorted(s[..p] + [n] + s[p..])
  {
    assert forall k :: 0 <= k < p ==> s[k] <= s[p - 1] && s[k] != n;
  }

  lemma InsertedMembers(s: seq<Node>, p: nat, n: Node)
    requires p <= |s|
    ensures forall x :: x in s[..p] + [n] + s[p..] <==> x in s || x == n
  {
    assert s == s[..p] + s[p..];
  }

  /** Does some predecessor lie outside the component? */
  method EnteredFromOutside(irr: IrrNode, inSCC: map<Node, bool>) returns (r: bool)
    requires irr.Valid()
    ensures r <==> exists p :: p in irr.Preds() && p !in inSCC
  {
    for i := 0 to irr.numIn
      invariant forall k :: 0 <= k < i ==> irr.Preds()[k] in inSCC
    {
      if irr.edges[i] !in inSCC {
        assert irr.Preds()[i] !in inSCC;
        return true;
      }
    }
    return false;
  }

  /** Is some predecessor neither ordered before `n` nor marked as an entry? */
  method HasBackEdge(n: Node, irr: IrrNode, inSCC: map<Node, bool>) returns (r: bool)
    requires irr.Valid()
    ensures r <==> exists p :: p in irr.Preds() && n <= p && !(p in inSCC && inSCC[p])
  {
    for i := 0 to irr.numIn
      invariant forall k :: 0 <= k < i ==> irr.Preds()[k] < n || (irr.Preds()[k] in inSCC && inSCC[irr.Preds()[k]])
    {
      var p := irr.edges[i];
      if p < n {
        continue;
      }
      if p in inSCC && inSCC[p] {
        continue;
      }
      assert irr.Preds()[i] == p;
      return true;
    }
    return false;
  }

  /** Mark and collect the entry blocks, in whatever order the table yields them. */
  method FindEntries(nodes: map<Node, IrrNode>, scc: seq<Node>) returns (inSCC: map<Node, bool>, headers: seq<Node>)
    requires InGraph(nodes, scc)
    ensures forall n :: n in inSCC <==> n in scc
    ensures forall n :: n in inSCC ==> (inSCC[n] <==> IsEntry(nodes, scc, n))
    ensures NoDuplicates(headers) && forall n :: n in headers <==> IsEntry(nodes, scc, n)
  {
    inSCC := map n | n in scc :: false;
    headers := [];
    var rest := inSCC.Keys;
    while rest != {}
      invariant rest <= inSCC.Keys && forall n :: n in inSCC <==> n in scc
      invariant forall n :: n in inSCC ==> (inSCC[n] <==> n !in rest && IsEntry(nodes, scc, n))
      invariant NoDuplicates(headers) && forall n :: n in headers <==> n !in rest && IsEntry(nodes, scc, n)
      decreases rest
    {
      var n :| n in rest;
      var entered := EnteredFromOutside(nodes[n], inSCC);
      EnteredIsEntry(nodes, scc, n, inSCC);
      if entered {
        inSCC := inSCC[n := true];
        headers := headers + [n];
      }
      rest := rest - {n};
    }
  }

  lemma EnteredIsEntry(nodes: map<Node, IrrNode>, scc: seq<Node>, n: Node, inSCC: map<Node, bool>)
    requires n in scc && n in nodes && forall k :: k in inSCC <==> k in scc
    ensures IsEntry(nodes, scc, n) <==> exists p :: p in nodes[n].Preds() && p !in inSCC
  {
    if IsEntry(nodes, scc, n) {
      var p :| Edge(nodes, p, n) && p !in scc;
      assert p in nodes[n].Preds() && p !in inSCC;
    }
    if p :| p in nodes[n].Preds() && p !in inSCC {
      assert Edge(nodes, p, n) && p !in scc;
    }
  }

  lemma BackEdgeIsExtra(nodes: map<Node, IrrNode>, scc: seq<Node>, n: Node, inSCC: map<Node, bool>)
    requires n in scc && n in nodes && forall k :: k in inSCC <==> k in scc
    requires forall k :: k in inSCC ==> (inSCC[k] <==> IsEntry(nodes, scc, k))
    ensures IsExtra(nodes, scc, n) <==> exists p :: p in nodes[n].Preds() && n <= p && !(p in inSCC && inSCC[p])
  {
    if IsExtra(nodes, scc, n) {
      var p :| Edge(nodes, p, n) && n <= p && !IsEntry(nodes, scc, p);
      assert p in nodes[n].Preds() && n <= p && !(p in inSCC && inSCC[p]);
    }
    if p :| p in nodes[n].Preds() && n <= p && !(p in inSCC && inSCC[p]) {
      assert Edge(nodes, p, n) && !IsEntry(nodes, scc, p);
    }
  }

  /** Given two entry blocks, split a component into its headers and the others, both sorted. */
  method FindIrreducibleHeaders(nodes: map<Node, IrrNode>, scc: seq<Node>)
    returns (headers: seq<Node>, others: seq<Node>)
    requires InGraph(nodes, scc)
    requires exists a, b :: a != b && IsEntry(nodes, scc, a) && IsEntry(nodes, scc, b)
    ensures StrictlySorted(headers) && StrictlySorted(others) && |headers| >= 2
    ensures forall n :: n in headers <==> IsHeader(nodes, scc, n)
    ensures forall n :: n in others <==> n in scc && !IsHeader(nodes, scc, n)
  {
    var inSCC;
    inSCC, headers := FindEntries(nodes, scc);
    others := [];
    AtLeastTwo(nodes, scc, headers);
    if |headers| == |inSCC| {
      AllEntries(nodes, scc, headers, inSCC);
      headers := Sort(headers);
      return;
    }
    headers, others := AddExtraHeaders(nodes, scc, inSCC, headers);
    headers := Sort(headers);
    others := Sort(others);
  }

  /** Add blocks with backedges to the entry blocks; what remains is not a header. */
  method AddExtraHeaders(nodes: map<Node, IrrNode>, scc: seq<Node>, inSCC: map<Node, bool>, entries: seq<Node>)
      returns (headers: seq<Node>, others: seq<Node>)
    requires InGraph(nodes, scc) && |entries| >= 2
    requires forall n :: n in inSCC <==> n in scc
    requires forall n :: n in inSCC ==> (inSCC[n] <==> IsEntry(nodes, scc, n))
    requires NoDuplicates(entries) && forall n :: n in entries <==> IsEntry(nodes, scc, n)
    ensures NoDuplicates(headers) && |headers| >= 2 && forall n :: n in headers <==> IsHeader(nodes, scc, n)
    ensures NoDuplicates(others) && forall n :: n in others <==> n in scc && !IsHeader(nodes, scc, n)
  {
    headers, others := entries, [];
    var rest := inSCC.Keys;
    while rest != {}
      invariant rest <= inSCC.Keys
      invariant NoDuplicates(headers) && |headers| >= 2
      invariant forall n :: n in headers <==> IsEntry(nodes, scc, n) || (n !in rest && IsExtra(nodes, scc, n))
      invariant NoDuplicates(others)
      invariant forall n :: n in others <==> n in scc && n !in rest && !IsHeader(nodes, scc, n)
      decreases rest
    {
      var n :| n in rest;
      rest := rest - {n};
      if inSCC[n] {
        continue;
      }
      var back := HasBackEdge(n, nodes[n], inSCC);
      BackEdgeIsExtra(nodes, scc, n, inSCC);
      if back {
        headers := headers + [n];
      }
      if headers[|headers| - 1] == n {
        continue;
      }
      others := others + [n];
    }
  }

  lemma TwoDiffer(ns: seq<Node>, a: Node, b: Node)
    requires a in ns && b in ns && a != b
    ensures |ns| >= 2
  {
    var i :| 0 <= i < |ns| && ns[i] == a;
    var j :| 0 <= j < |ns| && ns[j] == b;
  }

  lemma AtLeastTwo(nodes: map<Node, IrrNode>, scc: seq<Node>, headers: seq<Node>)
    requires forall n :: n in headers <==> IsEntry(nodes, scc, n)
    requires exists a, b :: a != b && IsEntry(nodes, scc, a) && IsEntry(nodes, scc, b)
    ensures |headers| >= 2
  {
    var a, b :| a != b && IsEntry(nodes, scc, a) && IsEntry(nodes, scc, b);
    TwoDiffer(headers, a, b);
  }

  ghost function Members(ns: seq<Node>): set<Node> {
    set n | n in ns
  }

  lemma {:induction false} CountDistinct(ns: seq<Node>)
    requires NoDuplicates(ns)
    ensures |Members(ns)| == |ns|
  {
    if ns != [] {
      var init, last := ns[..|ns| - 1], ns[|ns| - 1];
      CountDistinct(init);
      assert ns == init + [last];
      assert last !in init;
      assert Members(ns) == Members(init) + {last};
    }
  }

  lemma AllEntries(nodes: map<Node, IrrNode>, scc: seq<Node>, headers: seq<Node>, inSCC: map<Node, bool>)
    requires NoDuplicates(headers) && |headers| == |inSCC|
    requires forall n :: n in inSCC <==> n in scc
    requires forall n :: n in headers <==> IsEntry(nodes, scc, n)
    ensures forall n :: n in scc ==> IsEntry(nodes, scc, n)
  {
    CountDistinct(headers);
    SubsetSize(Members(headers), inSCC.Keys);
    forall n | n in scc
      ensures IsEntry(nodes, scc, n)
    {
      assert n in inSCC.Keys;
      assert n in Members(headers);
    }
  }

  ghost predicate AllFromInside(nodes: map<Node, IrrNode>, scc: seq<Node>, p: Node) {
    forall q :: Edge(nodes, q, p) ==> q in scc
  }

  /** A block is a header exactly when a predecessor lies outside the component, or one that is not
      before it in the function lies inside and has all its own predecessors inside. */
  lemma HeaderIff(nodes: map<Node, IrrNode>, scc: seq<Node>, n: Node)
    ensures IsHeader(nodes, scc, n) <==>
              && n in scc
              && exists p :: Edge(nodes, p, n) && (p !in scc || (n <= p && AllFromInside(nodes, scc, p)))
  {
    if p :| Edge(nodes, p, n) && n <= p && !IsEntry(nodes, scc, p) {
      assert p in scc ==> AllFromInside(nodes, scc, p);
    }
    if p :| n in scc && Edge(nodes, p, n) && n <= p && AllFromInside(nodes, scc, p) {
      assert !IsEntry(nodes, scc, p);
    }
  }

  // ----- what the headers are good for -----

  /** A closed walk inside the component. */
  ghost predicate CycleIn(nodes: map<Node, IrrNode>, scc: seq<Node>, cycle: seq<Node>) {
    && cycle != []
    && (forall i :: 0 <= i < |cycle| ==> cycle[i] in scc)
    && (forall i :: 0 < i < |cycle| ==> Edge(nodes, cycle[i - 1], cycle[i]))
    && Edge(nodes, cycle[|cycle| - 1], cycle[0])
  }

  /** The position of the lowest-numbered node. */
  lemma {:induction false} Lowest(ns: seq<Node>) returns (m: nat)
    requires ns != []
    ensures m < |ns| && forall i :: 0 <= i < |ns| ==> ns[m] <= ns[i]
  {
    if |ns| == 1 {
      m := 0;
    } else {
      m := Lowest(ns[..|ns| - 1]);
      if ns[|ns| - 1] < ns[m] {
        m := |ns| - 1;
      }
    }
  }

  /** Once the headers are removed, no cycle is left in the component. */
  lemma EveryCycleHasAHeader(nodes: map<Node, IrrNode>, scc: seq<Node>, cycle: seq<Node>)
    requires CycleIn(nodes, scc, cycle)
    ensures exists i :: 0 <= i < |cycle| && IsHeader(nodes, scc, cycle[i])
  {
    var m := Lowest(cycle);
    var q := if m == 0 then |cycle| - 1 else m - 1;
    assert Edge(nodes, cycle[q], cycle[m]) && cycle[m] <= cycle[q];
    if !IsEntry(nodes, scc, cycle[q]) {
      assert IsExtra(nodes, scc, cycle[m]);
    } else {
      assert IsHeader(nodes, scc, cycle[q]);
    }
  }

  /** With the headers first and the others in order, each of the others comes after all its
      predecessors: propagating mass through the nodes in this order, once, is enough. */
  lemma PredecessorsComeFirst(nodes: map<Node, IrrNode>, scc: seq<Node>, headers: seq<Node>, others: seq<Node>,
                              j: nat, p: Node)
    requires StrictlySorted(others)
    requires forall n :: n in headers <==> IsHeader(nodes, scc, n)
    requires forall n :: n in others <==> n in scc && !IsHeader(nodes, scc, n)
    requires |headers| <= j < |headers + others| && Edge(nodes, p, (headers + others)[j])
    ensures p in (headers + others)[..j]
  {
    var n: Node := (headers + others)[j];
    assert n == others[j - |headers|];
    if p in headers {
      var i :| 0 <= i < |headers| && headers[i] == p;
      assert (headers + others)[..j][i] == p;
    } else {
      assert p !in scc ==> IsEntry(nodes, scc, n);
      assert n <= p && !IsEntry(nodes, scc, p) ==> IsExtra(nodes, scc, n);
      var i :| 0 <= i < |others| && others[i] == p;
      assert (headers + others)[..j][|headers| + i] == p;
    }
  }
}
