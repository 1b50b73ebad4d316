/** The program expression graph: values with dereference levels, and assignments between them. */
module CflGraph {

  type Value = nat

  /** A value dereferenced `level` times. */
  datatype Node = Node(val: Value, level: nat)

  datatype Edge = Edge(other: Node, offset: int)

  /** Attributes, as the set of their bit positions. */
  type Attrs = set<nat>

  datatype NodeInfo = NodeInfo(edges: seq<Edge>, reverseEdges: seq<Edge>, attr: Attrs)

  const NO_INFO: NodeInfo := NodeInfo([], [], {})

  /** The levels of every value. */
  type Graph = map<Value, seq<NodeInfo>>

  predicate Has(g: Graph, n: Node) {
    n.val in g && n.level < |g[n.val]|
  }

  /** The node, if the graph has it. */
  function InfoOf(g: Graph, n: Node): NodeInfo {
    if Has(g, n) then g[n.val][n.level] else NO_INFO
  }

  predicate Leads(es: seq<Edge>, n: Node) {
    exists i :: 0 <= i < |es| && es[i].other == n
  }

  /** `a` is assigned to `b`. */
  predicate Assigns(g: Graph, a: Node, b: Node) {
    Leads(InfoOf(g, a).edges, b)
  }

  predicate RevAssigns(g: Graph, b: Node, a: Node) {
    Leads(InfoOf(g, b).reverseEdges, a)
  }

  ghost predicate EdgeMatches(g: Graph, a: Node, b: Node) {
    && (Assigns(g, a, b) <==> RevAssigns(g, b, a))
    && (Assigns(g, a, b) ==> Has(g, a) && Has(g, b))
  }

  /** Values have levels, and each edge is recorded at both of its ends, which exist. */
  ghost predicate WellFormed(g: Graph) {
    && (forall v :: v in g ==> g[v] != [])
    && (forall a, b :: EdgeMatches(g, a, b))
  }

  /** The node one dereference further, if the graph has it. */
  function Below(n: Node): Node {
    Node(n.val, n.level + 1)
  }

  ghost function NodesOf(g: Graph): (s: set<Node>)
    ensures forall n :: n in s <==> Has(g, n)
  {
    set v, i | v in g && 0 <= i < |g[v]| :: Node(v, i)
  }

  class CFLGraph {
    var valueImpls: Graph

    ghost predicate Valid()
      reads this
    {
      WellFormed(valueImpls)
    }

    constructor ()
      ensures Valid() && valueImpls == map[]
    {
      valueImpls := map[];
    }

    /** Adding a node adds every level above it. */
    method AddNode(n: Node, attr: Attrs) returns (changed: bool)
      requires Valid()
      modifies this
      ensures Valid() && Has(valueImpls, n)
      ensures changed <==> !Has(old(valueImpls), n)
      ensures forall k :: Has(valueImpls, k) <==> Has(old(valueImpls), k) || (k.val == n.val && k.level <= n.level)
      ensures forall a, b :: Assigns(valueImpls, a, b) <==> Assigns(old(valueImpls), a, b)
      ensures forall k :: InfoOf(valueImpls, k).attr == InfoOf(old(valueImpls), k).attr + if k == n then attr else {}
    {
      var before := valueImpls;
      var levels := if n.val in valueImpls then valueImpls[n.val] else [];
      changed := |levels| <= n.level;
      if changed {
        levels := levels + seq(n.level + 1 - |levels|, _ => NO_INFO);
      }
      levels := levels[n.level := levels[n.level].(attr := levels[n.level].attr + attr)];
      valueImpls := valueImpls[n.val := levels];
      SameEdges(before, valueImpls);
    }

    /** An edge goes into the list of each of its ends. */
    method AddEdge(from: Node, to: Node, offset: int)
      requires Valid() && Has(valueImpls, from) && Has(valueImpls, to)
      modifies this
      ensures Valid()
      ensures forall k :: Has(valueImpls, k) <==> Has(old(valueImpls), k)
      ensures forall a, b :: Assigns(valueImpls, a, b) <==> Assigns(old(valueImpls), a, b) || (a == from && b == to)
      ensures forall k :: InfoOf(valueImpls, k).attr == InfoOf(old(valueImpls), k).attr
    {
      var before := valueImpls;
      var info := InfoOf(before, from);
      var mid := before[from.val := before[from.val][from.level := info.(edges := info.edges + [Edge(to, offset)])]];
      info := InfoOf(mid, to);
      var reversed := info.(reverseEdges := info.reverseEdges + [Edge(from, offset)]);
      valueImpls := mid[to.val := mid[to.val][to.level := reversed]];
      EdgeAdded(before, mid, valueImpls, from, to, offset);
    }
  }

  lemma SameEdges(g: Graph, h: Graph)
    requires WellFormed(g) && forall v :: v in h ==> h[v] != []
    requires forall n :: Has(g, n) ==> Has(h, n)
    requires forall n ::
               InfoOf(h, n).edges == InfoOf(g, n).edges && InfoOf(h, n).reverseEdges == InfoOf(g, n).reverseEdges
    ensures WellFormed(h)
  {
    forall a, b
      ensures EdgeMatches(h, a, b)
    {
      assert EdgeMatches(g, a, b);
    }
  }

  lemma LeadsAppend(es: seq<Edge>, e: Edge, n: Node)
    ensures Leads(es + [e], n) <==> Leads(es, n) || e.other == n
  {
    if Leads(es, n) {
      var i :| 0 <= i < |es| && es[i].other == n;
      assert (es + [e])[i].other == n;
    }
    assert (es + [e])[|es|] == e;
  }

  lemma EdgeAdded(g: Graph, mid: Graph, h: Graph, from: Node, to: Node, offset: int)
    requires WellFormed(g) && Has(g, from) && Has(g, to)
    requires mid == g[from.val := g[from.val][from.level :=
               InfoOf(g, from).(edges := InfoOf(g, from).edges + [Edge(to, offset)])]]
    requires h == mid[to.val := mid[to.val][to.level :=
               InfoOf(mid, to).(reverseEdges := InfoOf(mid, to).reverseEdges + [Edge(from, offset)])]]
    ensures WellFormed(h)
    ensures forall k :: Has(h, k) <==> Has(g, k)
    ensures forall a, b :: Assigns(h, a, b) <==> Assigns(g, a, b) || (a == from && b == to)
    ensures forall k :: InfoOf(h, k).attr == InfoOf(g, k).attr
  {
    forall k
      ensures Has(h, k) <==> Has(g, k)
      ensures InfoOf(h, k).attr == InfoOf(g, k).attr
      ensures InfoOf(h, k).edges == InfoOf(g, k).edges + if k == from then [Edge(to, offset)] else []
      ensures InfoOf(h, k).reverseEdges == InfoOf(g, k).reverseEdges + if k == to then [Edge(from, offset)] else []
    {
    }
    forall a, b
      ensures EdgeMatches(h, a, b)
      ensures Assigns(h, a, b) <==> Assigns(g, a, b) || (a == from && b == to)
    {
      assert EdgeMatches(g, a, b);
      LeadsAppend(InfoOf(g, a).edges, Edge(to, offset), b);
      LeadsAppend(InfoOf(g, b).reverseEdges, Edge(from, offset), a);
      assert InfoOf(g, a).edges + [] == InfoOf(g, a).edges;
      assert InfoOf(g, b).reverseEdges + [] == InfoOf(g, b).reverseEdges;
    }
  }
}
