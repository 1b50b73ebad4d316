/** Why one pass over the nodes of an irreducible loop is enough. */
module BfiLoopOrder {
  import opened BfiCombining
  import opened BfiMass
  import opened BfiLoopMass
  import I = BfiIrreducible

  /** The edges of the `k`-th node: those that do not lead to a header or out of the component are
      edges of its graph to one of the others. */
  ghost predicate EdgesOf(graph: map<Node, I.IrrNode>, order: seq<Node>, others: seq<Node>, k: nat, es: seq<Weight>)
    requires k < |order|
  {
    && es != []
    && forall j :: 0 <= j < |es| && es[j].kind == Local ==>
         es[j].target in others && I.Edge(graph, order[k], es[j].target)
  }

  /** With the chosen headers first and the others in order, every edge to one of the others leads
      forward, so that all mass ends up flowing back or leaving. */
  lemma ChosenHeadersGoForward(graph: map<Node, I.IrrNode>, scc: seq<Node>, headers: seq<Node>, others: seq<Node>,
                               s: Shape, l: nat, edges: seq<seq<Weight>>)
    requires l < |s.loops| && s.loops[l].nodes == headers + others && |edges| == |headers + others|
    requires I.StrictlySorted(others)
    requires forall n :: n in headers <==> I.IsHeader(graph, scc, n)
    requires forall n :: n in others <==> n in scc && !I.IsHeader(graph, scc, n)
    requires forall k :: 0 <= k < |edges| ==> EdgesOf(graph, headers + others, others, k, edges[k])
    ensures Forward(s, l, edges)
  {
    var order := headers + others;
    forall k, j | 0 <= k < |edges| && 0 <= j < |edges[k]|
      ensures StaysIn(edges[k][j], order[k + 1..])
    {
      assert EdgesOf(graph, order, others, k, edges[k]);
      if edges[k][j].kind == Local {
        LeadsForward(graph, scc, headers, others, k, edges[k][j].target);
      }
    }
    forall k | 0 <= k < |edges|
      ensures edges[k] != [] && AllStayIn(edges[k], order[k + 1..])
    {
      assert EdgesOf(graph, order, others, k, edges[k]);
    }
  }

  lemma LeadsForward(graph: map<Node, I.IrrNode>, scc: seq<Node>, headers: seq<Node>, others: seq<Node>,
                     k: nat, t: Node)
    requires I.StrictlySorted(others)
    requires forall n :: n in headers <==> I.IsHeader(graph, scc, n)
    requires forall n :: n in others <==> n in scc && !I.IsHeader(graph, scc, n)
    requires k < |headers + others| && t in others && I.Edge(graph, (headers + others)[k], t)
    ensures t in (headers + others)[k + 1..]
  {
    var order := headers + others;
    var i :| 0 <= i < |others| && others[i] == t;
    var j := |headers| + i;
    assert order[j] == t;
    I.PredecessorsComeFirst(graph, scc, headers, others, j, order[k]);
    var q :| 0 <= q < j && order[q] == order[k];
    if k >= j {
      assert false;
    }
    assert order[k + 1..][j - k - 1] == t;
  }
}
