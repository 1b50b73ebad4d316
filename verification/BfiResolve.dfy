/** Nodes that stand for the loops they have been packaged into. */
module BfiResolve {
  import opened Wrappers

  import opened BfiCombining
  import opened BfiMass
  import opened BfiHeaderMass

  /** From `l` up through packaged loops, as far as they go. */
  ghost predicate PackageChain(s: Shape, l: nat, chain: seq<nat>)
    requires s.Valid()
  {
    && chain != [] && chain[0] == l
    && (forall i :: 0 <= i < |chain| ==> chain[i] < |s.loops| && s.loops[chain[i]].packaged)
    && (forall i :: 0 <= i < |chain| - 1 ==> s.loops[chain[i]].parent == Some(chain[i + 1]))
    && (var p := s.loops[chain[|chain| - 1]].parent; p.Some? ==> !s.loops[p.value].packaged)
  }

  /** The node represents itself: no loop it is in has been packaged, or it is the first header of
      the outermost one that has been. */
  ghost predicate IsResolved(s: Shape, n: Node)
    requires s.Valid() && n < |s.loopOf|
  {
    s.loopOf[n].Some? && s.loops[s.loopOf[n].value].packaged ==>
      exists chain :: PackageChain(s, s.loopOf[n].value, chain) && s.loops[chain[|chain| - 1]].nodes[0] == n
  }

  /** The chain goes on from `l` as long as it is inside a packaged loop. */
  lemma ChainStep(s: Shape, l: nat, chain: seq<nat>)
    requires s.Valid() && PackageChain(s, l, chain)
    ensures |chain| > 1 <==> s.loops[l].parent.Some? && s.loops[s.loops[l].parent.value].packaged
    ensures |chain| > 1 ==> chain[1] == s.loops[l].parent.value && PackageChain(s, chain[1], chain[1..])
  {
    if |chain| > 1 {
      assert s.loops[chain[0]].parent == Some(chain[1]);
    }
  }

  /** There is only one way up. */
  lemma {:induction false} ChainsAgree(s: Shape, l: nat, a: seq<nat>, b: seq<nat>)
    requires s.Valid() && PackageChain(s, l, a) && PackageChain(s, l, b)
    ensures a[|a| - 1] == b[|b| - 1]
    decreases |a|
  {
    ChainStep(s, l, a);
    ChainStep(s, l, b);
    if |a| > 1 {
      ChainsAgree(s, a[1], a[1..], b[1..]);
    }
  }

  /** The loop that keeps a resolved node's mass is on its way up. */
  lemma SlotOnChain(s: Shape, n: Node, l: nat) returns (chain: seq<nat>)
    requires s.Valid() && n < |s.loopOf| && IsResolved(s, n) && s.SlotOf(n) == OfLoop(l)
    ensures PackageChain(s, l, chain) && s.loops[chain[|chain| - 1]].nodes[0] == n
  {
    var inner := s.loopOf[n].value;
    chain :| PackageChain(s, inner, chain) && s.loops[chain[|chain| - 1]].nodes[0] == n;
    if l != inner {
      ChainStep(s, inner, chain);
      chain := chain[1..];
    }
  }

  /** Nodes that represent themselves keep their masses in different places. */
  lemma ResolvedSlotsDiffer(s: Shape, a: Node, b: Node)
    requires s.Valid() && a < |s.loopOf| && b < |s.loopOf| && IsResolved(s, a) && IsResolved(s, b)
    requires s.SlotOf(a) == s.SlotOf(b)
    ensures a == b
  {
    match s.SlotOf(a) {
      case OfNode(_) =>
      case OfLoop(l) =>
        var up := SlotOnChain(s, a, l);
        var up' := SlotOnChain(s, b, l);
        ChainsAgree(s, l, up, up');
    }
  }

  lemma ResolvedNodesAreDistinct(s: Shape, ns: seq<Node>)
    requires s.Valid() && Nodes(s, ns) && forall i :: 0 <= i < |ns| ==> IsResolved(s, ns[i])
    requires forall i, j :: 0 <= i < j < |ns| ==> ns[i] != ns[j]
    ensures DistinctSlots(s, ns)
  {
    forall i, j | 0 <= i < j < |ns|
      ensures s.SlotOf(ns[i]) != s.SlotOf(ns[j])
    {
      if s.SlotOf(ns[i]) == s.SlotOf(ns[j]) {
        ResolvedSlotsDiffer(s, ns[i], ns[j]);
      }
    }
  }

  // ----- whose mass a node's mass is -----

  /** The node is a header of the packaged loop `l`: of its own accord, or because it is a header of
      a packaged loop that is itself one of several headers of `l`. */
  ghost predicate StandsForLoop(s: Shape, n: Node, l: nat)
    requires s.Valid() && n < |s.loopOf| && l < |s.loops|
  {
    && s.loops[l].packaged
    && n in s.loops[l].nodes[..s.loops[l].numHeaders]
    && s.loopOf[n].Some?
    && var inner := s.loopOf[n].value;
       && s.loops[inner].packaged && n in s.loops[inner].nodes[..s.loops[inner].numHeaders]
       && (inner == l || (s.loops[inner].parent == Some(l) && s.loops[l].numHeaders > 1))
  }

  /** The mass of a node is that of a packaged loop it stands for, the outer one if there are two of
      them, and its own if it stands for none. */
  lemma MassIsKept(s: Shape, n: Node, l: nat)
    requires s.Valid() && n < |s.loopOf| && l < |s.loops|
    ensures s.SlotOf(n) == OfLoop(l) ==> StandsForLoop(s, n, l)
    ensures StandsForLoop(s, n, l) ==>
              || s.SlotOf(n) == OfLoop(l)
              || (s.loops[l].parent.Some? && s.SlotOf(n) == OfLoop(s.loops[l].parent.value)
                  && StandsForLoop(s, n, s.loops[l].parent.value))
    ensures s.SlotOf(n) == OfNode(n) <==> forall k :: 0 <= k < |s.loops| ==> !StandsForLoop(s, n, k)
  {
    assert s.IsLoopHeader(n) && s.loops[s.loopOf[n].value].packaged ==> StandsForLoop(s, n, s.loopOf[n].value);
  }

  /** All headers of a packaged loop that is not itself packaged share one mass, that of the loop. */
  lemma HeadersShareOneMass(s: Shape, l: nat, a: Node, b: Node)
    requires s.Valid() && l < |s.loops| && a < |s.loopOf| && b < |s.loopOf|
    requires StandsForLoop(s, a, l) && StandsForLoop(s, b, l)
    requires s.loops[l].parent.Some? ==> !s.loops[s.loops[l].parent.value].packaged
    ensures s.SlotOf(a) == s.SlotOf(b) == OfLoop(l)
  {
    MassIsKept(s, a, l);
    MassIsKept(s, b, l);
  }
}
