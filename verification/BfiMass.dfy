/** Splitting a mass by weight without losing any of it. */
module BfiMass {
  import opened Wrappers

  import opened BfiProbability
  import opened BfiCombining
  import opened BfiNormalize
  import opened BfiDistribution

  const FULL: nat := UINT64_MAX

  /** 64-bit addition that saturates when it wraps around. */
  function AddMass(a: nat, b: nat): nat {
    var sum := (a + b) % TWO64;
    if sum < a then UINT64_MAX else sum
  }

  /** 64-bit subtraction that stops at zero. */
  function SubMass(a: nat, b: nat): nat {
    var diff := (a - b) % TWO64;
    if diff > a then 0 else diff
  }

  lemma MassArithmetic(a: nat, b: nat)
    requires a <= UINT64_MAX && b <= UINT64_MAX
    ensures AddMass(a, b) == Min(a + b, UINT64_MAX)
    ensures b <= a ==> SubMass(a, b) == a - b
  {
  }

  /** The part of `mass` that goes to weight `w` out of `r`. */
  function Share(mass: nat, w: nat, r: nat): nat
    requires 0 < r < TWO32 && w <= r
  {
    ScaledExactly(mass, Probability(w, r), TWO31)
  }

  /** `p` is to `mass` as `w` is to `r`, but for what rounding the probability to 31 bits and the
      product to a whole number make of it. */
  ghost predicate Proportional(p: nat, mass: nat, w: nat, r: nat) {
    -(mass * r + 0x1_0000_0000 * r) <= 0x1_0000_0000 * (p * r - mass * w) <= mass * r
  }

  lemma ShareIsProportional(mass: nat, w: nat, r: nat)
    requires 0 < r < TWO32 && w <= r && mass <= UINT64_MAX
    ensures Proportional(Share(mass, w, r), mass, w, r)
  {
    var n := Probability(w, r);
    var p := Share(mass, w, r);
    ScaleByProbability(mass, w, r);
    ProbabilityIsNearest(w, r);
    Division(mass * n, TWO31);
    ShareBelow(p, mass, w, r, n);
    ShareAbove(p, mass, w, r, n);
  }

  lemma Twice(mass: nat, n: nat, r: nat)
    ensures 2 * (mass * n * r) == mass * (2 * (n * r))
  {
  }

  lemma ShareBelow(p: nat, mass: nat, w: nat, r: nat, n: nat)
    requires p * TWO31 <= mass * n && 2 * (n * r) <= 2 * (w * TWO31) + r
    ensures TWO32 * (p * r - mass * w) <= mass * r
  {
    MulMono(r, p * TWO31, mass * n);
    MulMono(mass, 2 * (n * r), 2 * (w * TWO31) + r);
    Twice(mass, n, r);
    assert mass * (2 * (w * TWO31) + r) == TWO32 * (mass * w) + mass * r;
    assert 2 * (r * (p * TWO31)) == TWO32 * (p * r);
  }

  lemma ShareAbove(p: nat, mass: nat, w: nat, r: nat, n: nat)
    requires mass * n <= p * TWO31 + TWO31 && 2 * (w * TWO31) <= 2 * (n * r) + r
    ensures -(mass * r + TWO32 * r) <= TWO32 * (p * r - mass * w)
  {
    MulMono(r, mass * n, p * TWO31 + TWO31);
    MulMono(mass, 2 * (w * TWO31), 2 * (n * r) + r);
    Twice(mass, n, r);
    assert mass * (2 * (w * TWO31)) == TWO32 * (mass * w);
    assert mass * (2 * (n * r) + r) == mass * (2 * (n * r)) + mass * r;
    assert 2 * (r * (p * TWO31 + TWO31)) == TWO32 * (p * r) + TWO32 * r;
  }

  // ----- the portions of a mass -----

  /** Weights that can be taken from a 32-bit total. */
  ghost predicate Takeable(ws: seq<Weight>) {
    Sum(ws) < TWO32 && forall j :: 0 <= j < |ws| ==> 0 < ws[j].amount
  }

  lemma {:induction false} SumFront(ws: seq<Weight>)
    requires ws != []
    ensures Sum(ws) == ws[0].amount + Sum(ws[1..])
  {
    if |ws| > 1 {
      SumFront(ws[..|ws| - 1]);
      assert ws[..|ws| - 1][1..] == ws[1..][..|ws| - 2];
    } else {
      assert ws[..0] == [] && ws[1..] == [];
      assert Sum(ws[..0]) == 0 && Sum(ws[1..]) == 0;
    }
  }

  lemma TakeableRest(ws: seq<Weight>)
    requires Takeable(ws) && ws != []
    ensures Takeable(ws[1..]) && 0 < ws[0].amount <= Sum(ws) && Sum(ws[1..]) == Sum(ws) - ws[0].amount
    ensures ws[0].amount == Sum(ws) <==> |ws| == 1
  {
    SumFront(ws);
    if |ws| > 1 {
      SumFront(ws[1..]);
    }
  }

  /** Each weight takes its share of what the earlier ones have left. */
  function Portions(ws: seq<Weight>, mass: nat): (ps: seq<nat>)
    requires Takeable(ws) && mass <= UINT64_MAX
    ensures |ps| == |ws|
  {
    if ws == [] then []
    else
      TakeableRest(ws);
      ScaleByProbability(mass, ws[0].amount, Sum(ws));
      var p := Share(mass, ws[0].amount, Sum(ws));
      [p] + Portions(ws[1..], mass - p)
  }

  lemma {:induction false} TotalFront(cs: seq<nat>)
    requires cs != []
    ensures Total(cs) == cs[0] + Total(cs[1..])
  {
    if |cs| > 1 {
      TotalFront(cs[..|cs| - 1]);
      assert cs[..|cs| - 1][1..] == cs[1..][..|cs| - 2];
    } else {
      assert cs[..0] == [] && cs[1..] == [];
      assert Total(cs[..0]) == 0 && Total(cs[1..]) == 0;
    }
  }

  /** No mass is lost: the last weight is all that remains of the total, and takes all that
      remains of the mass. */
  lemma {:induction false} PortionsAddUp(ws: seq<Weight>, mass: nat)
    requires Takeable(ws) && mass <= UINT64_MAX && ws != []
    ensures Total(Portions(ws, mass)) == mass
    decreases |ws|
  {
    TakeableRest(ws);
    ScaleByProbability(mass, ws[0].amount, Sum(ws));
    var p := Share(mass, ws[0].amount, Sum(ws));
    var ps := Portions(ws, mass);
    TotalFront(ps);
    assert ps[1..] == Portions(ws[1..], mass - p);
    if |ws| > 1 {
      PortionsAddUp(ws[1..], mass - p);
    } else {
      assert ps[1..] == [];
    }
  }

  /** Each portion is proportional, of what the earlier ones have left of mass and weights. */
  ghost predicate SharedByWeight(ps: seq<nat>, ws: seq<Weight>, mass: nat) {
    |ps| == |ws| && forall j :: 0 <= j < |ps| ==> PortionFits(ps, ws, mass, j)
  }

  ghost predicate PortionFits(ps: seq<nat>, ws: seq<Weight>, mass: nat, j: nat)
    requires j < |ps| == |ws|
  {
    Total(ps[..j]) <= mass && Proportional(ps[j], mass - Total(ps[..j]), ws[j].amount, Sum(ws[j..]))
  }

  lemma {:induction false} PortionsAreProportional(ws: seq<Weight>, mass: nat)
    requires Takeable(ws) && mass <= UINT64_MAX
    ensures SharedByWeight(Portions(ws, mass), ws, mass)
    decreases |ws|
  {
    if ws != [] {
      var p := FirstIsProportional(ws, mass);
      var ps := Portions(ws, mass);
      PortionsAreProportional(ws[1..], mass - p);
      forall j | 0 <= j < |ps|
        ensures PortionFits(ps, ws, mass, j)
      {
        if j > 0 {
          FitsOneMore(ps, ws, mass, j);
        }
      }
    }
  }

  lemma FirstIsProportional(ws: seq<Weight>, mass: nat) returns (p: nat)
    requires Takeable(ws) && mass <= UINT64_MAX && ws != []
    ensures Takeable(ws[1..]) && p <= mass && Portions(ws, mass) == [p] + Portions(ws[1..], mass - p)
    ensures PortionFits(Portions(ws, mass), ws, mass, 0)
  {
    TakeableRest(ws);
    ScaleByProbability(mass, ws[0].amount, Sum(ws));
    ShareIsProportional(mass, ws[0].amount, Sum(ws));
    p := Share(mass, ws[0].amount, Sum(ws));
    assert Portions(ws, mass)[..0] == [] && ws[0..] == ws && Total(Portions(ws, mass)[..0]) == 0;
  }

  lemma FitsOneMore(ps: seq<nat>, ws: seq<Weight>, mass: nat, j: nat)
    requires 0 < j < |ps| == |ws| && ps[0] <= mass && PortionFits(ps[1..], ws[1..], mass - ps[0], j - 1)
    ensures PortionFits(ps, ws, mass, j)
  {
    TotalFront(ps[..j]);
    assert ps[..j][1..] == ps[1..][..j - 1] && ws[1..][j - 1..] == ws[j..];
  }

  class DitheringDistributer {
    var remWeight: nat
    var remMass: nat

    /** Normalizes the distribution, whose total is then kept in 32 bits. */
    constructor (dist: Distribution, mass: nat)
      requires dist.Added() && TypesAgree(dist.weights) && mass <= UINT64_MAX
      requires Fits(dist.weights)
      modifies dist
      ensures remWeight == Sum(dist.weights) && remMass == mass
      ensures Takeable(dist.weights) && CoversTargets(dist.weights, old(dist.weights))
      ensures KeepsKinds(dist.weights, old(dist.weights)) && Precise(dist.weights, old(dist.weights))
    {
      ghost var ws, shift := dist.weights, ShiftFor(dist.didOverflow, dist.total);
      dist.Normalize();
      FitsInRemWeight(dist.weights, dist.total, ws);
      remWeight := dist.total % TWO32;
      remMass := mass;
      new;
      KindsKept(ws, dist.weights, shift);
    }

    /** Take the share of a weight from what remains. */
    method TakeMass(weight: nat) returns (mass: int)
      requires 0 < weight <= remWeight < TWO32 && remMass <= UINT64_MAX
      modifies this
      ensures mass == Share(old(remMass), weight, old(remWeight)) <= old(remMass)
      ensures Proportional(mass, old(remMass), weight, old(remWeight))
      ensures remWeight == old(remWeight) - weight && remMass == old(remMass) - mass
    {
      ScaleByProbability(remMass, weight, remWeight);
      ShareIsProportional(remMass, weight, remWeight);
      mass := Scale(remMass, Probability(weight, remWeight), TWO31);
      MassArithmetic(remMass, mass);
      remWeight := remWeight - weight;
      remMass := SubMass(remMass, mass);
    }
  }

  lemma FitsInRemWeight(out: seq<Weight>, total: nat, ws: seq<Weight>)
    requires NormalForm(out, total, ws) && Fits(ws)
    ensures Takeable(out) && total % TWO32 == Sum(out)
  {
  }

  /** Some edge of `ws` has the target and the type of `w`. */
  ghost predicate HasEdgeLike(ws: seq<Weight>, w: Weight) {
    exists i :: 0 <= i < |ws| && ws[i].target == w.target && ws[i].kind == w.kind
  }

  /** Each entry of `out` has the type of the edges of `ws` to its target. */
  ghost predicate KeepsKinds(out: seq<Weight>, ws: seq<Weight>) {
    forall j :: 0 <= j < |out| ==> HasEdgeLike(ws, out[j])
  }

  lemma KindsKept(ws: seq<Weight>, out: seq<Weight>, shift: nat)
    requires (ws == [] && out == []) || (SingleTarget(ws) && out == [ws[0].(amount := 1)]) || Normalized(out, ws, shift)
    ensures KeepsKinds(out, ws)
  {
    forall j | 0 <= j < |out|
      ensures HasEdgeLike(ws, out[j])
    {
      if SingleTarget(ws) && out == [ws[0].(amount := 1)] {
        assert ws[0].target == out[j].target && ws[0].kind == out[j].kind;
      } else {
        assert HasTarget(out, out[j].target);
        var i :| 0 <= i < |ws| && ws[i].target == out[j].target;
      }
    }
  }

  // ----- where masses are kept -----

  /** A loop: its parent, whether it has been packaged into a pseudo-node, and its nodes, headers first. */
  datatype LoopShape = LoopShape(parent: Option<nat>, packaged: bool, numHeaders: nat, nodes: seq<Node>)

  /** The place a node's mass is read from and written to. */
  datatype Slot = OfNode(n: Node) | OfLoop(l: nat)

  /** The loop structure: the loop of each node, and the loops. */
  datatype Shape = Shape(loopOf: seq<Option<nat>>, loops: seq<LoopShape>) {
    ghost predicate Valid() {
      && (forall n :: 0 <= n < |loopOf| && loopOf[n].Some? ==> loopOf[n].value < |loops|)
      && (forall l :: 0 <= l < |loops| ==>
            && (loops[l].parent.Some? ==> loops[l].parent.value < |loops|)
            && 1 <= loops[l].numHeaders <= |loops[l].nodes|
            && (forall i :: 0 <= i < |loops[l].nodes| ==> loops[l].nodes[i] < |loopOf|)
            && (forall i, j :: 0 <= i < j < loops[l].numHeaders ==> loops[l].nodes[i] < loops[l].nodes[j]))
    }

    function Headers(l: nat): seq<Node>
      requires Valid() && l < |loops|
    {
      loops[l].nodes[..loops[l].numHeaders]
    }

    predicate IsHeader(l: nat, n: Node)
      requires Valid() && l < |loops|
    {
      n in Headers(l)
    }

    predicate IsLoopHeader(n: Node)
      requires Valid() && n < |loopOf|
    {
      loopOf[n].Some? && IsHeader(loopOf[n].value, n)
    }

    predicate IsDoubleLoopHeader(n: Node)
      requires Valid() && n < |loopOf|
    {
      IsLoopHeader(n) && var p := loops[loopOf[n].value].parent;
      p.Some? && loops[p.value].numHeaders > 1 && IsHeader(p.value, n)
    }

    /** The mass of a packaged loop is that of its pseudo-node. */
    function SlotOf(n: Node): (s: Slot)
      requires Valid() && n < |loopOf|
      ensures match s case OfNode(k) => k == n case OfLoop(l) => l < |loops|
    {
      if !(IsLoopHeader(n) && loops[loopOf[n].value].packaged) then OfNode(n)
      else
        var l := loopOf[n].value;
        if !(IsDoubleLoopHeader(n) && loops[loops[l].parent.value].packaged) then OfLoop(l)
        else OfLoop(loops[l].parent.value)
    }
  }

  /** The position of a header among the sorted headers of its loop. */
  method GetHeaderIndex(s: Shape, l: nat, n: Node) returns (i: nat)
    requires s.Valid() && l < |s.loops| && s.IsHeader(l, n)
    ensures i < s.loops[l].numHeaders && s.loops[l].nodes[i] == n
    ensures i == HeaderIndex(s, l, n)
  {
    i := 0;
    while s.loops[l].nodes[i] < n
      invariant 0 <= i < s.loops[l].numHeaders
      invariant forall k :: 0 <= k < i ==> s.loops[l].nodes[k] < n
      decreases s.loops[l].numHeaders - i
    {
      ghost var k :| 0 <= k < s.loops[l].numHeaders && s.Headers(l)[k] == n;
      i := i + 1;
    }
    ghost var k :| 0 <= k < s.loops[l].numHeaders && s.Headers(l)[k] == n;
  }

  ghost function HeaderIndex(s: Shape, l: nat, n: Node): (i: nat)
    requires s.Valid() && l < |s.loops| && s.IsHeader(l, n)
    ensures i < s.loops[l].numHeaders && s.loops[l].nodes[i] == n
  {
    var i :| 0 <= i < s.loops[l].numHeaders && s.Headers(l)[i] == n;
    i
  }
}
