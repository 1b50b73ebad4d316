/** Attributes of nodes, spread along reachability and to the levels below. */
module CflAttrs {
  import opened CflGraph
  import opened CflRules
  import opened CflReach
  import opened CflWalks

  /** Attribute `a` of node `n`, as the pair of both. */
  type Bits = set<(Node, nat)>

  ghost predicate Holds(bits: Bits, n: Node, attr: Attrs) {
    forall a :: a in attr ==> (n, a) in bits
  }

  // ----- the rules -----

  ghost predicate InitialAttrs(g: Graph, bits: Bits, n: Node) {
    Has(g, n) ==> Holds(bits, n, InfoOf(g, n).attr)
  }

  ghost predicate SpreadsTo(facts: set<Item>, bits: Bits, n: Node, a: nat, src: Node) {
    (n, a) in bits && Related(facts, src, n) ==> (src, a) in bits
  }

  ghost predicate SpreadsBelow(g: Graph, bits: Bits, n: Node, a: nat) {
    (n, a) in bits && Has(g, Below(n)) ==> (Below(n), a) in bits
  }

  /** All attributes of `n` have been handed on. */
  ghost predicate Spread(g: Graph, facts: set<Item>, bits: Bits, n: Node) {
    && (forall a, src :: SpreadsTo(facts, bits, n, a, src))
    && (forall a :: SpreadsBelow(g, bits, n, a))
  }

  ghost predicate AttrClosed(g: Graph, facts: set<Item>, bits: Bits) {
    && (forall n :: InitialAttrs(g, bits, n))
    && (forall n :: Has(g, n) ==> Spread(g, facts, bits, n))
  }

  ghost predicate AttrDerived(g: Graph, facts: set<Item>, bits: Bits) {
    forall cb: Bits :: AttrClosed(g, facts, cb) ==> bits <= cb
  }

  ghost predicate IsLeastAttrs(g: Graph, facts: set<Item>, bits: Bits) {
    AttrClosed(g, facts, bits) && AttrDerived(g, facts, bits)
  }

  // ----- the map -----

  class AliasAttrMap {
    var attrMap: map<Node, Attrs>
    ghost var bits: Bits

    ghost predicate Valid()
      reads this
    {
      forall n, a :: (n, a) in bits <==> n in attrMap && a in attrMap[n]
    }

    constructor ()
      ensures Valid() && bits == {} && attrMap == map[]
    {
      attrMap, bits := map[], {};
    }

    function GetAttrs(v: Node): Attrs
      reads this
    {
      if v in attrMap then attrMap[v] else {}
    }

    method Add(v: Node, attr: Attrs) returns (changed: bool)
      requires Valid()
      modifies this
      ensures Valid() && bits == old(bits) + BitsOf(v, attr) && attrMap.Keys == old(attrMap).Keys + {v}
      ensures changed <==> bits != old(bits)
    {
      var oldAttr := GetAttrs(v);
      var newAttr := oldAttr + attr;
      attrMap := attrMap[v := newAttr];
      bits := bits + BitsOf(v, attr);
      changed := oldAttr != newAttr;
      if changed {
        var a :| a in newAttr && a !in oldAttr;
        assert (v, a) in bits && (v, a) !in old(bits);
      } else {
        assert bits == old(bits);
      }
    }
  }

  ghost function BitsOf(v: Node, attr: Attrs): (s: Bits)
    ensures forall n, a :: (n, a) in s <==> n == v && a in attr
  {
    set a | a in attr :: (v, a)
  }

  // ----- the state of the search -----

  /** Every attribute the graph mentions. */
  ghost function AllAttrs(g: Graph): (s: Attrs)
    ensures forall n :: Has(g, n) ==> InfoOf(g, n).attr <= s
  {
    set n, a | n in NodesOf(g) && a in InfoOf(g, n).attr :: a
  }

  ghost function AllBits(g: Graph): (s: Bits)
    ensures forall n, a :: (n, a) in s <==> Has(g, n) && a in AllAttrs(g)
  {
    set n, a | n in NodesOf(g) && a in AllAttrs(g) :: (n, a)
  }

  ghost predicate AttrSound(g: Graph, facts: set<Item>, bits: Bits) {
    bits <= AllBits(g) && AttrDerived(g, facts, bits)
  }

  /** Every node that is not on one of the two lists has handed on its attributes. */
  ghost predicate AttrProgress(g: Graph, facts: set<Item>, bits: Bits, rest: seq<Node>, next: seq<Node>) {
    && (forall n :: n in rest || n in next ==> Has(g, n))
    && (forall n :: Has(g, n) && n !in rest && n !in next ==> Spread(g, facts, bits, n))
  }

  ghost predicate AttrKeeps(g: Graph, facts: set<Item>, bits: Bits, rest: seq<Node>, next: seq<Node>) {
    AttrSound(g, facts, bits) && AttrProgress(g, facts, bits, rest, next)
  }

  lemma SpreadGrows(g: Graph, facts: set<Item>, bits: Bits, bits': Bits, n: Node)
    requires Spread(g, facts, bits, n) && bits <= bits' && forall a :: (n, a) in bits' ==> (n, a) in bits
    ensures Spread(g, facts, bits', n)
  {
    forall a, src
      ensures SpreadsTo(facts, bits', n, a, src)
    {
      assert SpreadsTo(facts, bits, n, a, src);
    }
    forall a
      ensures SpreadsBelow(g, bits', n, a)
    {
      assert SpreadsBelow(g, bits, n, a);
    }
  }

  lemma ProgressGrows(g: Graph, facts: set<Item>, bits: Bits, v: Node, attr: Attrs, rest: seq<Node>, next: seq<Node>)
    requires AttrProgress(g, facts, bits, rest, next) && Has(g, v)
    ensures AttrProgress(g, facts, bits + BitsOf(v, attr), rest, next + [v])
  {
    forall n | Has(g, n) && n !in rest && n !in next + [v]
      ensures Spread(g, facts, bits + BitsOf(v, attr), n)
    {
      assert n !in next && (next + [v])[|next|] == v;
      SpreadGrows(g, facts, bits, bits + BitsOf(v, attr), n);
    }
  }

  /** The attributes follow for `v`: from `dst`, which `v` reaches, or from the node above. */
  ghost predicate HandsOn(g: Graph, facts: set<Item>, bits: Bits, dst: Node, v: Node, attr: Attrs) {
    Has(g, dst) && Has(g, v) && Holds(bits, dst, attr) && (Related(facts, v, dst) || v == Below(dst))
  }

  lemma HandedOnIsSound(g: Graph, facts: set<Item>, bits: Bits, dst: Node, v: Node, attr: Attrs)
    requires AttrSound(g, facts, bits) && HandsOn(g, facts, bits, dst, v, attr)
    ensures AttrSound(g, facts, bits + BitsOf(v, attr))
  {
    forall a | a in attr
      ensures (v, a) in AllBits(g)
    {
      assert (dst, a) in bits;
    }
    forall cb: Bits | AttrClosed(g, facts, cb)
      ensures bits + BitsOf(v, attr) <= cb
    {
      assert Spread(g, facts, cb, dst);
      forall a | a in attr
        ensures (v, a) in cb
      {
        assert (dst, a) in bits;
        assert SpreadsTo(facts, cb, dst, a, v) && SpreadsBelow(g, cb, dst, a);
      }
    }
  }

  // ----- handing on the attributes of one node -----

  /** Hand the attributes of `dst` on to `v`, which goes on the list if it gains any. */
  method HandOn(attrs: AliasAttrMap, dst: Node, v: Node, attr: Attrs, nextList: seq<Node>,
                ghost g: Graph, ghost facts: set<Item>, ghost rest: seq<Node>) returns (changed: bool, out: seq<Node>)
    requires attrs.Valid() && AttrKeeps(g, facts, attrs.bits, rest, nextList)
    requires HandsOn(g, facts, attrs.bits, dst, v, attr)
    modifies attrs
    ensures attrs.Valid() && AttrKeeps(g, facts, attrs.bits, rest, out)
    ensures attrs.bits == old(attrs.bits) + BitsOf(v, attr) && attrs.attrMap.Keys == old(attrs.attrMap).Keys + {v}
    ensures changed <==> attrs.bits != old(attrs.bits)
    ensures out == if changed then nextList + [v] else nextList
  {
    HandedOnIsSound(g, facts, attrs.bits, dst, v, attr);
    ProgressGrows(g, facts, attrs.bits, v, attr, rest, nextList);
    out := nextList;
    changed := attrs.Add(v, attr);
    if changed {
      out := out + [v];
    }
  }

  ghost predicate Grew(before: Bits, after: Bits, was: seq<Node>, now: seq<Node>) {
    before <= after && was <= now && (now != was ==> before < after)
  }

  /** Propagate on the same level. */
  method SpreadSameLevel(attrs: AliasAttrMap, dst: Node, attr: Attrs, reach: ReachabilitySet, nextList: seq<Node>,
                         ghost g: Graph, ghost rest: seq<Node>) returns (out: seq<Node>)
    requires attrs.Valid() && reach.Valid() && AttrKeeps(g, reach.facts, attrs.bits, rest, nextList)
    requires InGraph(g, reach.facts, {}) && Has(g, dst) && Holds(attrs.bits, dst, attr)
    requires forall n :: Has(g, n) ==> n in attrs.attrMap
    modifies attrs
    ensures attrs.Valid() && AttrKeeps(g, reach.facts, attrs.bits, rest, out)
    ensures Grew(old(attrs.bits), attrs.bits, nextList, out) && attrs.attrMap.Keys == old(attrs.attrMap).Keys
    ensures forall src :: Related(reach.facts, src, dst) ==> Holds(attrs.bits, src, attr)
    ensures forall a :: (dst, a) in attrs.bits ==> (dst, a) in old(attrs.bits)
  {
    out := nextList;
    var row := reach.ReachableValueAliases(dst);
    var todo := row.Keys;
    while todo != {}
      invariant todo <= row.Keys
      invariant attrs.Valid() && AttrKeeps(g, reach.facts, attrs.bits, rest, out)
      invariant Grew(old(attrs.bits), attrs.bits, nextList, out) && attrs.attrMap.Keys == old(attrs.attrMap).Keys
      invariant forall src :: src in row && src !in todo ==> Holds(attrs.bits, src, attr)
      invariant forall a :: (dst, a) in attrs.bits ==> (dst, a) in old(attrs.bits)
      decreases todo
    {
      var src :| src in todo;
      RowIsRelated(reach, src, dst);
      var changed;
      changed, out := HandOn(attrs, dst, src, attr, out, g, reach.facts, rest);
      todo := todo - {src};
    }
    forall src | Related(reach.facts, src, dst)
      ensures Holds(attrs.bits, src, attr)
    {
      var s :| Item(src, dst, s) in reach.facts;
      assert Recorded(reach.reachMap, Item(src, dst, s));
    }
  }

  lemma RowIsRelated(reach: ReachabilitySet, src: Node, dst: Node)
    requires reach.Valid() && src in reach.ReachableValueAliases(dst)
    ensures Related(reach.facts, src, dst)
  {
    var s :| s in reach.reachMap[dst][src];
    assert Recorded(reach.reachMap, Item(src, dst, s));
  }

  /** Propagate to the levels below, down to the first that gains something. */
  method SpreadBelow(attrs: AliasAttrMap, dst: Node, attr: Attrs, nextList: seq<Node>,
                     g: Graph, ghost facts: set<Item>, ghost rest: seq<Node>) returns (out: seq<Node>)
    requires attrs.Valid() && AttrKeeps(g, facts, attrs.bits, rest, nextList)
    requires Has(g, dst) && Holds(attrs.bits, dst, attr)
    requires forall n :: Has(g, n) ==> n in attrs.attrMap
    modifies attrs
    ensures attrs.Valid() && AttrKeeps(g, facts, attrs.bits, rest, out)
    ensures Grew(old(attrs.bits), attrs.bits, nextList, out) && attrs.attrMap.Keys == old(attrs.attrMap).Keys
    ensures Has(g, Below(dst)) ==> Holds(attrs.bits, Below(dst), attr)
    ensures forall a :: (dst, a) in attrs.bits ==> (dst, a) in old(attrs.bits)
  {
    out := nextList;
    var above, below := dst, Below(dst);
    while Has(g, below)
      invariant attrs.Valid() && AttrKeeps(g, facts, attrs.bits, rest, out)
      invariant attrs.bits == old(attrs.bits) && out == nextList && attrs.attrMap.Keys == old(attrs.attrMap).Keys
      invariant Has(g, above) && below == Below(above) && above.val == dst.val && dst.level <= above.level
      invariant Holds(attrs.bits, above, attr)
      invariant above != dst ==> Holds(attrs.bits, Below(dst), attr)
      decreases |g[dst.val]| - above.level
    {
      var changed;
      changed, out := HandOn(attrs, above, below, attr, out, g, facts, rest);
      if changed {
        break;
      }
      above, below := below, Below(below);
    }
  }

  /** Hand on the attributes of one node of the list. */
  method SpreadFrom(attrs: AliasAttrMap, dst: Node, g: Graph, reach: ReachabilitySet, nextList: seq<Node>,
                    ghost rest: seq<Node>) returns (out: seq<Node>)
    requires attrs.Valid() && reach.Valid() && AttrKeeps(g, reach.facts, attrs.bits, rest, nextList)
    requires InGraph(g, reach.facts, {}) && Has(g, dst) && rest != [] && rest[0] == dst
    requires forall n :: Has(g, n) ==> n in attrs.attrMap
    modifies attrs
    ensures attrs.Valid() && AttrKeeps(g, reach.facts, attrs.bits, rest[1..], out)
    ensures Grew(old(attrs.bits), attrs.bits, nextList, out) && attrs.attrMap.Keys == old(attrs.attrMap).Keys
  {
    out := nextList;
    var dstAttr := attrs.GetAttrs(dst);
    if dstAttr == {} {
      return;
    }
    out := SpreadSameLevel(attrs, dst, dstAttr, reach, out, g, rest);
    out := SpreadBelow(attrs, dst, dstAttr, out, g, reach.facts, rest);
  }

  // ----- the whole map -----

  ghost predicate Started(g: Graph, bits: Bits, n: Node) {
    Holds(bits, n, InfoOf(g, n).attr)
  }

  lemma InitialIsSound(g: Graph, facts: set<Item>, bits: Bits, n: Node)
    requires AttrSound(g, facts, bits) && Has(g, n)
    ensures AttrSound(g, facts, bits + BitsOf(n, InfoOf(g, n).attr))
  {
    forall cb: Bits | AttrClosed(g, facts, cb)
      ensures bits + BitsOf(n, InfoOf(g, n).attr) <= cb
    {
      assert InitialAttrs(g, cb, n);
    }
  }

  /** The nodes of a value start with their own attributes. */
  method InitializeValue(g: Graph, val: Value, attrs: AliasAttrMap, workList: seq<Node>, ghost facts: set<Item>)
      returns (out: seq<Node>)
    requires attrs.Valid() && val in g && AttrSound(g, facts, attrs.bits)
    modifies attrs
    ensures attrs.Valid() && AttrSound(g, facts, attrs.bits) && old(attrs.bits) <= attrs.bits
    ensures forall n :: n in out <==> n in workList || (n.val == val && n.level < |g[val]|)
    ensures forall n :: n in attrs.attrMap <==> n in old(attrs.attrMap) || (n.val == val && n.level < |g[val]|)
    ensures forall n: Node :: n.val == val && n.level < |g[val]| ==> Started(g, attrs.bits, n)
  {
    out := workList;
    for i := 0 to |g[val]|
      invariant attrs.Valid() && AttrSound(g, facts, attrs.bits) && old(attrs.bits) <= attrs.bits
      invariant forall n :: n in out <==> n in workList || (n.val == val && n.level < i)
      invariant forall n :: n in attrs.attrMap <==> n in old(attrs.attrMap) || (n.val == val && n.level < i)
      invariant forall n: Node :: n.val == val && n.level < i ==> Started(g, attrs.bits, n)
    {
      var node := Node(val, i);
      InitialIsSound(g, facts, attrs.bits, node);
      ghost var before := attrs.bits;
      var _ := attrs.Add(node, g[val][i].attr);
      assert forall n :: Started(g, before, n) ==> Started(g, attrs.bits, n);
      out := out + [node];
    }
  }

  method InitializeAttrs(g: Graph, ghost facts: set<Item>) returns (attrs: AliasAttrMap, workList: seq<Node>)
    requires WellFormed(g)
    ensures fresh(attrs) && attrs.Valid() && AttrKeeps(g, facts, attrs.bits, workList, [])
    ensures forall n :: n in attrs.attrMap <==> Has(g, n)
    ensures forall n :: InitialAttrs(g, attrs.bits, n)
  {
    attrs := new AliasAttrMap();
    workList := [];
    var todo := g.Keys;
    while todo != {}
      invariant todo <= g.Keys
      invariant fresh(attrs) && attrs.Valid() && AttrSound(g, facts, attrs.bits)
      invariant forall n :: n in workList <==> Has(g, n) && n.val !in todo
      invariant forall n :: n in attrs.attrMap <==> Has(g, n) && n.val !in todo
      invariant forall n :: Has(g, n) && n.val !in todo ==> Started(g, attrs.bits, n)
      decreases todo
    {
      var val :| val in todo;
      ghost var before := attrs.bits;
      workList := InitializeValue(g, val, attrs, workList, facts);
      assert forall n :: Started(g, before, n) ==> Started(g, attrs.bits, n);
      todo := todo - {val};
    }
  }

  lemma InitialStays(g: Graph, bits: Bits, bits': Bits)
    requires bits <= bits' && forall n :: InitialAttrs(g, bits, n)
    ensures forall n :: InitialAttrs(g, bits', n)
  {
    forall n
      ensures InitialAttrs(g, bits', n)
    {
      assert InitialAttrs(g, bits, n);
    }
  }

  lemma {:induction false} SmallerBits(a: Bits, b: Bits)
    requires a <= b
    ensures |a| <= |b| && (a < b ==> |a| < |b|)
  {
    assert |b| == |a| + |b - a| by {
      assert b == a + (b - a);
    }
    if a < b {
      assert b - a != {};
    }
  }

  /** Rounds of handing on attributes, until no node gains any. The result is the least map that
      starts from the nodes' own attributes and is closed under copying along reachability and
      downwards; every node of the graph is in it. */
  method BuildAttrMap(g: Graph, reach: ReachabilitySet) returns (attrs: AliasAttrMap)
    requires WellFormed(g) && reach.Valid() && InGraph(g, reach.facts, {})
    ensures fresh(attrs) && attrs.Valid() && IsLeastAttrs(g, reach.facts, attrs.bits)
    ensures forall n :: n in attrs.attrMap <==> Has(g, n)
  {
    var workList;
    attrs, workList := InitializeAttrs(g, reach.facts);
    while workList != []
      invariant fresh(attrs) && attrs.Valid() && AttrKeeps(g, reach.facts, attrs.bits, workList, [])
      invariant forall n :: n in attrs.attrMap <==> Has(g, n)
      invariant forall n :: InitialAttrs(g, attrs.bits, n)
      decreases |AllBits(g)| - |attrs.bits|, |workList|
    {
      ghost var before := attrs.bits;
      workList := SpreadAll(attrs, workList, g, reach);
      SmallerBits(before, attrs.bits);
      SmallerBits(attrs.bits, AllBits(g));
      InitialStays(g, before, attrs.bits);
    }
  }

  method SpreadAll(attrs: AliasAttrMap, workList: seq<Node>, g: Graph, reach: ReachabilitySet)
    returns (nextList: seq<Node>)
    requires attrs.Valid() && reach.Valid() && AttrKeeps(g, reach.facts, attrs.bits, workList, [])
    requires InGraph(g, reach.facts, {})
    requires forall n :: n in attrs.attrMap <==> Has(g, n)
    modifies attrs
    ensures attrs.Valid() && AttrKeeps(g, reach.facts, attrs.bits, nextList, [])
    ensures Grew(old(attrs.bits), attrs.bits, [], nextList) && attrs.attrMap.Keys == old(attrs.attrMap).Keys
  {
    nextList := [];
    assert workList[0..] == workList;
    for i := 0 to |workList|
      invariant attrs.Valid() && AttrKeeps(g, reach.facts, attrs.bits, workList[i..], nextList)
      invariant Grew(old(attrs.bits), attrs.bits, [], nextList) && attrs.attrMap.Keys == old(attrs.attrMap).Keys
    {
      assert workList[i] in workList[i..];
      nextList := SpreadFrom(attrs, workList[i], g, reach, nextList, workList[i..]);
      assert workList[i..][1..] == workList[i + 1..];
    }
  }

  // ----- where attributes come from -----

  /** An accepted walk joins the two nodes, or the second is the first dereferenced once more. */
  ghost predicate Inherits(g: Graph, m: Node, n: Node) {
    Joined(g, n, m) || (n in NodesOf(g) && n == Node(m.val, m.level + 1))
  }

  /** A chain of such nodes, from one that has the attribute of its own. */
  ghost predicate Descent(g: Graph, p: seq<Node>, a: nat) {
    && p != [] && a in InfoOf(g, p[0]).attr
    && forall i :: 0 <= i < |p| - 1 ==> Inherits(g, p[i], p[i + 1])
  }

  ghost predicate Descends(g: Graph, n: Node, a: nat) {
    exists p :: Descent(g, p, a) && p[|p| - 1] == n
  }

  lemma DescendsFurther(g: Graph, m: Node, n: Node, a: nat)
    requires Descends(g, m, a) && Inherits(g, m, n)
    ensures Descends(g, n, a)
  {
    var p :| Descent(g, p, a) && p[|p| - 1] == m;
    var q := p + [n];
    forall i | 0 <= i < |q| - 1
      ensures Inherits(g, q[i], q[i + 1])
    {
      assert i < |p| - 1 ==> Inherits(g, p[i], p[i + 1]);
    }
    assert Descent(g, q, a) && q[|q| - 1] == n;
  }

  lemma InheritsBits(g: Graph, facts: set<Item>, mem: set<(Node, Node)>, bits: Bits, m: Node, n: Node, a: nat)
    requires WellFormed(g) && InGraph(g, facts, mem) && IsLeastClosed(g, facts, mem) && AttrClosed(g, facts, bits)
    requires Has(g, m) && (m, a) in bits && Inherits(g, m, n)
    ensures Has(g, n) && (n, a) in bits
  {
    assert Spread(g, facts, bits, m);
    assert SpreadsTo(facts, bits, m, a, n) && SpreadsBelow(g, bits, m, a);
    if n != m {
      RelatedIffJoined(g, facts, mem, n, m);
    }
  }

  lemma {:induction false} DescentHasBits(g: Graph, facts: set<Item>, mem: set<(Node, Node)>, bits: Bits,
                                          p: seq<Node>, a: nat)
    requires WellFormed(g) && InGraph(g, facts, mem) && IsLeastClosed(g, facts, mem) && AttrClosed(g, facts, bits)
    requires Descent(g, p, a)
    ensures Has(g, p[|p| - 1]) && (p[|p| - 1], a) in bits
    decreases |p|
  {
    if |p| == 1 {
      assert InitialAttrs(g, bits, p[0]);
    } else {
      DescentHasBits(g, facts, mem, bits, p[..|p| - 1], a);
      assert Inherits(g, p[|p| - 2], p[|p| - 1]);
      InheritsBits(g, facts, mem, bits, p[|p| - 2], p[|p| - 1], a);
    }
  }

  ghost function DescendedBits(g: Graph): (s: Bits)
    ensures forall n, a :: (n, a) in s <==> (n, a) in AllBits(g) && Descends(g, n, a)
  {
    set b | b in AllBits(g) && Descends(g, b.0, b.1)
  }

  lemma DescendedSpreads(g: Graph, facts: set<Item>, mem: set<(Node, Node)>, n: Node)
    requires WellFormed(g) && InGraph(g, facts, mem) && IsLeastClosed(g, facts, mem) && Has(g, n)
    ensures Spread(g, facts, DescendedBits(g), n)
  {
    var cb := DescendedBits(g);
    forall a: nat, v | (n, a) in cb && Has(g, v) && Inherits(g, n, v)
      ensures (v, a) in cb
    {
      DescendsFurther(g, n, v, a);
    }
    forall a: nat, src
      ensures SpreadsTo(facts, cb, n, a, src)
    {
      if (n, a) in cb && Related(facts, src, n) {
        RelatedIffJoined(g, facts, mem, src, n);
        assert Inherits(g, n, src);
      }
    }
    forall a: nat
      ensures SpreadsBelow(g, cb, n, a)
    {
      assert Has(g, Below(n)) ==> Inherits(g, n, Below(n));
    }
  }

  lemma DescendedIsClosed(g: Graph, facts: set<Item>, mem: set<(Node, Node)>)
    requires WellFormed(g) && InGraph(g, facts, mem) && IsLeastClosed(g, facts, mem)
    ensures AttrClosed(g, facts, DescendedBits(g))
  {
    forall n | Has(g, n)
      ensures InitialAttrs(g, DescendedBits(g), n) && Spread(g, facts, DescendedBits(g), n)
    {
      forall a | a in InfoOf(g, n).attr
        ensures (n, a) in DescendedBits(g)
      {
        assert Descent(g, [n], a) && [n][|[n]| - 1] == n;
      }
      DescendedSpreads(g, facts, mem, n);
    }
  }

  /** A node has an attribute exactly when it descends from a node that had it from the start. */
  lemma AttributeIffDescends(g: Graph, facts: set<Item>, mem: set<(Node, Node)>, bits: Bits, n: Node, a: nat)
    requires WellFormed(g) && InGraph(g, facts, mem) && IsLeastClosed(g, facts, mem) && IsLeastAttrs(g, facts, bits)
    ensures (n, a) in bits <==> Descends(g, n, a)
  {
    DescendedIsClosed(g, facts, mem);
    if p :| Descent(g, p, a) && p[|p| - 1] == n {
      DescentHasBits(g, facts, mem, bits, p, a);
    }
  }
}
