/** What the analysis keeps for queries, and how it answers them. */
module CflQuery {
  import opened Wrappers

  import opened CflGraph
  import opened CflRules
  import opened CflReach
  import opened CflSolve
  import opened CflWalks
  import opened CflAttrs

  const INT64_MAX: int := 0x7FFF_FFFF_FFFF_FFFF
  const UNKNOWN_OFFSET: int := INT64_MAX
  const UNKNOWN_SIZE: nat := 0xFFFF_FFFF_FFFF_FFFF

  const ATTR_ESCAPED: nat := 0
  const ATTR_UNKNOWN: nat := 1
  const ATTR_CALLER: nat := 3

  predicate HasUnknownOrCallerAttr(attr: Attrs) {
    ATTR_UNKNOWN in attr || ATTR_CALLER in attr
  }

  predicate IsGlobalOrArgAttr(attr: Attrs) {
    attr - {ATTR_ESCAPED, ATTR_UNKNOWN, ATTR_CALLER} != {}
  }

  datatype OffsetValue = OffsetValue(val: Value, offset: int)

  /** By value, then by offset. */
  predicate Precedes(a: OffsetValue, b: OffsetValue) {
    a.val < b.val || (a.val == b.val && a.offset < b.offset)
  }

  predicate SortedByValue(list: seq<OffsetValue>) {
    forall i, j :: 0 <= i < j < |list| ==> list[i].val <= list[j].val
  }

  // ----- the decision by attributes -----

  /** What the attributes alone decide, if they decide. */
  function ByAttrs(a: Attrs, b: Attrs): Option<bool> {
    if HasUnknownOrCallerAttr(a) then Some(b != {})
    else if HasUnknownOrCallerAttr(b) then Some(a != {})
    else if IsGlobalOrArgAttr(a) then Some(IsGlobalOrArgAttr(b))
    else if IsGlobalOrArgAttr(b) then Some(IsGlobalOrArgAttr(a))
    else None
  }

  // ----- queries -----

  /** The ranges of `size` bytes at `offset` and of `size'` bytes at zero overlap. */
  predicate Overlaps(offset: int, size: nat, size': nat) {
    offset + size > 0 && offset < size'
  }

  /** The entry is evidence of an alias between objects of these sizes. */
  predicate Evidence(o: OffsetValue, lhsSize: nat, rhsSize: nat) {
    || lhsSize == UNKNOWN_SIZE || rhsSize == UNKNOWN_SIZE || o.offset == UNKNOWN_OFFSET
    || lhsSize > INT64_MAX || rhsSize > INT64_MAX
    || Overlaps(o.offset, lhsSize, rhsSize)
  }

  ghost predicate HasEvidence(list: seq<OffsetValue>, rhs: Value, lhsSize: nat, rhsSize: nat) {
    exists i :: 0 <= i < |list| && list[i].val == rhs && Evidence(list[i], lhsSize, rhsSize)
  }

  // ----- the same in terms of bits and bytes -----

  /** The answer `r` for attributes `a` and `b`: bit 1 or 3 on one side stands for an alias with
      whatever has any attribute; without those, bit 2 or a bit from 4 on stands for an alias with
      whatever has such a bit too; without these either, it is up to the alias list. */
  ghost predicate BitsDecide(a: Attrs, b: Attrs, listed: bool, r: bool) {
    var outsideA := exists k :: k in a && (k == 2 || k >= 4);
    var outsideB := exists k :: k in b && (k == 2 || k >= 4);
    && (1 in a || 3 in a ==> (r <==> b != {}))
    && (1 in b || 3 in b ==> (r <==> a != {}))
    && (1 !in a && 3 !in a && 1 !in b && 3 !in b ==>
          && (outsideA || outsideB ==> (r <==> outsideA && outsideB))
          && (!outsideA && !outsideB ==> (r <==> listed)))
  }

  /** Some entry for `rhs` has an unknown offset, or a byte range that meets that of `rhs`; a size
      of 63 bits or more meets everything. */
  ghost predicate MayMeet(list: seq<OffsetValue>, rhs: Value, lhsSize: nat, rhsSize: nat) {
    exists i :: 0 <= i < |list| && list[i].val == rhs &&
      (|| lhsSize >= 0x8000_0000_0000_0000 || rhsSize >= 0x8000_0000_0000_0000
       || list[i].offset == 0x7FFF_FFFF_FFFF_FFFF
       || (0 < list[i].offset + lhsSize && list[i].offset < rhsSize))
  }

  lemma OutsideBits(a: Attrs)
    requires 1 !in a && 3 !in a
    ensures IsGlobalOrArgAttr(a) <==> exists k :: k in a && (k == 2 || k >= 4)
  {
    var rest := a - {ATTR_ESCAPED, ATTR_UNKNOWN, ATTR_CALLER};
    if rest != {} {
      var k :| k in rest;
      assert k in a && (k == 2 || k >= 4);
    }
    if k :| k in a && (k == 2 || k >= 4) {
      assert k in rest;
    }
  }

  lemma ByAttrsIsByBits(a: Attrs, b: Attrs, listed: bool)
    ensures BitsDecide(a, b, listed, if ByAttrs(a, b).Some? then ByAttrs(a, b).value else listed)
  {
    assert 1 in a || 3 in a ==> a != {};
    assert 1 in b || 3 in b ==> b != {};
    if 1 !in a && 3 !in a && 1 !in b && 3 !in b {
      OutsideBits(a);
      OutsideBits(b);
    }
  }

  lemma EvidenceMeets(list: seq<OffsetValue>, rhs: Value, lhsSize: nat, rhsSize: nat)
    ensures HasEvidence(list, rhs, lhsSize, rhsSize) <==> MayMeet(list, rhs, lhsSize, rhsSize)
  {
    if i :| 0 <= i < |list| && list[i].val == rhs && Evidence(list[i], lhsSize, rhsSize) {
      assert MayMeet(list, rhs, lhsSize, rhsSize);
    }
  }

  /** The entry is about a smaller value. */
  ghost predicate StartsBelow(list: seq<OffsetValue>, i: int, val: Value) {
    0 <= i < |list| && list[i].val < val
  }

  /** The part of a sorted list that is about one value, by binary search for its ends. */
  method EqualRange(list: seq<OffsetValue>, val: Value) returns (first: nat, last: nat)
    requires SortedByValue(list)
    ensures first <= last <= |list|
    ensures forall i :: 0 <= i < |list| ==> (list[i].val == val <==> first <= i < last)
  {
    first := Bound(list, val);
    last := Bound(list, val + 1);
    assert StartsBelow(list, last, val) ==> StartsBelow(list, last, val + 1);
    assert forall i :: 0 <= i < |list| ==>
             (list[i].val == val <==> StartsBelow(list, i, val + 1) && !StartsBelow(list, i, val));
  }

  /** The first position that is not below the value. */
  method Bound(list: seq<OffsetValue>, val: Value) returns (p: nat)
    requires SortedByValue(list)
    ensures p <= |list| && forall i :: StartsBelow(list, i, val) <==> 0 <= i < p
  {
    p := 0;
    var high := |list|;
    while p < high
      invariant p <= high <= |list|
      invariant forall i :: 0 <= i < p ==> list[i].val < val
      invariant forall i :: high <= i < |list| ==> list[i].val >= val
    {
      var mid := (p + high) / 2;
      if list[mid].val < val {
        p := mid + 1;
      } else {
        high := mid;
      }
    }
  }

  class FunctionInfo {
    const aliasMap: map<Value, seq<OffsetValue>>
    const attrMap: map<Value, Attrs>

    ghost predicate Valid() {
      forall v :: v in aliasMap ==> SortedByValue(aliasMap[v])
    }

    constructor (aliasMap: map<Value, seq<OffsetValue>>, attrMap: map<Value, Attrs>)
      requires forall v :: v in aliasMap ==> SortedByValue(aliasMap[v])
      ensures Valid() && this.aliasMap == aliasMap && this.attrMap == attrMap
    {
      this.aliasMap, this.attrMap := aliasMap, attrMap;
    }

    function GetAttrs(v: Value): Option<Attrs> {
      if v in attrMap then Some(attrMap[v]) else None
    }

    /** What decides a query: a value that has not been seen, the attributes, or the alias list. */
    ghost predicate Aliased(lhs: Value, lhsSize: nat, rhs: Value, rhsSize: nat) {
      || lhs !in attrMap || rhs !in attrMap
      || match ByAttrs(attrMap[lhs], attrMap[rhs])
         case Some(decided) => decided
         case None => lhs in aliasMap && HasEvidence(aliasMap[lhs], rhs, lhsSize, rhsSize)
    }

    /** The answer for two values that have been seen, in terms of the bits of their attributes. */
    lemma DecidedByBits(lhs: Value, lhsSize: nat, rhs: Value, rhsSize: nat)
      requires lhs in attrMap && rhs in attrMap
      ensures BitsDecide(attrMap[lhs], attrMap[rhs], lhs in aliasMap && MayMeet(aliasMap[lhs], rhs, lhsSize, rhsSize),
                         Aliased(lhs, lhsSize, rhs, rhsSize))
    {
      ByAttrsIsByBits(attrMap[lhs], attrMap[rhs],
                      lhs in aliasMap && MayMeet(aliasMap[lhs], rhs, lhsSize, rhsSize));
      if lhs in aliasMap {
        EvidenceMeets(aliasMap[lhs], rhs, lhsSize, rhsSize);
      }
    }

    method MayAlias(lhs: Value, lhsSize: nat, rhs: Value, rhsSize: nat) returns (r: bool)
      requires Valid()
      ensures r <==> Aliased(lhs, lhsSize, rhs, rhsSize)
      ensures lhs !in attrMap || rhs !in attrMap ==> r
      ensures lhs in attrMap && rhs in attrMap ==>
                BitsDecide(attrMap[lhs], attrMap[rhs],
                           lhs in aliasMap && MayMeet(aliasMap[lhs], rhs, lhsSize, rhsSize), r)
    {
      if lhs in attrMap && rhs in attrMap {
        DecidedByBits(lhs, lhsSize, rhs, rhsSize);
      }
      var maybeA, maybeB := GetAttrs(lhs), GetAttrs(rhs);
      if maybeA.None? || maybeB.None? {
        return true;
      }
      var attrsA, attrsB := maybeA.value, maybeB.value;
      if HasUnknownOrCallerAttr(attrsA) {
        return attrsB != {};
      }
      if HasUnknownOrCallerAttr(attrsB) {
        return attrsA != {};
      }
      if IsGlobalOrArgAttr(attrsA) {
        return IsGlobalOrArgAttr(attrsB);
      }
      if IsGlobalOrArgAttr(attrsB) {
        return IsGlobalOrArgAttr(attrsA);
      }
      if lhs !in aliasMap {
        return false;
      }
      r := SearchList(aliasMap[lhs], rhs, lhsSize, rhsSize);
    }
  }

  /** Is there evidence in the list? */
  method SearchList(list: seq<OffsetValue>, rhs: Value, lhsSize: nat, rhsSize: nat) returns (r: bool)
    requires SortedByValue(list)
    ensures r <==> HasEvidence(list, rhs, lhsSize, rhsSize)
  {
    var first, last := EqualRange(list, rhs);
    if first == last {
      return false;
    }
    if lhsSize == UNKNOWN_SIZE || rhsSize == UNKNOWN_SIZE {
      assert Evidence(list[first], lhsSize, rhsSize);
      return true;
    }
    for i := first to last
      invariant forall k :: first <= k < i ==> !Evidence(list[k], lhsSize, rhsSize)
    {
      if list[i].offset == UNKNOWN_OFFSET {
        return true;
      }
      if lhsSize > INT64_MAX || rhsSize > INT64_MAX {
        return true;
      }
      var lhsStart := list[i].offset;
      var lhsEnd := list[i].offset + lhsSize;
      var rhsStart := 0;
      var rhsEnd := rhsSize;
      if lhsEnd > rhsStart && lhsStart < rhsEnd {
        return true;
      }
    }
    return false;
  }

  // ----- filling in the maps -----

  /** The attributes of the top-level values, for every value some node of which has been seen. */
  ghost predicate AttrsOf(attrMap: map<Value, Attrs>, attrs: map<Node, Attrs>) {
    && (forall v :: v in attrMap <==> exists n: Node :: n in attrs && n.val == v)
    && (forall v, a :: v in attrMap ==> (a in attrMap[v] <==> Node(v, 0) in attrs && a in attrs[Node(v, 0)]))
  }

  method PopulateAttrMap(attrs: AliasAttrMap) returns (attrMap: map<Value, Attrs>)
    ensures AttrsOf(attrMap, attrs.attrMap)
  {
    attrMap := map[];
    var todo := attrs.attrMap.Keys;
    while todo != {}
      invariant todo <= attrs.attrMap.Keys
      invariant forall v :: v in attrMap <==> exists n: Node :: n in attrs.attrMap && n !in todo && n.val == v
      invariant forall v, a :: v in attrMap ==>
                  (a in attrMap[v] <==>
                    Node(v, 0) in attrs.attrMap && Node(v, 0) !in todo && a in attrs.attrMap[Node(v, 0)])
      decreases todo
    {
      var n :| n in todo;
      ghost var seen := attrMap;
      var had := if n.val in attrMap then attrMap[n.val] else {};
      attrMap := attrMap[n.val := if n.level == 0 then had + attrs.attrMap[n] else had];
      forall v
        ensures v in attrMap <==> exists k: Node :: k in attrs.attrMap && k !in todo - {n} && k.val == v
      {
        if v == n.val {
          assert n in attrs.attrMap && n !in todo - {n} && n.val == v;
        }
      }
      todo := todo - {n};
    }
  }

  ghost predicate Listed(list: seq<OffsetValue>, u: Value) {
    exists i :: 0 <= i < |list| && list[i].val == u
  }

  /** The list holds the values with a top-level node in the row, sorted, at unknown offsets. */
  ghost predicate ListOf(list: seq<OffsetValue>, row: set<Node>) {
    && (forall i :: 0 <= i < |list| ==> list[i].offset == UNKNOWN_OFFSET)
    && (forall u :: Listed(list, u) <==> Node(u, 0) in row)
  }

  lemma ListedInserted(list: seq<OffsetValue>, p: nat, o: OffsetValue, u: Value)
    requires p <= |list|
    ensures Listed(list[..p] + [o] + list[p..], u) <==> Listed(list, u) || u == o.val
  {
    var longer := list[..p] + [o] + list[p..];
    if Listed(list, u) {
      var i :| 0 <= i < |list| && list[i].val == u;
      assert longer[if i < p then i else i + 1].val == u;
    }
    if u == o.val {
      assert longer[p].val == u;
    }
    if Listed(longer, u) {
      var i :| 0 <= i < |longer| && longer[i].val == u;
      assert i == p || list[if i < p then i else i - 1].val == u;
    }
  }

  method Sort(list: seq<OffsetValue>) returns (s: seq<OffsetValue>)
    requires forall i :: 0 <= i < |list| ==> list[i].offset == UNKNOWN_OFFSET
    ensures SortedByValue(s) && forall i :: 0 <= i < |s| ==> s[i].offset == UNKNOWN_OFFSET
    ensures forall u :: Listed(s, u) <==> Listed(list, u)
  {
    s := [];
    for i := 0 to |list|
      invariant SortedByValue(s) && |s| == i && forall k :: 0 <= k < i ==> s[k].offset == UNKNOWN_OFFSET
      invariant forall u :: Listed(s, u) <==> Listed(list[..i], u)
    {
      var p := i;
      while p > 0 && Precedes(list[i], s[p - 1])
        invariant 0 <= p <= i && forall k :: p <= k < i ==> list[i].val <= s[k].val
      {
        p := p - 1;
      }
      forall u
        ensures Listed(s[..p] + [list[i]] + s[p..], u) <==> Listed(list[..i + 1], u)
      {
        ListedInserted(s, p, list[i], u);
        ListedInserted(list[..i], i, list[i], u);
        assert list[..i][..i] + [list[i]] + list[..i][i..] == list[..i + 1];
      }
      s := s[..p] + [list[i]] + s[p..];
    }
    assert list[..|list|] == list;
  }

  method ListAliases(row: map<Node, set<MatchState>>) returns (list: seq<OffsetValue>)
    ensures SortedByValue(list) && ListOf(list, row.Keys)
  {
    list := [];
    var todo := row.Keys;
    while todo != {}
      invariant todo <= row.Keys && ListOf(list, row.Keys - todo)
      decreases todo
    {
      var n :| n in todo;
      if n.level == 0 {
        var o := OffsetValue(n.val, UNKNOWN_OFFSET);
        forall u
          ensures Listed(list + [o], u) <==> Listed(list, u) || u == n.val
        {
          ListedInserted(list, |list|, o, u);
          assert list[..|list|] + [o] + list[|list|..] == list + [o];
        }
        list := list + [o];
      }
      todo := todo - {n};
    }
    list := Sort(list);
  }

  /** The list of a value holds the top-level values that reach it. */
  ghost predicate AliasesOf(list: seq<OffsetValue>, facts: set<Item>, v: Value) {
    && SortedByValue(list)
    && (forall i :: 0 <= i < |list| ==> list[i].offset == UNKNOWN_OFFSET)
    && (forall u :: Listed(list, u) <==> Related(facts, Node(u, 0), Node(v, 0)))
  }

  lemma RowIsReach(reach: ReachabilitySet, n: Node, list: seq<OffsetValue>)
    requires reach.Valid() && n in reach.reachMap && n.level == 0
    requires SortedByValue(list) && ListOf(list, reach.reachMap[n].Keys)
    ensures AliasesOf(list, reach.facts, n.val)
  {
    forall u
      ensures Node(u, 0) in reach.reachMap[n].Keys <==> Related(reach.facts, Node(u, 0), n)
    {
      if Node(u, 0) in reach.reachMap[n].Keys {
        RowIsRelated(reach, Node(u, 0), n);
      }
      if s :| Item(Node(u, 0), n, s) in reach.facts {
        assert Recorded(reach.reachMap, Item(Node(u, 0), n, s));
      }
    }
  }

  method PopulateAliasMap(reach: ReachabilitySet) returns (aliasMap: map<Value, seq<OffsetValue>>)
    requires reach.Valid()
    ensures forall v :: v in aliasMap ==> AliasesOf(aliasMap[v], reach.facts, v)
    ensures forall v :: v in aliasMap <==> Node(v, 0) in reach.reachMap
  {
    aliasMap := map[];
    var todo := reach.reachMap.Keys;
    while todo != {}
      invariant todo <= reach.reachMap.Keys
      invariant forall v :: v in aliasMap ==> AliasesOf(aliasMap[v], reach.facts, v)
      invariant forall v :: v in aliasMap <==> Node(v, 0) in reach.reachMap && Node(v, 0) !in todo
      decreases todo
    {
      var n :| n in todo;
      todo := todo - {n};
      if n.level > 0 {
        continue;
      }
      var list := ListAliases(reach.reachMap[n]);
      RowIsReach(reach, n, list);
      aliasMap := aliasMap[n.val := list];
    }
  }

  // ----- the analysis of a function -----

  /** The maps say of the top-level values what the analysis found. */
  ghost predicate Represents(info: FunctionInfo, g: Graph, facts: set<Item>, bits: Bits) {
    && info.Valid()
    && (forall v :: v in info.attrMap <==> v in g)
    && (forall v, a :: v in g ==> (a in info.attrMap[v] <==> (Node(v, 0), a) in bits))
    && (forall v :: v in info.aliasMap ==> AliasesOf(info.aliasMap[v], facts, v))
    && (forall u, v :: Related(facts, Node(u, 0), Node(v, 0)) ==> v in info.aliasMap)
  }

  ghost predicate Analyzed(info: FunctionInfo, g: Graph, facts: set<Item>, mem: set<(Node, Node)>, bits: Bits) {
    && WellFormed(g) && InGraph(g, facts, mem)
    && IsLeastClosed(g, facts, mem) && IsLeastAttrs(g, facts, bits) && Represents(info, g, facts, bits)
  }

  method BuildInfoFrom(g: Graph)
      returns (info: FunctionInfo, ghost facts: set<Item>, ghost mem: set<(Node, Node)>, ghost bits: Bits)
    requires WellFormed(g)
    ensures info.Valid() && info.attrMap.Keys == g.Keys
    ensures Analyzed(info, g, facts, mem, bits)
  {
    var reach, memSet, _ := BuildReach(g);
    facts, mem := reach.facts, memSet.pairs;
    var attrs := BuildAttrMap(g, reach);
    bits := attrs.bits;
    var attrMap := PopulateAttrMap(attrs);
    var aliasMap := PopulateAliasMap(reach);
    info := new FunctionInfo(aliasMap, attrMap);
    InfoRepresents(info, g, reach, attrs);
  }

  /** The maps have been filled from the sets that the analysis found. */
  lemma InfoRepresents(info: FunctionInfo, g: Graph, reach: ReachabilitySet, attrs: AliasAttrMap)
    requires info.Valid() && reach.Valid() && attrs.Valid() && WellFormed(g)
    requires attrs.attrMap.Keys == NodesOf(g) && AttrsOf(info.attrMap, attrs.attrMap)
    requires forall v :: v in info.aliasMap ==> AliasesOf(info.aliasMap[v], reach.facts, v)
    requires forall v :: v in info.aliasMap <==> Node(v, 0) in reach.reachMap
    ensures info.attrMap.Keys == g.Keys
    ensures Represents(info, g, reach.facts, attrs.bits)
  {
    assert forall v :: v in g ==> Has(g, Node(v, 0));
    forall u, v | Related(reach.facts, Node(u, 0), Node(v, 0))
      ensures v in info.aliasMap
    {
      var s :| Item(Node(u, 0), Node(v, 0), s) in reach.facts;
      assert Recorded(reach.reachMap, Item(Node(u, 0), Node(v, 0), s));
    }
  }

  // ----- what the answers mean -----

  /** The answer, in terms of what was found: no size plays a part. */
  lemma AnswerMeans(info: FunctionInfo, g: Graph, facts: set<Item>, mem: set<(Node, Node)>, bits: Bits,
                    lhs: Value, lhsSize: nat, rhs: Value, rhsSize: nat)
    requires Analyzed(info, g, facts, mem, bits)
    ensures info.Aliased(lhs, lhsSize, rhs, rhsSize) <==>
              || lhs !in g || rhs !in g
              || (match ByAttrs(info.attrMap[lhs], info.attrMap[rhs])
                  case Some(decided) => decided
                  case None => Related(facts, Node(lhs, 0), Node(rhs, 0)))
    ensures lhs in g && rhs in g ==>
              BitsDecide(info.attrMap[lhs], info.attrMap[rhs], Related(facts, Node(lhs, 0), Node(rhs, 0)),
                         info.Aliased(lhs, lhsSize, rhs, rhsSize))
  {
    if lhs in g && rhs in g {
      ByAttrsIsByBits(info.attrMap[lhs], info.attrMap[rhs], Related(facts, Node(lhs, 0), Node(rhs, 0)));
    }
    RelatedIsSymmetric(g, facts, mem, Node(lhs, 0), Node(rhs, 0));
    if lhs in info.aliasMap {
      assert AliasesOf(info.aliasMap[lhs], facts, lhs);
    }
  }

  /** Related nodes have the same attributes. */
  lemma RelatedShareAttrs(g: Graph, facts: set<Item>, mem: set<(Node, Node)>, bits: Bits, m: Node, n: Node, a: nat)
    requires WellFormed(g) && InGraph(g, facts, mem) && IsLeastClosed(g, facts, mem) && IsLeastAttrs(g, facts, bits)
    requires Related(facts, m, n)
    ensures (m, a) in bits <==> (n, a) in bits
  {
    RelatedIsSymmetric(g, facts, mem, m, n);
    assert Has(g, m) && Has(g, n);
    assert Spread(g, facts, bits, m) && Spread(g, facts, bits, n);
    assert SpreadsTo(facts, bits, m, a, n) && SpreadsTo(facts, bits, n, a, m);
  }

  /** Values that are related are reported on every path through the query. */
  lemma RelatedMayAlias(info: FunctionInfo, g: Graph, facts: set<Item>, mem: set<(Node, Node)>, bits: Bits,
                        lhs: Value, lhsSize: nat, rhs: Value, rhsSize: nat)
    requires Analyzed(info, g, facts, mem, bits) && Related(facts, Node(lhs, 0), Node(rhs, 0))
    ensures info.Aliased(lhs, lhsSize, rhs, rhsSize)
  {
    AnswerMeans(info, g, facts, mem, bits, lhs, lhsSize, rhs, rhsSize);
    if lhs in g && rhs in g {
      forall a
        ensures a in info.attrMap[lhs] <==> a in info.attrMap[rhs]
      {
        RelatedShareAttrs(g, facts, mem, bits, Node(lhs, 0), Node(rhs, 0), a);
      }
      assert info.attrMap[lhs] == info.attrMap[rhs];
    }
  }

  /** Two values joined by an accepted walk are never reported as not aliasing. */
  lemma JoinedMayAlias(info: FunctionInfo, g: Graph, facts: set<Item>, mem: set<(Node, Node)>, bits: Bits,
                       lhs: Value, lhsSize: nat, rhs: Value, rhsSize: nat)
    requires Analyzed(info, g, facts, mem, bits) && lhs != rhs && Joined(g, Node(lhs, 0), Node(rhs, 0))
    ensures info.Aliased(lhs, lhsSize, rhs, rhsSize)
  {
    RelatedIffJoined(g, facts, mem, Node(lhs, 0), Node(rhs, 0));
    RelatedMayAlias(info, g, facts, mem, bits, lhs, lhsSize, rhs, rhsSize);
  }

  /** For different values without attributes the answer is exactly whether a walk joins them. */
  lemma PlainValuesAliasIffJoined(info: FunctionInfo, g: Graph, facts: set<Item>, mem: set<(Node, Node)>, bits: Bits,
                                  lhs: Value, lhsSize: nat, rhs: Value, rhsSize: nat)
    requires Analyzed(info, g, facts, mem, bits) && lhs in g && rhs in g && lhs != rhs
    requires info.attrMap[lhs] == {} && info.attrMap[rhs] == {}
    ensures info.Aliased(lhs, lhsSize, rhs, rhsSize) <==> Joined(g, Node(lhs, 0), Node(rhs, 0))
  {
    AnswerMeans(info, g, facts, mem, bits, lhs, lhsSize, rhs, rhsSize);
    RelatedIffJoined(g, facts, mem, Node(lhs, 0), Node(rhs, 0));
  }

  /** The order of the two locations does not matter, nor do their sizes. */
  lemma AnswerIsSymmetric(info: FunctionInfo, g: Graph, facts: set<Item>, mem: set<(Node, Node)>, bits: Bits,
                          lhs: Value, lhsSize: nat, rhs: Value, rhsSize: nat, size: nat, size': nat)
    requires Analyzed(info, g, facts, mem, bits)
    ensures info.Aliased(lhs, lhsSize, rhs, rhsSize) <==> info.Aliased(rhs, size, lhs, size')
  {
    AnswerMeans(info, g, facts, mem, bits, lhs, lhsSize, rhs, rhsSize);
    AnswerMeans(info, g, facts, mem, bits, rhs, size, lhs, size');
    RelatedIsSymmetric(g, facts, mem, Node(lhs, 0), Node(rhs, 0));
  }
}
