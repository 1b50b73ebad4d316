/** Combining the weights of edges to the same target, by sorting or by hashing. */
module BfiCombining {
  import opened BfiProbability

  datatype DistType = Local | Exit | Backedge

  type Node = nat

  datatype Weight = Weight(kind: DistType, target: Node, amount: nat)

  const NO_WEIGHT: Weight := Weight(Local, UINT32_MAX, 0)

  ghost predicate InRange(ws: seq<Weight>) {
    forall i :: 0 <= i < |ws| ==> 0 < ws[i].amount <= UINT64_MAX
  }

  /** Edges to the same target are of the same type. */
  ghost predicate TypesAgree(ws: seq<Weight>) {
    forall i, j :: 0 <= i < |ws| && 0 <= j < |ws| && ws[i].target == ws[j].target ==> ws[i].kind == ws[j].kind
  }

  /** The true sum of the amounts for target `t`. */
  function SumFor(ws: seq<Weight>, t: Node): nat {
    if ws == [] then 0
    else SumFor(ws[..|ws| - 1], t) + (if ws[|ws| - 1].target == t then ws[|ws| - 1].amount else 0)
  }

  function Sum(ws: seq<Weight>): nat {
    if ws == [] then 0 else Sum(ws[..|ws| - 1]) + ws[|ws| - 1].amount
  }

  ghost predicate HasTarget(ws: seq<Weight>, t: Node) {
    exists i :: 0 <= i < |ws| && ws[i].target == t
  }

  ghost predicate Distinct(ws: seq<Weight>) {
    forall i, j :: 0 <= i < j < |ws| ==> ws[i].target != ws[j].target
  }

  /** The entry `w` stands for all the edges of `ws` to its target: the saturated sum, and their type. */
  ghost predicate StandsFor(w: Weight, ws: seq<Weight>) {
    && w.amount == Min(SumFor(ws, w.target), UINT64_MAX)
    && forall i :: 0 <= i < |ws| && ws[i].target == w.target ==> ws[i].kind == w.kind
  }

  /** `out` has exactly one entry for each target of `ws`, and it stands for the edges to it. */
  ghost predicate Combination(out: seq<Weight>, ws: seq<Weight>) {
    && Distinct(out)
    && (forall t :: HasTarget(out, t) <==> HasTarget(ws, t))
    && (forall j :: 0 <= j < |out| ==> StandsFor(out[j], ws))
  }

  lemma SumForAppend(ws: seq<Weight>, w: Weight, t: Node)
    ensures SumFor(ws + [w], t) == SumFor(ws, t) + (if w.target == t then w.amount else 0)
  {
    assert (ws + [w])[..|ws|] == ws;
  }

  lemma HasTargetAppend(ws: seq<Weight>, w: Weight, t: Node)
    ensures HasTarget(ws + [w], t) <==> HasTarget(ws, t) || w.target == t
  {
    var ws' := ws + [w];
    if HasTarget(ws, t) {
      var i :| 0 <= i < |ws| && ws[i].target == t;
      assert ws'[i].target == t;
    }
    if w.target == t {
      assert ws'[|ws|].target == t;
    }
  }

  lemma {:induction false} SumForPositive(ws: seq<Weight>, t: Node)
    requires InRange(ws)
    ensures SumFor(ws, t) > 0 <==> HasTarget(ws, t)
  {
    if ws != [] {
      var init, last := ws[..|ws| - 1], ws[|ws| - 1];
      assert ws == init + [last];
      SumForPositive(init, t);
      HasTargetAppend(init, last, t);
    }
  }

  lemma {:induction false} SumForJoin(a: seq<Weight>, b: seq<Weight>, t: Node)
    ensures SumFor(a + b, t) == SumFor(a, t) + SumFor(b, t)
  {
    if b == [] {
      assert a + b == a;
    } else {
      assert (a + b)[..|a + b| - 1] == a + b[..|b| - 1];
      SumForJoin(a, b[..|b| - 1], t);
    }
  }

  /** Sums depend only on which edges there are, not on their order. */
  lemma {:induction false} SumForPermuted(a: seq<Weight>, b: seq<Weight>, t: Node)
    requires multiset(a) == multiset(b)
    ensures SumFor(a, t) == SumFor(b, t)
    decreases |a|
  {
    if a == [] {
      assert |multiset(b)| == 0;
      assert b == [];
    } else {
      var last := a[|a| - 1];
      assert last in multiset(b);
      var i :| 0 <= i < |b| && b[i] == last;
      var rest := b[..i] + b[i + 1..];
      assert a == a[..|a| - 1] + [last];
      assert b == b[..i] + [last] + b[i + 1..];
      assert multiset(rest) == multiset(b) - multiset{last};
      assert multiset(a[..|a| - 1]) == multiset(a) - multiset{last};
      SumForPermuted(a[..|a| - 1], rest, t);
      SumForJoin(b[..i], b[i + 1..], t);
      SumForJoin(b[..i] + [last], b[i + 1..], t);
      SumForAppend(b[..i], last, t);
    }
  }

  // ----- one combination -----

  /** Add `other` to `w`, which may be empty; 64-bit addition, saturated when it wraps around. */
  function CombineWeight(w: Weight, other: Weight): Weight {
    if w.amount == 0 then other
    else if w.amount > (w.amount + other.amount) % TWO64 then w.(amount := UINT64_MAX)
    else w.(amount := (w.amount + other.amount) % TWO64)
  }

  /** The wrap-around test makes this addition saturate. */
  lemma CombineSaturates(w: Weight, other: Weight)
    requires w.amount <= UINT64_MAX && other.amount <= UINT64_MAX
    ensures CombineWeight(w, other).amount == Min(w.amount + other.amount, UINT64_MAX)
  {
  }

  /** Taking one more edge into account keeps an entry standing for all of them. */
  lemma StandsForOneMore(w: Weight, ws: seq<Weight>, other: Weight)
    requires InRange(ws + [other]) && TypesAgree(ws + [other])
    requires StandsFor(w, ws) && w.target == other.target && HasTarget(ws, w.target)
    ensures StandsFor(CombineWeight(w, other), ws + [other])
    ensures CombineWeight(w, other).target == w.target
  {
    var ws' := ws + [other];
    assert forall i :: 0 <= i < |ws| ==> ws'[i] == ws[i];
    assert ws'[|ws|] == other;
    SumForAppend(ws, other, w.target);
    SumForPositive(ws, w.target);
    CombineSaturates(w, other);
    var k :| 0 <= k < |ws| && ws[k].target == w.target;
    assert ws'[k].kind == ws'[|ws|].kind;
  }

  lemma StandsForUnaffected(w: Weight, ws: seq<Weight>, other: Weight)
    requires StandsFor(w, ws) && w.target != other.target
    ensures StandsFor(w, ws + [other])
  {
    SumForAppend(ws, other, w.target);
  }

  lemma StandsForFirst(ws: seq<Weight>, w: Weight)
    requires InRange(ws + [w]) && !HasTarget(ws, w.target)
    ensures StandsFor(w, ws + [w])
  {
    var ws' := ws + [w];
    assert forall i :: 0 <= i < |ws| ==> ws'[i] == ws[i];
    assert ws'[|ws|] == w;
    assert forall i :: 0 <= i < |ws| ==> ws'[i] == ws[i] && 0 < ws[i].amount <= UINT64_MAX by {
      forall i | 0 <= i < |ws|
        ensures 0 < ws[i].amount <= UINT64_MAX
      {
        assert 0 < ws'[i].amount <= UINT64_MAX;
      }
    }
    SumForPositive(ws, w.target);
    SumForAppend(ws, w, w.target);
    assert 0 < ws'[|ws|].amount <= UINT64_MAX;
  }

  // ----- by sorting -----

  ghost predicate Sorted(ws: seq<Weight>) {
    forall i, j :: 0 <= i < j < |ws| ==> ws[i].target <= ws[j].target
  }

  ghost predicate StrictlySorted(ws: seq<Weight>) {
    forall i, j :: 0 <= i < j < |ws| ==> ws[i].target < ws[j].target
  }

  lemma InsertSorts(s: seq<Weight>, p: nat, w: Weight)
    requires Sorted(s) && p <= |s|
    requires p > 0 ==> s[p - 1].target <= w.target
    requires forall k :: p <= k < |s| ==> s[k].target > w.target
    ensures Sorted(s[..p] + [w] + s[p..])
  {
    var r := s[..p] + [w] + s[p..];
    forall i, j | 0 <= i < j < |r|
      ensures r[i].target <= r[j].target
    {
      assert i < p ==> r[i] == s[i];
      assert j < p ==> r[j] == s[j];
      assert i > p ==> r[i] == s[i - 1];
      assert j > p ==> r[j] == s[j - 1];
      assert i < p - 1 ==> s[i].target <= s[p - 1].target;
    }
  }

  lemma InsertPermutes(s: seq<Weight>, p: nat, w: Weight)
    requires p <= |s|
    ensures multiset(s[..p] + [w] + s[p..]) == multiset(s) + multiset{w}
  {
    assert s == s[..p] + s[p..];
  }

  /** Some sorted arrangement of the same weights; edges to one target may come in any order. */
  method SortByTarget(ws: seq<Weight>) returns (s: seq<Weight>)
    ensures Sorted(s) && multiset(s) == multiset(ws)
  {
    s := [];
    for i := 0 to |ws|
      invariant Sorted(s) && multiset(s) == multiset(ws[..i])
    {
      var p: int := |s|;
      while p > 0 && s[p - 1].target > ws[i].target
        invariant 0 <= p <= |s| && forall k :: p <= k < |s| ==> s[k].target > ws[i].target
      {
        p := p - 1;
      }
      InsertSorts(s, p, ws[i]);
      InsertPermutes(s, p, ws[i]);
      assert ws[..i + 1] == ws[..i] + [ws[i]];
      s := s[..p] + [ws[i]] + s[p..];
    }
    assert ws[..|ws|] == ws;
  }

  /** Nothing before position `i` of a sorted list has the target at `i`, if the one before differs. */
  lemma FirstOfItsTarget(s: seq<Weight>, i: nat)
    requires Sorted(s) && i < |s| && (i > 0 ==> s[i - 1].target != s[i].target)
    ensures !HasTarget(s[..i], s[i].target)
  {
  }

  /** `ws[..o]` is the combination of the first `i` of the sorted weights `s`, in order; the rest
      of `ws` has not been touched. */
  ghost predicate Compacted(ws: seq<Weight>, s: seq<Weight>, o: nat, i: nat) {
    && o <= i <= |s| == |ws| && ws[i..] == s[i..]
    && Combination(ws[..o], s[..i]) && StrictlySorted(ws[..o])
  }

  /** The outer loop of the compaction: the group that starts at `i` goes to position `o`. */
  lemma GroupDone(ws: seq<Weight>, s: seq<Weight>, o: nat, i: nat, l: nat, ws': seq<Weight>)
    requires InRange(s) && TypesAgree(s) && Sorted(s)
    requires Compacted(ws, s, o, i) && i < l <= |s| && (i > 0 ==> s[i - 1].target < s[i].target)
    requires forall k :: i <= k < l ==> s[k].target == s[i].target
    requires |ws'| == |ws| && ws'[..o] == ws[..o] && ws'[l..] == s[l..]
    requires ws'[o].target == s[i].target && StandsFor(ws'[o], s[..l])
    ensures Compacted(ws', s, o + 1, l)
  {
    var out, out' := ws[..o], ws'[..o + 1];
    assert out' == out + [ws'[o]];
    forall j | 0 <= j < o
      ensures out[j].target < s[i].target && StandsFor(out[j], s[..l])
    {
      assert HasTarget(out, out[j].target);
      var k :| 0 <= k < i && s[..i][k].target == out[j].target;
      assert s[k].target <= s[i - 1].target;
      GroupElsewhere(s, i, l, out[j]);
    }
    forall t
      ensures HasTarget(out', t) <==> HasTarget(s[..l], t)
    {
      HasTargetAppend(out, ws'[o], t);
      GroupTargets(s, i, l, t);
    }
  }

  lemma GroupTargets(s: seq<Weight>, i: nat, l: nat, t: Node)
    requires i < l <= |s| && forall k :: i <= k < l ==> s[k].target == s[i].target
    ensures HasTarget(s[..l], t) <==> HasTarget(s[..i], t) || t == s[i].target
  {
    if HasTarget(s[..l], t) {
      var k :| 0 <= k < l && s[..l][k].target == t;
      if k < i {
        assert s[..i][k].target == t;
      }
    }
    if HasTarget(s[..i], t) {
      var k :| 0 <= k < i && s[..i][k].target == t;
      assert s[..l][k].target == t;
    }
    if t == s[i].target {
      assert s[..l][i].target == t;
    }
  }

  lemma {:induction false} GroupElsewhere(s: seq<Weight>, i: nat, l: nat, w: Weight)
    requires i <= l <= |s| && StandsFor(w, s[..i])
    requires forall k :: i <= k < l ==> s[k].target != w.target
    ensures StandsFor(w, s[..l])
    decreases l
  {
    if i < l {
      GroupElsewhere(s, i, l - 1, w);
      assert s[..l] == s[..l - 1] + [s[l - 1]];
      StandsForUnaffected(w, s[..l - 1], s[l - 1]);
    }
  }

  lemma InRangePrefix(s: seq<Weight>, l: nat)
    requires InRange(s) && TypesAgree(s) && l <= |s|
    ensures InRange(s[..l]) && TypesAgree(s[..l])
  {
  }

  /** A group starts as its first edge. */
  lemma GroupStart(ws: seq<Weight>, s: seq<Weight>, o: nat, i: nat)
    requires InRange(s) && TypesAgree(s) && Sorted(s)
    requires Compacted(ws, s, o, i) && i < |s| && (i > 0 ==> s[i - 1].target < s[i].target)
    ensures ws[i] == s[i] && StandsFor(s[i], s[..i + 1]) && ws[i + 1..] == s[i + 1..]
  {
    assert ws[i] == ws[i..][0] == s[i..][0];
    assert ws[i + 1..] == ws[i..][1..] && s[i + 1..] == s[i..][1..];
    InRangePrefix(s, i + 1);
    FirstOfItsTarget(s, i);
    assert s[..i + 1] == s[..i] + [s[i]];
    StandsForFirst(s[..i], s[i]);
  }

  /** A group grows by one edge. */
  lemma GroupGrows(ws: seq<Weight>, s: seq<Weight>, o: nat, i: nat, l: nat)
    requires InRange(s) && TypesAgree(s) && o <= i < l < |s| == |ws| && ws[l..] == s[l..]
    requires ws[o].target == s[i].target == ws[l].target && StandsFor(ws[o], s[..l])
    ensures ws[l] == s[l] && ws[l + 1..] == s[l + 1..]
    ensures CombineWeight(ws[o], ws[l]).target == s[i].target && StandsFor(CombineWeight(ws[o], ws[l]), s[..l + 1])
  {
    assert ws[l] == ws[l..][0] == s[l..][0];
    assert ws[l + 1..] == ws[l..][1..] && s[l + 1..] == s[l..][1..];
    assert s[..l + 1] == s[..l] + [s[l]];
    InRangePrefix(s, l + 1);
    assert s[..l][i].target == ws[o].target;
    StandsForOneMore(ws[o], s[..l], s[l]);
  }

  /** Combine the weights of the group that starts at `i` into the entry at `o`. */
  method CompactGroup(ws0: seq<Weight>, ghost s: seq<Weight>, o: nat, i: nat) returns (ws: seq<Weight>, l: nat)
    requires InRange(s) && TypesAgree(s) && Sorted(s)
    requires Compacted(ws0, s, o, i) && i < |s| && (i > 0 ==> s[i - 1].target < s[i].target)
    ensures i < l <= |s| && Compacted(ws, s, o + 1, l) && (l < |s| ==> s[l - 1].target < s[l].target)
  {
    ws := ws0[o := ws0[i]];
    l := i + 1;
    GroupStart(ws0, s, o, i);
    while l != |ws| && ws[i].target == ws[l].target
      invariant o <= i < l <= |s| == |ws|
      invariant ws[..o] == ws0[..o] && ws[l..] == s[l..]
      invariant ws[i].target == s[i].target == ws[o].target && StandsFor(ws[o], s[..l])
      invariant forall k :: i <= k < l ==> s[k].target == s[i].target
    {
      GroupGrows(ws, s, o, i, l);
      ws := ws[o := CombineWeight(ws[o], ws[l])];
      l := l + 1;
    }
    assert l < |ws| ==> ws[l] == ws[l..][0] == s[l..][0];
    GroupDone(ws0, s, o, i, l, ws);
  }

  /** Sort, then combine each group of equal targets into one entry, in place. */
  method CombineWeightsBySorting(weights: seq<Weight>) returns (ws: seq<Weight>)
    requires InRange(weights) && TypesAgree(weights)
    ensures Combination(ws, weights) && StrictlySorted(ws)
  {
    ws := SortByTarget(weights);
    ghost var s := ws;
    PermutedInRange(weights, s);
    var o, i := 0, 0;
    while i != |ws|
      invariant Compacted(ws, s, o, i) && (0 < i < |s| ==> s[i - 1].target < s[i].target)
      decreases |ws| - i
    {
      ws, i := CompactGroup(ws, s, o, i);
      o := o + 1;
    }
    ws := ws[..o];
    assert s[..|s|] == s;
    CombinationPermuted(ws, s, weights);
  }

  lemma PermutedInRange(a: seq<Weight>, b: seq<Weight>)
    requires multiset(a) == multiset(b) && InRange(a) && TypesAgree(a)
    ensures InRange(b) && TypesAgree(b)
  {
    forall i | 0 <= i < |b|
      ensures b[i] in a
    {
      assert b[i] in multiset(a);
    }
  }

  lemma HasTargetPermuted(a: seq<Weight>, b: seq<Weight>, t: Node)
    requires multiset(a) == multiset(b) && HasTarget(a, t)
    ensures HasTarget(b, t)
  {
    var i :| 0 <= i < |a| && a[i].target == t;
    assert a[i] in multiset(b);
    var j :| 0 <= j < |b| && b[j] == a[i];
  }

  lemma CombinationPermuted(out: seq<Weight>, a: seq<Weight>, b: seq<Weight>)
    requires multiset(a) == multiset(b) && Combination(out, a)
    ensures Combination(out, b)
  {
    forall t
      ensures HasTarget(a, t) <==> HasTarget(b, t)
    {
      if HasTarget(a, t) { HasTargetPermuted(a, b, t); }
      if HasTarget(b, t) { HasTargetPermuted(b, a, t); }
    }
    forall j | 0 <= j < |out|
      ensures StandsFor(out[j], b)
    {
      SumForPermuted(a, b, out[j].target);
      forall i | 0 <= i < |b| && b[i].target == out[j].target
        ensures b[i].kind == out[j].kind
      {
        assert b[i] in multiset(a);
        var k :| 0 <= k < |a| && a[k] == b[i];
      }
    }
  }

  // ----- by hashing -----

  /** The table has an entry for each target of `ws`, standing for the edges to it. */
  ghost predicate Tabulates(table: map<Node, Weight>, ws: seq<Weight>) {
    && (forall t :: t in table <==> HasTarget(ws, t))
    && (forall t :: t in table ==> table[t].target == t && StandsFor(table[t], ws))
  }

  lemma TabulatesOneMore(table: map<Node, Weight>, ws: seq<Weight>, w: Weight)
    requires InRange(ws + [w]) && TypesAgree(ws + [w]) && Tabulates(table, ws)
    ensures var entry := if w.target in table then table[w.target] else NO_WEIGHT;
            Tabulates(table[w.target := CombineWeight(entry, w)], ws + [w])
  {
    var entry := if w.target in table then table[w.target] else NO_WEIGHT;
    var table' := table[w.target := CombineWeight(entry, w)];
    if w.target in table {
      StandsForOneMore(entry, ws, w);
    } else {
      StandsForFirst(ws, w);
    }
    forall t
      ensures t in table' <==> HasTarget(ws + [w], t)
      ensures t in table' ==> table'[t].target == t && StandsFor(table'[t], ws + [w])
    {
      HasTargetAppend(ws, w, t);
      if t in table && t != w.target {
        StandsForUnaffected(table[t], ws, w);
      }
    }
  }

  function Targets(ws: seq<Weight>): set<Node> {
    if ws == [] then {} else Targets(ws[..|ws| - 1]) + {ws[|ws| - 1].target}
  }

  lemma {:induction false} TargetsAre(ws: seq<Weight>)
    ensures forall t :: t in Targets(ws) <==> HasTarget(ws, t)
    ensures |Targets(ws)| <= |ws|
    ensures |Targets(ws)| == |ws| ==> Distinct(ws)
  {
    if ws != [] {
      var init, last := ws[..|ws| - 1], ws[|ws| - 1];
      TargetsAre(init);
      assert ws == init + [last];
      OneMoreTarget(init, last, Targets(init));
    }
  }

  lemma OneMoreTarget(init: seq<Weight>, last: Weight, targets: set<Node>)
    requires (forall t :: t in targets <==> HasTarget(init, t)) && |targets| <= |init|
    requires |targets| == |init| ==> Distinct(init)
    ensures forall t :: t in targets + {last.target} <==> HasTarget(init + [last], t)
    ensures |targets + {last.target}| <= |init| + 1
    ensures |targets + {last.target}| == |init| + 1 ==> Distinct(init + [last])
  {
    forall t
      ensures t in targets + {last.target} <==> HasTarget(init + [last], t)
    {
      HasTargetAppend(init, last, t);
    }
    if last.target in targets {
      assert targets + {last.target} == targets;
    } else {
      assert forall i :: 0 <= i < |init| ==> HasTarget(init, init[i].target);
    }
  }

  lemma {:induction false} SumForDistinct(ws: seq<Weight>, i: nat)
    requires Distinct(ws) && i < |ws|
    ensures SumFor(ws, ws[i].target) == ws[i].amount
  {
    var init, last := ws[..|ws| - 1], ws[|ws| - 1];
    if i < |init| {
      SumForDistinct(init, i);
    } else {
      SumForAbsent(init, last.target);
    }
  }

  lemma {:induction false} SumForAbsent(ws: seq<Weight>, t: Node)
    requires forall i :: 0 <= i < |ws| ==> ws[i].target != t
    ensures SumFor(ws, t) == 0
  {
    if ws != [] {
      SumForAbsent(ws[..|ws| - 1], t);
    }
  }

  /** A table as large as the list means that no two edges share a target. */
  lemma NothingCombined(table: map<Node, Weight>, ws: seq<Weight>)
    requires InRange(ws) && TypesAgree(ws) && Tabulates(table, ws) && |table| == |ws|
    ensures Combination(ws, ws)
  {
    TargetsAre(ws);
    assert table.Keys == Targets(ws);
    DistinctCombines(ws);
  }

  lemma DistinctCombines(ws: seq<Weight>)
    requires InRange(ws) && TypesAgree(ws) && Distinct(ws)
    ensures Combination(ws, ws)
  {
    forall j | 0 <= j < |ws|
      ensures StandsFor(ws[j], ws)
    {
      SumForDistinct(ws, j);
    }
  }

  method CombineWeightsByHashing(weights: seq<Weight>) returns (ws: seq<Weight>)
    requires InRange(weights) && TypesAgree(weights)
    ensures Combination(ws, weights)
  {
    var combined: map<Node, Weight> := map[];
    for i := 0 to |weights|
      invariant Tabulates(combined, weights[..i])
    {
      InRangePrefix(weights, i + 1);
      assert weights[..i + 1] == weights[..i] + [weights[i]];
      TabulatesOneMore(combined, weights[..i], weights[i]);
      var t := weights[i].target;
      combined := combined[t := CombineWeight(if t in combined then combined[t] else NO_WEIGHT, weights[i])];
    }
    assert weights[..|weights|] == weights;
    if |weights| == |combined| {
      NothingCombined(combined, weights);
      return weights;
    }
    ws := [];
    var left := combined.Keys;
    while left != {}
      invariant left <= combined.Keys && Distinct(ws)
      invariant forall t :: t in combined ==> (t in left <==> !HasTarget(ws, t))
      invariant forall j :: 0 <= j < |ws| ==> ws[j].target in combined && ws[j] == combined[ws[j].target]
      decreases |left|
    {
      var t :| t in left;
      forall j | 0 <= j < |ws|
        ensures ws[j].target != t
      {
        assert t in left ==> !HasTarget(ws, t);
      }
      forall u
        ensures HasTarget(ws + [combined[t]], u) <==> HasTarget(ws, u) || u == t
      {
        HasTargetAppend(ws, combined[t], u);
      }
      ws := ws + [combined[t]];
      left := left - {t};
    }
    forall t
      ensures HasTarget(ws, t) <==> HasTarget(weights, t)
    {
    }
  }

  // ----- both agree -----

  lemma SameEntry(ws: seq<Weight>, a: Weight, b: Weight)
    requires a.target == b.target && HasTarget(ws, a.target) && StandsFor(a, ws) && StandsFor(b, ws)
    ensures a == b
  {
  }

  lemma CombinationContains(a: seq<Weight>, b: seq<Weight>, ws: seq<Weight>, x: Weight)
    requires Combination(a, ws) && Combination(b, ws) && x in a
    ensures x in b
  {
    var i :| 0 <= i < |a| && a[i] == x;
    assert HasTarget(a, x.target);
    var j :| 0 <= j < |b| && b[j].target == x.target;
    SameEntry(ws, x, b[j]);
  }

  lemma DistinctLast(a: seq<Weight>)
    requires Distinct(a) && a != []
    ensures a[|a| - 1] !in a[..|a| - 1]
  {
    var init := a[..|a| - 1];
    forall i | 0 <= i < |init|
      ensures init[i] != a[|a| - 1]
    {
      assert a[i].target != a[|a| - 1].target;
    }
  }

  lemma {:induction false} DistinctOnce(a: seq<Weight>, x: Weight)
    requires Distinct(a)
    ensures multiset(a)[x] == if x in a then 1 else 0
  {
    if a != [] {
      var init, last := a[..|a| - 1], a[|a| - 1];
      assert a == init + [last];
      DistinctOnce(init, x);
      DistinctLast(a);
    }
  }

  /** The combination of a list of edges is unique but for order: sorting and hashing agree. */
  lemma CombinationUnique(a: seq<Weight>, b: seq<Weight>, ws: seq<Weight>)
    requires Combination(a, ws) && Combination(b, ws)
    ensures multiset(a) == multiset(b)
  {
    forall x
      ensures multiset(a)[x] == multiset(b)[x]
    {
      DistinctOnce(a, x);
      DistinctOnce(b, x);
      if x in a { CombinationContains(a, b, ws, x); }
      if x in b { CombinationContains(b, a, ws, x); }
    }
  }

  /** Few edges are combined by sorting, many by hashing. */
  method CombineWeights(weights: seq<Weight>) returns (ws: seq<Weight>)
    requires InRange(weights) && TypesAgree(weights)
    ensures Combination(ws, weights)
    ensures |weights| <= 128 ==> StrictlySorted(ws)
  {
    if |weights| > 128 {
      ws := CombineWeightsByHashing(weights);
      return;
    }
    ws := CombineWeightsBySorting(weights);
  }
}
