/** Potential reachability between blocks and between instructions: a bounded search that takes
    shortcuts through dominators and outermost loops. */
module CfgReachability {
  import opened Sets
  import opened Wrappers

  import opened CfgGraph

  // ----- the analyses the search may be given -----

  /** The two queries made of a dominator tree. */
  datatype DominatorTree = DominatorTree(reachable: set<Block>, dominated: set<(Block, Block)>) {
    predicate IsReachableFromEntry(b: Block) { b in reachable }
    predicate Dominates(a: Block, b: Block) { (a, b) in dominated }

    /** Every path from the entry to `b` goes through `a`; unreachable blocks are dominated by
        everything, and dominate nothing that is reachable. */
    ghost predicate Describes(f: Function) {
      && (forall b: Block :: IsReachableFromEntry(b) <==> b < |f.succ| && f.Reaches(0, b))
      && (forall a: Block, b: Block :: a < |f.succ| && b < |f.succ| ==>
            (Dominates(a, b) <==>
             a == b || !IsReachableFromEntry(b)
             || (IsReachableFromEntry(a) && forall p :: f.PathBetween(0, p, b) ==> a in p)))
    }
  }

  datatype Loop = Loop(parent: Option<nat>, blocks: seq<Block>)

  ghost predicate InFunction(f: Function, loop: Loop) {
    forall i :: 0 <= i < |loop.blocks| ==> loop.blocks[i] < |f.succ|
  }

  /** The end of a back edge to `header`: an edge to a block that dominates it. */
  ghost predicate Latch(f: Function, header: Block, u: Block) {
    f.Edge(u, header) && forall p :: f.PathBetween(0, p, u) ==> header in p
  }

  /** `b` gets to a latch of `header` without going through `header`, unless it starts there. */
  ghost predicate ReachesLatch(f: Function, header: Block, b: Block) {
    exists u, q :: Latch(f, header, u) && f.PathBetween(b, q, u) && (b == header || header !in q)
  }

  /** A natural loop, the header first: reachable blocks that get to a latch. */
  ghost predicate NaturalLoop(f: Function, loop: Loop) {
    forall i :: 0 <= i < |loop.blocks| ==>
      f.Reaches(0, loop.blocks[i]) && ReachesLatch(f, loop.blocks[0], loop.blocks[i])
  }

  /** A loop forest, parents numbered before their children, and the innermost loop of a block. */
  datatype LoopInfo = LoopInfo(loops: seq<Loop>, innermost: map<Block, nat>) {
    ghost predicate Nested() {
      && (forall l :: 0 <= l < |loops| && loops[l].parent.Some? ==> loops[l].parent.value < l)
      && (forall b :: b in innermost ==> innermost[b] < |loops|)
    }

    function Root(l: nat): (r: nat)
      requires Nested() && l < |loops|
      ensures r < |loops| && loops[r].parent.None?
    {
      if loops[l].parent.None? then l else Root(loops[l].parent.value)
    }

    function Outermost(b: Block): (r: Option<nat>)
      requires Nested()
      ensures r.Some? ==> r.value < |loops|
    {
      if b in innermost then Some(Root(innermost[b])) else None
    }

    /** The blocks of an outermost loop are those whose outermost loop it is, and it is a natural
        loop. */
    ghost predicate Describes(f: Function) {
      && Nested()
      && (forall l :: 0 <= l < |loops| ==> InFunction(f, loops[l]))
      && (forall l, b: Block :: 0 <= l < |loops| && loops[l].parent.None? ==>
            (b in loops[l].blocks <==> b < |f.succ| && Outermost(b) == Some(l)))
      && (forall l :: 0 <= l < |loops| && loops[l].parent.None? ==> NaturalLoop(f, loops[l]))
    }
  }

  /** There is a path of at least one edge. */
  ghost predicate ReachesInSteps(f: Function, a: Block, b: Block) {
    exists p :: |p| > 1 && f.PathBetween(a, p, b)
  }

  /** The header of a natural loop reaches its blocks: a way from the entry to a latch that passes
      through such a block last must have gone through the header before. */
  lemma HeaderReaches(f: Function, header: Block, b: Block)
    requires f.Valid() && f.Reaches(0, b) && ReachesLatch(f, header, b)
    ensures f.Reaches(header, b)
  {
    var u, q :| Latch(f, header, u) && f.PathBetween(b, q, u) && (b == header || header !in q);
    var p :| f.PathBetween(0, p, b);
    PathJoin(f, 0, p, b, q, u);
    assert header in p;
    var i :| 0 <= i < |p| && p[i] == header;
    PathSuffix(f, p, i);
    assert f.PathBetween(header, p[i..], b);
  }

  /** The blocks of a natural loop reach its header, by way of a latch. */
  lemma ReachesHeader(f: Function, header: Block, b: Block)
    requires ReachesLatch(f, header, b)
    ensures ReachesInSteps(f, b, header)
  {
    var u, q :| Latch(f, header, u) && f.PathBetween(b, q, u) && (b == header || header !in q);
    PathThenEdge(f, b, q, u, header);
    assert |q + [header]| > 1;
  }

  /** In a natural loop each block reaches each, itself included, in at least one step. */
  lemma LoopReaches(f: Function, loop: Loop, a: Block, b: Block)
    requires f.Valid() && NaturalLoop(f, loop) && a in loop.blocks && b in loop.blocks
    ensures ReachesInSteps(f, a, b)
  {
    var header := loop.blocks[0];
    ReachesHeader(f, header, a);
    HeaderReaches(f, header, b);
    var p :| |p| > 1 && f.PathBetween(a, p, header);
    var q :| f.PathBetween(header, q, b);
    PathJoin(f, a, p, header, q, b);
    assert |p + q[1..]| > 1;
  }

  /** The way up from a loop to the outermost loop around it, through the parents. */
  ghost predicate Ancestry(li: LoopInfo, p: seq<nat>) {
    && p != [] && (forall i :: 0 <= i < |p| ==> p[i] < |li.loops|)
    && (forall i :: 0 <= i < |p| - 1 ==> li.loops[p[i]].parent == Some(p[i + 1]))
    && li.loops[p[|p| - 1]].parent.None?
  }

  lemma {:induction false} RootIsAncestor(li: LoopInfo, l: nat) returns (p: seq<nat>)
    requires li.Nested() && l < |li.loops|
    ensures Ancestry(li, p) && p[0] == l && p[|p| - 1] == li.Root(l)
    decreases l
  {
    p := [l];
    if li.loops[l].parent.Some? {
      var up := RootIsAncestor(li, li.loops[l].parent.value);
      p := p + up;
    }
  }

  method GetOutermostLoop(li: LoopInfo, bb: Block) returns (r: Option<nat>)
    requires li.Nested()
    ensures r == li.Outermost(bb)
    ensures r.None? <==> bb !in li.innermost
    ensures r.Some? ==> exists p :: Ancestry(li, p) && p[0] == li.innermost[bb] && p[|p| - 1] == r.value
  {
    if bb !in li.innermost {
      return None;
    }
    var l: nat := li.innermost[bb];
    while li.loops[l].parent.Some?
      invariant 0 <= l < |li.loops| && li.Root(l) == li.Root(li.innermost[bb])
      decreases l
    {
      l := li.loops[l].parent.value;
    }
    ghost var p := RootIsAncestor(li, li.innermost[bb]);
    return Some(l);
  }

  method LoopContainsBoth(li: LoopInfo, bb1: Block, bb2: Block) returns (r: bool)
    requires li.Nested()
    ensures r <==> li.Outermost(bb1).Some? && li.Outermost(bb1) == li.Outermost(bb2)
  {
    var l1 := GetOutermostLoop(li, bb1);
    var l2 := GetOutermostLoop(li, bb2);
    return l1.Some? && l1 == l2;
  }

  /** The members of `bs` outside the loop. */
  function Outside(bs: seq<Block>, loop: Loop): seq<Block> {
    if bs == [] then []
    else Outside(bs[..|bs| - 1], loop) + (if bs[|bs| - 1] in loop.blocks then [] else [bs[|bs| - 1]])
  }

  lemma {:induction false} OutsideAre(bs: seq<Block>, loop: Loop, b: Block)
    ensures b in Outside(bs, loop) <==> b in bs && b !in loop.blocks
  {
    if bs != [] {
      var init, last := bs[..|bs| - 1], bs[|bs| - 1];
      assert bs == init + [last];
      OutsideAre(init, loop, b);
    }
  }

  /** The successors outside the loop of the first `n` of its blocks. */
  function Exits(f: Function, loop: Loop, n: nat): (r: seq<Block>)
    requires n <= |loop.blocks| && InFunction(f, loop)
  {
    if n == 0 then [] else Exits(f, loop, n - 1) + Outside(f.succ[loop.blocks[n - 1]], loop)
  }

  /** One of the first `n` blocks of the loop has an edge to `c`. */
  ghost predicate Leads(f: Function, loop: Loop, n: nat, c: Block)
    requires n <= |loop.blocks|
  {
    exists i :: 0 <= i < n && f.Edge(loop.blocks[i], c)
  }

  lemma LeadsOneMore(f: Function, loop: Loop, n: nat, c: Block)
    requires n < |loop.blocks|
    ensures Leads(f, loop, n + 1, c) <==> Leads(f, loop, n, c) || f.Edge(loop.blocks[n], c)
  {
    if Leads(f, loop, n, c) {
      var i :| 0 <= i < n && f.Edge(loop.blocks[i], c);
      assert i < n + 1;
    }
  }

  /** `c` is outside the loop, and one of its first `n` blocks leads there. */
  ghost predicate IsExit(f: Function, loop: Loop, n: nat, c: Block)
    requires n <= |loop.blocks|
  {
    c !in loop.blocks && Leads(f, loop, n, c)
  }

  lemma ExitsOneMore(f: Function, loop: Loop, n: nat, c: Block)
    requires n < |loop.blocks| && InFunction(f, loop)
    requires c in Exits(f, loop, n) <==> IsExit(f, loop, n, c)
    ensures c in Exits(f, loop, n + 1) <==> IsExit(f, loop, n + 1, c)
  {
    var before, outside := Exits(f, loop, n), Outside(f.succ[loop.blocks[n]], loop);
    assert Exits(f, loop, n + 1) == before + outside;
    assert c in before + outside <==> c in before || c in outside;
    OutsideAre(f.succ[loop.blocks[n]], loop, c);
    LeadsOneMore(f, loop, n, c);
  }

  lemma ExitsAre(f: Function, loop: Loop, n: nat, c: Block)
    requires n <= |loop.blocks| && InFunction(f, loop)
    ensures c in Exits(f, loop, n) <==> IsExit(f, loop, n, c)
  {
    for k := 0 to n
      invariant c in Exits(f, loop, k) <==> IsExit(f, loop, k, c)
    {
      ExitsOneMore(f, loop, k, c);
    }
  }

  method AppendOutside(succs: seq<Block>, loop: Loop, worklist0: seq<Block>) returns (worklist: seq<Block>)
    ensures worklist == worklist0 + Outside(succs, loop)
  {
    worklist := worklist0;
    for k := 0 to |succs|
      invariant worklist == worklist0 + Outside(succs[..k], loop)
    {
      assert succs[..k + 1][..k] == succs[..k];
      if succs[k] !in loop.blocks {
        worklist := worklist + [succs[k]];
      }
    }
    assert succs[..|succs|] == succs;
  }

  lemma ExitsAppended(f: Function, loop: Loop, n: nat, worklist0: seq<Block>)
    requires n < |loop.blocks| && InFunction(f, loop)
    ensures worklist0 + Exits(f, loop, n) + Outside(f.succ[loop.blocks[n]], loop)
            == worklist0 + Exits(f, loop, n + 1)
  {
    var before, outside := Exits(f, loop, n), Outside(f.succ[loop.blocks[n]], loop);
    assert Exits(f, loop, n + 1) == before + outside;
    assert worklist0 + before + outside == worklist0 + (before + outside);
  }

  method GetExitBlocks(f: Function, loop: Loop, worklist0: seq<Block>) returns (worklist: seq<Block>)
    requires InFunction(f, loop)
    ensures worklist == worklist0 + Exits(f, loop, |loop.blocks|)
  {
    worklist := worklist0;
    for i := 0 to |loop.blocks|
      invariant worklist == worklist0 + Exits(f, loop, i)
    {
      worklist := AppendOutside(f.succ[loop.blocks[i]], loop, worklist);
      ExitsAppended(f, loop, i, worklist0);
    }
  }

  // ----- what the search can visit -----

  /** Where the search goes from `b`: its successors or, if it is in a loop, the exits of its
      outermost loop. */
  function NextBlocks(f: Function, li: Option<LoopInfo>, b: Block): seq<Block>
    requires b < |f.succ| && (li.Some? ==> li.value.Describes(f))
  {
    if li.Some? && li.value.Outermost(b).Some? then
      var loop := li.value.loops[li.value.Outermost(b).value];
      Exits(f, loop, |loop.blocks|)
    else f.succ[b]
  }

  /** The graph the search walks. */
  ghost function Skipping(f: Function, li: Option<LoopInfo>): (g: Function)
    requires f.Valid() && (li.Some? ==> li.value.Describes(f))
    ensures |g.succ| == |f.succ|
  {
    Function(seq(|f.succ|, b requires 0 <= b < |f.succ| && (li.Some? ==> li.value.Describes(f)) =>
      NextBlocks(f, li, b)))
  }

  /** The blocks a search of `g` from `start` could visit. */
  ghost function Space(g: Function, start: seq<Block>): set<Block> {
    set b: Block | b < |g.succ| && g.Has(b) && exists w :: w in start && g.Reaches(w, b)
  }

  ghost predicate Informed(f: Function, dt: Option<DominatorTree>, li: Option<LoopInfo>) {
    f.Valid() && (dt.Some? ==> dt.value.Describes(f)) && (li.Some? ==> li.value.Describes(f))
  }

  ghost predicate SomeReaches(f: Function, start: seq<Block>, stop: Block) {
    exists w :: w in start && f.Reaches(w, stop)
  }

  /** A step of the search stands for a path in the function. */
  lemma SkipIsPath(f: Function, li: Option<LoopInfo>, a: Block, b: Block)
    requires f.Valid() && (li.Some? ==> li.value.Describes(f)) && Skipping(f, li).Edge(a, b)
    ensures b < |f.succ| && f.Reaches(a, b)
  {
    assert b in NextBlocks(f, li, a);
    if li.Some? && li.value.Outermost(a).Some? {
      var loop := li.value.loops[li.value.Outermost(a).value];
      ExitsAre(f, loop, |loop.blocks|, b);
      var i :| 0 <= i < |loop.blocks| && f.Edge(loop.blocks[i], b);
      assert a in loop.blocks && loop.blocks[i] in loop.blocks;
      LoopReaches(f, loop, a, loop.blocks[i]);
      ReachesThenEdge(f, a, loop.blocks[i], b);
    } else {
      ReachesItself(f, a);
      ReachesThenEdge(f, a, a, b);
    }
  }

  lemma {:induction false} SkippingPathIsPath(f: Function, li: Option<LoopInfo>, p: seq<Block>)
    requires f.Valid() && (li.Some? ==> li.value.Describes(f)) && Skipping(f, li).Path(p)
    ensures f.Reaches(p[0], p[|p| - 1])
    decreases |p|
  {
    var g := Skipping(f, li);
    if |p| == 1 {
      ReachesItself(f, p[0]);
    } else {
      SkippingPathIsPath(f, li, p[..|p| - 1]);
      assert g.Edge(p[|p| - 2], p[|p| - 1]);
      SkipIsPath(f, li, p[|p| - 2], p[|p| - 1]);
      ReachesTransitive(f, p[0], p[|p| - 2], p[|p| - 1]);
    }
  }

  lemma SpaceIsReachable(f: Function, li: Option<LoopInfo>, start: seq<Block>, b: Block)
    requires f.Valid() && (li.Some? ==> li.value.Describes(f)) && b in Space(Skipping(f, li), start)
    ensures exists w :: w in start && f.Reaches(w, b)
  {
    var g := Skipping(f, li);
    var w :| w in start && g.Reaches(w, b);
    var p :| g.PathBetween(w, p, b);
    SkippingPathIsPath(f, li, p);
  }

  // ----- the same blocks, in terms of edges and loops -----

  ghost function OutermostOf(li: Option<LoopInfo>, b: Block): Option<nat>
    requires li.Some? ==> li.value.Nested()
  {
    if li.Some? then li.value.Outermost(b) else None
  }

  /** Some member of `sp` shares the outermost loop of `u`. */
  ghost predicate LoopIsEntered(li: Option<LoopInfo>, sp: set<Block>, u: Block)
    requires li.Some? ==> li.value.Nested()
  {
    exists v :: v in sp && OutermostOf(li, v) == OutermostOf(li, u)
  }

  /** A search that visits `sp` goes from `u` to `c`: along an edge from a member of `sp` that is in
      no loop, or along an edge out of the outermost loop of a member. */
  ghost predicate Follows(f: Function, li: Option<LoopInfo>, sp: set<Block>, u: Block, c: Block)
    requires li.Some? ==> li.value.Nested()
  {
    f.Edge(u, c) && if OutermostOf(li, u).None? then u in sp
                    else OutermostOf(li, c) != OutermostOf(li, u) && LoopIsEntered(li, sp, u)
  }

  /** The set holds the blocks of `start` and all that a search of its members goes to. */
  ghost predicate ClosedUnderSearch(f: Function, li: Option<LoopInfo>, start: seq<Block>, sp: set<Block>)
    requires li.Some? ==> li.value.Nested()
  {
    && (forall w :: w in start ==> w in sp)
    && (forall u, c :: Follows(f, li, sp, u, c) ==> c in sp)
  }

  /** However few blocks a search from `start` visits, it has to visit 32. */
  ghost predicate NeedsMany(f: Function, li: Option<LoopInfo>, start: seq<Block>)
    requires li.Some? ==> li.value.Nested()
  {
    forall sp :: ClosedUnderSearch(f, li, start, sp) ==> |sp| >= 32
  }

  lemma NextIsFollowed(f: Function, li: Option<LoopInfo>, sp: set<Block>, v: Block, c: Block)
    requires f.Valid() && (li.Some? ==> li.value.Describes(f)) && v in sp && v < |f.succ|
    requires c in NextBlocks(f, li, v)
    ensures exists u :: Follows(f, li, sp, u, c)
  {
    if OutermostOf(li, v).Some? {
      var loop := li.value.loops[li.value.Outermost(v).value];
      ExitsAre(f, loop, |loop.blocks|, c);
      var i :| 0 <= i < |loop.blocks| && f.Edge(loop.blocks[i], c);
      assert loop.blocks[i] in loop.blocks;
      EdgeStaysInside(f, loop.blocks[i], c);
      assert Follows(f, li, sp, loop.blocks[i], c);
    } else {
      assert Follows(f, li, sp, v, c);
    }
  }

  lemma EdgeStaysInside(f: Function, a: Block, b: Block)
    requires f.Valid() && f.Edge(a, b)
    ensures b < |f.succ|
  {
    var k :| 0 <= k < |f.succ[a]| && f.succ[a][k] == b;
  }

  lemma FollowedIsNext(f: Function, li: Option<LoopInfo>, sp: set<Block>, u: Block, c: Block)
    requires f.Valid() && (li.Some? ==> li.value.Describes(f)) && Follows(f, li, sp, u, c)
    requires forall v :: v in sp ==> v < |f.succ|
    ensures exists v :: v in sp && c in NextBlocks(f, li, v)
  {
    if OutermostOf(li, u).Some? {
      var v :| v in sp && OutermostOf(li, v) == OutermostOf(li, u);
      var loop := li.value.loops[li.value.Outermost(u).value];
      assert u in loop.blocks && c !in loop.blocks;
      var i :| 0 <= i < |loop.blocks| && loop.blocks[i] == u;
      ExitsAre(f, loop, |loop.blocks|, c);
      assert c in NextBlocks(f, li, v);
    } else {
      assert c in NextBlocks(f, li, u);
    }
  }

  lemma FollowStaysInSpace(f: Function, li: Option<LoopInfo>, start: seq<Block>, u: Block, c: Block)
    requires f.Valid() && (li.Some? ==> li.value.Describes(f))
    requires Follows(f, li, Space(Skipping(f, li), start), u, c)
    ensures c in Space(Skipping(f, li), start)
  {
    var g := Skipping(f, li);
    FollowedIsNext(f, li, Space(g, start), u, c);
    EdgeStaysInside(f, u, c);
    var v :| v in Space(g, start) && c in NextBlocks(f, li, v);
    var w :| w in start && g.Reaches(w, v);
    ReachesThenEdge(g, w, v, c);
  }

  lemma SpaceIsClosed(f: Function, li: Option<LoopInfo>, start: seq<Block>)
    requires f.Valid() && (li.Some? ==> li.value.Describes(f)) && forall w :: w in start ==> w < |f.succ|
    ensures ClosedUnderSearch(f, li, start, Space(Skipping(f, li), start))
  {
    forall w | w in start
      ensures w in Space(Skipping(f, li), start)
    {
      ReachesItself(Skipping(f, li), w);
    }
    forall u, c | Follows(f, li, Space(Skipping(f, li), start), u, c)
      ensures c in Space(Skipping(f, li), start)
    {
      FollowStaysInSpace(f, li, start, u, c);
    }
  }

  lemma ClosedHoldsSpace(f: Function, li: Option<LoopInfo>, start: seq<Block>, sp: set<Block>)
    requires f.Valid() && (li.Some? ==> li.value.Describes(f)) && ClosedUnderSearch(f, li, start, sp)
    ensures Space(Skipping(f, li), start) <= sp
  {
    var g := Skipping(f, li);
    forall b | b in Space(g, start)
      ensures b in sp
    {
      var w :| w in start && g.Reaches(w, b);
      var p :| g.PathBetween(w, p, b);
      forall x, y | x in sp && g.Edge(x, y)
        ensures y in sp
      {
        NextIsFollowed(f, li, sp, x, y);
      }
      ClosedContainsPath(g, sp, p);
    }
  }

  /** The search space is the least set that holds the start blocks and is closed under following
      edges: out of loops that are entered, and from blocks that are in none. */
  lemma SpaceIsLeast(f: Function, li: Option<LoopInfo>, start: seq<Block>, sp: set<Block>)
    requires f.Valid() && (li.Some? ==> li.value.Describes(f)) && forall w :: w in start ==> w < |f.succ|
    ensures ClosedUnderSearch(f, li, start, Space(Skipping(f, li), start))
    ensures ClosedUnderSearch(f, li, start, sp) ==> Space(Skipping(f, li), start) <= sp
  {
    SpaceIsClosed(f, li, start);
    if ClosedUnderSearch(f, li, start, sp) {
      ClosedHoldsSpace(f, li, start, sp);
    }
  }

  lemma ClosedWithout(f: Function, li: Option<LoopInfo>, start: seq<Block>, sp: set<Block>, c: Block)
    requires (li.Some? ==> li.value.Nested()) && ClosedUnderSearch(f, li, start, sp) && c !in start
    requires forall u :: !Follows(f, li, sp, u, c)
    ensures ClosedUnderSearch(f, li, start, sp - {c})
  {
    forall u, d | Follows(f, li, sp - {c}, u, d)
      ensures d in sp - {c}
    {
      assert Follows(f, li, sp, u, d);
    }
  }

  /** A block of the space that the search does not start from is there for an edge: from a block of
      the space that is in no loop, or out of a loop that shares a block with the space. */
  lemma SpaceHasReasons(f: Function, li: Option<LoopInfo>, start: seq<Block>, c: Block)
    requires f.Valid() && (li.Some? ==> li.value.Describes(f)) && forall w :: w in start ==> w < |f.succ|
    requires c in Space(Skipping(f, li), start) && c !in start
    ensures exists u :: Follows(f, li, Space(Skipping(f, li), start), u, c)
  {
    var space := Space(Skipping(f, li), start);
    SpaceIsLeast(f, li, start, space - {c});
    if forall u :: !Follows(f, li, space, u, c) {
      ClosedWithout(f, li, start, space, c);
      assert false;
    }
  }

  /** So a search has to visit 32 blocks exactly when its space has that many. */
  lemma NeedsManyIff(f: Function, li: Option<LoopInfo>, start: seq<Block>)
    requires f.Valid() && (li.Some? ==> li.value.Describes(f)) && forall w :: w in start ==> w < |f.succ|
    ensures NeedsMany(f, li, start) <==> |Space(Skipping(f, li), start)| >= 32
  {
    var space := Space(Skipping(f, li), start);
    SpaceIsLeast(f, li, start, space);
    forall sp | ClosedUnderSearch(f, li, start, sp)
      ensures |space| <= |sp|
    {
      SpaceIsLeast(f, li, start, sp);
      SubsetSize(space, sp);
    }
  }

  // ----- the shortcuts -----

  /** A block that dominates a reachable block reaches it. */
  lemma DominatorReaches(f: Function, dt: DominatorTree, a: Block, b: Block)
    requires f.Valid() && dt.Describes(f) && a < |f.succ| && b < |f.succ|
    requires dt.IsReachableFromEntry(b) && dt.Dominates(a, b)
    ensures f.Reaches(a, b)
  {
    if a == b {
      ReachesItself(f, a);
    } else {
      var p :| f.PathBetween(0, p, b);
      assert a in p;
      var i :| 0 <= i < |p| && p[i] == a;
      PathSuffix(f, p, i);
      assert f.PathBetween(a, p[i..], b);
    }
  }

  /** Two blocks that share their outermost loop reach each other. */
  lemma SharedLoopReaches(f: Function, li: LoopInfo, a: Block, b: Block)
    requires f.Valid() && li.Describes(f) && a < |f.succ| && b < |f.succ|
    requires li.Outermost(a).Some? && li.Outermost(a) == li.Outermost(b)
    ensures ReachesInSteps(f, a, b)
  {
    var l := li.Outermost(a).value;
    assert a in li.loops[l].blocks && b in li.loops[l].blocks;
    LoopReaches(f, li.loops[l], a, b);
  }

  /** The blocks visited, and everything in the loops they skip. */
  ghost function Covered(f: Function, li: Option<LoopInfo>, visited: set<Block>): set<Block>
    requires li.Some? ==> li.value.Nested()
  {
    set b: Block | b < |f.succ| && f.Has(b) &&
      (b in visited ||
       (li.Some? && exists v ::
           v in visited && li.value.Outermost(v).Some? && li.value.Outermost(v) == li.value.Outermost(b)))
  }

  /** A finished search that took no shortcut to `stop` has covered a closed set without it. */
  lemma ExhaustedIsExact(f: Function, li: Option<LoopInfo>, visited: set<Block>, start: seq<Block>, stop: Block)
    requires f.Valid() && (li.Some? ==> li.value.Describes(f))
    requires forall w :: w in start ==> w in visited
    requires forall b :: b in visited ==> b < |f.succ| && forall c :: c in NextBlocks(f, li, b) ==> c in visited
    requires stop !in visited && stop < |f.succ|
    requires li.Some? ==> forall v ::
               v in visited && li.value.Outermost(v).Some? ==> li.value.Outermost(v) != li.value.Outermost(stop)
    ensures !SomeReaches(f, start, stop)
  {
    var covered := Covered(f, li, visited);
    forall a, b | a in covered && f.Edge(a, b)
      ensures b in covered
    {
      CoveredClosed(f, li, visited, a, b);
    }
    if SomeReaches(f, start, stop) {
      var w :| w in start && f.Reaches(w, stop);
      var p :| f.PathBetween(w, p, stop);
      assert w in covered;
      ClosedContainsPath(f, covered, p);
      assert false;
    }
  }

  lemma CoveredClosed(f: Function, li: Option<LoopInfo>, visited: set<Block>, a: Block, b: Block)
    requires f.Valid() && (li.Some? ==> li.value.Describes(f))
    requires forall v :: v in visited ==> v < |f.succ| && forall c :: c in NextBlocks(f, li, v) ==> c in visited
    requires a in Covered(f, li, visited) && f.Edge(a, b)
    ensures b in Covered(f, li, visited)
  {
    if li.Some? && li.value.Outermost(a).Some? {
      var l := li.value.Outermost(a).value;
      var loop := li.value.loops[l];
      var v :| v in visited && li.value.Outermost(v) == Some(l);
      assert a in loop.blocks;
      if b !in loop.blocks {
        var i :| 0 <= i < |loop.blocks| && loop.blocks[i] == a;
        ExitsAre(f, loop, |loop.blocks|, b);
        assert b in NextBlocks(f, li, v);
      }
    } else {
      assert b in NextBlocks(f, li, a);
    }
  }

  // ----- the search -----

  const LIMIT := 32

  /** The search stays in its space and has not lost any of the blocks it starts from. */
  ghost predicate Within(space: set<Block>, start: seq<Block>, visited: set<Block>, worklist: seq<Block>) {
    && (forall b :: b in visited || b in worklist ==> b in space)
    && (forall w :: w in start ==> w in visited || w in worklist)
  }

  ghost predicate Progress(f: Function, li: Option<LoopInfo>, start: seq<Block>, stop: Block,
                           visited: set<Block>, worklist: seq<Block>)
    requires f.Valid() && (li.Some? ==> li.value.Describes(f))
  {
    && Within(Space(Skipping(f, li), start), start, visited, worklist)
    && (forall b, c :: b in visited && b < |f.succ| && c in NextBlocks(f, li, b) ==> c in visited || c in worklist)
    && stop !in visited
    && (li.Some? ==> forall v ::
          v in visited && li.value.Outermost(v).Some? ==> li.value.Outermost(v) != li.value.Outermost(stop))
  }

  lemma ProgressStarts(f: Function, li: Option<LoopInfo>, start: seq<Block>, stop: Block)
    requires f.Valid() && (li.Some? ==> li.value.Describes(f))
    requires forall w :: w in start ==> w < |f.succ|
    ensures Progress(f, li, start, stop, {}, start)
  {
    forall b | b in start
      ensures b in Space(Skipping(f, li), start)
    {
      ReachesItself(Skipping(f, li), b);
    }
  }

  /** Visiting `bb`, which is not `stop` and shares no loop with it. */
  lemma ProgressVisits(f: Function, li: Option<LoopInfo>, start: seq<Block>, stop: Block,
                       visited: set<Block>, worklist: seq<Block>, bb: Block)
    requires f.Valid() && (li.Some? ==> li.value.Describes(f))
    requires Progress(f, li, start, stop, visited, worklist + [bb])
    requires bb != stop && bb < |f.succ|
    requires li.Some? && li.value.Outermost(bb).Some? ==> li.value.Outermost(bb) != li.value.Outermost(stop)
    ensures Progress(f, li, start, stop, visited + {bb}, worklist + NextBlocks(f, li, bb))
  {
    var g := Skipping(f, li);
    var before := worklist + [bb];
    assert bb in before;
    forall c | c in NextBlocks(f, li, bb)
      ensures c in Space(g, start)
    {
      assert g.Edge(bb, c);
      SkipIsPath(f, li, bb, c);
      var w :| w in start && g.Reaches(w, bb);
      ReachesThenEdge(g, w, bb, c);
    }
    forall b | b in worklist
      ensures b in before
    {
    }
    forall b, c | b in visited + {bb} && b < |f.succ| && c in NextBlocks(f, li, b)
      ensures c in visited + {bb} || c in worklist + NextBlocks(f, li, bb)
    {
      if b != bb {
        assert c in visited || c in before;
      }
    }
    forall w | w in start
      ensures w in visited + {bb} || w in worklist + NextBlocks(f, li, bb)
    {
      assert w in visited || w in before;
    }
  }

  /** A block seen before is dropped. */
  lemma ProgressDrops(f: Function, li: Option<LoopInfo>, start: seq<Block>, stop: Block,
                      visited: set<Block>, worklist: seq<Block>, bb: Block)
    requires f.Valid() && (li.Some? ==> li.value.Describes(f))
    requires Progress(f, li, start, stop, visited, worklist + [bb]) && bb in visited
    ensures Progress(f, li, start, stop, visited, worklist)
  {
    WithinDrops(Space(Skipping(f, li), start), start, visited, worklist, bb);
    forall b, c | b in visited && b < |f.succ| && c in NextBlocks(f, li, b)
      ensures c in visited || c in worklist
    {
      assert c in visited || c in worklist + [bb];
    }
  }

  lemma WithinDrops(space: set<Block>, start: seq<Block>, visited: set<Block>, worklist: seq<Block>, bb: Block)
    requires Within(space, start, visited, worklist + [bb]) && bb in visited
    ensures Within(space, start, visited, worklist)
  {
    forall b | b in worklist
      ensures b in space
    {
      assert b in worklist + [bb];
    }
    forall w | w in start
      ensures w in visited || w in worklist
    {
      assert w in visited || w in worklist + [bb];
    }
  }

  lemma SpaceAtLeast(g: Function, start: seq<Block>, visited: set<Block>)
    requires forall b :: b in visited ==> b in Space(g, start)
    ensures |visited| <= |Space(g, start)|
  {
    SubsetSize(visited, Space(g, start));
  }

  /** A search that runs dry has visited all it could, and found nothing. */
  lemma ProgressEnds(f: Function, li: Option<LoopInfo>, start: seq<Block>, stop: Block, visited: set<Block>)
    requires f.Valid() && (li.Some? ==> li.value.Describes(f)) && stop < |f.succ|
    requires Progress(f, li, start, stop, visited, [])
    ensures !SomeReaches(f, start, stop) && Space(Skipping(f, li), start) == visited
  {
    var g := Skipping(f, li);
    forall b | b in visited
      ensures b < |f.succ| && forall c :: c in NextBlocks(f, li, b) ==> c in visited
    {
      assert b in Space(g, start);
    }
    ExhaustedIsExact(f, li, visited, start, stop);
    forall b | b in Space(g, start)
      ensures b in visited
    {
      var w :| w in start && g.Reaches(w, b);
      var p :| g.PathBetween(w, p, b);
      forall x, y | x in visited && g.Edge(x, y)
        ensures y in visited
      {
        assert y in NextBlocks(f, li, x);
      }
      ClosedContainsPath(g, visited, p);
    }
  }

  /** One of the tests that end the search early with the answer yes: each of them is right. */
  method Shortcut(f: Function, dt: Option<DominatorTree>, li: Option<LoopInfo>, bb: Block, stop: Block)
    returns (r: bool)
    requires Informed(f, dt, li) && bb < |f.succ| && stop < |f.succ|
    requires dt.Some? ==> dt.value.IsReachableFromEntry(stop)
    ensures r ==> f.Reaches(bb, stop)
    ensures !r ==> bb != stop
    ensures !r && li.Some? && li.value.Outermost(bb).Some? ==> li.value.Outermost(bb) != li.value.Outermost(stop)
  {
    if bb == stop {
      ReachesItself(f, bb);
      return true;
    }
    if dt.Some? && dt.value.Dominates(bb, stop) {
      DominatorReaches(f, dt.value, bb, stop);
      return true;
    }
    if li.Some? {
      var both := LoopContainsBoth(li.value, bb, stop);
      if both {
        SharedLoopReaches(f, li.value, bb, stop);
        return true;
      }
    }
    return false;
  }

  method Expand(f: Function, li: Option<LoopInfo>, bb: Block, worklist0: seq<Block>) returns (worklist: seq<Block>)
    requires f.Valid() && (li.Some? ==> li.value.Describes(f)) && bb < |f.succ|
    ensures worklist == worklist0 + NextBlocks(f, li, bb)
  {
    if li.Some? {
      var outer := GetOutermostLoop(li.value, bb);
      if outer.Some? {
        worklist := GetExitBlocks(f, li.value.loops[outer.value], worklist0);
        return;
      }
    }
    worklist := worklist0 + f.succ[bb];
  }

  /** Take one block off the worklist: it may have been visited, settle the answer, exhaust the
      limit, or be expanded. */
  method Round(f: Function, start: seq<Block>, stop: Block, dt: Option<DominatorTree>, li: Option<LoopInfo>,
               limit0: nat, visited0: set<Block>, worklist0: seq<Block>)
    returns (yes: bool, limit: nat, visited: set<Block>, worklist: seq<Block>)
    requires Informed(f, dt, li) && stop < |f.succ|
    requires dt.Some? ==> dt.value.IsReachableFromEntry(stop)
    requires Progress(f, li, start, stop, visited0, worklist0) && worklist0 != []
    requires limit0 == LIMIT - |visited0| > 0
    ensures yes ==> SomeReaches(f, start, stop) || |Space(Skipping(f, li), start)| >= LIMIT
    ensures !yes ==> Progress(f, li, start, stop, visited, worklist) && limit == LIMIT - |visited| > 0
    ensures !yes ==> limit < limit0 || (limit == limit0 && |worklist| < |worklist0|)
  {
    yes, limit, visited := false, limit0, visited0;
    var bb := worklist0[|worklist0| - 1];
    worklist := worklist0[..|worklist0| - 1];
    assert worklist0 == worklist + [bb];
    assert bb in Space(Skipping(f, li), start);
    if bb in visited {
      ProgressDrops(f, li, start, stop, visited, worklist, bb);
      return;
    }
    yes := Shortcut(f, dt, li, bb, stop);
    if yes {
      FoundFrom(f, li, start, bb, stop);
      return;
    }
    yes, limit, visited, worklist := VisitNew(f, start, stop, li, limit, visited, worklist, bb);
  }

  /** Count a block as visited and, unless that exhausts the limit, expand it. */
  method VisitNew(f: Function, ghost start: seq<Block>, ghost stop: Block, li: Option<LoopInfo>,
                  limit0: nat, visited0: set<Block>, worklist0: seq<Block>, bb: Block)
    returns (yes: bool, limit: nat, visited: set<Block>, worklist: seq<Block>)
    requires f.Valid() && (li.Some? ==> li.value.Describes(f))
    requires Progress(f, li, start, stop, visited0, worklist0 + [bb])
    requires bb !in visited0 && bb != stop && bb < |f.succ|
    requires li.Some? && li.value.Outermost(bb).Some? ==> li.value.Outermost(bb) != li.value.Outermost(stop)
    requires limit0 == LIMIT - |visited0| > 0
    ensures yes ==> |Space(Skipping(f, li), start)| >= LIMIT
    ensures !yes ==> Progress(f, li, start, stop, visited, worklist) && limit == LIMIT - |visited| > 0
    ensures limit < limit0
  {
    ProgressVisits(f, li, start, stop, visited0, worklist0, bb);
    visited := visited0 + {bb};
    limit := limit0 - 1;
    yes := limit == 0;
    worklist := worklist0;
    if yes {
      SpaceAtLeast(Skipping(f, li), start, visited);
    } else {
      worklist := Expand(f, li, bb, worklist);
    }
  }

  /** The answer is yes exactly when a block of `start` reaches `stop`, or when the search has too
      many blocks to visit to find out. */
  method IsPotentiallyReachableFromMany(f: Function, start: seq<Block>, stop: Block,
                                        dt0: Option<DominatorTree>, li: Option<LoopInfo>) returns (r: bool)
    requires Informed(f, dt0, li)
    requires start != [] && (forall w :: w in start ==> w < |f.succ|) && stop < |f.succ|
    ensures r <==> SomeReaches(f, start, stop) || |Space(Skipping(f, li), start)| >= LIMIT
    ensures r <==> SomeReaches(f, start, stop) || NeedsMany(f, li, start)
  {
    NeedsManyIff(f, li, start);
    var dt := dt0;
    if dt.Some? && !dt.value.IsReachableFromEntry(stop) {
      dt := None;
    }
    var limit: nat, visited: set<Block>, worklist := LIMIT, {}, start;
    ProgressStarts(f, li, start, stop);
    while worklist != []
      invariant Progress(f, li, start, stop, visited, worklist)
      invariant limit == LIMIT - |visited| > 0
      decreases limit, |worklist|
    {
      r, limit, visited, worklist := Round(f, start, stop, dt, li, limit, visited, worklist);
      if r {
        return;
      }
    }
    ProgressEnds(f, li, start, stop, visited);
    return false;
  }

  lemma FoundFrom(f: Function, li: Option<LoopInfo>, start: seq<Block>, bb: Block, stop: Block)
    requires f.Valid() && (li.Some? ==> li.value.Describes(f))
    requires bb in Space(Skipping(f, li), start) && f.Reaches(bb, stop)
    ensures SomeReaches(f, start, stop)
  {
    SpaceIsReachable(f, li, start, bb);
    var w :| w in start && f.Reaches(w, bb);
    ReachesTransitive(f, w, bb, stop);
  }

  /** Reachability of one block from another. */
  method IsPotentiallyReachable(f: Function, a: Block, b: Block,
                                dt: Option<DominatorTree>, li: Option<LoopInfo>) returns (r: bool)
    requires Informed(f, dt, li) && a < |f.succ| && b < |f.succ|
    ensures r <==> f.Reaches(a, b) || |Space(Skipping(f, li), [a])| >= LIMIT
    ensures r <==> f.Reaches(a, b) || NeedsMany(f, li, [a])
  {
    r := IsPotentiallyReachableFromMany(f, [a], b, dt, li);
    assert a in [a];
  }

  // ----- instructions -----

  /** An instruction, by block and position. */
  datatype Instruction = Instruction(block: Block, index: nat)

  /** Once `a` has been executed, `b` can be: further down the same block, or in a block reached
      by following at least one edge. */
  ghost predicate CanFollow(f: Function, a: Instruction, b: Instruction) {
    (a.block == b.block && a.index <= b.index) || ReachesInSteps(f, a.block, b.block)
  }

  ghost predicate EntryHasNoPredecessors(f: Function) {
    forall a :: !f.Edge(a, 0)
  }

  /** Is `b` at or after `a` in their block? */
  method ScanBlock(size: nat, a: nat, b: nat) returns (r: bool)
    requires a < size && b < size
    ensures r <==> a <= b
  {
    var i := a;
    while i != size
      invariant a <= i <= size && !(a <= b < i)
    {
      if i == b {
        return true;
      }
      i := i + 1;
    }
    return false;
  }

  /** Where the block search starts: the block of `a`, or its successors if `b` is in it too. */
  function StartBlocks(f: Function, a: Instruction, b: Instruction): seq<Block>
    requires a.block < |f.succ|
  {
    if a.block == b.block then f.succ[a.block] else [a.block]
  }

  /** The block search was cut off. */
  ghost predicate GaveUp(f: Function, li: Option<LoopInfo>, a: Instruction, b: Instruction)
    requires f.Valid() && (li.Some? ==> li.value.Describes(f)) && a.block < |f.succ|
  {
    && a.block != 0 && b.block != 0 && !CanFollow(f, a, b)
    && NeedsMany(f, li, StartBlocks(f, a, b))
  }

  lemma StartBlocksReach(f: Function, a: Instruction, b: Instruction)
    requires f.Valid() && a.block < |f.succ| && b.block < |f.succ|
    ensures SomeReaches(f, StartBlocks(f, a, b), b.block) <==> ReachesInSteps(f, a.block, b.block)
  {
    var start := StartBlocks(f, a, b);
    if SomeReaches(f, start, b.block) {
      var w :| w in start && f.Reaches(w, b.block);
      var p :| f.PathBetween(w, p, b.block);
      if a.block == b.block {
        var q := [a.block] + p;
        forall i | 0 <= i < |q| - 1
          ensures f.Edge(q[i], q[i + 1])
        {
          if i > 0 {
            assert f.Edge(p[i - 1], p[i]);
          }
        }
        assert f.PathBetween(a.block, q, b.block);
      }
    }
    if ReachesInSteps(f, a.block, b.block) {
      var p :| |p| > 1 && f.PathBetween(a.block, p, b.block);
      assert f.Edge(p[0], p[1]);
      if a.block == b.block {
        PathSuffix(f, p, 1);
        assert f.PathBetween(p[1], p[1..], b.block);
        assert p[1] in start;
      } else {
        assert a.block in start;
      }
    }
  }

  lemma LastEdge(f: Function, p: seq<Block>)
    requires |p| > 1 && f.Path(p)
    ensures f.Edge(p[|p| - 2], p[|p| - 1])
  {
  }

  lemma NothingReachesEntry(f: Function, a: Block)
    requires EntryHasNoPredecessors(f)
    ensures !ReachesInSteps(f, a, 0)
  {
    if ReachesInSteps(f, a, 0) {
      var p :| |p| > 1 && f.PathBetween(a, p, 0);
      LastEdge(f, p);
      assert false;
    }
  }

  /** The answer for instructions is yes exactly when `b` can follow `a`, when `a` is in the entry
      block and `b` is not, or when the block search gave up. */
  method IsInstructionReachable(f: Function, size: seq<nat>, a: Instruction, b: Instruction,
                                dt: Option<DominatorTree>, li: Option<LoopInfo>) returns (r: bool)
    requires Informed(f, dt, li) && EntryHasNoPredecessors(f) && |size| == |f.succ|
    requires a.block < |f.succ| && b.block < |f.succ| && a.index < size[a.block] && b.index < size[b.block]
    ensures r <==> CanFollow(f, a, b) || (a.block == 0 && b.block != 0) || GaveUp(f, li, a, b)
  {
    var worklist: seq<Block> := [];
    StartBlocksReach(f, a, b);
    NeedsManyIff(f, li, StartBlocks(f, a, b));
    NothingReachesEntry(f, a.block);
    if a.block == b.block {
      var bb := a.block;
      if li.Some? && bb in li.value.innermost {
        SharedLoopReaches(f, li.value, bb, bb);
        return true;
      }
      var found := ScanBlock(size[bb], a.index, b.index);
      if found {
        return true;
      }
      if bb == 0 {
        return false;
      }
      worklist := worklist + f.succ[bb];
      if worklist == [] {
        EmptySpace(Skipping(f, li));
        return false;
      }
    } else {
      worklist := worklist + [a.block];
    }
    assert worklist == StartBlocks(f, a, b);
    if a.block == 0 {
      return true;
    }
    if b.block == 0 {
      return false;
    }
    forall w | w in worklist
      ensures w < |f.succ|
    {
    }
    r := IsPotentiallyReachableFromMany(f, worklist, b.block, dt, li);
  }

  lemma EmptySpace(g: Function)
    ensures Space(g, []) == {}
  {
  }
}
