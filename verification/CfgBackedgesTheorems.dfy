/** What the edges reported by FindFunctionBackedges mean. */
module CfgBackedgesTheorems {
  import opened CfgGraph
  import opened CfgBackedges

  ghost predicate Before(order: seq<Block>, v: Block, k: nat) {
    exists j :: 0 <= j < k && j < |order| && order[j] == v
  }

  /** Slot `i` of `u` is settled if its edge is reported or leads to a block finished before
      position `k`. */
  ghost predicate Settled(f: Function, s: Search, u: Block, i: nat, k: nat)
    requires u < |f.succ| && i < |f.succ[u]|
  {
    Edge(u, f.succ[u][i]) in s.found || Before(s.order, f.succ[u][i], k)
  }

  /** The first `n` slots of `u` are settled, and their targets have been seen. */
  ghost predicate DoneUpTo(f: Function, s: Search, u: Block, n: nat, k: nat) {
    u < |f.succ| && n <= |f.succ[u]| && forall i :: 0 <= i < n ==> Settled(f, s, u, i, k) && f.succ[u][i] in s.visited
  }

  ghost predicate Done(f: Function, s: Search, u: Block, k: nat) {
    u < |f.succ| && DoneUpTo(f, s, u, |f.succ[u]|, k)
  }

  /** Every block seen is being searched or has been finished, once; and all the slots of a
      finished block are settled at its own position. */
  ghost predicate Consistent(f: Function, path: set<Block>, s: Search) {
    && (forall v :: v in s.visited <==> v in path || v in s.order)
    && (forall v :: v in s.order ==> v !in path)
    && (forall j, k :: 0 <= j < k < |s.order| ==> s.order[j] != s.order[k])
    && (forall k :: 0 <= k < |s.order| ==> Done(f, s, s.order[k], k))
  }

  ghost predicate Grows(s: Search, r: Search) {
    s.order <= r.order && s.found <= r.found && s.visited <= r.visited
  }

  lemma DoneGrows(f: Function, s: Search, r: Search, u: Block, n: nat, k: nat, k': nat)
    requires DoneUpTo(f, s, u, n, k) && Grows(s, r) && k <= k'
    ensures DoneUpTo(f, r, u, n, k')
  {
    forall i | 0 <= i < n
      ensures Settled(f, r, u, i, k')
    {
      assert Settled(f, s, u, i, k);
    }
  }

  lemma FinishConsistent(f: Function, u: Block, path: set<Block>, s: Search)
    requires u in path && Consistent(f, path, s) && Done(f, s, u, |s.order|)
    ensures Consistent(f, path - {u}, s.Finished(u))
  {
    var r := s.Finished(u);
    forall k | 0 <= k < |r.order|
      ensures Done(f, r, r.order[k], k)
    {
      if k < |s.order| {
        assert r.order[k] == s.order[k];
        DoneGrows(f, s, r, s.order[k], |f.succ[s.order[k]]|, k, k);
      } else {
        DoneGrows(f, s, r, u, |f.succ[u]|, k, k);
      }
    }
  }

  /** A new block joins the path. */
  lemma DownConsistent(f: Function, u: Block, i: nat, v: Block, path: set<Block>, s: Search)
    requires Consistent(f, path, s) && v !in s.visited && v < |f.succ|
    ensures Consistent(f, path + {v}, s.Examine(u, i).See(v)) && Grows(s, s.Examine(u, i).See(v))
  {
    var r := s.Examine(u, i).See(v);
    forall k | 0 <= k < |r.order|
      ensures Done(f, r, r.order[k], k)
    {
      DoneGrows(f, s, r, s.order[k], |f.succ[s.order[k]]|, k, k);
    }
  }

  /** A block seen before may be reported. */
  lemma MeetConsistent(f: Function, u: Block, i: nat, path: set<Block>, s: Search)
    requires u < |f.succ| && i < |f.succ[u]| && f.succ[u][i] in s.visited && Consistent(f, path, s)
    ensures var r := s.Examine(u, i).Meet(u, f.succ[u][i], path);
            Consistent(f, path, r) && Grows(s, r) && Settled(f, r, u, i, |r.order|)
  {
    var r := s.Examine(u, i).Meet(u, f.succ[u][i], path);
    forall k | 0 <= k < |r.order|
      ensures Done(f, r, r.order[k], k)
    {
      DoneGrows(f, s, r, s.order[k], |f.succ[s.order[k]]|, k, k);
    }
  }

  /** Slot `i` is settled as well, by a report or because its target has been finished. */
  lemma OneMoreDone(f: Function, s: Search, next: Search, u: Block, i: nat)
    requires u < |f.succ| && i < |f.succ[u]| && DoneUpTo(f, s, u, i, |s.order|) && Grows(s, next)
    requires f.succ[u][i] in next.visited
    requires f.succ[u][i] in next.order || Settled(f, next, u, i, |next.order|)
    ensures DoneUpTo(f, next, u, i + 1, |next.order|)
  {
    DoneGrows(f, s, next, u, i, |s.order|, |next.order|);
    assert Settled(f, next, u, i, |next.order|);
  }

  /** The search keeps its bookkeeping consistent and finishes the block it is called on. */
  lemma {:induction false} ExploreConsistent(f: Function, u: Block, i: nat, path: set<Block>, s: Search)
    requires f.Valid() && u < |f.succ| && i <= |f.succ[u]| && s.visited <= Blocks(f) && u in path
    requires Consistent(f, path, s) && DoneUpTo(f, s, u, i, |s.order|)
    ensures var r := Explore(f, u, i, path, s);
            Consistent(f, path - {u}, r) && Grows(s, r) && u in r.order
    decreases Blocks(f) - s.visited, |f.succ[u]| - i
  {
    if i == |f.succ[u]| {
      FinishConsistent(f, u, path, s);
    } else {
      var v := f.succ[u][i];
      var next := s.Examine(u, i).Meet(u, v, path);
      if v !in s.visited {
        var s1 := s.Examine(u, i).See(v);
        DownConsistent(f, u, i, v, path, s);
        next := Explore(f, v, 0, path + {v}, s1);
        ExploreConsistent(f, v, 0, path + {v}, s1);
        assert path + {v} - {v} == path;
      } else {
        MeetConsistent(f, u, i, path, s);
      }
      OneMoreDone(f, s, next, u, i);
      ExploreConsistent(f, u, i + 1, path, next);
    }
  }

  lemma SearchedConsistent(f: Function)
    requires f.Valid()
    ensures Consistent(f, {}, Searched(f)) && 0 in Searched(f).order
  {
    ExploreConsistent(f, 0, 0, {0}, START);
  }

  /** The search sees only blocks the entry reaches. */
  lemma {:induction false} ExploreStaysReachable(f: Function, u: Block, i: nat, path: set<Block>, s: Search)
    requires f.Valid() && u < |f.succ| && i <= |f.succ[u]| && s.visited <= Blocks(f) && f.Reaches(0, u)
    requires forall b :: b in s.visited ==> f.Reaches(0, b)
    ensures forall b :: b in Explore(f, u, i, path, s).visited ==> f.Reaches(0, b)
    decreases Blocks(f) - s.visited, |f.succ[u]| - i
  {
    if i < |f.succ[u]| {
      var v := f.succ[u][i];
      if v !in s.visited {
        assert f.Edge(u, v);
        ReachesThenEdge(f, 0, u, v);
        var s1 := s.Examine(u, i).See(v);
        ExploreStaysReachable(f, v, 0, path + {v}, s1);
        ExploreStaysReachable(f, u, i + 1, path, Explore(f, v, 0, path + {v}, s1));
      } else {
        ExploreStaysReachable(f, u, i + 1, path, s.Examine(u, i).Meet(u, v, path));
      }
    }
  }

  lemma ReachableSeen(f: Function, b: Block)
    requires f.Valid() && f.Reaches(0, b)
    ensures b in Searched(f).visited
  {
    SearchedConsistent(f);
    var s := Searched(f);
    var p :| f.PathBetween(0, p, b);
    forall x, y | x in s.visited && f.Edge(x, y)
      ensures y in s.visited
    {
      var k :| 0 <= k < |s.order| && s.order[k] == x;
      var i :| 0 <= i < |f.succ[x]| && f.succ[x][i] == y;
      assert Done(f, s, s.order[k], k);
    }
    ClosedContainsPath(f, s.visited, p);
  }

  /** The search finishes exactly the blocks the entry reaches. */
  lemma ReachableFinished(f: Function, b: Block)
    requires f.Valid()
    ensures b in Searched(f).order <==> f.Reaches(0, b)
    ensures b in Searched(f).visited <==> f.Reaches(0, b)
  {
    SearchedConsistent(f);
    ReachesItself(f, 0);
    ExploreStaysReachable(f, 0, 0, {0}, START);
    if f.Reaches(0, b) {
      ReachableSeen(f, b);
    }
  }

  /** Along edges that are not reported, blocks were finished earlier and earlier. */
  lemma {:induction false} UnreportedDescends(f: Function, p: seq<Block>, k: nat)
    requires f.Valid() && f.Path(p)
    requires k < |Searched(f).order| && Searched(f).order[k] == p[0]
    requires forall i :: 0 <= i < |p| - 1 ==> Edge(p[i], p[i + 1]) !in Backedges(f)
    ensures |p| > 1 ==> Before(Searched(f).order, p[|p| - 1], k)
    decreases |p|
  {
    if |p| > 1 {
      SearchedConsistent(f);
      var s := Searched(f);
      assert f.Edge(p[0], p[1]) && Edge(p[0], p[1]) !in s.found;
      var i :| 0 <= i < |f.succ[p[0]]| && f.succ[p[0]][i] == p[1];
      assert Done(f, s, s.order[k], k);
      var j :| 0 <= j < k && s.order[j] == p[1];
      PathSuffix(f, p, 1);
      forall x | 0 <= x < |p[1..]| - 1
        ensures Edge(p[1..][x], p[1..][x + 1]) !in Backedges(f)
      {
        assert Edge(p[x + 1], p[x + 2]) !in Backedges(f);
      }
      UnreportedDescends(f, p[1..], j);
    }
  }

  /** Without the reported edges, the part of the graph the entry reaches has no cycle: every
      cycle in it uses a reported edge. */
  lemma EveryCycleIsCut(f: Function, cycle: seq<Block>)
    requires f.Valid() && |cycle| > 1 && f.Path(cycle) && cycle[0] == cycle[|cycle| - 1]
    requires f.Reaches(0, cycle[0])
    ensures exists i :: 0 <= i < |cycle| - 1 && Edge(cycle[i], cycle[i + 1]) in Backedges(f)
  {
    if forall i :: 0 <= i < |cycle| - 1 ==> Edge(cycle[i], cycle[i + 1]) !in Backedges(f) {
      ReachableFinished(f, cycle[0]);
      SearchedConsistent(f);
      var order := Searched(f).order;
      var k :| 0 <= k < |order| && order[k] == cycle[0];
      UnreportedDescends(f, cycle, k);
      assert false;
    }
  }

  // ----- every reported edge closes a cycle -----

  ghost predicate ClosesCycle(f: Function, e: Edge) {
    f.Reaches(0, e.src) && f.Edge(e.src, e.dst) && f.Reaches(e.dst, e.src)
  }

  /** All blocks being searched lie between the entry and `u`. */
  ghost predicate Above(f: Function, path: set<Block>, u: Block) {
    forall w :: w in path ==> f.Reaches(0, w) && f.Reaches(w, u)
  }

  lemma {:induction false} ExploreReportsCycles(f: Function, u: Block, i: nat, path: set<Block>, s: Search)
    requires f.Valid() && u < |f.succ| && i <= |f.succ[u]| && s.visited <= Blocks(f)
    requires u in path && Above(f, path, u)
    requires forall e :: e in s.found ==> ClosesCycle(f, e)
    ensures forall e :: e in Explore(f, u, i, path, s).found ==> ClosesCycle(f, e)
    decreases Blocks(f) - s.visited, |f.succ[u]| - i
  {
    if i < |f.succ[u]| {
      var v := f.succ[u][i];
      assert f.Edge(u, v);
      if v !in s.visited {
        forall w | w in path + {v}
          ensures f.Reaches(0, w) && f.Reaches(w, v)
        {
          if w in path {
            ReachesThenEdge(f, w, u, v);
          } else {
            ReachesThenEdge(f, 0, u, v);
            ReachesItself(f, v);
          }
        }
        var s1 := s.Examine(u, i).See(v);
        ExploreReportsCycles(f, v, 0, path + {v}, s1);
        ExploreReportsCycles(f, u, i + 1, path, Explore(f, v, 0, path + {v}, s1));
      } else {
        ExploreReportsCycles(f, u, i + 1, path, s.Examine(u, i).Meet(u, v, path));
      }
    }
  }

  /** Each reported edge runs between reachable blocks and closes a cycle. */
  lemma ReportedEdgesCloseCycles(f: Function, e: Edge)
    requires f.Valid() && e in Backedges(f)
    ensures ClosesCycle(f, e)
  {
    ReachesItself(f, 0);
    ExploreReportsCycles(f, 0, 0, {0}, START);
  }

  /** There is something to report exactly when the entry reaches a cycle. */
  lemma ReportsIffCyclic(f: Function)
    requires f.Valid()
    ensures Backedges(f) != [] <==>
            exists c :: |c| > 1 && f.Path(c) && c[0] == c[|c| - 1] && f.Reaches(0, c[0])
  {
    if Backedges(f) != [] {
      var e := Backedges(f)[0];
      ReportedEdgesCloseCycles(f, e);
      var p :| f.PathBetween(e.dst, p, e.src);
      PathThenEdge(f, e.dst, p, e.src, e.dst);
      var c := p + [e.dst];
      ReachesThenEdge(f, 0, e.src, e.dst);
      assert |c| > 1 && f.Path(c) && c[0] == c[|c| - 1] && f.Reaches(0, c[0]);
    }
    if c :| |c| > 1 && f.Path(c) && c[0] == c[|c| - 1] && f.Reaches(0, c[0]) {
      EveryCycleIsCut(f, c);
    }
  }

  // ----- every successor slot is examined once -----

  /** How many of the slots of `u` before `i` name `v`. */
  function Slots(f: Function, u: Block, v: Block, i: nat): nat
    requires u < |f.succ| && i <= |f.succ[u]|
  {
    if i == 0 then 0 else Slots(f, u, v, i - 1) + (if f.succ[u][i - 1] == v then 1 else 0)
  }

  function Times(s: Search, u: Block, v: Block): nat {
    multiset(s.found)[Edge(u, v)]
  }

  /** `x` has been reported as a source for all of the slots that name `y`, or for none. */
  ghost predicate AllOrNone(f: Function, s: Search, x: Block, y: Block) {
    x < |f.succ| && (Times(s, x, y) == 0 || Times(s, x, y) == Slots(f, x, y, |f.succ[x]|))
  }

  ghost predicate CountsOk(f: Function, u: Block, i: nat, path: set<Block>, s: Search)
    requires u < |f.succ| && i <= |f.succ[u]|
  {
    && (forall v :: Times(s, u, v) == if v in path then Slots(f, u, v, i) else 0)
    && (forall x, y :: x !in s.visited ==> Times(s, x, y) == 0)
  }

  /** What searching `u` to its end does to the counts. */
  ghost predicate Counted(f: Function, u: Block, path: set<Block>, s: Search, r: Search)
    requires u < |f.succ|
  {
    && s.visited <= r.visited && CountsOk(f, u, |f.succ[u]|, path, r)
    && (forall x, y :: x in s.visited && x != u ==> Times(r, x, y) == Times(s, x, y))
    && (forall x, y :: x in r.visited && x !in s.visited ==> AllOrNone(f, r, x, y))
  }

  /** Searching an unvisited successor `v` first, and then the rest of `u`. */
  lemma CountsCompose(f: Function, u: Block, i: nat, v: Block, path: set<Block>, s: Search, r: Search, end: Search)
    requires f.Valid() && u < |f.succ| && v < |f.succ| && u in s.visited && v !in s.visited
    requires Counted(f, v, path + {v}, s.Examine(u, i).See(v), r)
    requires Counted(f, u, path, r, end)
    ensures Counted(f, u, path, s, end)
  {
    var s1 := s.Examine(u, i).See(v);
    assert forall x, y :: Times(s1, x, y) == Times(s, x, y);
    forall x, y | x in end.visited && x !in s.visited
      ensures AllOrNone(f, end, x, y)
    {
      if x in r.visited {
        assert Times(end, x, y) == Times(r, x, y);
        assert x != v ==> AllOrNone(f, r, x, y);
      }
    }
  }

  lemma CountsDescend(f: Function, u: Block, v: Block, i: nat, path: set<Block>, s: Search)
    requires u < |f.succ| && i <= |f.succ[u]| && v < |f.succ| && CountsOk(f, u, i, path, s) && v !in s.visited
    ensures CountsOk(f, v, 0, path + {v}, s.Examine(u, i).See(v))
  {
    var s1 := s.Examine(u, i).See(v);
    assert forall x, y :: Times(s1, x, y) == Times(s, x, y);
  }

  lemma CountOneMore(s: Search, u: Block, v: Block)
    ensures var s1 := s.(found := s.found + [Edge(u, v)]);
            forall x, y :: Times(s1, x, y) == Times(s, x, y) + (if x == u && y == v then 1 else 0)
  {
  }

  lemma FinishCounts(f: Function, u: Block, path: set<Block>, s: Search)
    requires u < |f.succ| && CountsOk(f, u, |f.succ[u]|, path, s)
    ensures Counted(f, u, path, s, s.Finished(u))
  {
    assert forall x, y :: Times(s.Finished(u), x, y) == Times(s, x, y);
  }

  lemma ReportCounts(f: Function, u: Block, i: nat, path: set<Block>, s: Search, s1: Search)
    requires u < |f.succ| && i < |f.succ[u]| && u in path && path <= s.visited
    requires CountsOk(f, u, i, path, s)
    requires f.succ[u][i] in s.visited && s1 == s.Examine(u, i).Meet(u, f.succ[u][i], path)
    ensures CountsOk(f, u, i + 1, path, s1)
  {
    var t := s.Examine(u, i);
    assert forall x, y :: Times(t, x, y) == Times(s, x, y);
    CountOneMore(t, u, f.succ[u][i]);
  }

  /** Coming back from an unvisited successor, whose slot in `u` is not reported. */
  lemma CountsResume(f: Function, u: Block, i: nat, v: Block, path: set<Block>, s: Search, r: Search)
    requires u < |f.succ| && i < |f.succ[u]| && v == f.succ[u][i] && v < |f.succ|
    requires u in path && path <= s.visited && v !in s.visited && CountsOk(f, u, i, path, s)
    requires Counted(f, v, path + {v}, s.Examine(u, i).See(v), r)
    ensures CountsOk(f, u, i + 1, path, r)
  {
    var s1 := s.Examine(u, i).See(v);
    assert forall x, y :: Times(s1, x, y) == Times(s, x, y);
  }

  lemma {:induction false} ExploreCounts(f: Function, u: Block, i: nat, path: set<Block>, s: Search)
    requires f.Valid() && u < |f.succ| && i <= |f.succ[u]| && u in path && path <= s.visited <= Blocks(f)
    requires CountsOk(f, u, i, path, s)
    ensures Counted(f, u, path, s, Explore(f, u, i, path, s))
    decreases Blocks(f) - s.visited, |f.succ[u]| - i, 1
  {
    if i == |f.succ[u]| {
      FinishCounts(f, u, path, s);
    } else if f.succ[u][i] !in s.visited {
      var r := CountsDown(f, u, i, path, s);
      ExploreCounts(f, u, i + 1, path, r);
      CountsCompose(f, u, i, f.succ[u][i], path, s, r, Explore(f, u, i + 1, path, r));
    } else {
      var s1 := s.Examine(u, i).Meet(u, f.succ[u][i], path);
      ReportCounts(f, u, i, path, s, s1);
      ExploreCounts(f, u, i + 1, path, s1);
    }
  }

  /** Searching the unvisited successor in slot `i`. */
  lemma {:induction false} CountsDown(f: Function, u: Block, i: nat, path: set<Block>, s: Search) returns (r: Search)
    requires f.Valid() && u < |f.succ| && i < |f.succ[u]| && u in path && path <= s.visited <= Blocks(f)
    requires CountsOk(f, u, i, path, s) && f.succ[u][i] !in s.visited
    ensures r == Explore(f, f.succ[u][i], 0, path + {f.succ[u][i]}, s.Examine(u, i).See(f.succ[u][i]))
    ensures CountsOk(f, u, i + 1, path, r) && s.visited <= r.visited
    ensures Counted(f, f.succ[u][i], path + {f.succ[u][i]}, s.Examine(u, i).See(f.succ[u][i]), r)
    decreases Blocks(f) - s.visited, |f.succ[u]| - i, 0
  {
    var v := f.succ[u][i];
    var s1 := s.Examine(u, i).See(v);
    CountsDescend(f, u, v, i, path, s);
    r := Explore(f, v, 0, path + {v}, s1);
    ExploreCounts(f, v, 0, path + {v}, s1);
    CountsResume(f, u, i, v, path, s, r);
  }

  /** An edge is reported as often as the terminator of its source names its target: no slot is
      skipped or looked at twice. */
  lemma ReportedOncePerSlot(f: Function, e: Edge)
    requires f.Valid() && e in Backedges(f)
    ensures e.src < |f.succ| && multiset(Backedges(f))[e] == Slots(f, e.src, e.dst, |f.succ[e.src]|)
  {
    var s := START;
    ExploreCounts(f, 0, 0, {0}, s);
    var r := Searched(f);
    assert Times(r, e.src, e.dst) > 0;
    assert e.src in r.visited;
    assert e.src != 0 ==> AllOrNone(f, r, e.src, e.dst);
  }

  // ----- the slots looked at -----

  /** Whether searching `u` from slot `i` on, while the blocks seen go from `before` to `after`,
      looks at the slot: the rest of `u`'s, and all of the new blocks'. */
  ghost predicate IsNew(f: Function, u: Block, i: nat, before: set<Block>, after: set<Block>, x: Slot) {
    && x.block < |f.succ| && x.index < |f.succ[x.block]|
    && ((x.block == u && i <= x.index) || (x.block in after && x.block !in before))
  }

  ghost function Looks(s: Search, x: Slot): nat {
    multiset(s.examined)[x]
  }

  /** From `s` to `r`, just the new slots are looked at, and each of them once. */
  ghost predicate LookedOnce(f: Function, u: Block, i: nat, s: Search, r: Search) {
    && s.visited <= r.visited
    && forall x: Slot :: Looks(r, x) == Looks(s, x) + (if IsNew(f, u, i, s.visited, r.visited, x) then 1 else 0)
  }

  lemma OneLook(s: Search, u: Block, i: nat, x: Slot)
    ensures Looks(s.Examine(u, i), x) == Looks(s, x) + (if x == Slot(u, i) then 1 else 0)
  {
    assert multiset(s.examined + [Slot(u, i)]) == multiset(s.examined) + multiset{Slot(u, i)};
  }

  lemma LookedDown(f: Function, u: Block, i: nat, v: Block, s: Search, r: Search, end: Search)
    requires u < |f.succ| && i < |f.succ[u]| && v < |f.succ| && u in s.visited && v !in s.visited
    requires LookedOnce(f, v, 0, s.Examine(u, i).See(v), r) && LookedOnce(f, u, i + 1, r, end) && v in r.visited
    ensures LookedOnce(f, u, i, s, end)
  {
    var s1 := s.Examine(u, i).See(v);
    forall x: Slot
      ensures Looks(end, x) == Looks(s, x) + (if IsNew(f, u, i, s.visited, end.visited, x) then 1 else 0)
    {
      OneLook(s, u, i, x);
      assert Looks(s1, x) == Looks(s.Examine(u, i), x);
    }
  }

  lemma LookedOn(f: Function, u: Block, i: nat, s: Search, s1: Search, end: Search)
    requires u < |f.succ| && i < |f.succ[u]| && u in s.visited
    requires s1.visited == s.visited && s1.examined == s.Examine(u, i).examined && LookedOnce(f, u, i + 1, s1, end)
    ensures LookedOnce(f, u, i, s, end)
  {
    forall x: Slot
      ensures Looks(end, x) == Looks(s, x) + (if IsNew(f, u, i, s.visited, end.visited, x) then 1 else 0)
    {
      OneLook(s, u, i, x);
      assert Looks(s1, x) == Looks(s.Examine(u, i), x);
    }
  }

  lemma {:induction false} ExploreLooks(f: Function, u: Block, i: nat, path: set<Block>, s: Search)
    requires f.Valid() && u < |f.succ| && i <= |f.succ[u]| && u in s.visited && s.visited <= Blocks(f)
    ensures LookedOnce(f, u, i, s, Explore(f, u, i, path, s))
    decreases Blocks(f) - s.visited, |f.succ[u]| - i
  {
    if i < |f.succ[u]| {
      var v := f.succ[u][i];
      if v !in s.visited {
        var s1 := s.Examine(u, i).See(v);
        var r := Explore(f, v, 0, path + {v}, s1);
        ExploreLooks(f, v, 0, path + {v}, s1);
        ExploreLooks(f, u, i + 1, path, r);
        LookedDown(f, u, i, v, s, r, Explore(f, u, i + 1, path, r));
      } else {
        var s1 := s.Examine(u, i).Meet(u, v, path);
        ExploreLooks(f, u, i + 1, path, s1);
        LookedOn(f, u, i, s, s1, Explore(f, u, i + 1, path, s1));
      }
    }
  }

  /** Every successor slot of a block the entry reaches is examined exactly once, and no other. */
  lemma EachSlotOnce(f: Function, b: Block, i: nat)
    requires f.Valid()
    ensures multiset(Searched(f).examined)[Slot(b, i)]
            == if b < |f.succ| && i < |f.succ[b]| && f.Reaches(0, b) then 1 else 0
  {
    ExploreLooks(f, 0, 0, {0}, START);
    ReachableFinished(f, b);
    ReachesItself(f, 0);
    assert Looks(START, Slot(b, i)) == 0;
    assert Looks(Searched(f), Slot(b, i)) == if IsNew(f, 0, 0, {0}, Searched(f).visited, Slot(b, i)) then 1 else 0;
  }
}
