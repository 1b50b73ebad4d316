/** FindFunctionBackedges: an iterative depth-first search, shown to be the recursive one, and
    what the edges it reports mean. */
module CfgBackedges {
  import opened CfgGraph

  datatype Edge = Edge(src: Block, dst: Block)

  /** A successor slot of a block. */
  datatype Slot = Slot(block: Block, index: nat)

  /** What the search has done: the blocks it has seen, those it has finished, the edges it has
      reported, and the slots it has looked at, each in order. */
  datatype Search = Search(visited: set<Block>, order: seq<Block>, found: seq<Edge>, examined: seq<Slot>) {
    function See(b: Block): Search {
      this.(visited := visited + {b})
    }

    function Finished(b: Block): Search {
      this.(order := order + [b])
    }

    function Examine(b: Block, i: nat): Search {
      this.(examined := examined + [Slot(b, i)])
    }

    /** Meet a block seen before: on the path, it closes a cycle. */
    function Meet(u: Block, v: Block, path: set<Block>): Search {
      if v in path then this.(found := found + [Edge(u, v)]) else this
    }
  }

  function Blocks(f: Function): set<Block> {
    set b: Block | b < |f.succ| && f.Has(b)
  }

  /** Depth-first search of the successors of `u` from slot `i` on; `path` is the set of blocks
      being searched, `u` among them. */
  function Explore(f: Function, u: Block, i: nat, path: set<Block>, s: Search): (r: Search)
    requires f.Valid() && u < |f.succ| && i <= |f.succ[u]| && s.visited <= Blocks(f)
    ensures s.visited <= r.visited <= Blocks(f)
    decreases Blocks(f) - s.visited, |f.succ[u]| - i
  {
    if i == |f.succ[u]| then s.Finished(u)
    else
      var v := f.succ[u][i];
      if v !in s.visited then
        var r := Explore(f, v, 0, path + {v}, s.Examine(u, i).See(v));
        Explore(f, u, i + 1, path, r)
      else Explore(f, u, i + 1, path, s.Examine(u, i).Meet(u, v, path))
  }

  /** Before anything but the entry has been seen. */
  const START: Search := Search({0}, [], [], [])

  /** The whole search, from the entry block. */
  function Searched(f: Function): Search
    requires f.Valid()
  {
    Explore(f, 0, 0, {0}, START)
  }

  function Backedges(f: Function): seq<Edge>
    requires f.Valid()
  {
    Searched(f).found
  }

  // ----- the iterative search -----

  /** A block being searched, and the first of its successor slots not yet looked at. */
  datatype Frame = Frame(block: Block, slot: nat)

  function OnStack(stack: seq<Frame>): set<Block> {
    set k | 0 <= k < |stack| :: stack[k].block
  }

  /** The blocks on the stack form a path from the entry that visits none of them twice. */
  ghost predicate StackOk(f: Function, stack: seq<Frame>) {
    && (forall k :: 0 <= k < |stack| ==> stack[k].block < |f.succ| && stack[k].slot <= |f.succ[stack[k].block]|)
    && (forall j, k :: 0 <= j < k < |stack| ==> stack[j].block != stack[k].block)
    && (stack != [] ==> stack[0].block == 0)
    && (forall k :: 0 < k < |stack| ==> f.Edge(stack[k - 1].block, stack[k].block))
  }

  function StackBlocks(stack: seq<Frame>): (p: seq<Block>)
    ensures |p| == |stack| && forall k :: 0 <= k < |p| ==> p[k] == stack[k].block
  {
    seq(|stack|, k requires 0 <= k < |stack| => stack[k].block)
  }

  lemma StackIsPath(f: Function, stack: seq<Frame>)
    requires StackOk(f, stack) && stack != []
    ensures f.PathBetween(0, StackBlocks(stack), stack[|stack| - 1].block)
  {
    var p := StackBlocks(stack);
    assert stack[0].block < |f.succ|;
    forall k | 0 <= k < |p| - 1
      ensures f.Edge(p[k], p[k + 1])
    {
      assert f.Edge(stack[k + 1 - 1].block, stack[k + 1].block);
    }
  }

  /** What remains to be done when `stack` is being searched. */
  ghost function Finish(f: Function, stack: seq<Frame>, s: Search): Search
    requires f.Valid() && StackOk(f, stack) && s.visited <= Blocks(f)
    decreases |stack|
  {
    if stack == [] then s
    else
      var top := stack[|stack| - 1];
      Finish(f, stack[..|stack| - 1], Explore(f, top.block, top.slot, OnStack(stack), s))
  }

  lemma FinishTop(f: Function, below: seq<Frame>, u: Block, i: nat, s: Search)
    requires f.Valid() && StackOk(f, below + [Frame(u, i)]) && s.visited <= Blocks(f)
    ensures StackOk(f, below)
    ensures Finish(f, below + [Frame(u, i)], s)
            == Finish(f, below, Explore(f, u, i, OnStack(below + [Frame(u, i)]), s))
  {
    var stack := below + [Frame(u, i)];
    assert stack[..|stack| - 1] == below;
    assert forall k :: 0 <= k < |below| ==> below[k] == stack[k];
    forall k | 0 < k < |below|
      ensures f.Edge(below[k - 1].block, below[k].block)
    {
      assert f.Edge(stack[k - 1].block, stack[k].block);
    }
  }

  lemma OnStackPush(stack: seq<Frame>, b: Block, i: nat)
    ensures OnStack(stack + [Frame(b, i)]) == OnStack(stack) + {b}
  {
    var pushed := stack + [Frame(b, i)];
    assert forall k :: 0 <= k < |stack| ==> pushed[k].block == stack[k].block;
    assert pushed[|stack|].block == b;
    forall x | x in OnStack(stack)
      ensures x in OnStack(pushed)
    {
      var k :| 0 <= k < |stack| && stack[k].block == x;
      assert pushed[k].block == x;
    }
  }

  lemma StackStep(f: Function, below: seq<Frame>, u: Block, i: nat)
    requires StackOk(f, below + [Frame(u, i)]) && u < |f.succ| && i < |f.succ[u]|
    ensures StackOk(f, below + [Frame(u, i + 1)])
    ensures OnStack(below + [Frame(u, i + 1)]) == OnStack(below + [Frame(u, i)])
  {
    var stack, stepped := below + [Frame(u, i)], below + [Frame(u, i + 1)];
    OnStackPush(below, u, i);
    OnStackPush(below, u, i + 1);
    assert stack[|below|] == Frame(u, i);
    assert forall k :: 0 <= k < |below| ==> stepped[k] == stack[k];
    assert forall k :: 0 <= k < |stack| ==> stepped[k].block == stack[k].block;
    forall j, k | 0 <= j < k < |stepped|
      ensures stepped[j].block != stepped[k].block
    {
      assert stack[j].block != stack[k].block;
    }
    forall k | 0 < k < |stepped|
      ensures f.Edge(stepped[k - 1].block, stepped[k].block)
    {
      assert f.Edge(stack[k - 1].block, stack[k].block);
    }
  }

  lemma StackPush(f: Function, stack: seq<Frame>, v: Block)
    requires StackOk(f, stack) && v !in OnStack(stack) && v < |f.succ|
    requires if stack == [] then v == 0 else f.Edge(stack[|stack| - 1].block, v)
    ensures StackOk(f, stack + [Frame(v, 0)])
  {
    var pushed := stack + [Frame(v, 0)];
    forall k | 0 < k < |pushed|
      ensures f.Edge(pushed[k - 1].block, pushed[k].block)
    {
      if k < |stack| {
        assert f.Edge(stack[k - 1].block, stack[k].block);
      }
    }
    forall k | 0 <= k < |stack|
      ensures stack[k].block != v
    {
      assert stack[k].block in OnStack(stack);
    }
  }

  /** Slot `i` of the block on top leads to a block seen before. */
  lemma FinishMet(f: Function, below: seq<Frame>, u: Block, i: nat, s: Search)
    requires f.Valid() && StackOk(f, below + [Frame(u, i)]) && s.visited <= Blocks(f)
    requires u < |f.succ| && i < |f.succ[u]| && f.succ[u][i] in s.visited
    ensures var stack, stepped := below + [Frame(u, i)], below + [Frame(u, i + 1)];
            && StackOk(f, stepped) && OnStack(stepped) == OnStack(stack)
            && Finish(f, stack, s) == Finish(f, stepped, s.Examine(u, i).Meet(u, f.succ[u][i], OnStack(stack)))
  {
    var stack := below + [Frame(u, i)];
    StackStep(f, below, u, i);
    FinishTop(f, below, u, i, s);
    FinishTop(f, below, u, i + 1, s.Examine(u, i).Meet(u, f.succ[u][i], OnStack(stack)));
  }

  /** Slot `i` of the block on top leads to a new block. */
  lemma FinishNew(f: Function, below: seq<Frame>, u: Block, i: nat, s: Search)
    requires f.Valid() && StackOk(f, below + [Frame(u, i)]) && s.visited <= Blocks(f)
    requires u < |f.succ| && i < |f.succ[u]| && f.succ[u][i] !in s.visited
    requires OnStack(below + [Frame(u, i)]) <= s.visited
    ensures var v, stack, stepped := f.succ[u][i], below + [Frame(u, i)], below + [Frame(u, i + 1)];
            && StackOk(f, stepped) && OnStack(stepped) == OnStack(stack)
            && StackOk(f, stepped + [Frame(v, 0)])
            && Finish(f, stack, s) == Finish(f, stepped + [Frame(v, 0)], s.Examine(u, i).See(v))
  {
    var v, stepped := f.succ[u][i], below + [Frame(u, i + 1)];
    var s' := s.Examine(u, i).See(v);
    StackStep(f, below, u, i);
    FinishTop(f, below, u, i, s);
    StackPush(f, stepped, v);
    OnStackPush(stepped, v, 0);
    FinishTop(f, stepped, v, 0, s');
    FinishTop(f, below, u, i + 1, Explore(f, v, 0, OnStack(stepped) + {v}, s'));
  }

  /** Scanning has got from `slot` to `i`, and from `s` to `s'`, possibly finding the new block `bb`,
      without changing the outcome. */
  ghost predicate Scanned(f: Function, below: seq<Frame>, u: Block, slot: nat, i: nat, s: Search, s': Search,
                          foundNew: bool, bb: Block)
    requires f.Valid()
  {
    var start, stack := below + [Frame(u, slot)], below + [Frame(u, i)];
    && u < |f.succ| && slot <= i <= |f.succ[u]| && s.visited <= s'.visited <= Blocks(f)
    && StackOk(f, start) && StackOk(f, stack) && OnStack(stack) == OnStack(start) <= s.visited
    && s'.examined == s.examined + SlotsFrom(u, slot, i)
    && (if foundNew
        then && bb in s'.visited && bb !in s.visited && StackOk(f, stack + [Frame(bb, 0)])
             && Finish(f, start, s) == Finish(f, stack + [Frame(bb, 0)], s')
        else s'.visited == s.visited && Finish(f, start, s) == Finish(f, stack, s'))
  }

  /** The slots from `i` up to, but not including, `n`. */
  function SlotsFrom(u: Block, i: nat, n: nat): seq<Slot>
    requires i <= n
  {
    if i == n then [] else SlotsFrom(u, i, n - 1) + [Slot(u, n - 1)]
  }

  lemma ScanStarts(f: Function, below: seq<Frame>, u: Block, slot: nat, s: Search)
    requires f.Valid() && StackOk(f, below + [Frame(u, slot)]) && OnStack(below + [Frame(u, slot)]) <= s.visited
    requires s.visited <= Blocks(f)
    ensures Scanned(f, below, u, slot, slot, s, s, false, u)
  {
    assert (below + [Frame(u, slot)])[|below|] == Frame(u, slot);
    assert s.examined + [] == s.examined;
  }

  lemma ScanMeets(f: Function, below: seq<Frame>, u: Block, slot: nat, i: nat, s: Search, s': Search, b: Block)
    requires f.Valid() && Scanned(f, below, u, slot, i, s, s', false, b) && i < |f.succ[u]|
    requires f.succ[u][i] in s'.visited
    ensures var v, path := f.succ[u][i], OnStack(below + [Frame(u, slot)]);
            Scanned(f, below, u, slot, i + 1, s, s'.Examine(u, i).Meet(u, v, path), false, v)
  {
    FinishMet(f, below, u, i, s');
    assert s.examined + SlotsFrom(u, slot, i) + [Slot(u, i)] == s.examined + SlotsFrom(u, slot, i + 1);
  }

  lemma ScanFinds(f: Function, below: seq<Frame>, u: Block, slot: nat, i: nat, s: Search, s': Search, b: Block)
    requires f.Valid() && Scanned(f, below, u, slot, i, s, s', false, b) && i < |f.succ[u]|
    requires f.succ[u][i] !in s'.visited
    ensures var v := f.succ[u][i]; Scanned(f, below, u, slot, i + 1, s, s'.Examine(u, i).See(v), true, v)
  {
    FinishNew(f, below, u, i, s');
    assert f.succ[u][i] in Blocks(f);
    assert s.examined + SlotsFrom(u, slot, i) + [Slot(u, i)] == s.examined + SlotsFrom(u, slot, i + 1);
  }

  /** Look at the remaining successors of the block on top, one after the other, until one has not
      been visited. */
  method ScanSuccessors(f: Function, parentBB: Block, slot: nat, visited0: set<Block>, inStack: set<Block>,
                        ghost below: seq<Frame>, ghost s: Search)
    returns (foundNew: bool, bb: Block, i: nat, visited: set<Block>, found: seq<Edge>, ghost s': Search)
    requires f.Valid() && StackOk(f, below + [Frame(parentBB, slot)])
    requires parentBB < |f.succ| && slot <= |f.succ[parentBB]|
    requires inStack == OnStack(below + [Frame(parentBB, slot)]) && inStack <= visited0 == s.visited <= Blocks(f)
    ensures Scanned(f, below, parentBB, slot, i, s, s', foundNew, bb)
    ensures visited == s'.visited && s'.found == s.found + found && s'.order == s.order
    ensures !foundNew ==> i == |f.succ[parentBB]|
  {
    foundNew, bb, i, visited, found, s' := false, parentBB, slot, visited0, [], s;
    ScanStarts(f, below, parentBB, slot, s);
    while i != |f.succ[parentBB]| && !foundNew
      invariant slot <= i <= |f.succ[parentBB]|
      invariant Scanned(f, below, parentBB, slot, i, s, s', foundNew, bb)
      invariant visited == s'.visited && s'.found == s.found + found && s'.order == s.order
      decreases |f.succ[parentBB]| - i
    {
      ghost var last := bb;
      bb := f.succ[parentBB][i];
      if bb !in visited {
        ScanFinds(f, below, parentBB, slot, i, s, s', last);
        s' := s'.Examine(parentBB, i).See(bb);
        visited := visited + {bb};
        foundNew := true;
      } else {
        ScanMeets(f, below, parentBB, slot, i, s, s', last);
        s' := s'.Examine(parentBB, i).Meet(parentBB, bb, inStack);
        if bb in inStack {
          found := found + [Edge(parentBB, bb)];
        }
      }
      i := i + 1;
    }
  }

  /** Going down to the block that scanning has found. */
  lemma DownTo(f: Function, below: seq<Frame>, u: Block, slot: nat, i: nat, s: Search, s': Search, bb: Block)
    requires f.Valid() && Scanned(f, below, u, slot, i, s, s', true, bb)
    ensures var start, stack := below + [Frame(u, slot)], below + [Frame(u, i)] + [Frame(bb, 0)];
            && StackOk(f, start) && StackOk(f, stack) && OnStack(stack) == OnStack(start) + {bb} <= s'.visited
            && s.visited < s'.visited <= Blocks(f) && Finish(f, stack, s') == Finish(f, start, s)
  {
    OnStackPush(below + [Frame(u, i)], bb, 0);
  }

  /** Going up from a block that has no slots left. */
  lemma UpFrom(f: Function, below: seq<Frame>, u: Block, slot: nat, s: Search, s': Search, bb: Block)
    requires f.Valid() && u < |f.succ| && Scanned(f, below, u, slot, |f.succ[u]|, s, s', false, bb)
    ensures var start := below + [Frame(u, slot)];
            && StackOk(f, start) && StackOk(f, below) && OnStack(below) == OnStack(start) - {u} <= s'.visited
            && s.visited == s'.visited <= Blocks(f) && Finish(f, below, s'.Finished(u)) == Finish(f, start, s)
  {
    FinishDone(f, below, u, s');
  }

  /** One round of the search: go down to an unvisited successor of the block on top, or up. */
  method Visit(f: Function, stack0: seq<Frame>, inStack0: set<Block>, visited0: set<Block>, ghost s: Search)
    returns (visitStack: seq<Frame>, inStack: set<Block>, visited: set<Block>, found: seq<Edge>, ghost s': Search)
    requires f.Valid() && StackOk(f, stack0) && stack0 != []
    requires inStack0 == OnStack(stack0) && inStack0 <= visited0 == s.visited <= Blocks(f)
    ensures StackOk(f, visitStack) && inStack == OnStack(visitStack)
    ensures inStack <= visited == s'.visited <= Blocks(f) && s'.found == s.found + found
    ensures Finish(f, visitStack, s') == Finish(f, stack0, s)
    ensures visited0 < visited || (visited0 == visited && |visitStack| < |stack0|)
  {
    visitStack, inStack := stack0, inStack0;
    var parentBB, slot := visitStack[|visitStack| - 1].block, visitStack[|visitStack| - 1].slot;
    ghost var below := visitStack[..|visitStack| - 1];
    assert visitStack == below + [Frame(parentBB, slot)];
    var foundNew, bb, i;
    foundNew, bb, i, visited, found, s' := ScanSuccessors(f, parentBB, slot, visited0, inStack, below, s);
    visitStack := visitStack[|visitStack| - 1 := Frame(parentBB, i)];
    assert visitStack == below + [Frame(parentBB, i)] && visitStack[..|visitStack| - 1] == below;
    if foundNew {
      DownTo(f, below, parentBB, slot, i, s, s', bb);
      inStack := inStack + {bb};
      visitStack := visitStack + [Frame(bb, 0)];
    } else {
      UpFrom(f, below, parentBB, slot, s, s', bb);
      inStack := inStack - {parentBB};
      visitStack := visitStack[..|visitStack| - 1];
      s' := s'.Finished(parentBB);
    }
  }

  /** Append to `result` the back edges of `f`, having looked at certain slots in a certain order. */
  method FindFunctionBackedges(f: Function, result0: seq<Edge>)
    returns (result: seq<Edge>, ghost examined: seq<Slot>)
    requires f.Valid()
    ensures result == result0 + Backedges(f) && examined == Searched(f).examined
  {
    if |f.succ[0]| == 0 {
      return result0, [];
    }
    Start(f);
    result, examined := SearchFromEntry(f, result0, Searched(f));
  }

  method SearchFromEntry(f: Function, result0: seq<Edge>, ghost goal: Search)
    returns (result: seq<Edge>, ghost examined: seq<Slot>)
    requires f.Valid() && StackOk(f, [Frame(0, 0)]) && OnStack([Frame(0, 0)]) == {0}
    requires Finish(f, [Frame(0, 0)], START) == goal
    ensures result == result0 + goal.found && examined == goal.examined
  {
    result := result0;
    var visited: set<Block>, visitStack, inStack: set<Block> := {0}, [Frame(0, 0)], {0};
    ghost var s := START;
    while visitStack != []
      invariant StackOk(f, visitStack) && inStack == OnStack(visitStack)
      invariant inStack <= visited == s.visited <= Blocks(f)
      invariant result == result0 + s.found
      invariant Finish(f, visitStack, s) == goal
      decreases Blocks(f) - visited, |visitStack|
    {
      ghost var before := s.found;
      var found;
      visitStack, inStack, visited, found, s := Visit(f, visitStack, inStack, visited, s);
      assert result0 + (before + found) == result + found;
      result := result + found;
    }
    examined := s.examined;
  }

  /** The block on top has no slots left. */
  lemma FinishDone(f: Function, below: seq<Frame>, u: Block, s: Search)
    requires f.Valid() && u < |f.succ| && StackOk(f, below + [Frame(u, |f.succ[u]|)]) && s.visited <= Blocks(f)
    ensures StackOk(f, below) && OnStack(below + [Frame(u, |f.succ[u]|)]) - {u} == OnStack(below)
    ensures Finish(f, below + [Frame(u, |f.succ[u]|)], s) == Finish(f, below, s.Finished(u))
  {
    FinishTop(f, below, u, |f.succ[u]|, s);
    PopStack(f, below, u, |f.succ[u]|);
  }

  lemma Start(f: Function)
    requires f.Valid()
    ensures StackOk(f, [Frame(0, 0)]) && OnStack([Frame(0, 0)]) == {0}
    ensures Finish(f, [Frame(0, 0)], START) == Searched(f)
  {
    OnStackPush([], 0, 0);
    assert [] + [Frame(0, 0)] == [Frame(0, 0)];
    FinishTop(f, [], 0, 0, START);
  }

  lemma PopStack(f: Function, below: seq<Frame>, u: Block, i: nat)
    requires StackOk(f, below + [Frame(u, i)])
    ensures OnStack(below + [Frame(u, i)]) - {u} == OnStack(below)
  {
    OnStackPush(below, u, i);
    var stack := below + [Frame(u, i)];
    forall k | 0 <= k < |below|
      ensures below[k].block != u
    {
      assert stack[k].block != stack[|below|].block;
    }
  }
}
