/** What the code generator does to the function under construction, symbol by symbol,
    and the shape this gives the finished blocks. */
module BrainFCodegen {
  import opened BrainFTokens
  import opened BrainFMachine

  /** Size of the tape, and whether every move is checked against its ends. */
  datatype Options = Options(mem: nat, bounds: bool)

  const ARR: Reg := 0
  const ARRMAX: Reg := 1
  const END: BlockId := 1
  const ABERROR: BlockId := 2

  /** A loop whose ']' has not been read: its phi, the block that tests, the block its body
      starts in, and the value and block the phi has when the loop is first entered. */
  datatype Frame = Frame(phi: Reg, test: BlockId, body: BlockId, entry: (Reg, BlockId))

  /** The function under construction: its blocks, the insertion block, the register that
      holds the head, the first unused register, and the open loops. */
  datatype Code = Code(blocks: seq<Block>, cur: BlockId, head: Reg, next: Reg, frames: seq<Frame>)

  /** A test block has only its phi until the loop is closed, and nothing is inserted there. */
  ghost predicate Scoped(o: Options, c: Code) {
    && c.cur < |c.blocks| && (o.bounds ==> 2 < |c.blocks|) && 1 < |c.blocks|
    && c.cur != END && (o.bounds ==> c.cur != ABERROR)
    && ARR < c.head < c.next && (o.bounds ==> ARRMAX < c.head)
    && (forall i :: 0 <= i < |c.frames| ==>
          var f := c.frames[i];
          && (if o.bounds then ABERROR else END) < f.test < f.body <= c.cur
          && f.phi < c.next && ARR < f.phi && (o.bounds ==> ARRMAX < f.phi)
          && c.blocks[f.test] == [Phi(f.phi, [f.entry])])
    && (forall i, j :: 0 <= i < j < |c.frames| ==> c.frames[i].test < c.frames[j].test)
  }

  function Append(c: Code, instrs: seq<Instr>): Code
    requires c.cur < |c.blocks|
  {
    c.(blocks := c.blocks[c.cur := c.blocks[c.cur] + instrs])
  }

  /** The blocks every program starts with: entry, end and, with bounds checking, error. */
  function Header(o: Options): (c: Code)
    ensures Scoped(o, c)
  {
    var head: Reg := if o.bounds then 2 else 1;
    var entry := [Malloc(ARR, o.mem), MemZero(ARR, o.mem)]
                 + (if o.bounds then [Gep(ARRMAX, ARR, o.mem)] else [])
                 + [Gep(head, ARR, o.mem / 2)];
    var end := [Free(ARR), Ret];
    Code([entry, end] + (if o.bounds then [[Puts, Br(END)]] else []), 0, head, head + 1, [])
  }

  function NewFrame(c: Code): Frame {
    Frame(c.next, |c.blocks|, |c.blocks| + 1, (c.head, c.cur))
  }

  /** Instructions that compute in registers from `next` on, in the insertion block. */
  function EmitStraight(o: Options, c: Code, instrs: seq<Instr>, head: Reg, next: Reg): (r: Code)
    requires Scoped(o, c) && c.head <= head < next && c.next <= next
    ensures Scoped(o, r)
  {
    Append(c, instrs).(head := head, next := next)
  }

  /** The head moves; when moves are checked, a branch on whether it is still on the tape. */
  function EmitMove(o: Options, c: Code, k: int): (r: Code)
    requires Scoped(o, c)
    ensures Scoped(o, r)
  {
    var n := c.next;
    var moved := Append(c, [Gep(n, c.head, k)]).(head := n, next := n + 1);
    if !o.bounds then moved
    else
      var ok := |c.blocks|;
      var checked := Append(moved, [ICmpUge(n + 1, n, ARRMAX), ICmpUlt(n + 2, n, ARR),
                                    Or(n + 3, n + 1, n + 2), CondBr(n + 3, ABERROR, ok)]);
      checked.(blocks := checked.blocks + [[]], cur := ok, next := n + 4)
  }

  /** A jump to a new test block, with an unfinished phi, and a new block for the body. */
  function EmitLoop(o: Options, c: Code): (r: Code)
    requires Scoped(o, c)
    ensures Scoped(o, r)
  {
    var f := NewFrame(c);
    var jumped := Append(c, [Br(f.test)]);
    jumped.(blocks := jumped.blocks + [[Phi(f.phi, [f.entry])], []],
            cur := f.body, head := f.phi, next := c.next + 1, frames := c.frames + [f])
  }

  /** A jump back to the test, whose phi and branch are now complete, and a block after the loop. */
  function EmitEndLoop(o: Options, c: Code): (r: Code)
    requires Scoped(o, c) && c.frames != []
    ensures Scoped(o, r)
  {
    var n, exit := c.next, |c.blocks|;
    var f := c.frames[|c.frames| - 1];
    var jumped := Append(c, [Br(f.test)]);
    var test := [Phi(f.phi, [f.entry, (c.head, c.cur)]), Load(n, f.phi), ICmpEqZero(n + 1, n),
                 CondBr(n + 1, exit, f.body)];
    jumped.(blocks := jumped.blocks[f.test := test] + [[Phi(n + 2, [(f.phi, f.test)])]],
            cur := exit, head := n + 2, next := n + 3, frames := c.frames[..|c.frames| - 1])
  }

  /** The code for one symbol. */
  function Emit(o: Options, c: Code, t: Token): (r: Code)
    requires Scoped(o, c)
    ensures Scoped(o, r)
  {
    var n := c.next;
    match t
    case Read => EmitStraight(o, c, [GetChar(n), Trunc(n + 1, n), Store(n + 1, c.head)], c.head, n + 2)
    case Write => EmitStraight(o, c, [Load(n, c.head), SExt(n + 1, n), PutChar(n + 1)], c.head, n + 2)
    case Change(k) => EmitStraight(o, c, [Load(n, c.head), AddI8(n + 1, n, k), Store(n + 1, c.head)], c.head, n + 2)
    case Move(k) => EmitMove(o, c, k)
    case Loop => EmitLoop(o, c)
    case EndLoop => if c.frames == [] then c else EmitEndLoop(o, c)
  }

  /** The function after all of `ts`. */
  function Build(o: Options, ts: seq<Token>): (c: Code)
    ensures Scoped(o, c)
  {
    if ts == [] then Header(o) else Emit(o, Build(o, ts[..|ts| - 1]), ts[|ts| - 1])
  }

  function Finish(c: Code): Code
    requires c.cur < |c.blocks|
  {
    Append(c, [Br(END)])
  }

  /** The finished function. */
  function Compiled(o: Options, ts: seq<Token>): seq<Block> {
    Finish(Build(o, ts)).blocks
  }

  /** The function after each prefix of `ts`. */
  ghost predicate History(o: Options, ts: seq<Token>, h: seq<Code>) {
    && |h| == |ts| + 1 && h[0] == Header(o)
    && (forall k :: 0 <= k < |ts| ==> Follows(o, ts, h, k))
  }

  ghost predicate Follows(o: Options, ts: seq<Token>, h: seq<Code>, k: nat)
    requires k < |ts| && |h| == |ts| + 1
  {
    Scoped(o, h[k]) && h[k + 1] == Emit(o, h[k], ts[k])
  }

  lemma HistoryExtends(o: Options, ts: seq<Token>, h: seq<Code>, t: Token)
    requires History(o, ts, h) && Scoped(o, h[|ts|])
    ensures History(o, ts + [t], h + [Emit(o, h[|ts|], t)])
  {
    var ts', h' := ts + [t], h + [Emit(o, h[|ts|], t)];
    forall k | 0 <= k < |ts'|
      ensures Follows(o, ts', h', k)
    {
      assert k < |ts| ==> Follows(o, ts, h, k);
    }
  }

  lemma {:induction false} HistoryExists(o: Options, ts: seq<Token>) returns (h: seq<Code>)
    ensures History(o, ts, h) && h[|ts|] == Build(o, ts)
  {
    if ts == [] {
      h := [Header(o)];
    } else {
      h := HistoryExists(o, ts[..|ts| - 1]);
      HistoryExtends(o, ts[..|ts| - 1], h, ts[|ts| - 1]);
      assert ts == ts[..|ts| - 1] + [ts[|ts| - 1]];
      h := h + [Emit(o, h[|ts| - 1], ts[|ts| - 1])];
    }
  }

  lemma {:induction false} HistoryIsBuild(o: Options, ts: seq<Token>, h: seq<Code>, k: nat)
    requires History(o, ts, h) && k <= |ts|
    ensures h[k] == Build(o, ts[..k])
    decreases k
  {
    if k > 0 {
      HistoryIsBuild(o, ts, h, k - 1);
      assert Follows(o, ts, h, k - 1);
      assert ts[..k][..k - 1] == ts[..k - 1];
    }
  }

  // ----- what later symbols leave alone -----

  ghost predicate IsOpen(c: Code, b: BlockId) {
    exists i :: 0 <= i < |c.frames| && c.frames[i].test == b
  }

  /** `later` still has all the code of `c`, apart from the tests of the loops open in `c`. */
  ghost predicate Extends(c: Code, later: seq<Block>) {
    && |c.blocks| <= |later|
    && forall b :: 0 <= b < |c.blocks| && !IsOpen(c, b) ==> c.blocks[b] <= later[b]
  }

  /** No block of `c` becomes an open test afterwards. */
  ghost predicate OpensOnlyNew(c: Code, later: Code) {
    forall b :: 0 <= b < |c.blocks| && IsOpen(later, b) ==> IsOpen(c, b)
  }

  /** Frames that were there before keep their tests. */
  lemma OldFramesOnly(c: Code, later: Code)
    requires forall i :: 0 <= i < |later.frames| && later.frames[i].test < |c.blocks| ==>
               i < |c.frames| && later.frames[i] == c.frames[i]
    ensures OpensOnlyNew(c, later)
  {
    forall b | 0 <= b < |c.blocks| && IsOpen(later, b)
      ensures IsOpen(c, b)
    {
      var i :| 0 <= i < |later.frames| && later.frames[i].test == b;
      assert c.frames[i].test == b;
    }
  }

  lemma MoveExtends(o: Options, c: Code, k: int)
    requires Scoped(o, c)
    ensures Extends(c, EmitMove(o, c, k).blocks) && OpensOnlyNew(c, EmitMove(o, c, k))
  {
    OldFramesOnly(c, EmitMove(o, c, k));
  }

  lemma LoopExtends(o: Options, c: Code)
    requires Scoped(o, c)
    ensures Extends(c, EmitLoop(o, c).blocks) && OpensOnlyNew(c, EmitLoop(o, c))
  {
    OldFramesOnly(c, EmitLoop(o, c));
  }

  lemma EndLoopExtends(o: Options, c: Code)
    requires Scoped(o, c) && c.frames != []
    ensures Extends(c, EmitEndLoop(o, c).blocks) && OpensOnlyNew(c, EmitEndLoop(o, c))
  {
    OldFramesOnly(c, EmitEndLoop(o, c));
    var test := c.frames[|c.frames| - 1].test;
    assert IsOpen(c, test) && test != c.cur;
  }

  lemma EmitExtends(o: Options, c: Code, t: Token)
    requires Scoped(o, c)
    ensures Extends(c, Emit(o, c, t).blocks) && OpensOnlyNew(c, Emit(o, c, t))
  {
    match t
    case Move(k) => MoveExtends(o, c, k);
    case Loop => LoopExtends(o, c);
    case EndLoop =>
      if c.frames != [] {
        EndLoopExtends(o, c);
      }
    case _ => OldFramesOnly(c, Emit(o, c, t));
  }

  lemma ExtendsTransitive(c: Code, mid: Code, later: Code)
    requires Extends(c, mid.blocks) && OpensOnlyNew(c, mid)
    requires Extends(mid, later.blocks) && OpensOnlyNew(mid, later)
    ensures Extends(c, later.blocks) && OpensOnlyNew(c, later)
  {
  }

  lemma {:induction false} HistoryOnlyGrows(o: Options, ts: seq<Token>, h: seq<Code>, k: nat, j: nat)
    requires History(o, ts, h) && k <= j <= |ts|
    ensures Extends(h[k], h[j].blocks) && OpensOnlyNew(h[k], h[j])
    decreases j - k
  {
    if k < j {
      HistoryOnlyGrows(o, ts, h, k, j - 1);
      assert Follows(o, ts, h, j - 1);
      EmitExtends(o, h[j - 1], ts[j - 1]);
      ExtendsTransitive(h[k], h[j - 1], h[j]);
    }
  }

  /** Code once emitted is in the finished function. */
  lemma FinishedExtends(o: Options, ts: seq<Token>, h: seq<Code>, k: nat)
    requires History(o, ts, h) && k <= |ts| && Scoped(o, h[|ts|])
    ensures Extends(h[k], Finish(h[|ts|]).blocks)
  {
    HistoryOnlyGrows(o, ts, h, k, |ts|);
  }

  // ----- the open loops -----

  /** What a symbol does to a stack on which '[' pushes `x`. */
  function Stacked<T>(t: Token, stack: seq<T>, x: T): seq<T> {
    match t
    case Loop => stack + [x]
    case EndLoop => if stack == [] then [] else stack[..|stack| - 1]
    case _ => stack
  }

  lemma EmitFrames(o: Options, c: Code, t: Token)
    requires Scoped(o, c)
    ensures Emit(o, c, t).frames == Stacked(t, c.frames, NewFrame(c))
  {
  }

  lemma OpensStacked(ts: seq<Token>, k: nat)
    requires k < |ts|
    ensures Opens(ts, k + 1) == Stacked(ts[k], Opens(ts, k), k)
  {
  }

  /** The frame stack is the stack of unclosed '[' symbols: at each depth it has the frame made
      for the '[' of that depth. */
  lemma {:induction false} FramesAreOpens(o: Options, ts: seq<Token>, h: seq<Code>, k: nat, d: nat)
    requires History(o, ts, h) && k <= |ts|
    ensures |h[k].frames| == |Opens(ts, k)|
    ensures d < |Opens(ts, k)| ==> h[k].frames[d] == NewFrame(h[Opens(ts, k)[d]])
    decreases k
  {
    if k > 0 {
      FramesAreOpens(o, ts, h, k - 1, d);
      assert Follows(o, ts, h, k - 1);
      EmitFrames(o, h[k - 1], ts[k - 1]);
      OpensStacked(ts, k - 1);
      StackedAlike(h, ts[k - 1], h[k - 1].frames, Opens(ts, k - 1), k - 1, d);
    }
  }

  lemma StackedAlike(h: seq<Code>, t: Token, frames: seq<Frame>, opens: seq<nat>, k: nat, d: nat)
    requires k < |h| && |frames| == |opens| && forall i :: 0 <= i < |opens| ==> opens[i] < |h|
    requires d < |opens| ==> frames[d] == NewFrame(h[opens[d]])
    ensures var frames', opens' := Stacked(t, frames, NewFrame(h[k])), Stacked(t, opens, k);
            && |frames'| == |opens'|
            && (d < |opens'| ==> opens'[d] < |h| && frames'[d] == NewFrame(h[opens'[d]]))
  {
  }

  lemma CurNeverOpen(o: Options, c: Code)
    requires Scoped(o, c)
    ensures !IsOpen(c, c.cur)
  {
  }
}
