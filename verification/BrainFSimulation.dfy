/** The emitted code follows the program: from the point where a symbol's code starts, the
    machine reaches the point where the next symbol's code starts, having done what the
    symbol's characters do. */
module BrainFSimulation {
  import opened Wrappers

  import opened BrainFSource
  import opened BrainFTokens
  import opened BrainFCodegen
  import M = BrainFMachine

  predicate InTape(o: Options, env: M.Env, a: int) {
    env.base <= a < env.base + o.mem
  }

  /** With bounds checking the machine may confine the program to its tape, which then has a
      cell; without it the tape must be unbounded. */
  predicate Suitable(o: Options, env: M.Env) {
    if o.bounds then o.mem >= 1 && (env.limit.Some? ==> env.limit.value == o.mem)
    else env.limit.None?
  }

  /** Registers and memory hold the state `s` of the program. */
  predicate Holds(o: Options, env: M.Env, c: Code, s: State, d: M.Data) {
    && d.mem == s.tape && d.input == s.input && d.output == s.output && d.errors == 0
    && ARR in d.regs && d.regs[ARR] == env.base
    && (o.bounds ==> ARRMAX in d.regs && d.regs[ARRMAX] == env.base + o.mem && InTape(o, env, s.head))
    && c.head in d.regs && d.regs[c.head] == s.head
  }

  /** Control is where the code for the next symbol starts. */
  predicate AtPoint(c: Code, m: M.Machine)
    requires c.cur < |c.blocks|
  {
    m.Running? && m.block == c.cur && m.pc == |c.blocks[c.cur]|
  }

  /** The code that turned `c` into `next` is in `g`, in the block it was inserted in. */
  predicate Placed(c: Code, next: Code, g: seq<M.Block>) {
    c.cur < |next.blocks| <= |g| && next.blocks[c.cur] <= g[c.cur]
  }

  lemma PlacedIfExtended(o: Options, c: Code, next: Code, g: seq<M.Block>)
    requires Scoped(o, c) && Extends(c, next.blocks) && OpensOnlyNew(c, next) && Extends(next, g)
    ensures Placed(c, next, g)
  {
    CurNeverOpen(o, c);
  }

  /** The code of every symbol is in the finished function. */
  lemma Emitted(o: Options, ts: seq<Token>, h: seq<Code>, k: nat)
    requires History(o, ts, h) && k < |ts| && Scoped(o, h[|ts|])
    ensures Scoped(o, h[k]) && h[k + 1] == Emit(o, h[k], ts[k])
    ensures Placed(h[k], h[k + 1], Finish(h[|ts|]).blocks)
  {
    assert Follows(o, ts, h, k);
    EmitExtends(o, h[k], ts[k]);
    FinishedExtends(o, ts, h, k + 1);
    PlacedIfExtended(o, h[k], h[k + 1], Finish(h[|ts|]).blocks);
  }

  /** Three instructions in a row. */
  lemma RunThree(blocks: seq<M.Block>, env: M.Env, m: M.Machine) returns (m1: M.Machine, m2: M.Machine, j: nat)
    ensures m1 == M.Step(blocks, env, m) && m2 == M.Step(blocks, env, m1)
    ensures j > 0 && M.Run(blocks, env, m, j) == M.Step(blocks, env, m2)
  {
    m1 := M.Step(blocks, env, m);
    m2 := M.Step(blocks, env, m1);
    assert M.Run(blocks, env, m2, 1) == M.Step(blocks, env, m2);
    assert M.Run(blocks, env, m1, 2) == M.Run(blocks, env, m2, 1);
    j := 3;
  }

  /** `instrs` come next in the block being executed. */
  predicate Next(blocks: seq<M.Block>, m: M.Machine, instrs: seq<M.Instr>) {
    && m.Running? && m.block < |blocks| && m.pc + |instrs| <= |blocks[m.block]|
    && forall i :: 0 <= i < |instrs| ==> blocks[m.block][m.pc + i] == instrs[i]
  }

  lemma NextIs(blocks: seq<M.Block>, m: M.Machine, instrs: seq<M.Instr>, i: nat)
    requires Next(blocks, m, instrs) && i < |instrs|
    ensures m.pc + i < |blocks[m.block]| && blocks[m.block][m.pc + i] == instrs[i]
  {
  }

  /** The instructions of a symbol that stays in its block come next in the finished function. */
  lemma AppendedIsNext(c: Code, instrs: seq<M.Instr>, next: Code, g: seq<M.Block>, m: M.Machine)
    requires c.cur < |c.blocks| && next.blocks == Append(c, instrs).blocks && Placed(c, next, g) && AtPoint(c, m)
    ensures Next(g, m, instrs) && |next.blocks[c.cur]| == m.pc + |instrs|
  {
    forall i | 0 <= i < |instrs|
      ensures g[m.block][m.pc + i] == instrs[i]
    {
      assert next.blocks[c.cur][m.pc + i] == instrs[i];
    }
  }

  lemma ExecRead(blocks: seq<M.Block>, env: M.Env, m: M.Machine, head: M.Reg, n: M.Reg) returns (j: nat)
    requires Next(blocks, m, [M.GetChar(n), M.Trunc(n + 1, n), M.Store(n + 1, head)])
    requires head < n && head in m.now.regs && M.Accessible(env, m.now.regs[head])
    ensures var r, a := M.Run(blocks, env, m, j), m.now.regs[head];
            && j > 0 && r.Running? && r.block == m.block && r.pc == m.pc + 3
            && r.now.mem == m.now.mem[a := NextByte(m.now.input)] && r.now.input == Rest(m.now.input)
            && r.now.output == m.now.output && r.now.errors == m.now.errors
            && forall x :: x in m.now.regs && x < n ==> x in r.now.regs && r.now.regs[x] == m.now.regs[x]
  {
    var m1, m2;
    m1, m2, j := RunThree(blocks, env, m);
    var instrs := [M.GetChar(n), M.Trunc(n + 1, n), M.Store(n + 1, head)];
    NextIs(blocks, m, instrs, 0);
    NextIs(blocks, m, instrs, 1);
    NextIs(blocks, m, instrs, 2);
  }

  lemma ExecWrite(blocks: seq<M.Block>, env: M.Env, m: M.Machine, head: M.Reg, n: M.Reg) returns (j: nat)
    requires Next(blocks, m, [M.Load(n, head), M.SExt(n + 1, n), M.PutChar(n + 1)])
    requires head < n && head in m.now.regs && M.Accessible(env, m.now.regs[head])
    ensures var r, a := M.Run(blocks, env, m, j), m.now.regs[head];
            && j > 0 && r.Running? && r.block == m.block && r.pc == m.pc + 3
            && r.now.mem == m.now.mem && r.now.input == m.now.input
            && r.now.output == m.now.output + [Cell(m.now.mem, a)] && r.now.errors == m.now.errors
            && forall x :: x in m.now.regs && x < n ==> x in r.now.regs && r.now.regs[x] == m.now.regs[x]
  {
    var m1, m2;
    m1, m2, j := RunThree(blocks, env, m);
    var instrs := [M.Load(n, head), M.SExt(n + 1, n), M.PutChar(n + 1)];
    NextIs(blocks, m, instrs, 0);
    NextIs(blocks, m, instrs, 1);
    NextIs(blocks, m, instrs, 2);
  }

  lemma ExecChange(blocks: seq<M.Block>, env: M.Env, m: M.Machine, head: M.Reg, n: M.Reg, k: int) returns (j: nat)
    requires Next(blocks, m, [M.Load(n, head), M.AddI8(n + 1, n, k), M.Store(n + 1, head)])
    requires head < n && head in m.now.regs && M.Accessible(env, m.now.regs[head])
    ensures var r, a := M.Run(blocks, env, m, j), m.now.regs[head];
            && j > 0 && r.Running? && r.block == m.block && r.pc == m.pc + 3
            && r.now.mem == m.now.mem[a := (Cell(m.now.mem, a) + k) % 256] && r.now.input == m.now.input
            && r.now.output == m.now.output && r.now.errors == m.now.errors
            && forall x :: x in m.now.regs && x < n ==> x in r.now.regs && r.now.regs[x] == m.now.regs[x]
  {
    var m1, m2;
    m1, m2, j := RunThree(blocks, env, m);
    var instrs := [M.Load(n, head), M.AddI8(n + 1, n, k), M.Store(n + 1, head)];
    NextIs(blocks, m, instrs, 0);
    NextIs(blocks, m, instrs, 1);
    NextIs(blocks, m, instrs, 2);
  }

  lemma SimRead(o: Options, env: M.Env, c: Code, g: seq<M.Block>, s: State, m: M.Machine) returns (j: nat)
    requires Scoped(o, c) && Placed(c, Emit(o, c, Read), g) && Suitable(o, env)
    requires AtPoint(c, m) && Holds(o, env, c, s, m.now)
    ensures var r, c' := M.Run(g, env, m, j), Emit(o, c, Read);
            j > 0 && AtPoint(c', r) && Holds(o, env, c', DoRead(s), r.now)
  {
    var n := c.next;
    AppendedIsNext(c, [M.GetChar(n), M.Trunc(n + 1, n), M.Store(n + 1, c.head)], Emit(o, c, Read), g, m);
    j := ExecRead(g, env, m, c.head, n);
  }

  lemma SimWrite(o: Options, env: M.Env, c: Code, g: seq<M.Block>, s: State, m: M.Machine) returns (j: nat)
    requires Scoped(o, c) && Placed(c, Emit(o, c, Write), g) && Suitable(o, env)
    requires AtPoint(c, m) && Holds(o, env, c, s, m.now)
    ensures var r, c' := M.Run(g, env, m, j), Emit(o, c, Write);
            j > 0 && AtPoint(c', r) && Holds(o, env, c', DoWrite(s), r.now)
  {
    var n := c.next;
    AppendedIsNext(c, [M.Load(n, c.head), M.SExt(n + 1, n), M.PutChar(n + 1)], Emit(o, c, Write), g, m);
    j := ExecWrite(g, env, m, c.head, n);
  }

  lemma SimChange(o: Options, env: M.Env, c: Code, k: int, g: seq<M.Block>, s: State, m: M.Machine) returns (j: nat)
    requires Scoped(o, c) && Placed(c, Emit(o, c, Change(k)), g) && Suitable(o, env)
    requires AtPoint(c, m) && Holds(o, env, c, s, m.now)
    ensures var r, c' := M.Run(g, env, m, j), Emit(o, c, Change(k));
            j > 0 && AtPoint(c', r) && Holds(o, env, c', DoChange(s, k), r.now)
  {
    var n := c.next;
    AppendedIsNext(c, [M.Load(n, c.head), M.AddI8(n + 1, n, k), M.Store(n + 1, c.head)], Emit(o, c, Change(k)), g, m);
    j := ExecChange(g, env, m, c.head, n, k);
  }

  lemma SimMove(o: Options, env: M.Env, c: Code, k: int, g: seq<M.Block>, s: State, m: M.Machine) returns (j: nat)
    requires Scoped(o, c) && Placed(c, Emit(o, c, Move(k)), g) && !o.bounds
    requires AtPoint(c, m) && Holds(o, env, c, s, m.now)
    ensures var r, c' := M.Run(g, env, m, j), Emit(o, c, Move(k));
            j > 0 && AtPoint(c', r) && Holds(o, env, c', DoMove(s, k), r.now)
  {
    assert g[c.cur][m.pc] == M.Gep(c.next, c.head, k);
    assert M.Run(g, env, m, 1) == M.Step(g, env, m);
    j := 1;
  }

  /** What is observable is as in `s`, one error has been reported, and the function has returned. */
  predicate Refused(s: State, m: M.Machine) {
    m.Done? && m.end.mem == s.tape && m.end.input == s.input && m.end.output == s.output && m.end.errors == 1
  }

  /** The error and end blocks are never touched. */
  lemma FixedBlocks(o: Options, ts: seq<Token>, h: seq<Code>)
    requires History(o, ts, h) && Scoped(o, h[|ts|])
    ensures var g := Finish(h[|ts|]).blocks;
            && |g| > END && [M.Free(ARR), M.Ret] <= g[END]
            && (o.bounds ==> |g| > ABERROR && [M.Puts, M.Br(END)] <= g[ABERROR])
  {
    FinishedExtends(o, ts, h, 0);
  }

  lemma ExecCompare(blocks: seq<M.Block>, env: M.Env, m: M.Machine, n: M.Reg) returns (j: nat)
    requires Next(blocks, m, [M.ICmpUge(n + 1, n, ARRMAX), M.ICmpUlt(n + 2, n, ARR), M.Or(n + 3, n + 1, n + 2)])
    requires n > ARRMAX && n in m.now.regs && ARR in m.now.regs && ARRMAX in m.now.regs
    ensures Compared(m, M.Run(blocks, env, m, j), n)
  {
    var m1, m2;
    m1, m2, j := RunThree(blocks, env, m);
    var instrs := [M.ICmpUge(n + 1, n, ARRMAX), M.ICmpUlt(n + 2, n, ARR), M.Or(n + 3, n + 1, n + 2)];
    NextIs(blocks, m, instrs, 0);
    NextIs(blocks, m, instrs, 1);
    NextIs(blocks, m, instrs, 2);
  }

  /** The three instructions of the comparison have been executed, and `n + 3` tells its result. */
  ghost predicate Compared(m: M.Machine, r: M.Machine, n: M.Reg) {
    && m.Running? && n in m.now.regs && ARR in m.now.regs && ARRMAX in m.now.regs
    && r.Running? && r.block == m.block && r.pc == m.pc + 3 && r.now == m.now.(regs := r.now.regs)
    && n + 3 in r.now.regs
    && (r.now.regs[n + 3] == 0 <==> m.now.regs[ARR] <= m.now.regs[n] < m.now.regs[ARRMAX])
    && forall x :: x in m.now.regs && x <= n ==> x in r.now.regs && r.now.regs[x] == m.now.regs[x]
  }

  /** The bounds check branches to the error block exactly when the head has left [arr, arrmax). */
  lemma ExecCheck(blocks: seq<M.Block>, env: M.Env, m: M.Machine, n: M.Reg, ok: M.BlockId) returns (j: nat)
    requires Next(blocks, m, [M.ICmpUge(n + 1, n, ARRMAX), M.ICmpUlt(n + 2, n, ARR), M.Or(n + 3, n + 1, n + 2),
                              M.CondBr(n + 3, ABERROR, ok)])
    requires n > ARRMAX && n in m.now.regs && ARR in m.now.regs && ARRMAX in m.now.regs
    ensures var r, a := M.Run(blocks, env, m, j), m.now.regs[n];
            && r.Running? && r.pc == 0 && r.prev == m.block
            && r.block == (if m.now.regs[ARR] <= a < m.now.regs[ARRMAX] then ok else ABERROR)
            && r.now == m.now.(regs := r.now.regs)
            && forall x :: x in m.now.regs && x <= n ==> x in r.now.regs && r.now.regs[x] == m.now.regs[x]
  {
    var instrs := [M.ICmpUge(n + 1, n, ARRMAX), M.ICmpUlt(n + 2, n, ARR), M.Or(n + 3, n + 1, n + 2),
                   M.CondBr(n + 3, ABERROR, ok)];
    NextPrefix(blocks, m, instrs, 3);
    assert instrs[..3] == [M.ICmpUge(n + 1, n, ARRMAX), M.ICmpUlt(n + 2, n, ARR), M.Or(n + 3, n + 1, n + 2)];
    j := ExecCompare(blocks, env, m, n);
    NextIs(blocks, m, instrs, 3);
    ExecCondBr(blocks, env, M.Run(blocks, env, m, j), n + 3, ABERROR, ok);
    M.RunSnoc(blocks, env, m, j);
    j := j + 1;
  }

  lemma NextPrefix(blocks: seq<M.Block>, m: M.Machine, instrs: seq<M.Instr>, k: nat)
    requires Next(blocks, m, instrs) && k <= |instrs|
    ensures Next(blocks, m, instrs[..k])
  {
  }

  lemma ExecCondBr(blocks: seq<M.Block>, env: M.Env, m: M.Machine, cond: M.Reg, ifTrue: M.BlockId, ifFalse: M.BlockId)
    requires m.Running? && m.block < |blocks| && m.pc < |blocks[m.block]| && cond in m.now.regs
    requires blocks[m.block][m.pc] == M.CondBr(cond, ifTrue, ifFalse)
    ensures M.Step(blocks, env, m) == M.Running(if m.now.regs[cond] != 0 then ifTrue else ifFalse, 0, m.block, m.now)
  {
  }

  /** The error block reports once and returns through the end block. */
  lemma ExecError(blocks: seq<M.Block>, env: M.Env, m: M.Machine) returns (j: nat)
    requires |blocks| > 2 && [M.Puts, M.Br(END)] <= blocks[ABERROR] && [M.Free(ARR), M.Ret] <= blocks[END]
    requires m.Running? && m.block == ABERROR && m.pc == 0 && ARR in m.now.regs && m.now.regs[ARR] == env.base
    ensures M.Run(blocks, env, m, j) == M.Done(m.now.(errors := m.now.errors + 1))
  {
    var m1, m2;
    m1, m2, j := RunThree(blocks, env, m);
    M.RunSnoc(blocks, env, m, j);
    j := j + 1;
    assert blocks[ABERROR][0] == M.Puts && blocks[ABERROR][1] == M.Br(END);
    assert blocks[END][0] == M.Free(ARR) && blocks[END][1] == M.Ret;
  }

  lemma MoveIsNext(o: Options, c: Code, k: int, g: seq<M.Block>, m: M.Machine, check: seq<M.Instr>)
    requires Scoped(o, c) && Placed(c, Emit(o, c, Move(k)), g) && o.bounds && AtPoint(c, m)
    requires var n := c.next;
             check == [M.ICmpUge(n + 1, n, ARRMAX), M.ICmpUlt(n + 2, n, ARR), M.Or(n + 3, n + 1, n + 2),
                       M.CondBr(n + 3, ABERROR, |c.blocks|)]
    ensures Next(g, m, [M.Gep(c.next, c.head, k)] + check)
  {
    var instrs := [M.Gep(c.next, c.head, k)] + check;
    var block := Emit(o, c, Move(k)).blocks[c.cur];
    assert block == c.blocks[c.cur] + instrs;
    forall i | 0 <= i < |instrs|
      ensures g[m.block][m.pc + i] == instrs[i]
    {
      assert block[m.pc + i] == instrs[i];
    }
  }

  lemma NextRest(blocks: seq<M.Block>, m: M.Machine, i: M.Instr, rest: seq<M.Instr>, m1: M.Machine)
    requires Next(blocks, m, [i] + rest) && m1.Running? && m1.block == m.block && m1.pc == m.pc + 1
    ensures blocks[m.block][m.pc] == i && Next(blocks, m1, rest)
  {
    NextIs(blocks, m, [i] + rest, 0);
    forall k | 0 <= k < |rest|
      ensures blocks[m1.block][m1.pc + k] == rest[k]
    {
      NextIs(blocks, m, [i] + rest, k + 1);
    }
  }

  lemma ExecGep(blocks: seq<M.Block>, env: M.Env, m: M.Machine, dst: M.Reg, p: M.Reg, k: int)
    requires m.Running? && m.block < |blocks| && m.pc < |blocks[m.block]| && p in m.now.regs
    requires blocks[m.block][m.pc] == M.Gep(dst, p, k)
    ensures M.Step(blocks, env, m)
            == M.Running(m.block, m.pc + 1, m.prev, m.now.(regs := m.now.regs[dst := m.now.regs[p] + k]))
  {
  }

  lemma RunAfterStep(blocks: seq<M.Block>, env: M.Env, m: M.Machine, m1: M.Machine, j: nat)
    requires M.Step(blocks, env, m) == m1
    ensures M.Run(blocks, env, m, j + 1) == M.Run(blocks, env, m1, j)
  {
  }

  /** The first instruction of a checked move computes the new head; the check comes next. */
  lemma HeadMoves(o: Options, env: M.Env, c: Code, k: int, g: seq<M.Block>, m: M.Machine, check: seq<M.Instr>)
    returns (m1: M.Machine)
    requires Scoped(o, c) && Placed(c, Emit(o, c, Move(k)), g) && o.bounds && AtPoint(c, m) && c.head in m.now.regs
    requires var n := c.next;
             check == [M.ICmpUge(n + 1, n, ARRMAX), M.ICmpUlt(n + 2, n, ARR), M.Or(n + 3, n + 1, n + 2),
                       M.CondBr(n + 3, ABERROR, |c.blocks|)]
    ensures m1 == M.Running(m.block, m.pc + 1, m.prev, m.now.(regs := m.now.regs[c.next := m.now.regs[c.head] + k]))
    ensures M.Step(g, env, m) == m1 && Next(g, m1, check)
  {
    m1 := M.Running(m.block, m.pc + 1, m.prev, m.now.(regs := m.now.regs[c.next := m.now.regs[c.head] + k]));
    MoveIsNext(o, c, k, g, m, check);
    NextRest(g, m, M.Gep(c.next, c.head, k), check, m1);
    ExecGep(g, env, m, c.next, c.head, k);
  }

  /** A checked move: the new head, then a branch on whether it is on the tape. */
  lemma ExecCheckedMove(o: Options, env: M.Env, c: Code, k: int, g: seq<M.Block>, s: State, m: M.Machine)
    returns (j: nat)
    requires Scoped(o, c) && Placed(c, Emit(o, c, Move(k)), g) && o.bounds
    requires AtPoint(c, m) && Holds(o, env, c, s, m.now)
    ensures var r, inside := M.Run(g, env, m, j), InTape(o, env, s.head + k);
            && j >= 1 && r.Running? && r.pc == 0 && r.prev == c.cur
            && r.block == (if inside then |c.blocks| else ABERROR) && r.now == m.now.(regs := r.now.regs)
            && c.next in r.now.regs && r.now.regs[c.next] == s.head + k
            && forall x :: x in m.now.regs && x < c.next ==> x in r.now.regs && r.now.regs[x] == m.now.regs[x]
  {
    var n, ok := c.next, |c.blocks|;
    var check := [M.ICmpUge(n + 1, n, ARRMAX), M.ICmpUlt(n + 2, n, ARR), M.Or(n + 3, n + 1, n + 2),
                  M.CondBr(n + 3, ABERROR, ok)];
    var m1 := HeadMoves(o, env, c, k, g, m, check);
    j := ExecCheck(g, env, m1, n, ok);
    RunAfterStep(g, env, m, m1, j);
    j := j + 1;
  }

  lemma SimCheckedMove(o: Options, env: M.Env, c: Code, k: int, g: seq<M.Block>, s: State, m: M.Machine)
    returns (j: nat)
    requires Scoped(o, c) && Placed(c, Emit(o, c, Move(k)), g) && o.bounds
    requires [M.Puts, M.Br(END)] <= g[ABERROR] && [M.Free(ARR), M.Ret] <= g[END]
    requires AtPoint(c, m) && Holds(o, env, c, s, m.now)
    ensures var c', s', r := Emit(o, c, Move(k)), DoMove(s, k), M.Run(g, env, m, j);
            j >= 1 && if InTape(o, env, s'.head) then AtPoint(c', r) && Holds(o, env, c', s', r.now) else Refused(s', r)
  {
    j := ExecCheckedMove(o, env, c, k, g, s, m);
    if !InTape(o, env, DoMove(s, k).head) {
      var more := ExecError(g, env, M.Run(g, env, m, j));
      M.RunAdds(g, env, m, j, more);
      j := j + more;
    }
  }

  // ----- loops -----

  /** The code of a closed loop: the phi that merges the head on entry with the head after the
      body, the test, and the block the loop leaves to. */
  predicate LoopCode(g: seq<M.Block>, f: Frame, back: (M.Reg, M.BlockId), n: M.Reg, exit: M.BlockId) {
    && f.test < |g| && exit < |g|
    && [M.Phi(f.phi, [f.entry, back]), M.Load(n, f.phi), M.ICmpEqZero(n + 1, n), M.CondBr(n + 1, exit, f.body)]
       <= g[f.test]
    && [M.Phi(n + 2, [(f.phi, f.test)])] <= g[exit]
  }

  /** `c` is the code just before a '[' and `d` the code just before its ']'; the loop they
      enclose is in `g`. */
  predicate LoopBetween(o: Options, c: Code, d: Code, g: seq<M.Block>)
  {
    && d.frames != [] && d.frames[|d.frames| - 1] == NewFrame(c)
    && c.head < c.next < d.next && ARR < c.head && (o.bounds ==> ARRMAX < c.head)
    && c.cur < NewFrame(c).test < NewFrame(c).body <= d.cur
    && LoopCode(g, NewFrame(c), (d.head, d.cur), d.next, |d.blocks|)
  }

  /** The matching pair of symbols `k` and `e` has left its loop in the finished function. */
  lemma LoopEmitted(o: Options, ts: seq<Token>, h: seq<Code>, k: nat, e: nat)
    requires History(o, ts, h) && Scoped(o, h[|ts|])
    requires k < e < |ts| && ts[e] == EndLoop
    requires Opens(ts, e) != [] && Opens(ts, e)[|Opens(ts, e)| - 1] == k
    ensures LoopBetween(o, h[k], h[e], Finish(h[|ts|]).blocks)
  {
    FramesAreOpens(o, ts, h, e, |Opens(ts, e)| - 1);
    assert Follows(o, ts, h, e) && Follows(o, ts, h, k);
    FinishedExtends(o, ts, h, e + 1);
    LoopIsBetween(o, h[k], h[e], Finish(h[|ts|]).blocks);
  }

  lemma LoopIsBetween(o: Options, c: Code, d: Code, g: seq<M.Block>)
    requires Scoped(o, c) && Scoped(o, d) && d.frames != [] && d.frames[|d.frames| - 1] == NewFrame(c)
    requires Extends(Emit(o, d, EndLoop), g)
    ensures LoopBetween(o, c, d, g)
  {
    LoopClosed(o, d, g);
  }

  lemma LoopClosed(o: Options, d: Code, g: seq<M.Block>)
    requires Scoped(o, d) && d.frames != []
    requires Extends(Emit(o, d, EndLoop), g)
    ensures LoopCode(g, d.frames[|d.frames| - 1], (d.head, d.cur), d.next, |d.blocks|)
  {
    var f, r := d.frames[|d.frames| - 1], Emit(o, d, EndLoop);
    assert !IsOpen(r, f.test) && !IsOpen(r, |d.blocks|);
    assert r.blocks[f.test] <= g[f.test] && r.blocks[|d.blocks|] <= g[|d.blocks|];
  }

  /** The loop test up to its branch. */
  lemma ExecTestLoads(env: M.Env, g: seq<M.Block>, f: Frame, back: (M.Reg, M.BlockId), n: M.Reg, exit: M.BlockId,
                      m: M.Machine, from: M.Reg) returns (m3: M.Machine, j: nat)
    requires LoopCode(g, f, back, n, exit) && f.phi < n
    requires m.Running? && m.block == f.test && m.pc == 0
    requires M.Incoming([f.entry, back], m.prev) == Some(from) && from in m.now.regs
    requires M.Accessible(env, m.now.regs[from])
    ensures j > 0 && m3 == M.Run(g, env, m, j) && var a := m.now.regs[from];
            && m3.Running? && m3.block == f.test && m3.pc == 3 && n + 1 in m3.now.regs
            && (m3.now.regs[n + 1] != 0 <==> Cell(m.now.mem, a) == 0)
            && m3.now == m.now.(regs := m.now.regs[f.phi := a][n := Cell(m.now.mem, a)][n + 1 := m3.now.regs[n + 1]])
  {
    var m1, m2;
    m1, m2, j := RunThree(g, env, m);
    m3 := M.Run(g, env, m, j);
    var test := [M.Phi(f.phi, [f.entry, back]), M.Load(n, f.phi), M.ICmpEqZero(n + 1, n),
                 M.CondBr(n + 1, exit, f.body)];
    assert g[f.test][0] == test[0] && g[f.test][1] == test[1] && g[f.test][2] == test[2];
  }

  /** The loop test: the body is entered exactly when the cell under the head is not zero. */
  lemma ExecTest(env: M.Env, g: seq<M.Block>, f: Frame, back: (M.Reg, M.BlockId), n: M.Reg, exit: M.BlockId,
                 m: M.Machine, from: M.Reg) returns (j: nat)
    requires LoopCode(g, f, back, n, exit) && f.phi < n
    requires m.Running? && m.block == f.test && m.pc == 0
    requires M.Incoming([f.entry, back], m.prev) == Some(from) && from in m.now.regs
    requires M.Accessible(env, m.now.regs[from])
    ensures var r, a := M.Run(g, env, m, j), m.now.regs[from];
            && j > 0 && r.Running? && r.pc == 0 && r.prev == f.test && n + 1 in r.now.regs
            && r.block == (if Cell(m.now.mem, a) == 0 then exit else f.body)
            && r.now == m.now.(regs := m.now.regs[f.phi := a][n := Cell(m.now.mem, a)][n + 1 := r.now.regs[n + 1]])
  {
    var m3;
    m3, j := ExecTestLoads(env, g, f, back, n, exit, m, from);
    M.RunSnoc(g, env, m, j);
    var test := [M.Phi(f.phi, [f.entry, back]), M.Load(n, f.phi), M.ICmpEqZero(n + 1, n),
                 M.CondBr(n + 1, exit, f.body)];
    assert g[f.test][3] == test[3];
    ExecCondBr(g, env, m3, n + 1, exit, f.body);
    j := j + 1;
  }

  /** From either way into the test, the machine reaches the start of the body or the point
      after the loop. */
  lemma SimTest(o: Options, env: M.Env, c: Code, d: Code, g: seq<M.Block>, s: State, m: M.Machine, from: M.Reg)
    returns (j: nat)
    requires Scoped(o, c) && Scoped(o, d) && LoopBetween(o, c, d, g) && Suitable(o, env)
    requires m.Running? && m.block == NewFrame(c).test && m.pc == 0
    requires M.Incoming([(c.head, c.cur), (d.head, d.cur)], m.prev) == Some(from)
    requires Holds(o, env, c.(head := from), s, m.now)
    ensures var r := M.Run(g, env, m, j);
            var next := if Cell(s.tape, s.head) != 0 then Emit(o, c, Loop) else Emit(o, d, EndLoop);
            AtPoint(next, r) && Holds(o, env, next, s, r.now)
  {
    var f := NewFrame(c);
    j := TestedAfter(o, env, c, d, g, s, m, from);
    var body := M.Run(g, env, m, j);
    if Cell(s.tape, s.head) != 0 {
      EntersBody(o, env, c, s, body);
    } else {
      LeavesLoop(o, env, d, f, g, s, body);
      M.RunSnoc(g, env, m, j);
      j := j + 1;
    }
  }

  lemma TestedAfter(o: Options, env: M.Env, c: Code, d: Code, g: seq<M.Block>, s: State, m: M.Machine, from: M.Reg)
    returns (j: nat)
    requires Scoped(o, c) && Scoped(o, d) && LoopBetween(o, c, d, g) && Suitable(o, env)
    requires m.Running? && m.block == NewFrame(c).test && m.pc == 0
    requires M.Incoming([(c.head, c.cur), (d.head, d.cur)], m.prev) == Some(from)
    requires Holds(o, env, c.(head := from), s, m.now)
    ensures var body, f := M.Run(g, env, m, j), NewFrame(c);
            && Tested(o, env, f.phi, s, body) && body.prev == f.test
            && body.block == (if Cell(s.tape, s.head) == 0 then |d.blocks| else f.body)
  {
    j := ExecTest(env, g, NewFrame(c), (d.head, d.cur), d.next, |d.blocks|, m, from);
  }

  /** After the test, the head is in the phi, and the rest of the state is untouched. */
  predicate Tested(o: Options, env: M.Env, phi: M.Reg, s: State, m: M.Machine) {
    && m.Running? && m.pc == 0
    && m.now.mem == s.tape && m.now.input == s.input && m.now.output == s.output && m.now.errors == 0
    && ARR in m.now.regs && m.now.regs[ARR] == env.base
    && (o.bounds ==> ARRMAX in m.now.regs && m.now.regs[ARRMAX] == env.base + o.mem && InTape(o, env, s.head))
    && phi in m.now.regs && m.now.regs[phi] == s.head
  }

  lemma EntersBody(o: Options, env: M.Env, c: Code, s: State, m: M.Machine)
    requires Scoped(o, c) && Tested(o, env, c.next, s, m) && m.block == NewFrame(c).body
    ensures AtPoint(Emit(o, c, Loop), m) && Holds(o, env, Emit(o, c, Loop), s, m.now)
  {
  }

  lemma LeavesLoop(o: Options, env: M.Env, d: Code, f: Frame, g: seq<M.Block>, s: State, m: M.Machine)
    requires Scoped(o, d) && d.frames != [] && f == d.frames[|d.frames| - 1]
    requires LoopCode(g, f, (d.head, d.cur), d.next, |d.blocks|)
    requires Tested(o, env, f.phi, s, m) && m.block == |d.blocks| && m.prev == f.test
    ensures var r := M.Step(g, env, m);
            AtPoint(Emit(o, d, EndLoop), r) && Holds(o, env, Emit(o, d, EndLoop), s, r.now)
  {
    assert g[|d.blocks|][0] == M.Phi(d.next + 2, [(f.phi, f.test)]);
  }
}
