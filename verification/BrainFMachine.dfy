/** The instructions the compiler emits and a machine that runs them.  A block is a list of
    instructions; control leaves it only through its terminator. */
module BrainFMachine {
  import opened Wrappers

  import opened BrainFSource

  type Reg = nat
  type BlockId = nat

  datatype Instr =
    | Malloc(dst: Reg, size: nat)
    | MemZero(ptr: Reg, size: nat)
    | Gep(dst: Reg, ptr: Reg, offset: int)
    | GetChar(dst: Reg)
    | Trunc(dst: Reg, arg: Reg)
    | SExt(dst: Reg, arg: Reg)
    | PutChar(arg: Reg)
    | Puts
    | Load(dst: Reg, ptr: Reg)
    | Store(arg: Reg, ptr: Reg)
    | AddI8(dst: Reg, arg: Reg, imm: int)
    | ICmpUge(dst: Reg, lhs: Reg, rhs: Reg)
    | ICmpUlt(dst: Reg, lhs: Reg, rhs: Reg)
    | ICmpEqZero(dst: Reg, arg: Reg)
    | Or(dst: Reg, lhs: Reg, rhs: Reg)
    | Phi(dst: Reg, incoming: seq<(Reg, BlockId)>)
    | Free(ptr: Reg)
    | Br(target: BlockId)
    | CondBr(cond: Reg, ifTrue: BlockId, ifFalse: BlockId)
    | Ret

  type Block = seq<Instr>

  /** Where malloc places the tape, and whether only the `limit` cells from there exist, which are
      then all it hands out.  With no limit the tape is unbounded, as in the language definition. */
  datatype Env = Env(base: int, limit: Option<nat>)

  predicate Accessible(env: Env, a: int) {
    env.limit.None? || env.base <= a < env.base + env.limit.value
  }

  /** The `n` cells from `a` on are all accessible. */
  predicate AllAccessible(env: Env, a: int, n: nat) {
    env.limit.None? || (env.base <= a && a + n <= env.base + env.limit.value)
  }

  /** Registers, memory and the two streams; `errors` counts the error messages printed. */
  datatype Data = Data(regs: map<Reg, int>, mem: Tape, input: seq<Byte>, output: seq<Byte>, errors: nat)

  /** A frame executing `blocks[block][pc]`, entered from `prev`; or the function has returned;
      or it has done something undefined: touched memory outside the tape, asked malloc for more or
      less than there is, freed anything else, read a register never written, or run off a block. */
  datatype Machine =
    | Running(block: BlockId, pc: nat, prev: BlockId, now: Data)
    | Done(end: Data)
    | Fault

  predicate Terminator(i: Instr) {
    i.Br? || i.CondBr? || i.Ret?
  }

  /** The registers an instruction reads, apart from the incoming values of a phi. */
  function Uses(i: Instr): set<Reg> {
    match i
    case MemZero(p, _) => {p}
    case Gep(_, p, _) => {p}
    case Trunc(_, a) => {a}
    case SExt(_, a) => {a}
    case PutChar(a) => {a}
    case Load(_, p) => {p}
    case Store(a, p) => {a, p}
    case AddI8(_, a, _) => {a}
    case ICmpUge(_, a, b) => {a, b}
    case ICmpUlt(_, a, b) => {a, b}
    case ICmpEqZero(_, a) => {a}
    case Or(_, a, b) => {a, b}
    case Free(p) => {p}
    case CondBr(c, _, _) => {c}
    case _ => {}
  }

  /** The value a phi takes when its block is entered from `prev`. */
  function Incoming(incoming: seq<(Reg, BlockId)>, prev: BlockId): Option<Reg> {
    if incoming == [] then None
    else if incoming[0].1 == prev then Some(incoming[0].0)
    else Incoming(incoming[1..], prev)
  }

  function Signed(b: Byte): int {
    if b < 128 then b else b - 256
  }

  function Set(d: Data, dst: Reg, v: int): Option<Data> {
    Some(d.(regs := d.regs[dst := v]))
  }

  /** Execute an instruction that is not a terminator and whose operands are all defined;
      None if that is undefined. */
  function Execute(i: Instr, env: Env, prev: BlockId, d: Data): Option<Data>
    requires Uses(i) <= d.regs.Keys && !Terminator(i)
  {
    var r := d.regs;
    match i
    case Malloc(dst, n) => if env.limit.None? || env.limit.value == n then Set(d, dst, env.base) else None
    case MemZero(p, n) =>
      if AllAccessible(env, r[p], n) then Some(d.(mem := map a | a in d.mem && !(r[p] <= a < r[p] + n) :: d.mem[a]))
      else None
    case Gep(dst, p, off) => Set(d, dst, r[p] + off)
    case GetChar(dst) =>
      Set(d.(input := Rest(d.input)), dst, if d.input == [] then -1 else d.input[0])
    case Trunc(dst, a) => Set(d, dst, r[a] % 256)
    case SExt(dst, a) => Set(d, dst, Signed(r[a] % 256))
    case PutChar(a) => Some(d.(output := d.output + [r[a] % 256]))
    case Puts => Some(d.(errors := d.errors + 1))
    case Load(dst, p) => if Accessible(env, r[p]) then Set(d, dst, Cell(d.mem, r[p])) else None
    case Store(a, p) =>
      if Accessible(env, r[p]) then Some(d.(mem := d.mem[r[p] := r[a] % 256])) else None
    case AddI8(dst, a, k) => Set(d, dst, (r[a] + k) % 256)
    case ICmpUge(dst, a, b) => Set(d, dst, if r[a] >= r[b] then 1 else 0)
    case ICmpUlt(dst, a, b) => Set(d, dst, if r[a] < r[b] then 1 else 0)
    case ICmpEqZero(dst, a) => Set(d, dst, if r[a] == 0 then 1 else 0)
    case Or(dst, a, b) => Set(d, dst, if r[a] != 0 || r[b] != 0 then 1 else 0)
    case Phi(dst, incoming) =>
      var v := Incoming(incoming, prev);
      if v.Some? && v.value in r then Set(d, dst, r[v.value]) else None
    case Free(p) => if r[p] == env.base then Some(d) else None
  }

  function Step(blocks: seq<Block>, env: Env, m: Machine): Machine {
    if !m.Running? then m
    else if m.block >= |blocks| || m.pc >= |blocks[m.block]| then Fault
    else
      var i := blocks[m.block][m.pc];
      if !(Uses(i) <= m.now.regs.Keys) then Fault
      else match i
        case Br(t) => Running(t, 0, m.block, m.now)
        case CondBr(c, t, f) => Running(if m.now.regs[c] != 0 then t else f, 0, m.block, m.now)
        case Ret => Done(m.now)
        case _ =>
          match Execute(i, env, m.prev, m.now)
          case Some(d) => Running(m.block, m.pc + 1, m.prev, d)
          case None => Fault
  }

  function Run(blocks: seq<Block>, env: Env, m: Machine, n: nat): Machine
    decreases n
  {
    if n == 0 then m else Run(blocks, env, Step(blocks, env, m), n - 1)
  }

  /** Entry to the function: nothing in registers, and whatever malloc left in the tape's cells. */
  predicate Initial(m: Machine, env: Env, size: nat, input: seq<Byte>) {
    && m.Running? && m.block == 0 && m.pc == 0
    && m.now == Data(map[], m.now.mem, input, [], 0)
    && forall a :: a in m.now.mem ==> env.base <= a < env.base + size
  }

  lemma {:induction false} RunAdds(blocks: seq<Block>, env: Env, m: Machine, i: nat, j: nat)
    ensures Run(blocks, env, m, i + j) == Run(blocks, env, Run(blocks, env, m, i), j)
    decreases i
  {
    if i != 0 {
      RunAdds(blocks, env, Step(blocks, env, m), i - 1, j);
    }
  }

  lemma {:induction false} RunSnoc(blocks: seq<Block>, env: Env, m: Machine, n: nat)
    ensures Run(blocks, env, m, n + 1) == Step(blocks, env, Run(blocks, env, m, n))
    decreases n
  {
    if n != 0 {
      RunSnoc(blocks, env, Step(blocks, env, m), n - 1);
    }
  }

  lemma {:induction false} StoppedStays(blocks: seq<Block>, env: Env, m: Machine, n: nat)
    requires !m.Running?
    ensures Run(blocks, env, m, n) == m
    decreases n
  {
    if n != 0 {
      StoppedStays(blocks, env, m, n - 1);
    }
  }

  /** A run that is not in a fault later was not in one earlier. */
  lemma NoFaultBefore(blocks: seq<Block>, env: Env, m: Machine, i: nat, j: nat)
    requires i <= j && !Run(blocks, env, m, j).Fault?
    ensures !Run(blocks, env, m, i).Fault?
  {
    RunAdds(blocks, env, m, i, j - i);
    if Run(blocks, env, m, i).Fault? {
      StoppedStays(blocks, env, Run(blocks, env, m, i), j - i);
    }
  }
}
