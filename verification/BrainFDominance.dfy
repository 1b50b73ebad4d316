/** Every register is defined once, and before each of its uses on every path. */
module BrainFDominance {
  import opened BrainFTokens
  import opened BrainFMachine
  import opened BrainFCodegen
  import opened BrainFWellFormed

  // ----- definitions -----

  /** Where the `x`-th register is defined, if the symbol introduces it. */
  ghost function PlaceOf(o: Options, c: Code, t: Token, x: Reg): (BlockId, int)
    requires Scoped(o, c)
  {
    match t
    case Loop => (|c.blocks|, 0)
    case EndLoop =>
      if c.frames == [] || x == c.next + 2 then (|c.blocks|, 0)
      else (c.frames[|c.frames| - 1].test, x - c.next + 1)
    case _ => (c.cur, |c.blocks[c.cur]| + x - c.next)
  }

  /** A symbol leaves all definitions in place and adds one for each register it takes. */
  lemma EmitDefs(o: Options, c: Code, t: Token, b: BlockId, i: int, x: Reg)
    requires Scoped(o, c)
    ensures var r := Emit(o, c, t);
            DefinesAt(r.blocks, b, i, x) <==>
              DefinesAt(c.blocks, b, i, x) || (c.next <= x < r.next && (b, i) == PlaceOf(o, c, t, x))
  {
    match t
    case Loop =>
    case EndLoop => if c.frames != [] { EndLoopDefs(o, c, b, i, x); }
    case Move(_) => MoveDefs(o, c, t, b, i, x);
    case _ => StraightDefs(o, c, t, b, i, x);
  }

  lemma EndLoopDefs(o: Options, c: Code, b: BlockId, i: int, x: Reg)
    requires Scoped(o, c) && c.frames != []
    ensures var r := Emit(o, c, EndLoop);
            DefinesAt(r.blocks, b, i, x) <==>
              DefinesAt(c.blocks, b, i, x) || (c.next <= x < r.next && (b, i) == PlaceOf(o, c, EndLoop, x))
  {
    TestAfterEndLoop(o, c);
  }

  lemma MoveDefs(o: Options, c: Code, t: Token, b: BlockId, i: int, x: Reg)
    requires Scoped(o, c) && t.Move?
    ensures var r := Emit(o, c, t);
            DefinesAt(r.blocks, b, i, x) <==>
              DefinesAt(c.blocks, b, i, x) || (c.next <= x < r.next && (b, i) == PlaceOf(o, c, t, x))
  {
  }

  lemma StraightDefs(o: Options, c: Code, t: Token, b: BlockId, i: int, x: Reg)
    requires Scoped(o, c) && (t.Read? || t.Write? || t.Change?)
    ensures var r := Emit(o, c, t);
            DefinesAt(r.blocks, b, i, x) <==>
              DefinesAt(c.blocks, b, i, x) || (c.next <= x < r.next && (b, i) == PlaceOf(o, c, t, x))
  {
  }

  ghost predicate DefinedBelow(bs: seq<Block>, next: Reg) {
    forall b, i, x: Reg :: DefinesAt(bs, b, i, x) ==> x < next
  }

  lemma EmitSingleDefinitions(o: Options, c: Code, t: Token)
    requires Scoped(o, c) && SingleDefinitions(c.blocks) && DefinedBelow(c.blocks, c.next)
    ensures SingleDefinitions(Emit(o, c, t).blocks) && DefinedBelow(Emit(o, c, t).blocks, Emit(o, c, t).next)
  {
    var r := Emit(o, c, t);
    forall b, i, x: Reg | DefinesAt(r.blocks, b, i, x)
      ensures x < r.next
    {
      EmitDefs(o, c, t, b, i, x);
    }
    forall b, i, b', i', x | DefinesAt(r.blocks, b, i, x) && DefinesAt(r.blocks, b', i', x)
      ensures b == b' && i == i'
    {
      EmitDefs(o, c, t, b, i, x);
      EmitDefs(o, c, t, b', i', x);
    }
  }

  // ----- availability -----

  /** `r` is available on entry to `b`, as `avail` has it, or defined in `b` before position `i`. */
  ghost predicate Available(avail: seq<set<Reg>>, bs: seq<Block>, b: BlockId, i: int, r: Reg) {
    b < |avail| && b < |bs| && (r in avail[b] || exists j :: 0 <= j < i && DefinesAt(bs, b, j, r))
  }

  ghost predicate AtEnd(avail: seq<set<Reg>>, bs: seq<Block>, b: BlockId, r: Reg) {
    b < |bs| && Available(avail, bs, b, |bs[b]|, r)
  }

  ghost predicate UsesAvailable(avail: seq<set<Reg>>, bs: seq<Block>, b: BlockId, i: int) {
    b < |bs| && 0 <= i < |bs[b]| ==> forall r :: r in Uses(bs[b][i]) ==> Available(avail, bs, b, i, r)
  }

  ghost predicate PhiUsesAvailable(avail: seq<set<Reg>>, bs: seq<Block>, b: BlockId, i: int) {
    b < |bs| && 0 <= i < |bs[b]| && bs[b][i].Phi? ==>
      forall k :: 0 <= k < |bs[b][i].incoming| ==> AtEnd(avail, bs, bs[b][i].incoming[k].1, bs[b][i].incoming[k].0)
  }

  /** What a block may rely on is available at the end of the blocks that lead to it. */
  ghost predicate JumpKeeps(avail: seq<set<Reg>>, bs: seq<Block>, p: BlockId, b: BlockId) {
    Jumps(bs, p, b) && b < |avail| ==> forall r :: r in avail[b] ==> AtEnd(avail, bs, p, r)
  }

  /** Availability accounts for every use and every jump. */
  ghost predicate Justified(avail: seq<set<Reg>>, bs: seq<Block>) {
    && |avail| == |bs| && |bs| > 0 && avail[0] == {}
    && (forall b, i :: UsesAvailable(avail, bs, b, i))
    && (forall b, i :: PhiUsesAvailable(avail, bs, b, i))
    && (forall p, b :: JumpKeeps(avail, bs, p, b))
  }

  // ----- dominance -----

  ghost predicate Path(bs: seq<Block>, p: seq<BlockId>) {
    p != [] && p[0] == 0 && forall i :: 0 <= i < |p| - 1 ==> Jumps(bs, p[i], p[i + 1])
  }

  /** Some block of the path defines `r`, the last one before position `i`. */
  ghost predicate DefinedOn(bs: seq<Block>, p: seq<BlockId>, i: int, r: Reg) {
    exists k, j :: 0 <= k < |p| && DefinesAt(bs, p[k], j, r) && (k < |p| - 1 || j < i)
  }

  /** Definitions dominate uses: whatever path control takes to an instruction, its operands are
      defined on the way; an incoming value of a phi is, on the way to the block it comes from. */
  ghost predicate DefinitionsDominate(bs: seq<Block>) {
    forall p, i :: Path(bs, p) && p[|p| - 1] < |bs| && 0 <= i < |bs[p[|p| - 1]]| ==> OperandsDefined(bs, p, i)
  }

  ghost predicate OperandsDefined(bs: seq<Block>, p: seq<BlockId>, i: int)
    requires p != [] && p[|p| - 1] < |bs| && 0 <= i < |bs[p[|p| - 1]]|
  {
    var instr := bs[p[|p| - 1]][i];
    && (forall r :: r in Uses(instr) ==> DefinedOn(bs, p, i, r))
    && (instr.Phi? && |p| > 1 && p[|p| - 2] < |bs| ==>
          forall k :: 0 <= k < |instr.incoming| && instr.incoming[k].1 == p[|p| - 2] ==>
            DefinedOn(bs, p[..|p| - 1], |bs[p[|p| - 2]]|, instr.incoming[k].0))
  }

  lemma {:induction false} AvailableIsDefined(avail: seq<set<Reg>>, bs: seq<Block>, p: seq<BlockId>, i: int, r: Reg)
    requires Justified(avail, bs) && Path(bs, p) && Available(avail, bs, p[|p| - 1], i, r)
    ensures DefinedOn(bs, p, i, r)
    decreases |p|
  {
    var b := p[|p| - 1];
    if r in avail[b] {
      var init := p[..|p| - 1];
      assert |p| > 1;
      assert Jumps(bs, p[|p| - 2], p[|p| - 2 + 1]);
      assert JumpKeeps(avail, bs, p[|p| - 2], b);
      assert forall j :: 0 <= j < |init| - 1 ==> Jumps(bs, p[j], p[j + 1]);
      AvailableIsDefined(avail, bs, init, |bs[p[|p| - 2]]|, r);
      var k, j :| 0 <= k < |init| && DefinesAt(bs, init[k], j, r);
      assert DefinesAt(bs, p[k], j, r);
    } else {
      var j :| 0 <= j < i && DefinesAt(bs, b, j, r);
      assert DefinesAt(bs, p[|p| - 1], j, r);
    }
  }

  /** Justified uses are dominated. */
  lemma JustifiedDominates(avail: seq<set<Reg>>, bs: seq<Block>)
    requires Justified(avail, bs)
    ensures DefinitionsDominate(bs)
  {
    forall p, i | Path(bs, p) && p[|p| - 1] < |bs| && 0 <= i < |bs[p[|p| - 1]]|
      ensures OperandsDefined(bs, p, i)
    {
      var b := p[|p| - 1];
      var instr := bs[b][i];
      forall r | r in Uses(instr)
        ensures DefinedOn(bs, p, i, r)
      {
        assert UsesAvailable(avail, bs, b, i);
        AvailableIsDefined(avail, bs, p, i, r);
      }
      if instr.Phi? && |p| > 1 && p[|p| - 2] < |bs| {
        forall k | 0 <= k < |instr.incoming| && instr.incoming[k].1 == p[|p| - 2]
          ensures DefinedOn(bs, p[..|p| - 1], |bs[p[|p| - 2]]|, instr.incoming[k].0)
        {
          assert PhiUsesAvailable(avail, bs, b, i);
          assert forall j :: 0 <= j < |p| - 2 ==> Jumps(bs, p[j], p[j + 1]);
          AvailableIsDefined(avail, bs, p[..|p| - 1], |bs[p[|p| - 2]]|, instr.incoming[k].0);
        }
      }
    }
  }

  // ----- availability in the function under construction -----

  ghost function EndSet(avail: seq<set<Reg>>, bs: seq<Block>, b: BlockId): (s: set<Reg>)
    requires b < |avail| && b < |bs|
    ensures forall r :: r in s <==> AtEnd(avail, bs, b, r)
  {
    avail[b] + (set j, r | 0 <= j < |bs[b]| && r in Defs(bs[b][j]) && DefinesAt(bs, b, j, r) :: r)
  }

  /** The registers every later symbol may use. */
  ghost predicate Held(o: Options, c: Code, r: Reg) {
    r == ARR || r == c.head || (o.bounds && r == ARRMAX)
  }

  ghost predicate HeldAvailable(o: Options, c: Code, avail: seq<set<Reg>>) {
    forall r :: Held(o, c, r) ==> AtEnd(avail, c.blocks, c.cur, r)
  }

  /** What an open loop needs when it is closed is available where code is inserted. */
  ghost predicate FrameAvailable(o: Options, c: Code, avail: seq<set<Reg>>, f: Frame) {
    && f.test < |avail| && f.body < |avail|
    && ARR in avail[f.test] && (o.bounds ==> ARRMAX in avail[f.test])
    && avail[f.body] <= avail[f.test] + {f.phi}
    && forall r :: r in avail[f.test] + {f.phi} ==> AtEnd(avail, c.blocks, c.cur, r)
  }

  /** What an outer loop needs is available in the test of an inner one. */
  ghost predicate Nested(avail: seq<set<Reg>>, f: Frame, inner: Frame) {
    f.test < |avail| && inner.test < |avail| ==> avail[f.test] + {f.phi} <= avail[inner.test]
  }

  ghost predicate Living(o: Options, c: Code, avail: seq<set<Reg>>)
    requires Scoped(o, c)
  {
    && Justified(avail, c.blocks) && HeldAvailable(o, c, avail)
    && (forall i :: 0 <= i < |c.frames| ==> FrameAvailable(o, c, avail, c.frames[i]))
    && (forall i, j :: 0 <= i < j < |c.frames| ==> Nested(avail, c.frames[i], c.frames[j]))
    && avail[END] <= {ARR} && (o.bounds ==> avail[ABERROR] <= {ARR})
  }

  /** The availability of the blocks a symbol adds. */
  ghost function NewAvail(o: Options, c: Code, t: Token, avail: seq<set<Reg>>): (a: seq<set<Reg>>)
    requires Scoped(o, c) && |avail| == |c.blocks|
    ensures avail <= a && |a| == |Emit(o, c, t).blocks|
  {
    var bs := Emit(o, c, t).blocks;
    match t
    case Move(_) => if o.bounds then avail + [EndSet(avail, bs, c.cur)] else avail
    case Loop => avail + [EndSet(avail, bs, c.cur), EndSet(avail, bs, c.cur) + {c.next}]
    case EndLoop =>
      if c.frames == [] then avail else avail + [EndSet(avail, bs, c.frames[|c.frames| - 1].test)]
    case _ => avail
  }

  lemma Carry(o: Options, c: Code, t: Token, avail: seq<set<Reg>>, b: BlockId, i: int, r: Reg)
    requires Scoped(o, c) && |avail| == |c.blocks| && Available(avail, c.blocks, b, i, r)
    ensures Available(NewAvail(o, c, t, avail), Emit(o, c, t).blocks, b, i, r)
  {
    if r !in avail[b] {
      var j :| 0 <= j < i && DefinesAt(c.blocks, b, j, r);
      EmitDefs(o, c, t, b, j, r);
    }
  }

  lemma CarryEnd(o: Options, c: Code, t: Token, avail: seq<set<Reg>>, b: BlockId, r: Reg)
    requires Scoped(o, c) && |avail| == |c.blocks| && AtEnd(avail, c.blocks, b, r)
    ensures AtEnd(NewAvail(o, c, t, avail), Emit(o, c, t).blocks, b, r)
  {
    Carry(o, c, t, avail, b, |c.blocks[b]|, r);
  }

  /** An operand of a new instruction is held, or was defined just before it. */
  ghost predicate OperandKnown(o: Options, c: Code, t: Token, i: int, r: Reg)
    requires Scoped(o, c)
  {
    || Held(o, c, r)
    || (c.next <= r < Emit(o, c, t).next && PlaceOf(o, c, t, r).0 == c.cur && PlaceOf(o, c, t, r).1 < i)
  }

  lemma KnownIsAvailable(o: Options, c: Code, t: Token, avail: seq<set<Reg>>, i: int, r: Reg)
    requires Scoped(o, c) && |avail| == |c.blocks| && HeldAvailable(o, c, avail)
    requires |c.blocks[c.cur]| <= i && OperandKnown(o, c, t, i, r)
    ensures Available(NewAvail(o, c, t, avail), Emit(o, c, t).blocks, c.cur, i, r)
  {
    var a, bs := NewAvail(o, c, t, avail), Emit(o, c, t).blocks;
    if Held(o, c, r) {
      assert AtEnd(avail, c.blocks, c.cur, r);
      Carry(o, c, t, avail, c.cur, |c.blocks[c.cur]|, r);
    } else {
      var j := PlaceOf(o, c, t, r).1;
      EmitDefs(o, c, t, c.cur, j, r);
      assert DefinesAt(bs, c.cur, j, r);
    }
  }

  // ----- uses -----

  /** Only the insertion block grows, apart from the test of a loop that is closed. */
  lemma OnlyCurGrows(o: Options, c: Code, t: Token, b: BlockId)
    requires Scoped(o, c) && b < |c.blocks| && b != c.cur
    requires !(t == EndLoop && c.frames != [] && b == c.frames[|c.frames| - 1].test)
    ensures Emit(o, c, t).blocks[b] == c.blocks[b]
  {
  }

  lemma TestUses(o: Options, c: Code, avail: seq<set<Reg>>, i: int)
    requires Scoped(o, c) && |avail| == |c.blocks| && c.frames != []
    ensures UsesAvailable(NewAvail(o, c, EndLoop, avail), Emit(o, c, EndLoop).blocks, c.frames[|c.frames| - 1].test, i)
  {
    var f, bs := c.frames[|c.frames| - 1], Emit(o, c, EndLoop).blocks;
    TestAfterEndLoop(o, c);
    assert DefinesAt(bs, f.test, 0, f.phi) && DefinesAt(bs, f.test, 1, c.next) && DefinesAt(bs, f.test, 2, c.next + 1);
  }

  lemma NewBlockUses(o: Options, c: Code, t: Token, b: BlockId, i: int)
    requires Scoped(o, c) && |c.blocks| <= b < |Emit(o, c, t).blocks| && 0 <= i < |Emit(o, c, t).blocks[b]|
    ensures Uses(Emit(o, c, t).blocks[b][i]) == {}
  {
  }

  /** What an old instruction uses is still available. */
  lemma OldUses(o: Options, c: Code, t: Token, avail: seq<set<Reg>>, b: BlockId, i: int)
    requires Scoped(o, c) && Living(o, c, avail) && b < |c.blocks| && 0 <= i < |c.blocks[b]|
    requires !(t == EndLoop && c.frames != [] && b == c.frames[|c.frames| - 1].test)
    ensures UsesAvailable(NewAvail(o, c, t, avail), Emit(o, c, t).blocks, b, i)
  {
    assert UsesAvailable(avail, c.blocks, b, i);
    var a, bs := NewAvail(o, c, t, avail), Emit(o, c, t).blocks;
    OldInstruction(o, c, t, b, i);
    forall r | r in Uses(bs[b][i])
      ensures Available(a, bs, b, i, r)
    {
      Carry(o, c, t, avail, b, i, r);
    }
  }

  lemma OldInstruction(o: Options, c: Code, t: Token, b: BlockId, i: int)
    requires Scoped(o, c) && b < |c.blocks| && 0 <= i < |c.blocks[b]|
    requires !(t == EndLoop && c.frames != [] && b == c.frames[|c.frames| - 1].test)
    ensures var bs := Emit(o, c, t).blocks; b < |bs| && i < |bs[b]| && bs[b][i] == c.blocks[b][i]
  {
    if b != c.cur {
      OnlyCurGrows(o, c, t, b);
    }
  }

  lemma OperandIsKnown(o: Options, c: Code, t: Token, i: int, r: Reg)
    requires Scoped(o, c) && |c.blocks[c.cur]| <= i < |Emit(o, c, t).blocks[c.cur]|
    requires r in Uses(Emit(o, c, t).blocks[c.cur][i])
    ensures OperandKnown(o, c, t, i, r)
  {
    match t
    case Move(k) => MoveOperandIsKnown(o, c, k, i, r);
    case _ =>
  }

  lemma MoveOperandIsKnown(o: Options, c: Code, k: int, i: int, r: Reg)
    requires Scoped(o, c) && |c.blocks[c.cur]| <= i < |Emit(o, c, Move(k)).blocks[c.cur]|
    requires r in Uses(Emit(o, c, Move(k)).blocks[c.cur][i])
    ensures OperandKnown(o, c, Move(k), i, r)
  {
  }

  /** What a new instruction of the insertion block uses is known by then. */
  lemma CurUses(o: Options, c: Code, t: Token, avail: seq<set<Reg>>, b: BlockId, i: int)
    requires Scoped(o, c) && Living(o, c, avail) && b < |c.blocks| && |c.blocks[b]| <= i < |Emit(o, c, t).blocks[b]|
    requires !(t == EndLoop && c.frames != [] && b == c.frames[|c.frames| - 1].test)
    ensures UsesAvailable(NewAvail(o, c, t, avail), Emit(o, c, t).blocks, b, i)
  {
    OnlyCurGrowsAt(o, c, t, b, i);
    forall r | r in Uses(Emit(o, c, t).blocks[b][i])
      ensures Available(NewAvail(o, c, t, avail), Emit(o, c, t).blocks, b, i, r)
    {
      OperandIsKnown(o, c, t, i, r);
      KnownIsAvailable(o, c, t, avail, i, r);
    }
  }

  lemma EmitUses(o: Options, c: Code, t: Token, avail: seq<set<Reg>>, b: BlockId, i: int)
    requires Scoped(o, c) && Living(o, c, avail)
    ensures UsesAvailable(NewAvail(o, c, t, avail), Emit(o, c, t).blocks, b, i)
  {
    var bs := Emit(o, c, t).blocks;
    if b < |bs| && 0 <= i < |bs[b]| {
      if b >= |c.blocks| {
        NewBlockUses(o, c, t, b, i);
      } else if t == EndLoop && c.frames != [] && b == c.frames[|c.frames| - 1].test {
        TestUses(o, c, avail, i);
      } else if i < |c.blocks[b]| {
        OldUses(o, c, t, avail, b, i);
      } else {
        CurUses(o, c, t, avail, b, i);
      }
    }
  }

  lemma OnlyCurGrowsAt(o: Options, c: Code, t: Token, b: BlockId, i: int)
    requires Scoped(o, c) && b < |c.blocks| && |c.blocks[b]| <= i < |Emit(o, c, t).blocks[b]|
    requires !(t == EndLoop && c.frames != [] && b == c.frames[|c.frames| - 1].test)
    ensures b == c.cur
  {
    if b != c.cur {
      OnlyCurGrows(o, c, t, b);
    }
  }

  // ----- incoming values -----

  lemma ClosedPhiUses(o: Options, c: Code, avail: seq<set<Reg>>, i: int)
    requires Scoped(o, c) && Living(o, c, avail) && c.frames != []
    ensures var test := c.frames[|c.frames| - 1].test;
            PhiUsesAvailable(NewAvail(o, c, EndLoop, avail), Emit(o, c, EndLoop).blocks, test, i)
  {
    var f := c.frames[|c.frames| - 1];
    TestAfterEndLoop(o, c);
    assert c.blocks[f.test] == [Phi(f.phi, [f.entry])];
    assert PhiUsesAvailable(avail, c.blocks, f.test, 0);
    assert c.blocks[f.test][0].Phi? && [f.entry][0] == f.entry;
    CarryEnd(o, c, EndLoop, avail, f.entry.1, f.entry.0);
    assert Held(o, c, c.head);
    CarryEnd(o, c, EndLoop, avail, c.cur, c.head);
  }

  lemma NewPhiUses(o: Options, c: Code, t: Token, avail: seq<set<Reg>>, b: BlockId, i: int)
    requires Scoped(o, c) && Living(o, c, avail) && |c.blocks| <= b
    ensures PhiUsesAvailable(NewAvail(o, c, t, avail), Emit(o, c, t).blocks, b, i)
  {
    match t
    case Loop =>
      assert Held(o, c, c.head);
      CarryEnd(o, c, t, avail, c.cur, c.head);
    case EndLoop =>
      if c.frames != [] {
        var f, bs := c.frames[|c.frames| - 1], Emit(o, c, t).blocks;
        TestAfterEndLoop(o, c);
        assert DefinesAt(bs, f.test, 0, f.phi);
      }
    case _ =>
  }

  lemma EmitPhiUses(o: Options, c: Code, t: Token, avail: seq<set<Reg>>, b: BlockId, i: int)
    requires Scoped(o, c) && Living(o, c, avail)
    ensures PhiUsesAvailable(NewAvail(o, c, t, avail), Emit(o, c, t).blocks, b, i)
  {
    if b >= |c.blocks| {
      NewPhiUses(o, c, t, avail, b, i);
    } else if t == EndLoop && c.frames != [] && b == c.frames[|c.frames| - 1].test {
      ClosedPhiUses(o, c, avail, i);
    } else {
      OldPhiUses(o, c, t, avail, b, i);
    }
  }

  lemma OldPhiUses(o: Options, c: Code, t: Token, avail: seq<set<Reg>>, b: BlockId, i: int)
    requires Scoped(o, c) && Living(o, c, avail) && b < |c.blocks|
    requires !(t == EndLoop && c.frames != [] && b == c.frames[|c.frames| - 1].test)
    ensures PhiUsesAvailable(NewAvail(o, c, t, avail), Emit(o, c, t).blocks, b, i)
  {
    var bs: seq<Block> := Emit(o, c, t).blocks;
    GrownBlock(o, c, t, b);
    if 0 <= i < |bs[b]| && bs[b][i].Phi? {
      assert bs[b][i] == c.blocks[b][i];
      assert PhiUsesAvailable(avail, c.blocks, b, i);
      forall k | 0 <= k < |bs[b][i].incoming|
        ensures AtEnd(NewAvail(o, c, t, avail), bs, bs[b][i].incoming[k].1, bs[b][i].incoming[k].0)
      {
        CarryEnd(o, c, t, avail, bs[b][i].incoming[k].1, bs[b][i].incoming[k].0);
      }
    }
  }

  // ----- jumps -----

  lemma OldJumpKeeps(o: Options, c: Code, t: Token, avail: seq<set<Reg>>, p: BlockId, b: BlockId)
    requires Scoped(o, c) && Living(o, c, avail) && Jumps(c.blocks, p, b) && b < |c.blocks|
    ensures JumpKeeps(NewAvail(o, c, t, avail), Emit(o, c, t).blocks, p, b)
  {
    assert JumpKeeps(avail, c.blocks, p, b);
    var a, bs := NewAvail(o, c, t, avail), Emit(o, c, t).blocks;
    if Jumps(bs, p, b) {
      forall r | r in a[b]
        ensures AtEnd(a, bs, p, r)
      {
        CarryEnd(o, c, t, avail, p, r);
      }
    }
  }

  lemma EmitJumpKeeps(o: Options, c: Code, t: Token, avail: seq<set<Reg>>, p: BlockId, b: BlockId)
    requires Scoped(o, c) && TerminatorsInPlace(c) && PhisInPlace(o, c) && Living(o, c, avail)
    ensures JumpKeeps(NewAvail(o, c, t, avail), Emit(o, c, t).blocks, p, b)
  {
    if Jumps(Emit(o, c, t).blocks, p, b) {
      EmitJumps(o, c, t, p, b);
      if Jumps(c.blocks, p, b) {
        OldJumpKeeps(o, c, t, avail, p, b);
      } else if p == c.cur {
        JumpFromCur(o, c, t, avail, b);
      } else {
        JumpFromTest(o, c, avail, b);
      }
    }
  }

  lemma JumpFromCur(o: Options, c: Code, t: Token, avail: seq<set<Reg>>, b: BlockId)
    requires Scoped(o, c) && Living(o, c, avail) && (c.cur, b) in NewJumps(o, c, t)
    ensures JumpKeeps(NewAvail(o, c, t, avail), Emit(o, c, t).blocks, c.cur, b)
  {
    var a, bs := NewAvail(o, c, t, avail), Emit(o, c, t).blocks;
    if b == |c.blocks| {
      NewAvailIsEndSet(o, c, t, avail);
    } else {
      forall r | r in avail[b]
        ensures AtEnd(a, bs, c.cur, r)
      {
        OldTargetAvailable(o, c, t, avail, b, r);
        CarryEnd(o, c, t, avail, c.cur, r);
      }
    }
  }

  lemma OldTargetAvailable(o: Options, c: Code, t: Token, avail: seq<set<Reg>>, b: BlockId, r: Reg)
    requires Scoped(o, c) && Living(o, c, avail) && (c.cur, b) in NewJumps(o, c, t)
    requires b < |c.blocks| && r in avail[b]
    ensures AtEnd(avail, c.blocks, c.cur, r)
  {
    if t.Move? {
      assert Held(o, c, r);
    } else {
      CurNeverOpen(o, c);
      assert FrameAvailable(o, c, avail, c.frames[|c.frames| - 1]);
    }
  }

  /** The first new block starts with what is available at the end of its predecessor. */
  lemma NewAvailIsEndSet(o: Options, c: Code, t: Token, avail: seq<set<Reg>>)
    requires Scoped(o, c) && |avail| == |c.blocks| && (c.cur, |c.blocks|) in NewJumps(o, c, t)
    ensures forall r :: r in NewAvail(o, c, t, avail)[|c.blocks|] ==>
              AtEnd(NewAvail(o, c, t, avail), Emit(o, c, t).blocks, c.cur, r)
  {
    forall r | r in NewAvail(o, c, t, avail)[|c.blocks|]
      ensures AtEnd(NewAvail(o, c, t, avail), Emit(o, c, t).blocks, c.cur, r)
    {
      assert AtEnd(avail, Emit(o, c, t).blocks, c.cur, r);
    }
  }

  lemma JumpFromTest(o: Options, c: Code, avail: seq<set<Reg>>, b: BlockId)
    requires Scoped(o, c) && Living(o, c, avail) && c.frames != []
    requires (c.frames[|c.frames| - 1].test, b) in NewJumps(o, c, EndLoop) && c.frames[|c.frames| - 1].test != c.cur
    ensures JumpKeeps(NewAvail(o, c, EndLoop, avail), Emit(o, c, EndLoop).blocks, c.frames[|c.frames| - 1].test, b)
  {
    var a, bs := NewAvail(o, c, EndLoop, avail), Emit(o, c, EndLoop).blocks;
    var f := c.frames[|c.frames| - 1];
    assert FrameAvailable(o, c, avail, f);
    TestAfterEndLoop(o, c);
    assert DefinesAt(bs, f.test, 0, f.phi);
    forall r | r in a[b]
      ensures AtEnd(a, bs, f.test, r)
    {
      if b == |c.blocks| {
        assert AtEnd(avail, bs, f.test, r);
      }
    }
  }

  lemma EmitJustified(o: Options, c: Code, t: Token, avail: seq<set<Reg>>)
    requires Scoped(o, c) && TerminatorsInPlace(c) && PhisInPlace(o, c) && Living(o, c, avail)
    ensures Justified(NewAvail(o, c, t, avail), Emit(o, c, t).blocks)
  {
    forall b: BlockId, i: int
      ensures UsesAvailable(NewAvail(o, c, t, avail), Emit(o, c, t).blocks, b, i)
      ensures PhiUsesAvailable(NewAvail(o, c, t, avail), Emit(o, c, t).blocks, b, i)
    {
      EmitUses(o, c, t, avail, b, i);
      EmitPhiUses(o, c, t, avail, b, i);
    }
    forall p: BlockId, b: BlockId
      ensures JumpKeeps(NewAvail(o, c, t, avail), Emit(o, c, t).blocks, p, b)
    {
      EmitJumpKeeps(o, c, t, avail, p, b);
    }
  }

  // ----- what stays available -----

  /** Old blocks keep their availability. */
  lemma SameAvail(o: Options, c: Code, t: Token, avail: seq<set<Reg>>, b: BlockId, r: Reg)
    requires Scoped(o, c) && |avail| == |c.blocks| && b < |c.blocks| && AtEnd(avail, c.blocks, b, r)
    ensures AtEnd(avail, Emit(o, c, t).blocks, b, r)
  {
    CarryEnd(o, c, t, avail, b, r);
  }

  /** What is available where code is inserted stays so, unless a loop is closed. */
  lemma CurKeeps(o: Options, c: Code, t: Token, avail: seq<set<Reg>>, r: Reg)
    requires Scoped(o, c) && |avail| == |c.blocks| && AtEnd(avail, c.blocks, c.cur, r)
    requires t != EndLoop || c.frames == []
    ensures AtEnd(NewAvail(o, c, t, avail), Emit(o, c, t).blocks, Emit(o, c, t).cur, r)
  {
    CarryEnd(o, c, t, avail, c.cur, r);
    SameAvail(o, c, t, avail, c.cur, r);
  }

  /** Closing a loop leaves available what was available in its test. */
  lemma ExitKeeps(o: Options, c: Code, avail: seq<set<Reg>>, r: Reg)
    requires Scoped(o, c) && |avail| == |c.blocks| && c.frames != []
    requires r in avail[c.frames[|c.frames| - 1].test]
    ensures AtEnd(NewAvail(o, c, EndLoop, avail), Emit(o, c, EndLoop).blocks, Emit(o, c, EndLoop).cur, r)
  {
    assert AtEnd(avail, Emit(o, c, EndLoop).blocks, c.frames[|c.frames| - 1].test, r);
  }

  lemma NewHead(o: Options, c: Code, t: Token, avail: seq<set<Reg>>)
    requires Scoped(o, c) && Living(o, c, avail)
    ensures AtEnd(NewAvail(o, c, t, avail), Emit(o, c, t).blocks, Emit(o, c, t).cur, Emit(o, c, t).head)
  {
    var a, bs := NewAvail(o, c, t, avail), Emit(o, c, t).blocks;
    if t == EndLoop && c.frames != [] {
      assert DefinesAt(bs, |c.blocks|, 0, c.next + 2);
    } else if t.Move? {
      assert DefinesAt(bs, c.cur, |c.blocks[c.cur]|, c.next);
      assert AtEnd(avail, bs, c.cur, c.next);
    } else if t != Loop {
      assert Held(o, c, c.head);
      CurKeeps(o, c, t, avail, c.head);
    }
  }

  lemma EmitHeld(o: Options, c: Code, t: Token, avail: seq<set<Reg>>)
    requires Scoped(o, c) && Living(o, c, avail)
    ensures HeldAvailable(o, Emit(o, c, t), NewAvail(o, c, t, avail))
  {
    forall r | Held(o, Emit(o, c, t), r)
      ensures AtEnd(NewAvail(o, c, t, avail), Emit(o, c, t).blocks, Emit(o, c, t).cur, r)
    {
      if r == Emit(o, c, t).head {
        NewHead(o, c, t, avail);
      } else {
        assert Held(o, c, r);
        if t == EndLoop && c.frames != [] {
          assert FrameAvailable(o, c, avail, c.frames[|c.frames| - 1]);
          ExitKeeps(o, c, avail, r);
        } else {
          CurKeeps(o, c, t, avail, r);
        }
      }
    }
  }

  lemma OldFrame(o: Options, c: Code, t: Token, avail: seq<set<Reg>>, i: nat)
    requires Scoped(o, c) && Living(o, c, avail) && i < |c.frames| && i < |Emit(o, c, t).frames|
    ensures FrameAvailable(o, Emit(o, c, t), NewAvail(o, c, t, avail), c.frames[i])
  {
    var f, a := c.frames[i], NewAvail(o, c, t, avail);
    assert FrameAvailable(o, c, avail, f);
    EmitFrames(o, c, t);
    forall r | r in a[f.test] + {f.phi}
      ensures AtEnd(a, Emit(o, c, t).blocks, Emit(o, c, t).cur, r)
    {
      if t == EndLoop {
        assert Nested(avail, f, c.frames[|c.frames| - 1]);
        assert FrameAvailable(o, c, avail, c.frames[|c.frames| - 1]);
        ExitKeeps(o, c, avail, r);
      } else {
        CurKeeps(o, c, t, avail, r);
      }
    }
  }

  lemma NewFrameAvailable(o: Options, c: Code, avail: seq<set<Reg>>)
    requires Scoped(o, c) && Living(o, c, avail)
    ensures FrameAvailable(o, Emit(o, c, Loop), NewAvail(o, c, Loop, avail), NewFrame(c))
    ensures forall i :: 0 <= i < |c.frames| ==> Nested(NewAvail(o, c, Loop, avail), c.frames[i], NewFrame(c))
  {
    var a := NewAvail(o, c, Loop, avail);
    assert Held(o, c, ARR) && (o.bounds ==> Held(o, c, ARRMAX));
    SameAvail(o, c, Loop, avail, c.cur, ARR);
    if o.bounds { SameAvail(o, c, Loop, avail, c.cur, ARRMAX); }
    forall i, r | 0 <= i < |c.frames| && r in avail[c.frames[i].test] + {c.frames[i].phi}
      ensures r in a[|c.blocks|]
    {
      assert FrameAvailable(o, c, avail, c.frames[i]);
      SameAvail(o, c, Loop, avail, c.cur, r);
    }
    forall i | 0 <= i < |c.frames|
      ensures Nested(a, c.frames[i], NewFrame(c))
    {
      assert FrameAvailable(o, c, avail, c.frames[i]);
    }
  }

  lemma EmitNested(o: Options, c: Code, t: Token, avail: seq<set<Reg>>, i: nat, j: nat)
    requires Scoped(o, c) && Living(o, c, avail) && i < j < |Emit(o, c, t).frames|
    ensures Nested(NewAvail(o, c, t, avail), Emit(o, c, t).frames[i], Emit(o, c, t).frames[j])
  {
    EmitFrames(o, c, t);
    if j < |c.frames| {
      assert Nested(avail, c.frames[i], c.frames[j]);
      assert FrameAvailable(o, c, avail, c.frames[i]) && FrameAvailable(o, c, avail, c.frames[j]);
    } else {
      NewFrameAvailable(o, c, avail);
    }
  }

  lemma EmitLiving(o: Options, c: Code, t: Token, avail: seq<set<Reg>>)
    requires Scoped(o, c) && TerminatorsInPlace(c) && PhisInPlace(o, c) && Living(o, c, avail)
    ensures Living(o, Emit(o, c, t), NewAvail(o, c, t, avail))
  {
    EmitJustified(o, c, t, avail);
    EmitHeld(o, c, t, avail);
    EmitFrames(o, c, t);
    forall i | 0 <= i < |Emit(o, c, t).frames|
      ensures FrameAvailable(o, Emit(o, c, t), NewAvail(o, c, t, avail), Emit(o, c, t).frames[i])
    {
      if i < |c.frames| {
        OldFrame(o, c, t, avail, i);
      } else {
        NewFrameAvailable(o, c, avail);
      }
    }
    forall i, j | 0 <= i < j < |Emit(o, c, t).frames|
      ensures Nested(NewAvail(o, c, t, avail), Emit(o, c, t).frames[i], Emit(o, c, t).frames[j])
    {
      EmitNested(o, c, t, avail, i, j);
    }
  }
}
