/** The static shape of emitted functions: terminators, phis and the blocks that lead to them, and
    single definitions. */
module BrainFWellFormed {
  import opened BrainFTokens
  import opened BrainFMachine
  import opened BrainFCodegen

  // ----- what a well-formed function is -----

  function TargetsOf(i: Instr): set<BlockId> {
    match i
    case Br(t) => {t}
    case CondBr(_, t, f) => {t, f}
    case _ => {}
  }

  /** Control may go from block `p` to block `b`. */
  ghost predicate Jumps(bs: seq<Block>, p: BlockId, b: BlockId) {
    p < |bs| && exists i :: 0 <= i < |bs[p]| && b in TargetsOf(bs[p][i])
  }

  predicate Unfinished(block: Block) {
    forall i :: 0 <= i < |block| ==> !Terminator(block[i])
  }

  /** Exactly one terminator, at the end. */
  predicate Finished(block: Block) {
    block != [] && Terminator(block[|block| - 1]) && Unfinished(block[..|block| - 1])
  }

  ghost predicate ComesFrom(incoming: seq<(Reg, BlockId)>, p: BlockId) {
    exists k :: 0 <= k < |incoming| && incoming[k].1 == p
  }

  /** One incoming value for each predecessor, and none for other blocks. */
  ghost predicate Matches(bs: seq<Block>, b: BlockId, incoming: seq<(Reg, BlockId)>) {
    && (forall p :: ComesFrom(incoming, p) <==> Jumps(bs, p, b))
    && (forall k, j :: 0 <= k < j < |incoming| ==> incoming[k].1 != incoming[j].1)
  }

  /** Phis come first in their block and match its predecessors. */
  ghost predicate PhisMatch(bs: seq<Block>, b: BlockId)
    requires b < |bs|
  {
    forall i :: 0 <= i < |bs[b]| && bs[b][i].Phi? ==> i == 0 && Matches(bs, b, bs[b][i].incoming)
  }

  /** The register an instruction defines, if any. */
  function Defs(i: Instr): set<Reg> {
    match i
    case Malloc(d, _) => {d}
    case Gep(d, _, _) => {d}
    case GetChar(d) => {d}
    case Trunc(d, _) => {d}
    case SExt(d, _) => {d}
    case Load(d, _) => {d}
    case AddI8(d, _, _) => {d}
    case ICmpUge(d, _, _) => {d}
    case ICmpUlt(d, _, _) => {d}
    case ICmpEqZero(d, _) => {d}
    case Or(d, _, _) => {d}
    case Phi(d, _) => {d}
    case _ => {}
  }

  predicate DefinesAt(bs: seq<Block>, b: BlockId, i: int, r: Reg) {
    b < |bs| && 0 <= i < |bs[b]| && r in Defs(bs[b][i])
  }

  ghost predicate SingleDefinitions(bs: seq<Block>) {
    forall b, i, b', i', r :: DefinesAt(bs, b, i, r) && DefinesAt(bs, b', i', r) ==> b == b' && i == i'
  }

  // ----- which loops are open -----

  lemma OpensAfterLoop(o: Options, c: Code, b: BlockId)
    requires Scoped(o, c)
    ensures IsOpen(Emit(o, c, Loop), b) <==> IsOpen(c, b) || b == |c.blocks|
  {
    var r := Emit(o, c, Loop);
    assert r.frames[|c.frames|].test == |c.blocks|;
    if IsOpen(c, b) {
      var i :| 0 <= i < |c.frames| && c.frames[i].test == b;
      assert r.frames[i].test == b;
    }
  }

  lemma OpensAfterEndLoop(o: Options, c: Code, b: BlockId)
    requires Scoped(o, c) && c.frames != []
    ensures IsOpen(Emit(o, c, EndLoop), b) <==> IsOpen(c, b) && b != c.frames[|c.frames| - 1].test
  {
    var r := Emit(o, c, EndLoop);
    if IsOpen(c, b) && b != c.frames[|c.frames| - 1].test {
      var i :| 0 <= i < |c.frames| && c.frames[i].test == b;
      assert r.frames[i].test == b;
    }
    if IsOpen(r, b) {
      var i :| 0 <= i < |r.frames| && r.frames[i].test == b;
      assert c.frames[i].test == b;
    }
  }

  // ----- terminators -----

  /** The insertion block and the tests of open loops are unfinished, all others finished. */
  ghost predicate TerminatorsInPlace(c: Code) {
    forall b :: 0 <= b < |c.blocks| ==>
      if b == c.cur || IsOpen(c, b) then Unfinished(c.blocks[b]) else Finished(c.blocks[b])
  }

  lemma EmitTerminators(o: Options, c: Code, t: Token)
    requires Scoped(o, c) && TerminatorsInPlace(c)
    ensures TerminatorsInPlace(Emit(o, c, t))
  {
    match t
    case Loop => LoopTerminators(o, c);
    case EndLoop => EndLoopTerminators(o, c);
    case _ => OtherTerminators(o, c, t);
  }

  lemma LoopTerminators(o: Options, c: Code)
    requires Scoped(o, c) && TerminatorsInPlace(c)
    ensures TerminatorsInPlace(Emit(o, c, Loop))
  {
    CurNeverOpen(o, c);
    forall b { OpensAfterLoop(o, c, b); }
  }

  lemma EndLoopTerminators(o: Options, c: Code)
    requires Scoped(o, c) && TerminatorsInPlace(c)
    ensures TerminatorsInPlace(Emit(o, c, EndLoop))
  {
    CurNeverOpen(o, c);
    if c.frames != [] {
      forall b { OpensAfterEndLoop(o, c, b); }
    }
  }

  lemma OtherTerminators(o: Options, c: Code, t: Token)
    requires Scoped(o, c) && TerminatorsInPlace(c) && !t.Loop? && !t.EndLoop?
    ensures TerminatorsInPlace(Emit(o, c, t))
  {
    CurNeverOpen(o, c);
  }

  // ----- jumps -----

  predicate Leads(block: Block, b: BlockId) {
    exists i :: 0 <= i < |block| && b in TargetsOf(block[i])
  }

  lemma JumpsIsLeads(bs: seq<Block>, p: BlockId, b: BlockId)
    ensures Jumps(bs, p, b) <==> p < |bs| && Leads(bs[p], b)
  {
  }

  lemma LastLeads(block: Block, b: BlockId)
    requires block != [] && Unfinished(block[..|block| - 1])
    ensures Leads(block, b) <==> b in TargetsOf(block[|block| - 1])
  {
    assert forall i :: 0 <= i < |block| - 1 ==> block[i] == block[..|block| - 1][i];
  }

  // ----- what each symbol adds to the flow of control -----

  /** The jumps added by a symbol. */
  ghost function NewJumps(o: Options, c: Code, t: Token): set<(BlockId, BlockId)>
    requires Scoped(o, c)
  {
    match t
    case Move(_) => if o.bounds then {(c.cur, ABERROR), (c.cur, |c.blocks|)} else {}
    case Loop => {(c.cur, |c.blocks|)}
    case EndLoop =>
      if c.frames == [] then {}
      else
        var f := c.frames[|c.frames| - 1];
        {(c.cur, f.test), (f.test, |c.blocks|), (f.test, f.body)}
    case _ => {}
  }

  lemma EmitJumps(o: Options, c: Code, t: Token, p: BlockId, b: BlockId)
    requires Scoped(o, c) && TerminatorsInPlace(c)
    ensures Jumps(Emit(o, c, t).blocks, p, b) <==> Jumps(c.blocks, p, b) || (p, b) in NewJumps(o, c, t)
  {
    var r := Emit(o, c, t);
    JumpsIsLeads(c.blocks, p, b);
    JumpsIsLeads(r.blocks, p, b);
    if p == c.cur {
      CurLeads(o, c, t, b);
    } else if t == EndLoop && c.frames != [] && p == c.frames[|c.frames| - 1].test {
      TestLeads(o, c, b);
    }
  }

  lemma CurLeads(o: Options, c: Code, t: Token, b: BlockId)
    requires Scoped(o, c) && TerminatorsInPlace(c)
    ensures !Leads(c.blocks[c.cur], b) && (Leads(Emit(o, c, t).blocks[c.cur], b) <==> (c.cur, b) in NewJumps(o, c, t))
  {
    CurNeverOpen(o, c);
    if Emit(o, c, t).cur != c.cur {
      ClosedBlockLeads(o, c, t, b);
    } else {
      EmitTerminators(o, c, t);
    }
  }

  lemma TestLeads(o: Options, c: Code, b: BlockId)
    requires Scoped(o, c) && c.frames != []
    ensures var f := c.frames[|c.frames| - 1];
            !Leads(c.blocks[f.test], b) && (Leads(Emit(o, c, EndLoop).blocks[f.test], b) <==> b in {|c.blocks|, f.body})
  {
    LastLeads(Emit(o, c, EndLoop).blocks[c.frames[|c.frames| - 1].test], b);
  }

  lemma ClosedBlockLeads(o: Options, c: Code, t: Token, b: BlockId)
    requires Scoped(o, c) && TerminatorsInPlace(c) && Emit(o, c, t).cur != c.cur
    ensures Leads(Emit(o, c, t).blocks[c.cur], b) <==> (c.cur, b) in NewJumps(o, c, t)
  {
    var block := Emit(o, c, t).blocks[c.cur];
    LastLeads(block, b);
    assert b in TargetsOf(block[|block| - 1]) <==> (c.cur, b) in NewJumps(o, c, t);
  }

  // ----- phis -----

  predicate NoPhi(block: Block) {
    forall i :: 0 <= i < |block| ==> !block[i].Phi?
  }

  ghost predicate PhisInPlace(o: Options, c: Code)
    requires Scoped(o, c)
  {
    && (forall b :: 0 <= b < |c.blocks| ==> PhisMatch(c.blocks, b))
    && (forall p: BlockId, b: BlockId :: Jumps(c.blocks, p, b) ==> b < |c.blocks|)
    && NoPhi(c.blocks[END]) && (o.bounds ==> NoPhi(c.blocks[ABERROR]))
    && (forall i :: 0 <= i < |c.frames| ==> NoPhi(c.blocks[c.frames[i].body]))
  }

  /** The tail of a block that has grown holds no phi. */
  lemma GrownBlock(o: Options, c: Code, t: Token, b: BlockId)
    requires Scoped(o, c) && b < |c.blocks|
    requires t == EndLoop && c.frames != [] ==> b != c.frames[|c.frames| - 1].test
    ensures var r := Emit(o, c, t).blocks[b];
            c.blocks[b] <= r && forall i :: |c.blocks[b]| <= i < |r| ==> !r[i].Phi?
  {
  }

  /** New jumps to old blocks go to blocks without phis, except for the jump back to a loop's test. */
  lemma OldPhis(o: Options, c: Code, t: Token, b: BlockId)
    requires Scoped(o, c) && TerminatorsInPlace(c) && PhisInPlace(o, c) && b < |c.blocks|
    requires t == EndLoop && c.frames != [] ==> b != c.frames[|c.frames| - 1].test
    ensures PhisMatch(Emit(o, c, t).blocks, b)
  {
    var rs: seq<Block> := Emit(o, c, t).blocks;
    GrownBlock(o, c, t, b);
    forall i | 0 <= i < |rs[b]| && rs[b][i].Phi?
      ensures i == 0 && Matches(rs, b, rs[b][i].incoming)
    {
      assert rs[b][i] == c.blocks[b][i];
      assert PhisMatch(c.blocks, b);
      forall p: BlockId
        ensures ComesFrom(rs[b][i].incoming, p) <==> Jumps(rs, p, b)
      {
        EmitJumps(o, c, t, p, b);
        if (p, b) in NewJumps(o, c, t) {
          assert false;
        }
      }
    }
  }

  lemma OneSource(r: Reg, p: BlockId, q: BlockId)
    ensures ComesFrom([(r, p)], q) <==> p == q
  {
    assert [(r, p)][0].1 == p;
  }

  lemma TwoSources(r: Reg, p: BlockId, r': Reg, p': BlockId, q: BlockId)
    ensures ComesFrom([(r, p), (r', p')], q) <==> p == q || p' == q
  {
    assert [(r, p), (r', p')][0].1 == p && [(r, p), (r', p')][1].1 == p';
  }

  lemma NewTestPhi(o: Options, c: Code)
    requires Scoped(o, c) && TerminatorsInPlace(c) && PhisInPlace(o, c)
    ensures PhisMatch(Emit(o, c, Loop).blocks, |c.blocks|)
  {
    var rs := Emit(o, c, Loop).blocks;
    var f := NewFrame(c);
    assert rs[|c.blocks|] == [Phi(f.phi, [f.entry])];
    forall p
      ensures ComesFrom([f.entry], p) <==> Jumps(rs, p, |c.blocks|)
    {
      EmitJumps(o, c, Loop, p, |c.blocks|);
      OneSource(c.head, c.cur, p);
    }
  }

  lemma ExitPhi(o: Options, c: Code)
    requires Scoped(o, c) && TerminatorsInPlace(c) && PhisInPlace(o, c) && c.frames != []
    ensures PhisMatch(Emit(o, c, EndLoop).blocks, |c.blocks|)
  {
    var rs := Emit(o, c, EndLoop).blocks;
    var f := c.frames[|c.frames| - 1];
    assert rs[|c.blocks|] == [Phi(c.next + 2, [(f.phi, f.test)])];
    forall p
      ensures ComesFrom([(f.phi, f.test)], p) <==> Jumps(rs, p, |c.blocks|)
    {
      EmitJumps(o, c, EndLoop, p, |c.blocks|);
      OneSource(f.phi, f.test, p);
    }
  }

  /** An open test has one predecessor, the block its loop was entered from. */
  lemma EntryOfOpenTest(o: Options, c: Code, f: Frame)
    requires Scoped(o, c) && TerminatorsInPlace(c) && PhisInPlace(o, c) && f in c.frames
    ensures forall p :: Jumps(c.blocks, p, f.test) <==> p == f.entry.1
    ensures f.entry.1 != c.cur
  {
    var block := c.blocks[f.test];
    assert block == [Phi(f.phi, [f.entry])];
    assert PhisMatch(c.blocks, f.test);
    assert block[0].Phi? && Matches(c.blocks, f.test, [f.entry]);
    forall p
      ensures Jumps(c.blocks, p, f.test) <==> p == f.entry.1
    {
      OneSource(f.entry.0, f.entry.1, p);
      assert ComesFrom([f.entry], p) <==> Jumps(c.blocks, p, f.test);
    }
    JumpsIsLeads(c.blocks, c.cur, f.test);
  }

  /** The two predecessors of a loop's test: where the loop is entered, and where its body ends. */
  lemma ClosedTestPhi(o: Options, c: Code)
    requires Scoped(o, c) && TerminatorsInPlace(c) && PhisInPlace(o, c) && c.frames != []
    ensures PhisMatch(Emit(o, c, EndLoop).blocks, c.frames[|c.frames| - 1].test)
  {
    var rs := Emit(o, c, EndLoop).blocks;
    var f := c.frames[|c.frames| - 1];
    EntryOfOpenTest(o, c, f);
    var incoming := [f.entry, (c.head, c.cur)];
    TestAfterEndLoop(o, c);
    forall p
      ensures ComesFrom(incoming, p) <==> Jumps(rs, p, f.test)
    {
      EmitJumps(o, c, EndLoop, p, f.test);
      TwoSources(f.entry.0, f.entry.1, c.head, c.cur, p);
    }
    assert Matches(rs, f.test, incoming);
  }

  lemma TestAfterEndLoop(o: Options, c: Code)
    requires Scoped(o, c) && c.frames != []
    ensures var f := c.frames[|c.frames| - 1];
            Emit(o, c, EndLoop).blocks[f.test] ==
              [Phi(f.phi, [f.entry, (c.head, c.cur)]), Load(c.next, f.phi), ICmpEqZero(c.next + 1, c.next),
               CondBr(c.next + 1, |c.blocks|, f.body)]
  {
  }

  lemma NewBlocks(o: Options, c: Code, t: Token, b: BlockId)
    requires Scoped(o, c) && TerminatorsInPlace(c) && PhisInPlace(o, c)
    requires |c.blocks| <= b < |Emit(o, c, t).blocks|
    ensures PhisMatch(Emit(o, c, t).blocks, b)
  {
    match t
    case Loop =>
      if b == |c.blocks| { NewTestPhi(o, c); }
    case EndLoop => ExitPhi(o, c);
    case _ =>
  }

  lemma EmitPhis(o: Options, c: Code, t: Token)
    requires Scoped(o, c) && TerminatorsInPlace(c) && PhisInPlace(o, c)
    ensures PhisInPlace(o, Emit(o, c, t))
  {
    var r := Emit(o, c, t);
    forall b | 0 <= b < |r.blocks|
      ensures PhisMatch(r.blocks, b)
    {
      if b >= |c.blocks| {
        NewBlocks(o, c, t, b);
      } else if t == EndLoop && c.frames != [] && b == c.frames[|c.frames| - 1].test {
        ClosedTestPhi(o, c);
      } else {
        OldPhis(o, c, t, b);
      }
    }
    forall p: BlockId, b: BlockId | Jumps(r.blocks, p, b)
      ensures b < |r.blocks|
    {
      EmitJumps(o, c, t, p, b);
    }
    BlocksWithoutPhi(o, c, t);
  }

  /** A test holds a phi, and the block a body starts in does not. */
  lemma BodyIsNoTest(o: Options, c: Code, i: nat, j: nat)
    requires Scoped(o, c) && PhisInPlace(o, c) && i < |c.frames| && j < |c.frames|
    ensures c.frames[i].body != c.frames[j].test
  {
    assert c.blocks[c.frames[j].test] == [Phi(c.frames[j].phi, [c.frames[j].entry])];
    assert NoPhi(c.blocks[c.frames[i].body]);
    assert c.blocks[c.frames[j].test][0].Phi?;
  }

  lemma BlocksWithoutPhi(o: Options, c: Code, t: Token)
    requires Scoped(o, c) && PhisInPlace(o, c)
    ensures var r := Emit(o, c, t);
            && NoPhi(r.blocks[END]) && (o.bounds ==> NoPhi(r.blocks[ABERROR]))
            && (forall i :: 0 <= i < |r.frames| ==> NoPhi(r.blocks[r.frames[i].body]))
  {
    FixedBlocksWithoutPhi(o, c, t);
    EmitFrames(o, c, t);
    forall i | 0 <= i < |Emit(o, c, t).frames|
      ensures NoPhi(Emit(o, c, t).blocks[Emit(o, c, t).frames[i].body])
    {
      BodyWithoutPhi(o, c, t, i);
    }
  }

  lemma FixedBlocksWithoutPhi(o: Options, c: Code, t: Token)
    requires Scoped(o, c) && PhisInPlace(o, c)
    ensures NoPhi(Emit(o, c, t).blocks[END]) && (o.bounds ==> NoPhi(Emit(o, c, t).blocks[ABERROR]))
  {
  }

  lemma BodyWithoutPhi(o: Options, c: Code, t: Token, i: nat)
    requires Scoped(o, c) && PhisInPlace(o, c) && i < |Emit(o, c, t).frames|
    ensures NoPhi(Emit(o, c, t).blocks[Emit(o, c, t).frames[i].body])
  {
    EmitFrames(o, c, t);
    if i < |c.frames| {
      assert Emit(o, c, t).frames[i] == c.frames[i];
      BodyIsNoTest(o, c, i, |c.frames| - 1);
      GrownBlock(o, c, t, c.frames[i].body);
    }
  }
}
