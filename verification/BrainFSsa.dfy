/** Compiled programs are well formed: one terminator a block, one incoming value a predecessor,
    one definition a register, and definitions that dominate their uses. */
module BrainFSsa {
  import opened BrainFSource
  import opened BrainFTokens
  import opened BrainFMachine
  import opened BrainFCodegen
  import opened BrainFWellFormed
  import opened BrainFDominance

  ghost predicate WellFormed(bs: seq<Block>) {
    && (forall b :: 0 <= b < |bs| ==> Finished(bs[b]) && PhisMatch(bs, b))
    && (forall p: BlockId, b: BlockId :: Jumps(bs, p, b) ==> b < |bs|)
    && SingleDefinitions(bs) && DefinitionsDominate(bs)
  }

  /** What holds of the function under construction after every symbol. */
  ghost predicate WellBuilt(o: Options, c: Code, avail: seq<set<Reg>>) {
    && Scoped(o, c) && TerminatorsInPlace(c) && PhisInPlace(o, c)
    && SingleDefinitions(c.blocks) && DefinedBelow(c.blocks, c.next) && Living(o, c, avail)
  }

  lemma EmitWellBuilt(o: Options, c: Code, t: Token, avail: seq<set<Reg>>)
    requires WellBuilt(o, c, avail)
    ensures WellBuilt(o, Emit(o, c, t), NewAvail(o, c, t, avail))
  {
    EmitTerminators(o, c, t);
    EmitPhis(o, c, t);
    EmitSingleDefinitions(o, c, t);
    EmitLiving(o, c, t, avail);
  }

  // ----- the header -----

  ghost function HeaderAvail(o: Options): seq<set<Reg>> {
    if o.bounds then [{}, {ARR}, {ARR}] else [{}, {ARR}]
  }

  lemma HeaderTerminators(o: Options)
    ensures TerminatorsInPlace(Header(o))
  {
  }

  lemma HeaderPhis(o: Options)
    ensures PhisInPlace(o, Header(o))
  {
  }

  lemma HeaderDefinitions(o: Options)
    ensures SingleDefinitions(Header(o).blocks) && DefinedBelow(Header(o).blocks, Header(o).next)
  {
  }

  lemma HeaderLiving(o: Options)
    ensures Living(o, Header(o), HeaderAvail(o))
  {
    var bs, avail := Header(o).blocks, HeaderAvail(o);
    assert DefinesAt(bs, 0, 0, ARR);
    assert DefinesAt(bs, 0, |bs[0]| - 1, Header(o).head);
    if o.bounds {
      assert DefinesAt(bs, 0, 2, ARRMAX);
    }
    forall p: BlockId, b: BlockId
      ensures JumpKeeps(avail, bs, p, b)
    {
      if Jumps(bs, p, b) {
        assert p == ABERROR && b == END;
      }
    }
  }

  lemma HeaderWellBuilt(o: Options)
    ensures WellBuilt(o, Header(o), HeaderAvail(o))
  {
    HeaderTerminators(o);
    HeaderPhis(o);
    HeaderDefinitions(o);
    HeaderLiving(o);
  }

  lemma {:induction false} HistoryWellBuilt(o: Options, ts: seq<Token>, h: seq<Code>, k: nat)
    returns (avail: seq<set<Reg>>)
    requires History(o, ts, h) && k <= |ts|
    ensures WellBuilt(o, h[k], avail)
    decreases k
  {
    if k == 0 {
      avail := HeaderAvail(o);
      HeaderWellBuilt(o);
    } else {
      var before := HistoryWellBuilt(o, ts, h, k - 1);
      assert Follows(o, ts, h, k - 1);
      EmitWellBuilt(o, h[k - 1], ts[k - 1], before);
      avail := NewAvail(o, h[k - 1], ts[k - 1], before);
    }
  }

  // ----- the jump to the end -----

  lemma FinishJumps(o: Options, c: Code, p: BlockId, b: BlockId)
    requires Scoped(o, c) && TerminatorsInPlace(c)
    ensures Jumps(Finish(c).blocks, p, b) <==> Jumps(c.blocks, p, b) || (p == c.cur && b == END)
  {
    CurNeverOpen(o, c);
    JumpsIsLeads(c.blocks, p, b);
    JumpsIsLeads(Finish(c).blocks, p, b);
    if p == c.cur {
      assert Finish(c).blocks[p][..|c.blocks[p]|] == c.blocks[p];
      LastLeads(Finish(c).blocks[p], b);
    }
  }

  lemma FinishTerminators(o: Options, c: Code, b: BlockId)
    requires Scoped(o, c) && TerminatorsInPlace(c) && c.frames == [] && b < |c.blocks|
    ensures Finished(Finish(c).blocks[b])
  {
    CurNeverOpen(o, c);
    assert !IsOpen(c, b);
    if b == c.cur {
      assert Finish(c).blocks[b][..|c.blocks[b]|] == c.blocks[b];
    }
  }

  lemma FinishPhis(o: Options, c: Code, b: BlockId)
    requires Scoped(o, c) && TerminatorsInPlace(c) && PhisInPlace(o, c) && b < |c.blocks|
    ensures PhisMatch(Finish(c).blocks, b)
  {
    var rs: seq<Block> := Finish(c).blocks;
    forall i | 0 <= i < |rs[b]| && rs[b][i].Phi?
      ensures i == 0 && Matches(rs, b, rs[b][i].incoming)
    {
      assert rs[b][i] == c.blocks[b][i];
      assert PhisMatch(c.blocks, b);
      forall p: BlockId
        ensures ComesFrom(rs[b][i].incoming, p) <==> Jumps(rs, p, b)
      {
        FinishJumps(o, c, p, b);
      }
    }
  }

  lemma FinishDefs(c: Code, b: BlockId, i: int, x: Reg)
    requires c.cur < |c.blocks|
    ensures DefinesAt(Finish(c).blocks, b, i, x) <==> DefinesAt(c.blocks, b, i, x)
  {
  }

  lemma FinishAvailable(c: Code, avail: seq<set<Reg>>, b: BlockId, i: int, r: Reg)
    requires c.cur < |c.blocks| && Available(avail, c.blocks, b, i, r)
    ensures Available(avail, Finish(c).blocks, b, i, r)
    ensures i == |c.blocks[b]| ==> AtEnd(avail, Finish(c).blocks, b, r)
  {
    if r !in avail[b] {
      var j :| 0 <= j < i && DefinesAt(c.blocks, b, j, r);
      FinishDefs(c, b, j, r);
    }
  }

  lemma FinishUses(o: Options, c: Code, avail: seq<set<Reg>>, b: BlockId, i: int)
    requires Scoped(o, c) && Living(o, c, avail)
    ensures UsesAvailable(avail, Finish(c).blocks, b, i) && PhiUsesAvailable(avail, Finish(c).blocks, b, i)
  {
    var rs: seq<Block> := Finish(c).blocks;
    if b < |rs| && 0 <= i < |c.blocks[b]| {
      assert rs[b][i] == c.blocks[b][i];
      assert UsesAvailable(avail, c.blocks, b, i) && PhiUsesAvailable(avail, c.blocks, b, i);
      forall r | r in Uses(rs[b][i])
        ensures Available(avail, rs, b, i, r)
      {
        FinishAvailable(c, avail, b, i, r);
      }
      if rs[b][i].Phi? {
        forall k | 0 <= k < |rs[b][i].incoming|
          ensures AtEnd(avail, rs, rs[b][i].incoming[k].1, rs[b][i].incoming[k].0)
        {
          var q := rs[b][i].incoming[k].1;
          FinishAvailable(c, avail, q, |c.blocks[q]|, rs[b][i].incoming[k].0);
        }
      }
    }
  }

  lemma FinishJustified(o: Options, c: Code, avail: seq<set<Reg>>)
    requires Scoped(o, c) && TerminatorsInPlace(c) && Living(o, c, avail)
    ensures Justified(avail, Finish(c).blocks)
  {
    forall b: BlockId, i: int
      ensures UsesAvailable(avail, Finish(c).blocks, b, i) && PhiUsesAvailable(avail, Finish(c).blocks, b, i)
    {
      FinishUses(o, c, avail, b, i);
    }
    forall p: BlockId, b: BlockId
      ensures JumpKeeps(avail, Finish(c).blocks, p, b)
    {
      FinishJumpKeeps(o, c, avail, p, b);
    }
  }

  lemma FinishJumpKeeps(o: Options, c: Code, avail: seq<set<Reg>>, p: BlockId, b: BlockId)
    requires Scoped(o, c) && TerminatorsInPlace(c) && Living(o, c, avail)
    ensures JumpKeeps(avail, Finish(c).blocks, p, b)
  {
    if Jumps(Finish(c).blocks, p, b) && b < |avail| {
      FinishJumps(o, c, p, b);
      assert JumpKeeps(avail, c.blocks, p, b);
      forall r | r in avail[b]
        ensures AtEnd(avail, Finish(c).blocks, p, r)
      {
        assert Held(o, c, ARR);
        assert AtEnd(avail, c.blocks, p, r);
        FinishAvailable(c, avail, p, |c.blocks[p]|, r);
      }
    }
  }

  lemma FinishedIsWellFormed(o: Options, c: Code, avail: seq<set<Reg>>)
    requires WellBuilt(o, c, avail) && c.frames == []
    ensures WellFormed(Finish(c).blocks)
  {
    var rs := Finish(c).blocks;
    forall b | 0 <= b < |rs|
      ensures Finished(rs[b]) && PhisMatch(rs, b)
    {
      FinishTerminators(o, c, b);
      FinishPhis(o, c, b);
    }
    forall p: BlockId, b: BlockId | Jumps(rs, p, b)
      ensures b < |rs|
    {
      FinishJumps(o, c, p, b);
    }
    forall b, i, b', i', x: Reg | DefinesAt(rs, b, i, x) && DefinesAt(rs, b', i', x)
      ensures b == b' && i == i'
    {
      FinishDefs(c, b, i, x);
      FinishDefs(c, b', i', x);
    }
    FinishJustified(o, c, avail);
    JustifiedDominates(avail, rs);
  }

  /** At the end of a balanced program no loop is open. */
  lemma NoLoopIsOpen(o: Options, ts: seq<Token>, h: seq<Code>)
    requires History(o, ts, h) && JudgeTokens(ts, 0) == Accepted
    ensures h[|ts|].frames == []
  {
    JudgeAfterPrefix(ts, |ts|);
    FramesAreOpens(o, ts, h, |ts|, 0);
  }

  /** Every balanced program compiles to a well-formed function. */
  lemma CompiledIsWellFormed(o: Options, ts: seq<Token>)
    requires JudgeTokens(ts, 0) == Accepted
    ensures WellFormed(Compiled(o, ts))
  {
    var h := HistoryExists(o, ts);
    var avail := HistoryWellBuilt(o, ts, h, |ts|);
    NoLoopIsOpen(o, ts, h);
    FinishedIsWellFormed(o, h[|ts|], avail);
  }
}
