/** The compiler as it runs: a scanner with one symbol of lookahead that drives the code
    generator, calling itself for the body of each loop. */
module BrainFCompiler {
  import opened Wrappers

  import opened BrainFSource
  import opened BrainFTokens
  import opened BrainFCodegen
  import M = BrainFMachine

  datatype Symbol =
    SYM_NONE | SYM_READ | SYM_WRITE | SYM_MOVE | SYM_CHANGE | SYM_LOOP | SYM_ENDLOOP | SYM_EOF

  predicate IsToken(s: Symbol) {
    s != SYM_NONE && s != SYM_EOF
  }

  function TokenFor(s: Symbol, value: int): Token
    requires IsToken(s)
  {
    match s
    case SYM_READ => Read
    case SYM_WRITE => Write
    case SYM_MOVE => Move(value)
    case SYM_CHANGE => Change(value)
    case SYM_LOOP => Loop
    case SYM_ENDLOOP => EndLoop
  }

  /** A symbol that has been read but not executed stands in front of what follows. */
  function Pending(s: Symbol, value: int, after: seq<Token>): seq<Token> {
    if IsToken(s) then Prepend(TokenFor(s, value), after) else after
  }

  /** The scanner stops as soon as the current symbol cannot grow any more. */
  predicate Complete(cursym: Symbol, nextsym: Symbol) {
    match cursym
    case SYM_NONE => false
    case SYM_MOVE => nextsym != SYM_NONE && nextsym != SYM_MOVE
    case SYM_CHANGE => nextsym != SYM_NONE && nextsym != SYM_CHANGE
    case _ => nextsym == SYM_NONE
  }

  /** A symbol that further characters may start or extend. */
  predicate Growing(s: Symbol) {
    s == SYM_NONE || s == SYM_MOVE || s == SYM_CHANGE
  }

  /** A character of a run extends the run, starts it, or ends a run of the other kind. */
  method AbsorbRun(sym: Symbol, value: int, run: Symbol, direction: int, ghost after: seq<Token>)
    returns (cursym: Symbol, curvalue: int, nextsym: Symbol, nextvalue: int, loop: bool)
    requires Growing(sym) && (run == SYM_MOVE || run == SYM_CHANGE)
    ensures Pending(sym, value, Prepend(TokenFor(run, direction), after))
            == Pending(cursym, curvalue, Pending(nextsym, nextvalue, after))
    ensures if loop then nextsym == SYM_NONE && Growing(cursym) else Complete(cursym, nextsym)
    ensures cursym != SYM_EOF && nextsym != SYM_EOF
  {
    cursym, curvalue, nextsym, nextvalue, loop := sym, value, SYM_NONE, 0, true;
    if cursym == run {
      PrependMerges(TokenFor(run, curvalue), TokenFor(run, direction), after);
      curvalue := curvalue + direction;
    } else if cursym == SYM_NONE {
      cursym, curvalue := run, direction;
    } else {
      nextsym, nextvalue, loop := run, direction, false;
    }
  }

  /** The scanner's reaction to one character: it starts or extends the current symbol, or
      becomes the next one; `loop` says whether to go on reading. */
  method Absorb(sym: Symbol, value: int, c: char, ghost after: seq<Token>)
    returns (cursym: Symbol, curvalue: int, nextsym: Symbol, nextvalue: int, loop: bool)
    requires Growing(sym)
    ensures var all := match TokenOf(c) case None => after case Some(t) => Prepend(t, after);
            Pending(sym, value, all) == Pending(cursym, curvalue, Pending(nextsym, nextvalue, after))
    ensures if loop then nextsym == SYM_NONE && Growing(cursym) else Complete(cursym, nextsym)
    ensures cursym != SYM_EOF && nextsym != SYM_EOF
  {
    cursym, curvalue, nextsym, nextvalue, loop := sym, value, SYM_NONE, 0, true;
    var direction := 1;
    match c
    case '-' | '+' =>
      if c == '-' { direction := -1; }
      cursym, curvalue, nextsym, nextvalue, loop := AbsorbRun(sym, value, SYM_CHANGE, direction, after);
    case '<' | '>' =>
      if c == '<' { direction := -1; }
      cursym, curvalue, nextsym, nextvalue, loop := AbsorbRun(sym, value, SYM_MOVE, direction, after);
    case ',' =>
      if cursym == SYM_NONE { cursym := SYM_READ; } else { nextsym := SYM_READ; }
      loop := false;
    case '.' =>
      if cursym == SYM_NONE { cursym := SYM_WRITE; } else { nextsym := SYM_WRITE; }
      loop := false;
    case '[' =>
      if cursym == SYM_NONE { cursym := SYM_LOOP; } else { nextsym := SYM_LOOP; }
      loop := false;
    case ']' =>
      if cursym == SYM_NONE { cursym := SYM_ENDLOOP; } else { nextsym := SYM_ENDLOOP; }
      loop := false;
    case _ =>
  }

  lemma NextToken(consumed: seq<Token>, t: Token, rest: seq<Token>, all: seq<Token>)
    requires consumed + ([t] + rest) == all
    ensures |consumed| < |all| && all[|consumed|] == t && consumed + [t] <= all && consumed + [t] + rest == all
  {
    assert consumed + [t] + rest == all;
  }

  lemma ThreeMore(block: M.Block, a: M.Instr, b: M.Instr, c: M.Instr)
    ensures block + [a] + [b] + [c] == block + [a, b, c]
  {
  }

  class BrainF {
    const o: Options
    const src: string
    var pos: nat
    var blocks: seq<M.Block>
    var insert: M.BlockId
    var curhead: M.Reg
    var nextreg: M.Reg
    ghost var frames: seq<Frame>
    ghost var consumed: seq<Token>
    ghost var history: seq<Code>

    ghost function State(): Code
      reads this
    {
      Code(blocks, insert, curhead, nextreg, frames)
    }

    /** The code so far is exactly that of the symbols executed so far. */
    ghost predicate Valid()
      reads this
    {
      && pos <= |src| && consumed <= Tokens(src)
      && History(o, consumed, history) && history[|consumed|] == State() && Scoped(o, State())
      && JudgeTokens(Tokens(src)[|consumed|..], |frames|) == Judge(src, 0)
    }

    /** No symbol has been read that has not been executed. */
    ghost predicate NoLookahead()
      reads this
      requires pos <= |src|
    {
      consumed + Tokens(src[pos..]) == Tokens(src)
    }

    constructor (src: string, mem: nat, bounds: bool)
      ensures Valid() && NoLookahead() && pos == 0 && consumed == [] && frames == [] && fresh(this)
      ensures this.src == src && o == Options(mem, bounds)
    {
      this.o := Options(mem, bounds);
      this.src := src;
      this.pos := 0;
      var c := Header(Options(mem, bounds));
      this.blocks, this.insert, this.curhead, this.nextreg := c.blocks, c.cur, c.head, c.next;
      this.frames, this.consumed, this.history := [], [], [c];
      new;
      assert src[0..] == src && Tokens(src)[0..] == Tokens(src);
      ScanningKeepsVerdict(src, 0);
    }

    /** Read characters until the current symbol is complete. */
    method ReadSymbols(sym: Symbol, value: int)
      returns (cursym: Symbol, curvalue: int, nextsym: Symbol, nextvalue: int)
      requires pos <= |src|
      requires sym == SYM_EOF ==> pos == |src|
      modifies this`pos
      ensures old(pos) <= pos <= |src|
      ensures sym == SYM_NONE && cursym != SYM_EOF ==> old(pos) < pos
      ensures cursym == SYM_EOF || nextsym == SYM_EOF ==> pos == |src|
      ensures Complete(cursym, nextsym)
      ensures Pending(sym, value, Tokens(src[old(pos)..]))
           == Pending(cursym, curvalue, Pending(nextsym, nextvalue, Tokens(src[pos..])))
    {
      cursym, curvalue, nextsym, nextvalue := sym, value, SYM_NONE, 0;
      var loop := Growing(cursym);
      while loop
        invariant old(pos) <= pos <= |src|
        invariant loop ==> nextsym == SYM_NONE && Growing(cursym)
        invariant !loop ==> Complete(cursym, nextsym)
        invariant sym == SYM_NONE && (cursym != SYM_NONE && cursym != SYM_EOF) ==> old(pos) < pos
        invariant cursym == SYM_EOF || nextsym == SYM_EOF ==> pos == |src|
        invariant Pending(sym, value, Tokens(src[old(pos)..]))
               == Pending(cursym, curvalue, Pending(nextsym, nextvalue, Tokens(src[pos..])))
        decreases |src| - pos, loop
      {
        if pos == |src| {
          if cursym == SYM_NONE {
            cursym := SYM_EOF;
          } else {
            nextsym := SYM_EOF;
          }
          loop := false;
        } else {
          assert src[pos..][1..] == src[pos + 1..];
          cursym, curvalue, nextsym, nextvalue, loop :=
            Absorb(cursym, curvalue, src[pos], Tokens(src[pos + 1..]));
          pos := pos + 1;
        }
      }
    }

    // ----- writing out commands -----

    /** Append an instruction to the insertion block. */
    method Insert(i: M.Instr)
      requires insert < |blocks|
      modifies this`blocks
      ensures blocks == old(blocks)[insert := old(blocks)[insert] + [i]]
    {
      blocks := blocks[insert := blocks[insert] + [i]];
    }

    method NewReg() returns (r: M.Reg)
      modifies this`nextreg
      ensures r == old(nextreg) && nextreg == old(nextreg) + 1
    {
      r := nextreg;
      nextreg := nextreg + 1;
    }

    method NewBlock() returns (b: M.BlockId)
      modifies this`blocks
      ensures b == |old(blocks)| && blocks == old(blocks) + [[]]
    {
      b := |blocks|;
      blocks := blocks + [[]];
    }

    method WriteRead()
      requires Valid() && consumed + [Read] <= Tokens(src)
      modifies this`blocks, this`nextreg, this`consumed, this`history
      ensures Valid() && consumed == old(consumed) + [Read]
      ensures frames == old(frames)
    {
      var tape0 := NewReg();
      Insert(M.GetChar(tape0));
      var tape1 := NewReg();
      Insert(M.Trunc(tape1, tape0));
      Insert(M.Store(tape1, curhead));
      ghost var done := Emit(o, old(State()), Read);
      ThreeMore(old(blocks)[insert], M.GetChar(tape0), M.Trunc(tape1, tape0), M.Store(tape1, curhead));
      assert blocks == done.blocks;
      VerdictStep(Tokens(src), |consumed|, |old(frames)|);
      Executed(Read, old(State()));
    }

    method WriteWrite()
      requires Valid() && consumed + [Write] <= Tokens(src)
      modifies this`blocks, this`nextreg, this`consumed, this`history
      ensures Valid() && consumed == old(consumed) + [Write]
      ensures frames == old(frames)
    {
      var tape0 := NewReg();
      Insert(M.Load(tape0, curhead));
      var tape1 := NewReg();
      Insert(M.SExt(tape1, tape0));
      Insert(M.PutChar(tape1));
      ghost var done := Emit(o, old(State()), Write);
      ThreeMore(old(blocks)[insert], M.Load(tape0, curhead), M.SExt(tape1, tape0), M.PutChar(tape1));
      assert blocks == done.blocks;
      VerdictStep(Tokens(src), |consumed|, |old(frames)|);
      Executed(Write, old(State()));
    }

    method WriteChange(curvalue: int)
      requires Valid() && consumed + [Change(curvalue)] <= Tokens(src)
      modifies this`blocks, this`nextreg, this`consumed, this`history
      ensures Valid() && consumed == old(consumed) + [Change(curvalue)]
      ensures frames == old(frames)
    {
      var tape0 := NewReg();
      Insert(M.Load(tape0, curhead));
      var tape1 := NewReg();
      Insert(M.AddI8(tape1, tape0, curvalue));
      Insert(M.Store(tape1, curhead));
      ghost var done := Emit(o, old(State()), Change(curvalue));
      ThreeMore(old(blocks)[insert], M.Load(tape0, curhead), M.AddI8(tape1, tape0, curvalue), M.Store(tape1, curhead));
      assert blocks == done.blocks;
      VerdictStep(Tokens(src), |consumed|, |old(frames)|);
      Executed(Change(curvalue), old(State()));
    }

    method WriteMove(curvalue: int)
      requires Valid() && consumed + [Move(curvalue)] <= Tokens(src)
      modifies this`blocks, this`nextreg, this`curhead, this`insert, this`consumed, this`history
      ensures Valid() && consumed == old(consumed) + [Move(curvalue)]
      ensures frames == old(frames)
    {
      WriteMoveCode(curvalue);
      VerdictStep(Tokens(src), |consumed|, |old(frames)|);
      Executed(Move(curvalue), old(State()));
    }

    method WriteMoveCode(curvalue: int)
      requires Scoped(o, State())
      modifies this`blocks, this`nextreg, this`curhead, this`insert
      ensures State() == Emit(o, old(State()), Move(curvalue))
    {
      var head := NewReg();
      Insert(M.Gep(head, curhead, curvalue));
      curhead := head;
      if o.bounds {
        var test0 := NewReg();
        Insert(M.ICmpUge(test0, curhead, ARRMAX));
        var test1 := NewReg();
        Insert(M.ICmpUlt(test1, curhead, ARR));
        var test2 := NewReg();
        Insert(M.Or(test2, test0, test1));
        var nextbb := NewBlock();
        Insert(M.CondBr(test2, ABERROR, nextbb));
        insert := nextbb;
      }
      ghost var done := Emit(o, old(State()), Move(curvalue));
      assert blocks[old(insert)] == done.blocks[old(insert)];
      assert blocks == done.blocks;
    }

    /** Start a loop: its phi is made now and finished when the loop is closed. */
    method WriteLoop() returns (phi: M.Reg, bb1: M.BlockId, testbb: M.BlockId)
      requires Valid() && consumed + [Loop] <= Tokens(src)
      modifies this`blocks, this`nextreg, this`curhead, this`insert, this`frames, this`consumed, this`history
      ensures Valid() && consumed == old(consumed) + [Loop]
      ensures frames == old(frames) + [Frame(phi, testbb, bb1, (old(curhead), old(insert)))]
    {
      phi, bb1, testbb := WriteLoopCode();
      VerdictStep(Tokens(src), |consumed|, |old(frames)|);
      Executed(Loop, old(State()));
    }

    method WriteLoopCode() returns (phi: M.Reg, bb1: M.BlockId, testbb: M.BlockId)
      requires Scoped(o, State())
      modifies this`blocks, this`nextreg, this`curhead, this`insert, this`frames
      ensures State() == Emit(o, old(State()), Loop)
      ensures frames == old(frames) + [Frame(phi, testbb, bb1, (old(curhead), old(insert)))]
    {
      testbb := NewBlock();
      Insert(M.Br(testbb));
      var bb0 := insert;
      bb1 := NewBlock();
      insert := bb1;
      phi := NewReg();
      var head := curhead;
      blocks := blocks[testbb := blocks[testbb] + [M.Phi(phi, [(head, bb0)])]];
      curhead := phi;
      frames := frames + [Frame(phi, testbb, bb1, (head, bb0))];
      ghost var done := Emit(o, old(State()), Loop);
      assert blocks[old(insert)] == done.blocks[old(insert)] && blocks[testbb] == done.blocks[testbb]
             && blocks[bb1] == done.blocks[bb1];
      assert blocks == done.blocks;
    }

    /** Close the innermost loop: finish its phi and write its test. */
    method WriteEndLoop(phi: M.Reg, oldbb: M.BlockId, testbb: M.BlockId)
      requires Valid() && consumed + [EndLoop] <= Tokens(src) && frames != []
      requires var f := frames[|frames| - 1]; f.phi == phi && f.body == oldbb && f.test == testbb
      modifies this`blocks, this`nextreg, this`curhead, this`insert, this`frames, this`consumed, this`history
      ensures Valid() && consumed == old(consumed) + [EndLoop]
      ensures frames == old(frames)[..|old(frames)| - 1]
    {
      WriteEndLoopCode(phi, oldbb, testbb);
      VerdictStep(Tokens(src), |consumed|, |old(frames)|);
      Executed(EndLoop, old(State()));
    }

    method WriteEndLoopCode(phi: M.Reg, oldbb: M.BlockId, testbb: M.BlockId)
      requires Scoped(o, State()) && frames != []
      requires var f := frames[|frames| - 1]; f.phi == phi && f.body == oldbb && f.test == testbb
      modifies this`blocks, this`nextreg, this`curhead, this`insert, this`frames
      ensures State() == Emit(o, old(State()), EndLoop)
    {
      Insert(M.Br(testbb));
      ghost var f := frames[|frames| - 1];
      assert blocks[testbb] == [M.Phi(phi, [f.entry])];
      var incoming := blocks[testbb][0].incoming;
      assert incoming + [(curhead, insert)] == [f.entry, (curhead, insert)];
      blocks := blocks[testbb := blocks[testbb][0 := M.Phi(phi, incoming + [(curhead, insert)])]];
      assert blocks[testbb] == [M.Phi(phi, [f.entry, (curhead, insert)])];
      var tape0 := NewReg();
      var test0 := NewReg();
      var bb0 := |blocks|;
      blocks := blocks[testbb := blocks[testbb] + [M.Load(tape0, phi), M.ICmpEqZero(test0, tape0),
                                                   M.CondBr(test0, bb0, oldbb)]];
      bb0 := NewBlock();
      insert := bb0;
      var phi1 := NewReg();
      Insert(M.Phi(phi1, [(phi, testbb)]));
      curhead := phi1;
      frames := frames[..|frames| - 1];
      ghost var done := Emit(o, old(State()), EndLoop);
      assert blocks[old(insert)] == done.blocks[old(insert)] && blocks[testbb] == done.blocks[testbb]
             && blocks[insert] == done.blocks[insert];
      assert blocks == done.blocks;
    }

    // ----- the main loop -----

    /** What has been executed, what has been read, and what is still unread make up the program. */
    ghost predicate Accounted(cursym: Symbol, curvalue: int, nextsym: Symbol, nextvalue: int)
      reads this
      requires pos <= |src|
    {
      consumed + Pending(cursym, curvalue, Pending(nextsym, nextvalue, Tokens(src[pos..]))) == Tokens(src)
    }

    /** The arguments of readloop describe the innermost open loop, or there is none. */
    ghost predicate Inside(phi: Option<M.Reg>, oldbb: M.BlockId, testbb: M.BlockId)
      reads this
    {
      match phi
      case None => frames == []
      case Some(r) =>
        frames != [] && var f := frames[|frames| - 1]; f.phi == r && f.body == oldbb && f.test == testbb
    }

    /** The symbol `t` has just been executed, in the state `before`. */
    ghost method Executed(t: Token, before: Code)
      requires pos <= |src| && consumed + [t] <= Tokens(src)
      requires History(o, consumed, history) && history[|consumed|] == before && Scoped(o, before)
      requires State() == Emit(o, before, t)
      requires JudgeTokens(Tokens(src)[|consumed| + 1..], |frames|) == Judge(src, 0)
      modifies this`consumed, this`history
      ensures Valid() && consumed == old(consumed) + [t]
    {
      HistoryExtends(o, consumed, history, t);
      consumed, history := consumed + [t], history + [State()];
    }

    method Execute(sym: Symbol, value: int)
      requires Valid() && IsToken(sym) && sym != SYM_LOOP && sym != SYM_ENDLOOP
      requires consumed + [TokenFor(sym, value)] <= Tokens(src)
      modifies this`blocks, this`nextreg, this`curhead, this`insert, this`consumed, this`history
      ensures Valid() && consumed == old(consumed) + [TokenFor(sym, value)]
    {
      match sym
      case SYM_READ => WriteRead();
      case SYM_WRITE => WriteWrite();
      case SYM_MOVE => WriteMove(value);
      case SYM_CHANGE => WriteChange(value);
    }

    /** A '[' has been read: compile the whole loop. */
    method CompileLoop() returns (r: Verdict)
      requires Valid() && consumed + ([Loop] + Tokens(src[pos..])) == Tokens(src)
      modifies this
      ensures old(pos) <= pos <= |src|
      ensures r != Accepted ==> Judge(src, 0) == r
      ensures r == Accepted ==> Valid() && NoLookahead() && frames == old(frames)
                                && |old(consumed)| < |consumed|
      decreases |src| - pos, 3
    {
      NextToken(consumed, Loop, Tokens(src[pos..]), Tokens(src));
      var phi0, bb1, testbb0 := WriteLoop();
      r := ReadLoop(Some(phi0), bb1, testbb0);
    }

    /** A ']' has been read. */
    method CloseLoop(phi: Option<M.Reg>, oldbb: M.BlockId, testbb: M.BlockId) returns (r: Verdict)
      requires Valid() && Inside(phi, oldbb, testbb) && consumed + ([EndLoop] + Tokens(src[pos..])) == Tokens(src)
      modifies this`blocks, this`nextreg, this`curhead, this`insert, this`consumed, this`history, this`frames
      ensures r == if phi.None? then ExtraClose else Accepted
      ensures r != Accepted ==> Judge(src, 0) == r
      ensures r == Accepted ==> Valid() && NoLookahead() && frames == old(frames)[..|old(frames)| - 1]
                                && |old(consumed)| < |consumed|
    {
      NextToken(consumed, EndLoop, Tokens(src[pos..]), Tokens(src));
      if phi.None? {
        VerdictStep(Tokens(src), |consumed|, 0);
        return ExtraClose;
      }
      WriteEndLoop(phi.value, oldbb, testbb);
      return Accepted;
    }

    /** The text has ended: go to the return block. */
    method CloseProgram(phi: Option<M.Reg>, ghost oldbb: M.BlockId, ghost testbb: M.BlockId) returns (r: Verdict)
      requires Valid() && Inside(phi, oldbb, testbb) && consumed == Tokens(src)
      modifies this`blocks
      ensures r == (if phi.Some? then MissingClose else Accepted) && Judge(src, 0) == r
      ensures blocks == Compiled(o, Tokens(src))
    {
      assert Tokens(src)[..|Tokens(src)|] == Tokens(src);
      HistoryIsBuild(o, consumed, history, |consumed|);
      Insert(M.Br(END));
      return if phi.Some? then MissingClose else Accepted;
    }

    /** The state of the main loop between symbols. */
    ghost predicate Between(cursym: Symbol, curvalue: int, nextsym: Symbol, nextvalue: int)
      reads this
    {
      && Valid() && Accounted(cursym, curvalue, nextsym, nextvalue)
      && (if cursym == SYM_NONE then nextsym == SYM_NONE else Complete(cursym, nextsym))
      && (cursym == SYM_EOF || nextsym == SYM_EOF ==> pos == |src|)
    }

    /** Write out the command of a complete symbol; `rest` is what follows it. */
    method Dispatch(sym: Symbol, value: int, ghost rest: seq<Token>) returns (r: Verdict)
      requires Valid() && IsToken(sym) && sym != SYM_ENDLOOP
      requires consumed + ([TokenFor(sym, value)] + rest) == Tokens(src)
      requires sym == SYM_LOOP ==> rest == Tokens(src[pos..])
      modifies this
      ensures old(pos) <= pos <= |src|
      ensures r != Accepted ==> Judge(src, 0) == r
      ensures r == Accepted ==> Valid() && frames == old(frames) && |old(consumed)| < |consumed|
      ensures r == Accepted ==>
                if sym == SYM_LOOP then NoLookahead() else pos == old(pos) && consumed + rest == Tokens(src)
      decreases |src| - pos, 4
    {
      r := Accepted;
      if sym == SYM_LOOP {
        r := CompileLoop();
      } else {
        assert consumed + [TokenFor(sym, value)] + rest == Tokens(src);
        Execute(sym, value);
      }
    }

    /** Execute the current symbol, so that the next one is all that is pending. */
    method Consume(sym: Symbol, value: int, ghost next: Symbol, ghost nextv: int) returns (r: Verdict)
      requires Between(sym, value, next, nextv) && sym != SYM_NONE && sym != SYM_EOF && sym != SYM_ENDLOOP
      modifies this
      ensures old(pos) <= pos <= |src|
      ensures r != Accepted ==> Judge(src, 0) == r
      ensures r == Accepted ==> Valid() && frames == old(frames) && |old(consumed)| < |consumed|
      ensures r == Accepted ==> consumed + Pending(next, nextv, Tokens(src[pos..])) == Tokens(src)
      ensures r == Accepted && next == SYM_EOF ==> pos == |src|
      decreases |src| - pos, 5
    {
      StandsAlone(sym, value, next, nextv, Tokens(src[pos..]));
      r := Dispatch(sym, value, Pending(next, nextv, Tokens(src[pos..])));
    }

    /** Execute the current symbol and read up to the next one. */
    method Advance(sym: Symbol, value: int, next: Symbol, nextv: int)
      returns (r: Verdict, cursym: Symbol, curvalue: int, nextsym: Symbol, nextvalue: int)
      requires Between(sym, value, next, nextv) && sym != SYM_EOF && sym != SYM_ENDLOOP
      modifies this
      ensures old(pos) <= pos <= |src|
      ensures r != Accepted ==> Judge(src, 0) == r
      ensures r == Accepted ==> Between(cursym, curvalue, nextsym, nextvalue) && frames == old(frames)
      ensures r == Accepted ==> cursym != SYM_NONE
                                && (if sym == SYM_NONE then consumed == old(consumed) else |old(consumed)| < |consumed|)
      ensures r == Accepted && sym == SYM_NONE && cursym != SYM_EOF ==> old(pos) < pos
      decreases |src| - pos, if sym == SYM_NONE then 1 else 6
    {
      r, cursym, curvalue, nextsym, nextvalue := Accepted, sym, value, next, nextv;
      if cursym != SYM_NONE {
        r := Consume(cursym, curvalue, nextsym, nextvalue);
        if r != Accepted {
          return;
        }
      }
      cursym, curvalue, nextsym, nextvalue := ReadSymbols(nextsym, nextvalue);
    }

    /** The main loop has stopped at a ']' or at the end of the text. */
    method Close(cursym: Symbol, ghost curvalue: int, ghost nextsym: Symbol, ghost nextvalue: int,
                 phi: Option<M.Reg>, oldbb: M.BlockId, testbb: M.BlockId) returns (r: Verdict)
      requires Between(cursym, curvalue, nextsym, nextvalue) && Inside(phi, oldbb, testbb)
      requires cursym == SYM_EOF || cursym == SYM_ENDLOOP
      modifies this`blocks, this`nextreg, this`curhead, this`insert, this`consumed, this`history, this`frames
      ensures r != Accepted ==> Judge(src, 0) == r
      ensures r == Accepted && phi.Some? ==>
                Valid() && NoLookahead() && frames == old(frames)[..|old(frames)| - 1]
                && |old(consumed)| < |consumed|
      ensures r == Accepted && phi.None? ==>
                Judge(src, 0) == Accepted && pos == |src| && blocks == Compiled(o, Tokens(src))
    {
      if cursym == SYM_ENDLOOP {
        StandsAlone(cursym, curvalue, nextsym, nextvalue, Tokens(src[pos..]));
        r := CloseLoop(phi, oldbb, testbb);
      } else {
        assert src[|src|..] == "" && consumed == Tokens(src);
        r := CloseProgram(phi, oldbb, testbb);
      }
    }

    /** Compile up to the ']' of the current loop or, outside loops, to the end of the text. */
    method ReadLoop(phi: Option<M.Reg>, oldbb: M.BlockId, testbb: M.BlockId) returns (r: Verdict)
      requires Valid() && NoLookahead() && Inside(phi, oldbb, testbb)
      modifies this
      ensures old(pos) <= pos <= |src|
      ensures r != Accepted ==> Judge(src, 0) == r
      ensures r == Accepted && phi.Some? ==>
                Valid() && NoLookahead() && frames == old(frames)[..|old(frames)| - 1]
                && |old(consumed)| < |consumed|
      ensures r == Accepted && phi.None? ==>
                Judge(src, 0) == Accepted && pos == |src| && blocks == Compiled(o, Tokens(src))
      decreases |src| - pos, 2, 1
    {
      var cursym, curvalue, nextsym, nextvalue;
      r, cursym, curvalue, nextsym, nextvalue := ReadCommands();
      if r == Accepted {
        r := Close(cursym, curvalue, nextsym, nextvalue, phi, oldbb, testbb);
      }
    }

    /** Write out commands until a ']' or the end of the text has been read. */
    method ReadCommands() returns (r: Verdict, cursym: Symbol, curvalue: int, nextsym: Symbol, nextvalue: int)
      requires Valid() && NoLookahead()
      modifies this
      ensures old(pos) <= pos <= |src|
      ensures r != Accepted ==> Judge(src, 0) == r
      ensures r == Accepted ==>
                && Between(cursym, curvalue, nextsym, nextvalue) && (cursym == SYM_EOF || cursym == SYM_ENDLOOP)
                && frames == old(frames) && |old(consumed)| <= |consumed|
      decreases |src| - pos, 2, 0
    {
      r, cursym, curvalue, nextsym, nextvalue := Advance(SYM_NONE, 0, SYM_NONE, 0);
      while r == Accepted && cursym != SYM_EOF && cursym != SYM_ENDLOOP
        invariant old(pos) <= pos <= |src|
        invariant r != Accepted ==> Judge(src, 0) == r
        invariant r == Accepted ==>
                    && Between(cursym, curvalue, nextsym, nextvalue) && cursym != SYM_NONE
                    && frames == old(frames) && |old(consumed)| <= |consumed|
                    && (cursym == SYM_EOF || old(pos) < pos)
        decreases r == Accepted, |Tokens(src)| - |consumed|
      {
        r, cursym, curvalue, nextsym, nextvalue := Advance(cursym, curvalue, nextsym, nextvalue);
      }
    }
  }

  /** A complete symbol does not merge with what follows it. */
  lemma StandsAlone(cursym: Symbol, curvalue: int, nextsym: Symbol, nextvalue: int, unread: seq<Token>)
    requires IsToken(cursym) && Complete(cursym, nextsym)
    requires nextsym == SYM_EOF ==> unread == []
    ensures Pending(cursym, curvalue, Pending(nextsym, nextvalue, unread))
            == [TokenFor(cursym, curvalue)] + Pending(nextsym, nextvalue, unread)
  {
  }

  /** The verdict after one more symbol. */
  lemma VerdictStep(ts: seq<Token>, k: nat, depth: nat)
    requires k < |ts|
    ensures match ts[k]
            case Loop => JudgeTokens(ts[k..], depth) == JudgeTokens(ts[k + 1..], depth + 1)
            case EndLoop =>
              JudgeTokens(ts[k..], depth) == (if depth == 0 then ExtraClose else JudgeTokens(ts[k + 1..], depth - 1))
            case _ => JudgeTokens(ts[k..], depth) == JudgeTokens(ts[k + 1..], depth)
  {
    assert ts[k..][1..] == ts[k + 1..];
  }

  /** Compile a program: either the finished function, or the error the compiler aborts with. */
  method Parse(src: string, mem: nat, bounds: bool) returns (r: Verdict, code: seq<M.Block>)
    ensures r == Judge(src, 0)
    ensures r == Accepted ==> code == Compiled(Options(mem, bounds), Tokens(src))
  {
    var compiler := new BrainF(src, mem, bounds);
    r := compiler.ReadLoop(None, 0, 0);
    code := compiler.blocks;
  }
}
