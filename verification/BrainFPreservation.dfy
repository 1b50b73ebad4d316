/** The compiled function does what the program says, on every input: it runs in step with the
    character-by-character semantics for as long as either of them runs. */
module BrainFPreservation {
  import opened Wrappers

  import opened BrainFSource
  import opened BrainFTokens
  import opened BrainFCodegen
  import opened BrainFRuns
  import opened BrainFSimulation
  import M = BrainFMachine

  /** A program the compiler accepts, how it is compiled, and where and on what it is run. */
  datatype Job = Job(o: Options, src: string, env: M.Env, input: seq<Byte>) {
    function Ts(): seq<Token> { Tokens(src) }
    function Code(): seq<M.Block> { Compiled(o, Ts()) }

    predicate Valid() {
      Judge(src, 0) == Accepted && Suitable(o, env)
    }

    /** The program at its first character: the head in the middle of an empty tape. */
    function Start(): Config {
      Config(0, [], State(env.base + o.mem / 2, map[], input, []))
    }

    function Source(i: nat): Config { Run(src, Start(), i) }

    function Machine(m0: M.Machine, j: nat): M.Machine { M.Run(Code(), env, m0, j) }

    /** The register that holds the head when the function returns. */
    function HeadReg(): M.Reg { Build(o, Ts()).head }
  }

  /** The head is off the tape and no move is pending that might bring it back. */
  predicate Stray(w: Job, c: Config) {
    !InTape(w.o, w.env, c.st.head)
    && (c.ip >= |w.src| || Ahead(w.src, c.ip) == [] || !Ahead(w.src, c.ip)[0].Move?)
  }

  // ----- symbol boundaries -----

  /** The loops being executed are the loops open at the next symbol. */
  ghost predicate LoopsMatch(w: Job, k: nat, loops: seq<nat>)
    requires k <= |w.Ts()|
  {
    && |loops| == |Opens(w.Ts(), k)|
    && forall d :: 0 <= d < |loops| ==>
         loops[d] < |w.src| && w.src[loops[d]] == '[' && Ahead(w.src, loops[d]) == w.Ts()[Opens(w.Ts(), k)[d]..]
  }

  /** Program and machine are both about to do symbol `k`, in the same state. */
  ghost predicate Related(w: Job, h: seq<Code>, k: nat, c: Config, m: M.Machine)
    requires |h| == |w.Ts()| + 1
  {
    && k <= |w.Ts()| && h[k].cur < |h[k].blocks|
    && c.ip <= |w.src| && Ahead(w.src, c.ip) == w.Ts()[k..]
    && LoopsMatch(w, k, c.loops)
    && AtPoint(h[k], m) && Holds(w.o, w.env, h[k], c.st, m.now)
  }

  /** `h` is how the program was compiled, and `g` what came of it. */
  ghost predicate Compiles(w: Job, h: seq<Code>, g: seq<M.Block>) {
    && w.Valid() && History(w.o, w.Ts(), h)
    && Scoped(w.o, h[|w.Ts()|]) && g == Finish(h[|w.Ts()|]).blocks
  }

  /** Nothing strayed in the first `i` steps from `c`. */
  ghost predicate Steady(w: Job, c: Config, i: nat) {
    forall x :: 0 <= x < i ==> !Stray(w, Run(w.src, c, x))
  }

  ghost predicate Stepped(w: Job, h: seq<Code>, g: seq<M.Block>, k': nat, c: Config, m: M.Machine, i: nat, j: nat)
    requires |h| == |w.Ts()| + 1
  {
    var c', m' := Run(w.src, c, i), M.Run(g, w.env, m, j);
    && i >= 1 && j >= 1 && (w.o.bounds ==> Steady(w, c, i))
    && (Related(w, h, k', c', m') || (w.o.bounds && Stray(w, c') && Refused(c'.st, m')))
  }

  lemma StraightKeepsLoops(w: Job, k: nat, loops: seq<nat>)
    requires k < |w.Ts()| && !w.Ts()[k].Loop? && !w.Ts()[k].EndLoop? && LoopsMatch(w, k, loops)
    ensures LoopsMatch(w, k + 1, loops)
  {
    assert Opens(w.Ts(), k + 1) == Opens(w.Ts(), k);
  }

  lemma StraightIsSteady(w: Job, c: Config)
    requires StraightAhead(w.src, c) && InTape(w.o, w.env, c.st.head)
    ensures Steady(w, c, Span(w.src, c.ip))
  {
    forall x | 0 <= x < Span(w.src, c.ip)
      ensures !Stray(w, Run(w.src, c, x))
    {
      SteadyInToken(w.src, c, x);
    }
  }

  lemma AdvanceStraight(w: Job, h: seq<Code>, g: seq<M.Block>, k: nat, c: Config, m: M.Machine) returns (i: nat, j: nat)
    requires Compiles(w, h, g) && k < |w.Ts()| && Related(w, h, k, c, m)
    requires !w.Ts()[k].Loop? && !w.Ts()[k].EndLoop?
    ensures Stepped(w, h, g, k + 1, c, m, i, j)
  {
    var o, env, ts := w.o, w.env, w.Ts();
    var t := ts[k];
    Emitted(o, ts, h, k);
    assert ts[k..][0] == t && ts[k..][1..] == ts[k + 1..];
    i := Span(w.src, c.ip);
    RunToken(w.src, c);
    if o.bounds {
      StraightIsSteady(w, c);
    }
    StraightKeepsLoops(w, k, c.loops);
    StepInToken(w.src, c);
    match t
    case Read => j := SimRead(o, env, h[k], g, c.st, m);
    case Write => j := SimWrite(o, env, h[k], g, c.st, m);
    case Change(n) => j := SimChange(o, env, h[k], n, g, c.st, m);
    case Move(n) =>
      if o.bounds {
        FixedBlocks(o, ts, h);
        j := SimCheckedMove(o, env, h[k], n, g, c.st, m);
        RunsAreMaximal(w.src);
      } else {
        j := SimMove(o, env, h[k], n, g, c.st, m);
      }
  }

  /** The ']' of the loop opened by symbol `k`. */
  lemma LoopEnd(ts: seq<Token>, k: nat) returns (e: nat)
    requires JudgeTokens(ts, 0) == Accepted && k < |ts| && ts[k] == Loop
    ensures k < e < |ts| && ts[e] == EndLoop && CloseIndex(ts, k + 1, 0) == e + 1
    ensures Opens(ts, e) == Opens(ts, k) + [k] && Opens(ts, k + 1) == Opens(ts, k) + [k]
    ensures Opens(ts, e + 1) == Opens(ts, k)
  {
    e := SearchStops(ts, k);
    OpensAtLoop(ts, k);
  }

  /** The program is at the '[' of loop `k` and the machine at the loop's test. */
  ghost predicate Testing(w: Job, h: seq<Code>, k: nat, e: nat, c: Config, m: M.Machine, from: M.Reg)
    requires |h| == |w.Ts()| + 1
  {
    && k < e < |w.Ts()| && w.Ts()[k] == Loop && w.Ts()[e] == EndLoop
    && c.ip < |w.src| && w.src[c.ip] == '[' && Ahead(w.src, c.ip) == w.Ts()[k..]
    && LoopsMatch(w, k, c.loops)
    && m.Running? && m.block == NewFrame(h[k]).test && m.pc == 0
    && M.Incoming([(h[k].head, h[k].cur), (h[e].head, h[e].cur)], m.prev) == Some(from)
    && Holds(w.o, w.env, h[k].(head := from), c.st, m.now)
  }

  lemma PastBracket(src: string, i: nat, t: Token)
    requires i < |src| && TokenOf(src[i]) == Some(t) && (t.Loop? || t.EndLoop?)
    ensures Ahead(src, i) == [t] + Ahead(src, i + 1)
  {
    AheadStep(src, i);
  }

  lemma EnterLoop(w: Job, k: nat, c: Config)
    requires k < |w.Ts()| && w.Ts()[k] == Loop && LoopsMatch(w, k, c.loops)
    requires c.ip < |w.src| && w.src[c.ip] == '[' && Ahead(w.src, c.ip) == w.Ts()[k..]
    ensures LoopsMatch(w, k + 1, c.loops + [c.ip]) && Ahead(w.src, c.ip + 1) == w.Ts()[k + 1..]
  {
    PastBracket(w.src, c.ip, Loop);
    assert w.Ts()[k..][1..] == w.Ts()[k + 1..];
    assert Opens(w.Ts(), k + 1) == Opens(w.Ts(), k) + [k];
  }

  /** Where the same loops are open, the same brackets match them. */
  lemma SameLoopsMatch(w: Job, k: nat, k': nat, loops: seq<nat>)
    requires k <= |w.Ts()| && k' <= |w.Ts()| && Opens(w.Ts(), k') == Opens(w.Ts(), k) && LoopsMatch(w, k, loops)
    ensures LoopsMatch(w, k', loops)
  {
  }

  lemma AheadAfterLoop(w: Job, k: nat, e: nat, ip: nat)
    requires k < e < |w.Ts()| && CloseIndex(w.Ts(), k + 1, 0) == e + 1
    requires ip < |w.src| && Ahead(w.src, ip + 1) == w.Ts()[k + 1..]
    ensures Ahead(w.src, AfterClose(w.src, ip + 1, 0)) == w.Ts()[e + 1..]
  {
    SkippingAgrees(w.src, ip + 1, 0);
    PastLoopIndex(w.Ts(), k + 1, 0);
  }

  lemma SkipLoop(w: Job, k: nat, e: nat, c: Config)
    requires k < e < |w.Ts()| && CloseIndex(w.Ts(), k + 1, 0) == e + 1
    requires Opens(w.Ts(), e + 1) == Opens(w.Ts(), k) && LoopsMatch(w, k, c.loops)
    requires c.ip < |w.src| && Ahead(w.src, c.ip + 1) == w.Ts()[k + 1..]
    ensures LoopsMatch(w, e + 1, c.loops)
    ensures Ahead(w.src, AfterClose(w.src, c.ip + 1, 0)) == w.Ts()[e + 1..]
  {
    SameLoopsMatch(w, k, e + 1, c.loops);
    AheadAfterLoop(w, k, e, c.ip);
  }

  /** The machine's side of the test. */
  lemma MachineTest(w: Job, h: seq<Code>, g: seq<M.Block>, k: nat, e: nat, c: Config, m: M.Machine, from: M.Reg)
    returns (j: nat)
    requires Compiles(w, h, g) && Testing(w, h, k, e, c, m, from)
    requires Opens(w.Ts(), e) == Opens(w.Ts(), k) + [k]
    ensures Scoped(w.o, h[k + 1]) && Scoped(w.o, h[e + 1])
    ensures var r, k' := M.Run(g, w.env, m, j), if Cell(c.st.tape, c.st.head) != 0 then k + 1 else e + 1;
            AtPoint(h[k'], r) && Holds(w.o, w.env, h[k'], c.st, r.now)
  {
    LoopEmitted(w.o, w.Ts(), h, k, e);
    assert Follows(w.o, w.Ts(), h, k) && Follows(w.o, w.Ts(), h, e);
    j := SimTest(w.o, w.env, h[k], h[e], g, c.st, m, from);
  }

  lemma TakeTest(w: Job, h: seq<Code>, g: seq<M.Block>, k: nat, e: nat, c: Config, m: M.Machine, from: M.Reg)
    returns (j: nat, k': nat)
    requires Compiles(w, h, g) && Testing(w, h, k, e, c, m, from)
    requires CloseIndex(w.Ts(), k + 1, 0) == e + 1
    requires Opens(w.Ts(), e) == Opens(w.Ts(), k) + [k] && Opens(w.Ts(), e + 1) == Opens(w.Ts(), k)
    ensures Related(w, h, k', Step(w.src, c), M.Run(g, w.env, m, j))
    ensures Step(w.src, c).st == c.st
  {
    j := MachineTest(w, h, g, k, e, c, m, from);
    k' := if Cell(c.st.tape, c.st.head) != 0 then k + 1 else e + 1;
    ProgramTest(w, k, e, c, k');
  }

  /** The program is about to do symbol `k`. */
  ghost predicate InProgram(w: Job, k: nat, c: Config) {
    k <= |w.Ts()| && c.ip <= |w.src| && Ahead(w.src, c.ip) == w.Ts()[k..] && LoopsMatch(w, k, c.loops)
  }

  lemma ProgramEnters(w: Job, k: nat, c: Config, c': Config)
    requires k < |w.Ts()| && w.Ts()[k] == Loop && LoopsMatch(w, k, c.loops)
    requires c.ip < |w.src| && w.src[c.ip] == '[' && Ahead(w.src, c.ip) == w.Ts()[k..]
    requires c' == c.(ip := c.ip + 1, loops := c.loops + [c.ip])
    ensures InProgram(w, k + 1, c')
  {
    EnterLoop(w, k, c);
  }

  lemma ProgramSkips(w: Job, k: nat, e: nat, c: Config, c': Config)
    requires k < e < |w.Ts()| && w.Ts()[k] == Loop && LoopsMatch(w, k, c.loops)
    requires c.ip < |w.src| && w.src[c.ip] == '[' && Ahead(w.src, c.ip) == w.Ts()[k..]
    requires CloseIndex(w.Ts(), k + 1, 0) == e + 1 && Opens(w.Ts(), e + 1) == Opens(w.Ts(), k)
    requires c' == c.(ip := AfterClose(w.src, c.ip + 1, 0))
    ensures InProgram(w, e + 1, c')
  {
    EnterLoop(w, k, c);
    SkipLoop(w, k, e, c);
  }

  lemma StepAtBracket(src: string, c: Config)
    requires c.ip < |src| && src[c.ip] == '['
    ensures Step(src, c)
            == if Cell(c.st.tape, c.st.head) == 0 then c.(ip := AfterClose(src, c.ip + 1, 0))
               else c.(ip := c.ip + 1, loops := c.loops + [c.ip])
  {
  }

  /** The program's side of the test: into the body, or past the loop. */
  lemma ProgramTest(w: Job, k: nat, e: nat, c: Config, k': nat)
    requires k < e < |w.Ts()| && w.Ts()[k] == Loop && LoopsMatch(w, k, c.loops)
    requires c.ip < |w.src| && w.src[c.ip] == '[' && Ahead(w.src, c.ip) == w.Ts()[k..]
    requires CloseIndex(w.Ts(), k + 1, 0) == e + 1 && Opens(w.Ts(), e + 1) == Opens(w.Ts(), k)
    requires k' == if Cell(c.st.tape, c.st.head) != 0 then k + 1 else e + 1
    ensures Step(w.src, c).st == c.st && InProgram(w, k', Step(w.src, c))
  {
    StepAtBracket(w.src, c);
    if Cell(c.st.tape, c.st.head) != 0 {
      ProgramEnters(w, k, c, Step(w.src, c));
    } else {
      ProgramSkips(w, k, e, c, Step(w.src, c));
    }
  }

  /** A jump into the test block. */
  lemma JumpToTest(w: Job, h: seq<Code>, g: seq<M.Block>, k: nat, m: M.Machine, test: M.BlockId)
    requires Compiles(w, h, g) && k < |w.Ts()| && h[k].cur < |h[k].blocks| && AtPoint(h[k], m)
    requires w.Ts()[k] == Loop ==> test == NewFrame(h[k]).test
    requires w.Ts()[k] == EndLoop ==> h[k].frames != [] && test == h[k].frames[|h[k].frames| - 1].test
    requires w.Ts()[k].Loop? || w.Ts()[k].EndLoop?
    ensures M.Step(g, w.env, m) == M.Running(test, 0, h[k].cur, m.now)
  {
    Emitted(w.o, w.Ts(), h, k);
    var cur := h[k].cur;
    assert h[k + 1].blocks[cur] == h[k].blocks[cur] + [M.Br(test)];
    assert g[cur][m.pc] == M.Br(test);
  }

  lemma BracketIsSteady(w: Job, c: Config, i: nat)
    requires InTape(w.o, w.env, c.st.head) && Quiet(w.src, c, i)
    ensures Steady(w, c, i + 1)
  {
    forall x | 0 <= x < i + 1
      ensures !Stray(w, Run(w.src, c, x))
    {
      QuietAt(w.src, c, i, x);
    }
  }

  /** The facts about matching that the test needs. */
  predicate Matched(ts: seq<Token>, k: nat, e: nat) {
    && k < e < |ts| && ts[k] == Loop && ts[e] == EndLoop && CloseIndex(ts, k + 1, 0) == e + 1
    && Opens(ts, e) == Opens(ts, k) + [k] && Opens(ts, e + 1) == Opens(ts, k)
  }

  lemma ReachTestAtLoop(w: Job, h: seq<Code>, g: seq<M.Block>, k: nat, c: Config, m: M.Machine) returns (i: nat, e: nat)
    requires Compiles(w, h, g) && k < |w.Ts()| && Related(w, h, k, c, m) && w.Ts()[k] == Loop
    ensures Matched(w.Ts(), k, e) && Testing(w, h, k, e, Run(w.src, c, i), M.Step(g, w.env, m), h[k].head)
    ensures Quiet(w.src, c, i)
  {
    ScanningKeepsVerdict(w.src, 0);
    e := LoopEnd(w.Ts(), k);
    assert w.Ts()[k..][0] == Loop;
    i := RunToBracket(w.src, c);
    assert Follows(w.o, w.Ts(), h, k);
    JumpToTest(w, h, g, k, m, NewFrame(h[k]).test);
  }

  lemma LeaveBody(w: Job, k: nat, e: nat, loops: seq<nat>)
    requires Matched(w.Ts(), k, e) && LoopsMatch(w, e, loops)
    ensures loops != [] && LoopsMatch(w, k, loops[..|loops| - 1])
    ensures var p := loops[|loops| - 1]; p < |w.src| && w.src[p] == '[' && Ahead(w.src, p) == w.Ts()[k..]
  {
    var opens := Opens(w.Ts(), e);
    assert opens[|loops| - 1] == k;
    forall d | 0 <= d < |loops| - 1
      ensures opens[d] == Opens(w.Ts(), k)[d]
    {
    }
  }

  lemma StepBack(src: string, c: Config)
    requires c.ip < |src| && src[c.ip] == ']' && c.loops != []
    ensures Step(src, c) == Config(c.loops[|c.loops| - 1], c.loops[..|c.loops| - 1], c.st)
  {
  }

  /** The program's side of ']': back to the '[' of the innermost loop. */
  lemma BackToTest(w: Job, k: nat, e: nat, c: Config) returns (i: nat)
    requires Matched(w.Ts(), k, e) && c.ip <= |w.src| && Ahead(w.src, c.ip) == w.Ts()[e..]
    requires LoopsMatch(w, e, c.loops)
    ensures var r := Run(w.src, c, i);
            && r.ip < |w.src| && w.src[r.ip] == '[' && Ahead(w.src, r.ip) == w.Ts()[k..] && LoopsMatch(w, k, r.loops)
    ensures Quiet(w.src, c, i)
  {
    assert w.Ts()[e..][0] == EndLoop;
    i := RunToBracket(w.src, c);
    RunSnoc(w.src, c, i);
    LeaveBody(w, k, e, c.loops);
    StepBack(w.src, Run(w.src, c, i));
    QuietAfter(w.src, c, i);
    i := i + 1;
  }

  lemma ReachTestAtEnd(w: Job, h: seq<Code>, g: seq<M.Block>, e: nat, c: Config, m: M.Machine) returns (i: nat, k: nat)
    requires Compiles(w, h, g) && e < |w.Ts()| && Related(w, h, e, c, m) && w.Ts()[e] == EndLoop
    ensures Matched(w.Ts(), k, e) && Testing(w, h, k, e, Run(w.src, c, i), M.Step(g, w.env, m), h[e].head)
    ensures Quiet(w.src, c, i)
  {
    k := MatchingLoop(w, e);
    i := BackToTest(w, k, e, c);
    QuietAt(w.src, c, i, i);
    LoopEmitted(w.o, w.Ts(), h, k, e);
    JumpToTest(w, h, g, e, m, NewFrame(h[k]).test);
  }

  lemma MatchingLoop(w: Job, e: nat) returns (k: nat)
    requires w.Valid() && e < |w.Ts()| && w.Ts()[e] == EndLoop
    ensures Opens(w.Ts(), e) != [] && Matched(w.Ts(), k, e)
  {
    var ts := w.Ts();
    ScanningKeepsVerdict(w.src, 0);
    JudgeAfterPrefix(ts, e);
    k := Opens(ts, e)[|Opens(ts, e)| - 1];
    InnermostMatches(ts, e, k);
  }

  lemma InnermostMatches(ts: seq<Token>, e: nat, k: nat)
    requires JudgeTokens(ts, 0) == Accepted && e < |ts| && ts[e] == EndLoop
    requires Opens(ts, e) != [] && k == Opens(ts, e)[|Opens(ts, e)| - 1]
    ensures Matched(ts, k, e)
  {
    OpenAtLoop(ts, e, |Opens(ts, e)| - 1);
    ClosesWhatItOpened(ts, e, k);
  }

  /** Once both sides are at the test, one more character and a few instructions settle it. */
  lemma FromTest(w: Job, h: seq<Code>, g: seq<M.Block>, k: nat, e: nat, c: Config, m: M.Machine, i: nat, from: M.Reg)
    returns (j: nat, k': nat)
    requires Compiles(w, h, g) && Matched(w.Ts(), k, e)
    requires Testing(w, h, k, e, Run(w.src, c, i), M.Step(g, w.env, m), from)
    requires Quiet(w.src, c, i)
    ensures Stepped(w, h, g, k', c, m, i + 1, j)
  {
    j, k' := TakeTest(w, h, g, k, e, Run(w.src, c, i), M.Step(g, w.env, m), from);
    RunSnoc(w.src, c, i);
    j := j + 1;
    QuietAt(w.src, c, i, i);
    if w.o.bounds {
      BracketIsSteady(w, c, i);
    }
  }

  lemma AdvanceBracket(w: Job, h: seq<Code>, g: seq<M.Block>, k: nat, c: Config, m: M.Machine)
    returns (i: nat, j: nat, k': nat)
    requires Compiles(w, h, g) && k < |w.Ts()| && Related(w, h, k, c, m) && (w.Ts()[k].Loop? || w.Ts()[k].EndLoop?)
    ensures Stepped(w, h, g, k', c, m, i, j)
  {
    if w.Ts()[k].Loop? {
      i, j, k' := AdvanceLoop(w, h, g, k, c, m);
    } else {
      i, j, k' := AdvanceEndLoop(w, h, g, k, c, m);
    }
  }

  lemma AdvanceLoop(w: Job, h: seq<Code>, g: seq<M.Block>, k: nat, c: Config, m: M.Machine)
    returns (i: nat, j: nat, k': nat)
    requires Compiles(w, h, g) && k < |w.Ts()| && Related(w, h, k, c, m) && w.Ts()[k] == Loop
    ensures Stepped(w, h, g, k', c, m, i, j)
  {
    var e;
    i, e := ReachTestAtLoop(w, h, g, k, c, m);
    j, k' := FromTest(w, h, g, k, e, c, m, i, h[k].head);
    i := i + 1;
  }

  lemma AdvanceEndLoop(w: Job, h: seq<Code>, g: seq<M.Block>, e: nat, c: Config, m: M.Machine)
    returns (i: nat, j: nat, k': nat)
    requires Compiles(w, h, g) && e < |w.Ts()| && Related(w, h, e, c, m) && w.Ts()[e] == EndLoop
    ensures Stepped(w, h, g, k', c, m, i, j)
  {
    var k;
    i, k := ReachTestAtEnd(w, h, g, e, c, m);
    j, k' := FromTest(w, h, g, k, e, c, m, i, h[e].head);
    i := i + 1;
  }

  // ----- entry and return -----

  /** The header leaves a zeroed tape with the head in its middle. */
  lemma ExecHeader(o: Options, env: M.Env, input: seq<Byte>, g: seq<M.Block>, m: M.Machine) returns (j: nat)
    requires |g| > 0 && Header(o).blocks[0] <= g[0] && M.Initial(m, env, o.mem, input)
    requires Suitable(o, env)
    ensures var r := M.Run(g, env, m, j);
            AtPoint(Header(o), r) && Holds(o, env, Header(o), State(env.base + o.mem / 2, map[], input, []), r.now)
  {
    var entry := Header(o).blocks[0];
    j := ExecClear(o, env, g, m);
    assert g[0][2] == entry[2];
    M.RunSnoc(g, env, m, j);
    j := j + 1;
    if o.bounds {
      assert g[0][3] == entry[3];
      M.RunSnoc(g, env, m, j);
      j := j + 1;
    }
  }

  /** Get the tape and clear it. */
  lemma ExecClear(o: Options, env: M.Env, g: seq<M.Block>, m: M.Machine) returns (j: nat)
    requires |g| > 0 && Header(o).blocks[0] <= g[0] && m.Running? && M.Initial(m, env, o.mem, m.now.input)
    requires Suitable(o, env)
    ensures M.Run(g, env, m, j) == M.Running(0, 2, m.prev, M.Data(map[ARR := env.base], map[], m.now.input, [], 0))
  {
    var entry := Header(o).blocks[0];
    assert g[0][0] == entry[0] == M.Malloc(ARR, o.mem) && g[0][1] == entry[1] == M.MemZero(ARR, o.mem);
    var m1 := M.Step(g, env, m);
    assert m1 == M.Running(0, 1, m.prev, m.now.(regs := map[ARR := env.base]));
    var m2 := M.Step(g, env, m1);
    assert m2.Running? && m2.now.mem == map[];
    M.RunSnoc(g, env, m, 0);
    j := 0 + 1;
    M.RunSnoc(g, env, m, j);
    j := j + 1;
  }

  /** After the last symbol the function frees the tape and returns. */
  lemma ExecReturn(o: Options, env: M.Env, c: Code, g: seq<M.Block>, m: M.Machine) returns (j: nat)
    requires Scoped(o, c) && g == Finish(c).blocks && [M.Free(ARR), M.Ret] <= g[END]
    requires AtPoint(c, m) && ARR in m.now.regs && m.now.regs[ARR] == env.base
    ensures j > 0 && M.Run(g, env, m, j) == M.Done(m.now)
  {
    var m1, m2;
    m1, m2, j := RunThree(g, env, m);
    assert g[c.cur][m.pc] == M.Br(END);
    assert g[END][0] == M.Free(ARR) && g[END][1] == M.Ret;
  }

  // ----- running in step -----

  /** Tape, unread input and output are the same, and nothing has been reported. */
  predicate SameView(s: State, d: M.Data) {
    d.mem == s.tape && d.input == s.input && d.output == s.output && d.errors == 0
  }

  /** Program and machine agree on all that can be observed, and the machine returns only when
      the program has ended, with the head in `head`. */
  predicate AgreeWithHead(src: string, head: M.Reg, c: Config, m: M.Machine) {
    match m
    case Running(_, _, _, d) => SameView(c.st, d)
    case Done(d) => SameView(c.st, d) && Halted(src, c) && head in d.regs && d.regs[head] == c.st.head
    case Fault => false
  }

  predicate Agree(w: Job, c: Config, m: M.Machine) {
    AgreeWithHead(w.src, w.HeadReg(), c, m)
  }

  /** The machine has reported, as the checked program must, that the program left its tape. */
  predicate Caught(w: Job, c: Config, m: M.Machine) {
    w.o.bounds && Stray(w, c) && Refused(c.st, m)
  }

  /** After `i` characters and `j` instructions of `g`: either at a common symbol boundary, or
      ended alike. */
  ghost predicate InStep(w: Job, h: seq<Code>, g: seq<M.Block>, m0: M.Machine, i: nat, j: nat, k: nat)
    requires |h| == |w.Ts()| + 1
  {
    var c, m := w.Source(i), M.Run(g, w.env, m0, j);
    && (Related(w, h, k, c, m) || (m.Done? && AgreeWithHead(w.src, h[|w.Ts()|].head, c, m)))
    && (w.o.bounds ==> Steady(w, w.Start(), i + 1))
  }

  lemma SteadyAdds(w: Job, c: Config, i: nat, more: nat)
    requires Steady(w, c, i) && Steady(w, Run(w.src, c, i), more)
    ensures Steady(w, c, i + more)
  {
    forall x | i <= x < i + more
      ensures !Stray(w, Run(w.src, c, x))
    {
      RunAdds(w.src, c, i, x - i);
    }
  }

  lemma RelatedNotStray(w: Job, h: seq<Code>, k: nat, c: Config, m: M.Machine)
    requires |h| == |w.Ts()| + 1 && Related(w, h, k, c, m) && w.o.bounds
    ensures !Stray(w, c)
  {
  }

  lemma Advance(w: Job, h: seq<Code>, g: seq<M.Block>, k: nat, c: Config, m: M.Machine)
    returns (i: nat, j: nat, k': nat)
    requires Compiles(w, h, g) && k < |w.Ts()| && Related(w, h, k, c, m)
    ensures Stepped(w, h, g, k', c, m, i, j)
  {
    if w.Ts()[k].Loop? || w.Ts()[k].EndLoop? {
      i, j, k' := AdvanceBracket(w, h, g, k, c, m);
    } else {
      i, j := AdvanceStraight(w, h, g, k, c, m);
      k' := k + 1;
    }
  }

  /** One symbol further. */
  lemma SyncStep(w: Job, h: seq<Code>, g: seq<M.Block>, m0: M.Machine, i: nat, j: nat, k: nat)
    returns (i': nat, j': nat, k': nat)
    requires Compiles(w, h, g) && (w.o.bounds ==> Steady(w, w.Start(), i)) && k < |w.Ts()|
    requires Related(w, h, k, w.Source(i), M.Run(g, w.env, m0, j))
    ensures i' > i && j' > j
    ensures Landing(w, h, g, m0, i', j', k')
  {
    var di, dj;
    di, dj, k' := Advance(w, h, g, k, w.Source(i), M.Run(g, w.env, m0, j));
    i', j' := Landed(w, h, g, m0, i, j, di, dj, k');
  }

  /** In step or, checked, caught at the first moment the head has strayed. */
  ghost predicate Landing(w: Job, h: seq<Code>, g: seq<M.Block>, m0: M.Machine, i: nat, j: nat, k: nat)
    requires |h| == |w.Ts()| + 1
  {
    InStep(w, h, g, m0, i, j, k) || (Caught(w, w.Source(i), M.Run(g, w.env, m0, j)) && Steady(w, w.Start(), i))
  }

  /** Where a step leads: related again and not astray, or caught. */
  lemma Landed(w: Job, h: seq<Code>, g: seq<M.Block>, m0: M.Machine, i: nat, j: nat, di: nat, dj: nat, k: nat)
    returns (i': nat, j': nat)
    requires |h| == |w.Ts()| + 1 && (w.o.bounds ==> Steady(w, w.Start(), i))
    requires Stepped(w, h, g, k, w.Source(i), M.Run(g, w.env, m0, j), di, dj)
    ensures i' > i && j' > j && Landing(w, h, g, m0, i', j', k)
  {
    i', j' := i + di, j + dj;
    RunAdds(w.src, w.Start(), i, di);
    M.RunAdds(g, w.env, m0, j, dj);
    if w.o.bounds {
      SteadyAdds(w, w.Start(), i, di);
      if Related(w, h, k, w.Source(i + di), M.Run(g, w.env, m0, j + dj)) {
        RelatedNotStray(w, h, k, w.Source(i + di), M.Run(g, w.env, m0, j + dj));
      }
    }
  }

  lemma SteadyToEnd(w: Job, i: nat, di: nat)
    requires w.o.bounds ==> Steady(w, w.Start(), i)
    requires w.o.bounds ==> InTape(w.o, w.env, w.Source(i).st.head)
    requires Quiet(w.src, w.Source(i), di)
    requires Halted(w.src, Run(w.src, w.Source(i), di))
    ensures Halted(w.src, w.Source(i + di + 1)) && w.Source(i + di + 1).st == w.Source(i).st
    ensures w.o.bounds ==> Steady(w, w.Start(), i + di + 2)
  {
    RunAdds(w.src, w.Start(), i, di);
    RunSnoc(w.src, w.Start(), i + di);
    RunSnoc(w.src, w.Source(i), di);
    QuietAt(w.src, w.Source(i), di, di);
    QuietAfter(w.src, w.Source(i), di);
    if w.o.bounds {
      BracketIsSteady(w, w.Source(i), di + 1);
      SteadyAdds(w, w.Start(), i, di + 2);
    }
  }

  /** From the last symbol to the end of the text, and to the return. */
  lemma SyncEnd(w: Job, h: seq<Code>, g: seq<M.Block>, m0: M.Machine, i: nat, j: nat) returns (i': nat, j': nat)
    requires Compiles(w, h, g)
    requires InStep(w, h, g, m0, i, j, |w.Ts()|)
    requires Related(w, h, |w.Ts()|, w.Source(i), M.Run(g, w.env, m0, j))
    ensures i' > i && j' > j && InStep(w, h, g, m0, i', j', |w.Ts()|) && M.Run(g, w.env, m0, j').Done?
  {
    var c, m := w.Source(i), M.Run(g, w.env, m0, j);
    var di := RunToEnd(w.src, c);
    SteadyToEnd(w, i, di);
    FixedBlocks(w.o, w.Ts(), h);
    var dj := ExecReturn(w.o, w.env, h[|w.Ts()|], g, m);
    M.RunAdds(g, w.env, m0, j, dj);
    i', j' := i + di + 1, j + dj;
  }
}
