/** One symbol of the scanned program stands for a whole run of characters. */
module BrainFRuns {
  import opened Wrappers

  import opened BrainFSource
  import opened BrainFTokens

  /** The effect of a symbol other than a bracket. */
  function Apply(t: Token, s: State): State
    requires !t.Loop? && !t.EndLoop?
  {
    match t
    case Read => DoRead(s)
    case Write => DoWrite(s)
    case Move(n) => DoMove(s, n)
    case Change(n) => DoChange(s, n)
  }

  /** The symbols still to come at position `i`. */
  function Ahead(src: string, i: nat): seq<Token>
    requires i <= |src|
  {
    Tokens(src[i..])
  }

  lemma AheadStep(src: string, i: nat)
    requires i < |src|
    ensures Ahead(src, i) == match TokenOf(src[i])
                             case None => Ahead(src, i + 1)
                             case Some(t) => Prepend(t, Ahead(src, i + 1))
  {
    assert src[i..][1..] == src[i + 1..];
  }

  lemma ChangesAdd(s: State, a: int, b: int)
    ensures DoChange(DoChange(s, a), b) == DoChange(s, a + b)
  {
    assert ((Cell(s.tape, s.head) + a) % 256 + b) % 256 == (Cell(s.tape, s.head) + (a + b)) % 256;
  }

  /** How many characters it takes to finish the symbol that comes next at `i`. */
  function Span(src: string, i: nat): nat
    requires i <= |src|
    decreases |src| - i
  {
    if i == |src| then 0
    else match TokenOf(src[i])
      case None => 1 + Span(src, i + 1)
      case Some(t) =>
        if Ahead(src, i + 1) != [] && SameRun(t, Ahead(src, i + 1)[0]) then 1 + Span(src, i + 1) else 1
  }

  /** A symbol other than a bracket comes next. */
  predicate StraightAhead(src: string, c: Config) {
    c.ip <= |src| && Ahead(src, c.ip) != [] && !Ahead(src, c.ip)[0].Loop? && !Ahead(src, c.ip)[0].EndLoop?
  }

  /** One character either finishes the next symbol, or leaves the rest of it to be done. */
  ghost predicate StepsIn(src: string, c: Config, next: Config)
    requires StraightAhead(src, c)
  {
    var t := Ahead(src, c.ip)[0];
    && next.ip == c.ip + 1 <= |src| && next.loops == c.loops
    && if Span(src, c.ip) == 1 then next.st == Apply(t, c.st) && Ahead(src, next.ip) == Ahead(src, c.ip)[1..]
       else && StraightAhead(src, next) && Span(src, c.ip) == 1 + Span(src, next.ip)
            && Ahead(src, next.ip)[1..] == Ahead(src, c.ip)[1..]
            && Apply(Ahead(src, next.ip)[0], next.st) == Apply(t, c.st)
            && (next.st.head == c.st.head || Ahead(src, next.ip)[0].Move?)
            && (t.Move? <==> Ahead(src, next.ip)[0].Move?)
  }

  lemma StepInToken(src: string, c: Config)
    requires StraightAhead(src, c)
    ensures StepsIn(src, c, Step(src, c))
  {
    AheadStep(src, c.ip);
    var t, ahead := TokenOf(src[c.ip]), Ahead(src, c.ip + 1);
    if t.None? {
      StepIgnored(src, c);
    } else if ahead != [] && SameRun(t.value, ahead[0]) {
      StepInRun(src, c);
    } else {
      StepIsApply(src, c);
    }
  }

  lemma StepIgnored(src: string, c: Config)
    requires StraightAhead(src, c) && c.ip < |src| && TokenOf(src[c.ip]).None?
    ensures StepsIn(src, c, Step(src, c))
  {
    AheadStep(src, c.ip);
    assert Step(src, c) == c.(ip := c.ip + 1);
    assert c.ip + 1 < |src|;
    assert Span(src, c.ip + 1) > 0;
  }

  /** A symbol merged with the rest of its run does what the two do one after the other. */
  lemma MergedApplies(t: Token, ahead: seq<Token>, s: State)
    requires ahead != [] && SameRun(t, ahead[0])
    ensures var all := Prepend(t, ahead);
            && all[1..] == ahead[1..] && SameRun(all[0], ahead[0]) && SameRun(all[0], t)
            && Apply(all[0], s) == Apply(ahead[0], Apply(t, s))
            && (Apply(t, s).head == s.head || ahead[0].Move?)
  {
    if t.Change? {
      ChangesAdd(s, t.n, ahead[0].n);
    }
  }

  lemma SpanInRun(src: string, i: nat)
    requires i < |src| && TokenOf(src[i]).Some?
    requires Ahead(src, i + 1) != [] && SameRun(TokenOf(src[i]).value, Ahead(src, i + 1)[0])
    ensures Span(src, i) == 1 + Span(src, i + 1) && Span(src, i + 1) > 0
  {
  }

  lemma StepInRun(src: string, c: Config)
    requires StraightAhead(src, c) && c.ip < |src| && TokenOf(src[c.ip]).Some?
    requires Ahead(src, c.ip + 1) != [] && SameRun(TokenOf(src[c.ip]).value, Ahead(src, c.ip + 1)[0])
    ensures StepsIn(src, c, Step(src, c))
  {
    AheadStep(src, c.ip);
    StepIsApply(src, c);
    MergedApplies(TokenOf(src[c.ip]).value, Ahead(src, c.ip + 1), c.st);
    SpanInRun(src, c.ip);
  }

  /** A character other than a bracket does what its symbol alone does. */
  lemma StepIsApply(src: string, c: Config)
    requires c.ip < |src| && TokenOf(src[c.ip]).Some?
    requires !TokenOf(src[c.ip]).value.Loop? && !TokenOf(src[c.ip]).value.EndLoop?
    ensures Step(src, c) == Config(c.ip + 1, c.loops, Apply(TokenOf(src[c.ip]).value, c.st))
  {
  }

  /** Executing the characters of a symbol one by one amounts to executing the symbol. */
  lemma {:induction false} RunToken(src: string, c: Config)
    requires StraightAhead(src, c)
    ensures var r := Run(src, c, Span(src, c.ip));
            && r.loops == c.loops && r.st == Apply(Ahead(src, c.ip)[0], c.st)
            && r.ip <= |src| && Ahead(src, r.ip) == Ahead(src, c.ip)[1..]
    decreases |src| - c.ip
  {
    StepInToken(src, c);
    var next := Step(src, c);
    if Span(src, c.ip) == 1 {
      assert Run(src, next, 0) == next;
    } else {
      RunToken(src, next);
    }
  }

  /** While a symbol is being executed, the head stays put unless more moves are to come. */
  lemma {:induction false} SteadyInToken(src: string, c: Config, x: nat)
    requires StraightAhead(src, c) && x < Span(src, c.ip)
    ensures var r := Run(src, c, x);
            StraightAhead(src, r) && (r.st.head == c.st.head || Ahead(src, r.ip)[0].Move?)
            && (Ahead(src, c.ip)[0].Move? ==> Ahead(src, r.ip)[0].Move?)
    decreases x
  {
    if x > 0 {
      StepInToken(src, c);
      SteadyInToken(src, Step(src, c), x - 1);
    }
  }

  /** The state after `x` characters. */
  function StateAfter(src: string, c: Config, x: nat): State {
    Run(src, c, x).st
  }

  /** Nothing happens in the next `n` characters. */
  ghost predicate Quiet(src: string, c: Config, n: nat) {
    forall x: nat :: x <= n ==> StateAfter(src, c, x) == c.st
  }

  lemma QuietNow(src: string, c: Config)
    ensures Quiet(src, c, 0)
  {
    assert Run(src, c, 0) == c;
  }

  lemma QuietBefore(src: string, c: Config, n: nat)
    requires Step(src, c).st == c.st && Quiet(src, Step(src, c), n)
    ensures Quiet(src, c, n + 1)
  {
    forall x: nat | x <= n + 1
      ensures StateAfter(src, c, x) == c.st
    {
      if x > 0 {
        assert StateAfter(src, Step(src, c), x - 1) == c.st;
      }
    }
  }

  lemma QuietAfter(src: string, c: Config, n: nat)
    requires Quiet(src, c, n) && Step(src, Run(src, c, n)).st == c.st
    ensures Quiet(src, c, n + 1)
  {
    forall x: nat | x <= n + 1
      ensures StateAfter(src, c, x) == c.st
    {
      if x == n + 1 {
        RunSnoc(src, c, n);
      }
    }
  }

  lemma QuietAt(src: string, c: Config, n: nat, x: nat)
    requires Quiet(src, c, n) && x <= n
    ensures Run(src, c, x).st == c.st
  {
    assert StateAfter(src, c, x) == c.st;
  }

  lemma Ignored(src: string, c: Config)
    requires c.ip < |src| && TokenOf(src[c.ip]).None?
    ensures Step(src, c) == c.(ip := c.ip + 1) && Ahead(src, c.ip) == Ahead(src, c.ip + 1)
  {
    AheadStep(src, c.ip);
  }

  lemma BracketHere(src: string, c: Config)
    requires c.ip < |src| && TokenOf(src[c.ip]).Some? && Ahead(src, c.ip) != []
    requires Ahead(src, c.ip)[0].Loop? || Ahead(src, c.ip)[0].EndLoop?
    ensures src[c.ip] == (if Ahead(src, c.ip)[0].Loop? then '[' else ']')
    ensures Ahead(src, c.ip + 1) == Ahead(src, c.ip)[1..]
  {
    AheadStep(src, c.ip);
  }

  /** Before a bracket there are only ignored characters. */
  lemma {:induction false} RunToBracket(src: string, c: Config) returns (j: nat)
    requires c.ip <= |src| && Ahead(src, c.ip) != []
    requires Ahead(src, c.ip)[0].Loop? || Ahead(src, c.ip)[0].EndLoop?
    ensures var r := Run(src, c, j);
            && r.loops == c.loops && r.st == c.st && r.ip < |src|
            && src[r.ip] == (if Ahead(src, c.ip)[0].Loop? then '[' else ']')
            && Ahead(src, r.ip) == Ahead(src, c.ip) && Ahead(src, r.ip + 1) == Ahead(src, c.ip)[1..]
    ensures Quiet(src, c, j)
    decreases |src| - c.ip
  {
    QuietNow(src, c);
    j := 0;
    if TokenOf(src[c.ip]).None? {
      Ignored(src, c);
      j := RunToBracket(src, Step(src, c));
      QuietBefore(src, c, j);
      j := j + 1;
    } else {
      BracketHere(src, c);
    }
  }

  /** After the last symbol there are only ignored characters. */
  lemma {:induction false} RunToEnd(src: string, c: Config) returns (j: nat)
    requires c.ip <= |src| && Ahead(src, c.ip) == []
    ensures Halted(src, Run(src, c, j))
    ensures Quiet(src, c, j)
    decreases |src| - c.ip
  {
    if c.ip == |src| {
      QuietNow(src, c);
      j := 0;
    } else {
      AheadStep(src, c.ip);
      j := RunToEnd(src, Step(src, c));
      QuietBefore(src, c, j);
      j := j + 1;
    }
  }

  /** What follows the loop whose body continues with `ts`. */
  function PastLoop(ts: seq<Token>, depth: nat): seq<Token> {
    if ts == [] then []
    else match ts[0]
      case Loop => PastLoop(ts[1..], depth + 1)
      case EndLoop => if depth == 0 then ts[1..] else PastLoop(ts[1..], depth - 1)
      case _ => PastLoop(ts[1..], depth)
  }

  lemma {:induction false} PastLoopIndex(ts: seq<Token>, i: nat, depth: nat)
    requires i <= |ts|
    ensures PastLoop(ts[i..], depth) == ts[CloseIndex(ts, i, depth)..]
    decreases |ts| - i
  {
    if i < |ts| {
      assert ts[i..][1..] == ts[i + 1..];
      match ts[i]
      case Loop => PastLoopIndex(ts, i + 1, depth + 1);
      case EndLoop =>
        if depth > 0 {
          PastLoopIndex(ts, i + 1, depth - 1);
        }
      case _ => PastLoopIndex(ts, i + 1, depth);
    }
  }

  /** A symbol other than a bracket is skipped, with or without the rest of its run. */
  lemma PastStraight(t: Token, ahead: seq<Token>, depth: nat)
    requires !t.Loop? && !t.EndLoop?
    ensures PastLoop(Prepend(t, ahead), depth) == PastLoop(ahead, depth)
  {
    var all := Prepend(t, ahead);
    if ahead != [] && SameRun(t, ahead[0]) {
      assert all[1..] == ahead[1..];
    } else {
      assert all[1..] == ahead;
    }
  }

  lemma PastOpen(ahead: seq<Token>, depth: nat)
    ensures PastLoop(Prepend(Loop, ahead), depth) == PastLoop(ahead, depth + 1)
  {
    assert Prepend(Loop, ahead)[1..] == ahead;
  }

  lemma PastClose(ahead: seq<Token>, depth: nat)
    ensures PastLoop(Prepend(EndLoop, ahead), depth) == if depth == 0 then ahead else PastLoop(ahead, depth - 1)
  {
    assert Prepend(EndLoop, ahead)[1..] == ahead;
  }

  /** One character further, inside as many loops as it leaves open. */
  lemma SkipStep(src: string, i: nat, depth: nat)
    requires i < |src|
    ensures var t := TokenOf(src[i]);
            && AfterClose(src, i, depth) == (
                 if t == Some(Loop) then AfterClose(src, i + 1, depth + 1)
                 else if t != Some(EndLoop) then AfterClose(src, i + 1, depth)
                 else if depth == 0 then i + 1 else AfterClose(src, i + 1, depth - 1))
            && PastLoop(Ahead(src, i), depth) == (
                 if t == Some(Loop) then PastLoop(Ahead(src, i + 1), depth + 1)
                 else if t != Some(EndLoop) then PastLoop(Ahead(src, i + 1), depth)
                 else if depth == 0 then Ahead(src, i + 1) else PastLoop(Ahead(src, i + 1), depth - 1))
  {
    AheadStep(src, i);
    var t, ahead := TokenOf(src[i]), Ahead(src, i + 1);
    if t == Some(Loop) {
      PastOpen(ahead, depth);
    } else if t == Some(EndLoop) {
      PastClose(ahead, depth);
    } else if t.Some? {
      PastStraight(t.value, ahead, depth);
    }
  }

  /** Skipping a loop character by character arrives where skipping it symbol by symbol does. */
  lemma {:induction false} SkippingAgrees(src: string, i: nat, depth: nat)
    requires i <= |src|
    ensures Ahead(src, AfterClose(src, i, depth)) == PastLoop(Ahead(src, i), depth)
    decreases |src| - i
  {
    if i < |src| {
      SkipStep(src, i, depth);
      SkippingAgrees(src, i + 1, depth + 1);
      SkippingAgrees(src, i + 1, depth);
      if depth > 0 {
        SkippingAgrees(src, i + 1, depth - 1);
      }
    }
  }
}
