/** The BrainF language itself: the eight commands of the language table, run one
    character at a time, and the bracket discipline the compiler demands. */
module BrainFSource {

  type Byte = b: int | 0 <= b < 256

  /** A tape that is zero wherever nothing has been stored. */
  type Tape = map<int, Byte>

  function Cell(tape: Tape, a: int): Byte {
    if a in tape then tape[a] else 0
  }

  /** What a program can observe: the head, the tape, the unread input and the written output. */
  datatype State = State(head: int, tape: Tape, input: seq<Byte>, output: seq<Byte>)

  /** A character that arrives from standard input; 255 at end of file. */
  function NextByte(input: seq<Byte>): Byte {
    if input == [] then 255 else input[0]
  }

  function Rest(input: seq<Byte>): seq<Byte> {
    if input == [] then [] else input[1..]
  }

  function DoRead(s: State): State {
    s.(tape := s.tape[s.head := NextByte(s.input)], input := Rest(s.input))
  }

  function DoWrite(s: State): State {
    s.(output := s.output + [Cell(s.tape, s.head)])
  }

  function DoChange(s: State, n: int): State {
    s.(tape := s.tape[s.head := (Cell(s.tape, s.head) + n) % 256])
  }

  function DoMove(s: State, n: int): State {
    s.(head := s.head + n)
  }

  /** Interpreter configuration: the next character, the positions of the '[' of the loops
      being executed (innermost last), and the program state. */
  datatype Config = Config(ip: nat, loops: seq<nat>, st: State)

  /** The position just after the ']' that closes the loop whose body continues at `i`,
      where `depth` inner loops are still open. */
  function AfterClose(src: string, i: nat, depth: nat): (r: nat)
    requires i <= |src|
    ensures i <= r <= |src|
    decreases |src| - i
  {
    if i == |src| then i
    else if src[i] == '[' then AfterClose(src, i + 1, depth + 1)
    else if src[i] == ']' then
      if depth == 0 then i + 1 else AfterClose(src, i + 1, depth - 1)
    else AfterClose(src, i + 1, depth)
  }

  /** One character of the program.  `[` is `while(*h) {`: it enters the loop or skips it;
      `]` goes back to the test of the innermost loop. */
  function Step(src: string, c: Config): Config {
    if c.ip >= |src| then c
    else
      var next := c.ip + 1;
      match src[c.ip]
      case ',' => c.(ip := next, st := DoRead(c.st))
      case '.' => c.(ip := next, st := DoWrite(c.st))
      case '-' => c.(ip := next, st := DoChange(c.st, -1))
      case '+' => c.(ip := next, st := DoChange(c.st, 1))
      case '<' => c.(ip := next, st := DoMove(c.st, -1))
      case '>' => c.(ip := next, st := DoMove(c.st, 1))
      case '[' =>
        if Cell(c.st.tape, c.st.head) == 0 then c.(ip := AfterClose(src, next, 0))
        else c.(ip := next, loops := c.loops + [c.ip])
      case ']' =>
        if c.loops == [] then c.(ip := next)
        else c.(ip := c.loops[|c.loops| - 1], loops := c.loops[..|c.loops| - 1])
      case _ => c.(ip := next)
  }

  function Run(src: string, c: Config, n: nat): Config
    decreases n
  {
    if n == 0 then c else Run(src, Step(src, c), n - 1)
  }

  predicate Halted(src: string, c: Config) {
    c.ip >= |src|
  }

  lemma RunAdds(src: string, c: Config, m: nat, n: nat)
    ensures Run(src, c, m + n) == Run(src, Run(src, c, m), n)
    decreases m
  {
    if m != 0 {
      RunAdds(src, Step(src, c), m - 1, n);
    }
  }

  lemma {:induction false} RunSnoc(src: string, c: Config, n: nat)
    ensures Run(src, c, n + 1) == Step(src, Run(src, c, n))
    decreases n
  {
    if n != 0 {
      RunSnoc(src, Step(src, c), n - 1);
    }
  }

  lemma {:induction false} HaltedStays(src: string, c: Config, n: nat)
    requires Halted(src, c)
    ensures Run(src, c, n) == c
    decreases n
  {
    if n != 0 {
      HaltedStays(src, c, n - 1);
    }
  }

  // ----- bracket discipline -----

  /** What the compiler says of a program: accepted, or which of its two errors it aborts with. */
  datatype Verdict = Accepted | ExtraClose | MissingClose

  /** The verdict on the text that follows when `depth` loops are open. */
  function Judge(src: string, depth: nat): Verdict {
    if src == "" then if depth == 0 then Accepted else MissingClose
    else if src[0] == '[' then Judge(src[1..], depth + 1)
    else if src[0] == ']' then
      if depth == 0 then ExtraClose else Judge(src[1..], depth - 1)
    else Judge(src[1..], depth)
  }

  /** Opening minus closing brackets. */
  function Excess(src: string): int {
    if src == "" then 0
    else (if src[0] == '[' then 1 else if src[0] == ']' then -1 else 0) + Excess(src[1..])
  }

  /** Every prefix has at least as many '[' as ']', and the whole text as many of each. */
  ghost predicate Balanced(src: string) {
    && (forall i :: 0 <= i <= |src| ==> Excess(src[..i]) >= 0)
    && Excess(src) == 0
  }

  /** Judge decides exactly the textbook notion of balance, and names the right error. */
  lemma {:induction false} JudgeIsBalance(src: string, depth: nat)
    ensures Judge(src, depth) == Accepted <==>
            (forall i :: 0 <= i <= |src| ==> depth + Excess(src[..i]) >= 0) && depth + Excess(src) == 0
    ensures Judge(src, depth) == ExtraClose <==>
            exists i :: 0 <= i <= |src| && depth + Excess(src[..i]) < 0
  {
    if src == "" {
      assert forall i :: 0 <= i <= |src| ==> src[..i] == "";
    } else {
      var e := if src[0] == '[' then 1 else if src[0] == ']' then -1 else 0;
      forall i | 0 <= i < |src|
        ensures Excess(src[..i + 1]) == e + Excess(src[1..][..i])
      {
        assert src[..i + 1][1..] == src[1..][..i];
      }
      assert src[..0] == "";
      if depth + e < 0 {
        assert depth + Excess(src[..1]) < 0 by {
          assert src[1..][..0] == "";
        }
      } else {
        JudgeIsBalance(src[1..], depth + e);
        forall i | 0 <= i <= |src[1..]|
          ensures Excess(src[1..][..i]) == Excess(src[..i + 1]) - e
        {}
        if Judge(src, depth) == ExtraClose {
          var i :| 0 <= i <= |src[1..]| && (depth + e) + Excess(src[1..][..i]) < 0;
          assert depth + Excess(src[..i + 1]) < 0;
        }
        forall i | 0 <= i <= |src| && depth + Excess(src[..i]) < 0
          ensures Judge(src, depth) == ExtraClose
        {
          assert i > 0;
          assert Excess(src[..i - 1 + 1]) == e + Excess(src[1..][..i - 1]);
        }
        if Judge(src, depth) == Accepted {
          forall i | 0 <= i <= |src|
            ensures depth + Excess(src[..i]) >= 0
          {
            if i > 0 {
              assert Excess(src[..i - 1 + 1]) == e + Excess(src[1..][..i - 1]);
            }
          }
        }
      }
    }
  }

  lemma AcceptedIffBalanced(src: string)
    ensures Judge(src, 0) == Accepted <==> Balanced(src)
  {
    JudgeIsBalance(src, 0);
  }
}
