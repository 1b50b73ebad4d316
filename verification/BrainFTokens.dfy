/** The symbols the scanner hands to the code generator: each maximal run of `+`/`-` or of
    `<`/`>`, ignored characters skipped, is one symbol that carries the signed sum. */
module BrainFTokens {
  import opened Wrappers

  import opened BrainFSource

  datatype Token = Read | Write | Move(n: int) | Change(n: int) | Loop | EndLoop

  /** The symbol of a single character; None for an ignored one. */
  function TokenOf(c: char): Option<Token> {
    match c
    case ',' => Some(Read)
    case '.' => Some(Write)
    case '-' => Some(Change(-1))
    case '+' => Some(Change(1))
    case '<' => Some(Move(-1))
    case '>' => Some(Move(1))
    case '[' => Some(Loop)
    case ']' => Some(EndLoop)
    case _ => None
  }

  /** Put a symbol in front of a list, merging it into a run of its own kind. */
  function Prepend(t: Token, ts: seq<Token>): (r: seq<Token>)
    ensures r != []
  {
    if t.Change? && ts != [] && ts[0].Change? then [Change(t.n + ts[0].n)] + ts[1..]
    else if t.Move? && ts != [] && ts[0].Move? then [Move(t.n + ts[0].n)] + ts[1..]
    else [t] + ts
  }

  function Tokens(src: string): seq<Token> {
    if src == "" then []
    else match TokenOf(src[0])
      case None => Tokens(src[1..])
      case Some(t) => Prepend(t, Tokens(src[1..]))
  }

  predicate SameRun(a: Token, b: Token) {
    (a.Change? && b.Change?) || (a.Move? && b.Move?)
  }

  /** No two adjacent symbols belong to the same run: the runs are maximal. */
  lemma {:induction false} RunsAreMaximal(src: string)
    ensures forall i :: 0 <= i < |Tokens(src)| - 1 ==> !SameRun(Tokens(src)[i], Tokens(src)[i + 1])
  {
    if src != "" {
      RunsAreMaximal(src[1..]);
    }
  }

  /** A run interrupted nowhere: putting two symbols of a run in front one by one or at once. */
  lemma PrependMerges(a: Token, b: Token, ts: seq<Token>)
    requires SameRun(a, b)
    ensures Prepend(a, Prepend(b, ts)) ==
            Prepend(if a.Change? then Change(a.n + b.n) else Move(a.n + b.n), ts)
  {
  }

  // ----- the bracket discipline and loop matching, on symbols -----

  function JudgeTokens(ts: seq<Token>, depth: nat): Verdict {
    if ts == [] then if depth == 0 then Accepted else MissingClose
    else match ts[0]
      case Loop => JudgeTokens(ts[1..], depth + 1)
      case EndLoop => if depth == 0 then ExtraClose else JudgeTokens(ts[1..], depth - 1)
      case _ => JudgeTokens(ts[1..], depth)
  }

  /** The scanner neither adds, drops nor reorders brackets. */
  lemma {:induction false} ScanningKeepsVerdict(src: string, depth: nat)
    ensures JudgeTokens(Tokens(src), depth) == Judge(src, depth)
  {
    if src != "" {
      var rest := Tokens(src[1..]);
      match TokenOf(src[0]) {
        case None =>
          ScanningKeepsVerdict(src[1..], depth);
        case Some(t) =>
          if t.Loop? {
            ScanningKeepsVerdict(src[1..], depth + 1);
            assert Tokens(src)[1..] == rest;
          } else if t.EndLoop? {
            assert Tokens(src)[1..] == rest;
            if depth > 0 {
              ScanningKeepsVerdict(src[1..], depth - 1);
            }
          } else {
            ScanningKeepsVerdict(src[1..], depth);
            assert Tokens(src)[1..] == rest || (rest != [] && Tokens(src)[1..] == rest[1..] && SameRun(t, rest[0]));
          }
      }
    }
  }

  /** Index just after the EndLoop that closes the loop whose body continues at `i`. */
  function CloseIndex(ts: seq<Token>, i: nat, depth: nat): (r: nat)
    requires i <= |ts|
    ensures i <= r <= |ts|
    decreases |ts| - i
  {
    if i == |ts| then i
    else match ts[i]
      case Loop => CloseIndex(ts, i + 1, depth + 1)
      case EndLoop => if depth == 0 then i + 1 else CloseIndex(ts, i + 1, depth - 1)
      case _ => CloseIndex(ts, i + 1, depth)
  }

  /** Indices of the loops open after the first `k` symbols, innermost last. */
  function Opens(ts: seq<Token>, k: nat): (r: seq<nat>)
    requires k <= |ts|
    ensures forall i :: 0 <= i < |r| ==> r[i] < k && ts[r[i]] == Loop
  {
    if k == 0 then []
    else
      var before := Opens(ts, k - 1);
      match ts[k - 1]
      case Loop => before + [k - 1]
      case EndLoop => if before == [] then [] else before[..|before| - 1]
      case _ => before
  }

  /** A loop that is open at `k` has been open, at the same nesting depth, since its '['. */
  lemma {:induction false} OpenSince(ts: seq<Token>, k: nat, d: nat, j: nat)
    requires k <= |ts| && d < |Opens(ts, k)| && Opens(ts, k)[d] < j <= k
    ensures d < |Opens(ts, j)| && Opens(ts, j)[d] == Opens(ts, k)[d]
    decreases k - j
  {
    if j < k {
      OpenSince(ts, k, d, j + 1);
    }
  }

  /** Just before a loop opens, the loops around it are open. */
  lemma {:induction false} OpenAtLoop(ts: seq<Token>, k: nat, d: nat)
    requires k <= |ts| && d < |Opens(ts, k)|
    ensures |Opens(ts, Opens(ts, k)[d])| == d
    ensures Opens(ts, k)[..d] == Opens(ts, Opens(ts, k)[d])
  {
    var o := Opens(ts, k)[d];
    if o == k - 1 && d == |Opens(ts, k)| - 1 && ts[k - 1] == Loop {
    } else {
      OpenAtLoop(ts, k - 1, d);
    }
  }

  /** In an accepted program every loop is closed, by the EndLoop at which it is innermost. */
  lemma {:induction false} LoopIsClosed(ts: seq<Token>, i: nat, outer: nat, depth: nat)
    requires i <= |ts|
    requires |Opens(ts, i)| == outer + 1 + depth
    requires JudgeTokens(ts[i..], outer + 1 + depth) == Accepted
    ensures i <= CloseIndex(ts, i, depth) - 1 < |ts|
    ensures ts[CloseIndex(ts, i, depth) - 1] == EndLoop
    ensures Opens(ts, CloseIndex(ts, i, depth) - 1) == Opens(ts, i)[..outer + 1]
    decreases |ts| - i
  {
    assert i < |ts|;
    if ts[i] == EndLoop && depth == 0 {
      assert Opens(ts, i)[..outer + 1] == Opens(ts, i);
    } else {
      var depth' := if ts[i] == Loop then depth + 1 else if ts[i] == EndLoop then depth - 1 else depth;
      StillOpen(ts, i, outer, depth, depth');
      LoopIsClosed(ts, i + 1, outer, depth');
    }
  }

  /** A symbol that does not close the outer loop. */
  lemma StillOpen(ts: seq<Token>, i: nat, outer: nat, depth: nat, depth': nat)
    requires i < |ts| && |Opens(ts, i)| == outer + 1 + depth && !(ts[i] == EndLoop && depth == 0)
    requires depth' == if ts[i] == Loop then depth + 1 else if ts[i] == EndLoop then depth - 1 else depth
    ensures Opens(ts, i + 1)[..outer + 1] == Opens(ts, i)[..outer + 1] && |Opens(ts, i + 1)| == outer + 1 + depth'
    ensures CloseIndex(ts, i, depth) == CloseIndex(ts, i + 1, depth')
    ensures JudgeTokens(ts[i..], outer + 1 + depth) == JudgeTokens(ts[i + 1..], outer + 1 + depth')
  {
    assert ts[i..][1..] == ts[i + 1..];
  }

  /** The verdict can be read off after any prefix, with as many loops open as the prefix leaves. */
  lemma {:induction false} JudgeAfterPrefix(ts: seq<Token>, k: nat)
    requires k <= |ts| && JudgeTokens(ts, 0) == Accepted
    ensures JudgeTokens(ts[k..], |Opens(ts, k)|) == Accepted
    ensures k < |ts| && ts[k] == EndLoop ==> Opens(ts, k) != []
  {
    if k == 0 {
      assert ts[0..] == ts;
    } else {
      JudgeAfterPrefix(ts, k - 1);
      assert ts[k - 1..][1..] == ts[k..];
    }
    if k < |ts| && ts[k] == EndLoop {
      assert ts[k..][0] == EndLoop;
    }
  }

  /** The loop closed at `m` is not open later. */
  lemma {:induction false} ClosedForGood(ts: seq<Token>, m: nat, later: nat, outer: nat)
    requires m < later <= |ts| && ts[m] == EndLoop
    requires |Opens(ts, m)| == outer + 1
    requires outer < |Opens(ts, later)|
    ensures Opens(ts, later)[outer] != Opens(ts, m)[outer]
  {
    if Opens(ts, later)[outer] == Opens(ts, m)[outer] {
      OpenSince(ts, later, outer, m + 1);
    }
  }

  lemma ClosedOnce(ts: seq<Token>, m: nat, m': nat, outer: nat)
    requires m < |ts| && m' < |ts| && ts[m] == EndLoop && ts[m'] == EndLoop
    requires |Opens(ts, m)| == |Opens(ts, m')| == outer + 1 && Opens(ts, m)[outer] == Opens(ts, m')[outer]
    ensures m == m'
  {
    if m' < m {
      ClosedForGood(ts, m', m, outer);
      assert false;
    } else if m < m' {
      ClosedForGood(ts, m, m', outer);
      assert false;
    }
  }

  lemma OpensAtLoop(ts: seq<Token>, k: nat)
    requires k < |ts| && ts[k] == Loop
    ensures Opens(ts, k + 1) == Opens(ts, k) + [k]
  {
  }

  /** The forward search from a '[' stops at an EndLoop at which it is innermost. */
  lemma SearchStops(ts: seq<Token>, k: nat) returns (e: nat)
    requires JudgeTokens(ts, 0) == Accepted && k < |ts| && ts[k] == Loop
    ensures k < e < |ts| && ts[e] == EndLoop && CloseIndex(ts, k + 1, 0) == e + 1
    ensures Opens(ts, e) == Opens(ts, k) + [k]
  {
    OpensAtLoop(ts, k);
    JudgeAfterPrefix(ts, k + 1);
    LoopIsClosed(ts, k + 1, |Opens(ts, k)|, 0);
    e := CloseIndex(ts, k + 1, 0) - 1;
    var opens := Opens(ts, k) + [k];
    assert opens[..|opens|] == opens;
  }

  /** '[' and ']' are matched alike from both ends: the loop that is innermost at an EndLoop
      is the one whose forward search stops there. */
  lemma {:induction false} ClosesWhatItOpened(ts: seq<Token>, m: nat, k: nat)
    requires JudgeTokens(ts, 0) == Accepted
    requires m < |ts| && ts[m] == EndLoop
    requires Opens(ts, m) != [] && k == Opens(ts, m)[|Opens(ts, m)| - 1]
    ensures CloseIndex(ts, k + 1, 0) == m + 1
  {
    var outer := |Opens(ts, m)| - 1;
    OpenAtLoop(ts, m, outer);
    var e := SearchStops(ts, k);
    ClosedOnce(ts, m, e, outer);
  }
}
