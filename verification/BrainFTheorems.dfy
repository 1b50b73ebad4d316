/** The main results about compiled programs. */
module BrainFTheorems {
  import opened Wrappers

  import opened BrainFSource
  import opened BrainFTokens
  import opened BrainFCodegen
  import opened BrainFSimulation
  import opened BrainFPreservation
  import M = BrainFMachine

  lemma Compilation(w: Job) returns (h: seq<Code>)
    requires w.Valid()
    ensures Compiles(w, h, w.Code()) && h[|w.Ts()|] == Build(w.o, w.Ts())
  {
    h := HistoryExists(w.o, w.Ts());
  }

  lemma Entered(w: Job, h: seq<Code>, g: seq<M.Block>, m0: M.Machine) returns (j: nat)
    requires Compiles(w, h, g) && M.Initial(m0, w.env, w.o.mem, w.input)
    ensures InStep(w, h, g, m0, 0, j, 0)
  {
    FinishedExtends(w.o, w.Ts(), h, 0);
    assert !IsOpen(h[0], 0);
    j := ExecHeader(w.o, w.env, w.input, g, m0);
    assert w.Source(0) == w.Start() && w.src[0..] == w.src && w.Ts()[0..] == w.Ts();
    if w.o.bounds {
      RelatedNotStray(w, h, 0, w.Start(), M.Run(g, w.env, m0, j));
    }
  }

  /** Both sides stay where they have ended. */
  lemma Ended(w: Job, h: seq<Code>, g: seq<M.Block>, m0: M.Machine, i: nat, j: nat, k: nat)
    requires |h| == |w.Ts()| + 1 && InStep(w, h, g, m0, i, j, k) && M.Run(g, w.env, m0, j).Done?
    ensures InStep(w, h, g, m0, i + 1, j + 1, k)
  {
    M.RunSnoc(g, w.env, m0, j);
    RunSnoc(w.src, w.Start(), i);
    if w.o.bounds {
      assert Run(w.src, w.Start(), i + 1) == Run(w.src, w.Start(), i);
    }
  }

  /** Program and machine meet again after any number of steps, unless the checked machine has
      caught the program leaving its tape. */
  lemma {:induction false} Sync(w: Job, h: seq<Code>, g: seq<M.Block>, m0: M.Machine, n: nat)
    returns (i: nat, j: nat, k: nat)
    requires Compiles(w, h, g) && M.Initial(m0, w.env, w.o.mem, w.input)
    ensures j >= n
    ensures (i >= n && InStep(w, h, g, m0, i, j, k))
            || (Caught(w, w.Source(i), M.Run(g, w.env, m0, j)) && Steady(w, w.Start(), i))
    decreases n
  {
    if n == 0 {
      i, k := 0, 0;
      j := Entered(w, h, g, m0);
    } else {
      i, j, k := Sync(w, h, g, m0, n - 1);
      if !(i >= n - 1 && InStep(w, h, g, m0, i, j, k)) {
        M.RunSnoc(g, w.env, m0, j);
        j := j + 1;
      } else if M.Run(g, w.env, m0, j).Done? {
        Ended(w, h, g, m0, i, j, k);
        i, j := i + 1, j + 1;
      } else if k < |w.Ts()| {
        i, j, k := SyncStep(w, h, g, m0, i, j, k);
      } else {
        i, j := SyncEnd(w, h, g, m0, i, j);
      }
    }
  }

  // ----- semantic preservation -----

  /** Unchecked programs, on an unbounded tape: however far either side has run, there is a later
      moment at which tape, unread input and output agree. */
  lemma CompiledAgrees(w: Job, m0: M.Machine, n: nat) returns (i: nat, j: nat)
    requires w.Valid() && !w.o.bounds && M.Initial(m0, w.env, w.o.mem, w.input)
    ensures i >= n && j >= n && Agree(w, w.Source(i), w.Machine(m0, j))
  {
    var h := Compilation(w);
    var k;
    i, j, k := Sync(w, h, w.Code(), m0, n);
  }

  lemma {:induction false} OutputGrows(src: string, c: Config, n: nat)
    ensures c.st.output <= Run(src, c, n).st.output
    decreases n
  {
    if n > 0 {
      OutputGrows(src, Step(src, c), n - 1);
    }
  }

  function Written(m: M.Machine): seq<Byte> {
    match m
    case Running(_, _, _, d) => d.output
    case Done(d) => d.output
    case Fault => []
  }

  lemma {:induction false} WrittenGrows(g: seq<M.Block>, env: M.Env, m: M.Machine, n: nat)
    requires !M.Run(g, env, m, n).Fault?
    ensures Written(m) <= Written(M.Run(g, env, m, n))
    decreases n
  {
    if n > 0 {
      M.NoFaultBefore(g, env, m, 1, n);
      assert M.Run(g, env, m, 1) == M.Step(g, env, m);
      WrittenGrows(g, env, M.Step(g, env, m), n - 1);
    }
  }

  /** Even a program that never ends has the same output: whatever the one side has written at
      some moment, the other has written, first and in that order, at some moment. */
  lemma CompiledWritesAlike(w: Job, m0: M.Machine, n: nat) returns (i: nat, j: nat)
    requires w.Valid() && !w.o.bounds && M.Initial(m0, w.env, w.o.mem, w.input)
    ensures w.Source(n).st.output <= Written(w.Machine(m0, j))
    ensures Written(w.Machine(m0, n)) <= w.Source(i).st.output
  {
    i, j := CompiledAgrees(w, m0, n);
    RunAdds(w.src, w.Start(), n, i - n);
    OutputGrows(w.src, w.Source(n), i - n);
    M.RunAdds(w.Code(), w.env, m0, n, j - n);
    WrittenGrows(w.Code(), w.env, w.Machine(m0, n), j - n);
  }

  lemma HaltedOnce(w: Job, i: nat, i': nat)
    requires Halted(w.src, w.Source(i)) && Halted(w.src, w.Source(i'))
    ensures w.Source(i) == w.Source(i')
  {
    var lo, hi := if i <= i' then i else i', if i <= i' then i' else i;
    RunAdds(w.src, w.Start(), lo, hi - lo);
    HaltedStays(w.src, w.Source(lo), hi - lo);
  }

  lemma EndsIfHalted(w: Job, m0: M.Machine, i: nat) returns (j: nat)
    requires w.Valid() && !w.o.bounds && M.Initial(m0, w.env, w.o.mem, w.input)
    requires Halted(w.src, w.Source(i))
    ensures w.Machine(m0, j).Done?
  {
    var h := Compilation(w);
    j := EndsInStep(w, h, w.Code(), m0, i);
  }

  lemma EndsInStep(w: Job, h: seq<Code>, g: seq<M.Block>, m0: M.Machine, i: nat) returns (j: nat)
    requires Compiles(w, h, g) && !w.o.bounds && M.Initial(m0, w.env, w.o.mem, w.input)
    requires Halted(w.src, w.Source(i))
    ensures M.Run(g, w.env, m0, j).Done?
  {
    var i', k;
    i', j, k := Sync(w, h, g, m0, i);
    RunAdds(w.src, w.Start(), i, i' - i);
    HaltedStays(w.src, w.Source(i), i' - i);
    if !M.Run(g, w.env, m0, j).Done? {
      i', j := SyncEnd(w, h, g, m0, i', j);
    }
  }

  /** The compiled function returns if and only if the program ends, and then it leaves the tape,
      the head, the unread input and the output as the program does. */
  lemma CompiledEndsAlike(w: Job, m0: M.Machine)
    requires w.Valid() && !w.o.bounds && M.Initial(m0, w.env, w.o.mem, w.input)
    ensures (exists i: nat :: Halted(w.src, w.Source(i))) <==> (exists j: nat :: w.Machine(m0, j).Done?)
    ensures forall i: nat, j: nat :: Halted(w.src, w.Source(i)) && w.Machine(m0, j).Done? ==>
              Agree(w, w.Source(i), w.Machine(m0, j))
  {
    forall i: nat | Halted(w.src, w.Source(i))
      ensures exists j: nat :: w.Machine(m0, j).Done?
    {
      var j := EndsIfHalted(w, m0, i);
    }
    forall j: nat | w.Machine(m0, j).Done?
      ensures exists i: nat :: Halted(w.src, w.Source(i))
      ensures forall i: nat :: Halted(w.src, w.Source(i)) ==> Agree(w, w.Source(i), w.Machine(m0, j))
    {
      var i', j' := CompiledAgrees(w, m0, j);
      M.RunAdds(w.Code(), w.env, m0, j, j' - j);
      M.StoppedStays(w.Code(), w.env, w.Machine(m0, j), j' - j);
      forall i: nat | Halted(w.src, w.Source(i))
        ensures w.Source(i) == w.Source(i')
      {
        HaltedOnce(w, i, i');
      }
    }
  }

  // ----- bounds checking -----

  /** No run of compiled code, checked on a tape that is all there is or unchecked on an unbounded
      one, touches memory outside the tape, reads an undefined register or leaves its blocks. */
  lemma CompiledNeverFaults(w: Job, m0: M.Machine, n: nat)
    requires w.Valid() && M.Initial(m0, w.env, w.o.mem, w.input)
    ensures !w.Machine(m0, n).Fault?
  {
    var h := Compilation(w);
    var i, j, k := Sync(w, h, w.Code(), m0, n);
    M.NoFaultBefore(w.Code(), w.env, m0, n, j);
  }

  /** The checked program agrees with the direct semantics for as long as it is not caught; if it
      is, it is at the first moment the head has strayed, with everything observable as it is then. */
  lemma CheckedAgreesUntilCaught(w: Job, m0: M.Machine, n: nat) returns (i: nat, j: nat)
    requires w.Valid() && w.o.bounds && M.Initial(m0, w.env, w.o.mem, w.input)
    ensures j >= n
    ensures forall x :: 0 <= x < i ==> !Stray(w, w.Source(x))
    ensures (i >= n && Agree(w, w.Source(i), w.Machine(m0, j))) || Caught(w, w.Source(i), w.Machine(m0, j))
  {
    var h := Compilation(w);
    var k;
    i, j, k := Sync(w, h, w.Code(), m0, n);
  }

  /** The error is reported exactly when the head is, at some moment with no move pending, off the
      tape.  (A head that only passes beyond the end within a run of moves is not reported.) */
  lemma CheckedReportsExactly(w: Job, m0: M.Machine)
    requires w.Valid() && w.o.bounds && M.Initial(m0, w.env, w.o.mem, w.input)
    ensures (exists j: nat :: w.Machine(m0, j).Done? && w.Machine(m0, j).end.errors > 0)
            <==> (exists i: nat :: Stray(w, w.Source(i)))
  {
    forall j: nat | w.Machine(m0, j).Done? && w.Machine(m0, j).end.errors > 0
      ensures exists i: nat :: Stray(w, w.Source(i))
    {
      var i', j' := CheckedAgreesUntilCaught(w, m0, j);
      M.RunAdds(w.Code(), w.env, m0, j, j' - j);
      M.StoppedStays(w.Code(), w.env, w.Machine(m0, j), j' - j);
    }
    forall i: nat | Stray(w, w.Source(i))
      ensures exists j: nat :: w.Machine(m0, j).Done? && w.Machine(m0, j).end.errors > 0
    {
      var i', j' := CheckedAgreesUntilCaught(w, m0, i + 1);
    }
  }

  /** Checked code for a tape of `o.mem` cells is safe on that tape, whatever the program. */
  ghost predicate Safe(o: Options, env: M.Env) {
    forall src: string, m0: M.Machine, n: nat ::
      Judge(src, 0) == Accepted && m0.Running? && M.Initial(m0, env, o.mem, m0.now.input)
      ==> !M.Run(Compiled(o, Tokens(src)), env, m0, n).Fault?
  }

  /** The entry block of the compiled program "+". */
  lemma CodeOfPlus(o: Options)
    requires o.bounds && o.mem == 0
    ensures var g := Compiled(o, Tokens("+"));
            && |g| > 0
            && [M.Malloc(ARR, 0), M.MemZero(ARR, 0), M.Gep(ARRMAX, ARR, 0), M.Gep(2, ARR, 0), M.Load(3, 2)] <= g[0]
  {
    assert Tokens("+") == [Change(1)] by {
      assert "+"[1..] == "";
    }
    assert [Change(1)][..0] == [];
    assert Build(o, []) == Header(o);
    assert Build(o, [Change(1)]) == Emit(o, Header(o), Change(1));
  }

  lemma LoadFaultsWithoutCells(env: M.Env, g: seq<M.Block>, m: M.Machine) returns (j: nat)
    requires env.limit == Some(0) && M.Initial(m, env, 0, [])
    requires |g| > 0
    requires [M.Malloc(ARR, 0), M.MemZero(ARR, 0), M.Gep(ARRMAX, ARR, 0), M.Gep(2, ARR, 0), M.Load(3, 2)] <= g[0]
    ensures M.Run(g, env, m, j).Fault?
  {
    assert g[0][0] == M.Malloc(ARR, 0) && g[0][1] == M.MemZero(ARR, 0) && g[0][2] == M.Gep(ARRMAX, ARR, 0);
    assert g[0][3] == M.Gep(2, ARR, 0) && g[0][4] == M.Load(3, 2);
    var m1, m2;
    m1, m2, j := RunThree(g, env, m);
    M.RunSnoc(g, env, m, j);
    M.RunSnoc(g, env, m, j + 1);
    j := j + 2;
  }

  /** The check protects the tape exactly when the tape has a cell for the head to start on: the
      cell under the head at the start is never checked. */
  lemma SafeIffTapeHasACell(o: Options, env: M.Env)
    requires o.bounds && env.limit == Some(o.mem)
    ensures Safe(o, env) <==> o.mem >= 1
  {
    if o.mem >= 1 {
      forall src: string, m0: M.Machine, n: nat
        | Judge(src, 0) == Accepted && m0.Running? && M.Initial(m0, env, o.mem, m0.now.input)
        ensures !M.Run(Compiled(o, Tokens(src)), env, m0, n).Fault?
      {
        CompiledNeverFaults(Job(o, src, env, m0.now.input), m0, n);
      }
    } else {
      var m0 := M.Running(0, 0, 0, M.Data(map[], map[], [], [], 0));
      CodeOfPlus(o);
      var j := LoadFaultsWithoutCells(env, Compiled(o, Tokens("+")), m0);
      assert Judge("+", 0) == Accepted by {
        assert "+"[1..] == "";
      }
    }
  }
}
