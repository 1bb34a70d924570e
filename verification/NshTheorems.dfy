/** What a whole script does: when it ends, what it has run, and on which scripts
    that is what its structure says. */
module NshTheorems {
  import opened NshParser
  import opened NshMachine
  import opened NshScript
  import opened NshSimulation
  import opened NshBoundary

  /** Outside every loop and conditional, reading a script. */
  ghost predicate Idle(np: Parser) {
    && Invariant(np) && np.stream
    && np.loops.ndx == 0 && np.itef.ndx == 0 && !np.itef.Top().disabled
  }

  /** `prog` is `s` written out with any line breaks, about to be run by `m`. */
  ghost predicate Loaded(prog: seq<Command>, o: Oracle, s: Script, m: Machine) {
    && LayoutFits(prog, o) && |prog| == |Flat(s)| && Fits(prog, 0, Flat(s)) && WellFormed(s, Top)
    && !m.halted && m.pc == 0 && Idle(m.np)
    && LoopDepth(s) < |m.np.loops.slots| && IfDepth(s) < |m.np.itef.slots|
  }

  /** The run from `m` stops, after exactly the commands and with the status of `r`;
      a script that is not cut short leaves both stacks empty. */
  ghost predicate EndsAs(prog: seq<Command>, o: Oracle, m: Machine, k: nat, r: Result)
    requires Invariant(m.np)
  {
    var m' := Steps(prog, o, m, k);
    && m'.halted && !r.Timeout? && EnvOf(m') == r.env
    && (r.Finish? ==> Idle(m'.np)) && (r.Abort? ==> !m'.ok)
  }

  /** Every well-formed script, guarded or not, runs as `Actual` says. */
  lemma MachineRunsActual(prog: seq<Command>, o: Oracle, s: Script, m: Machine, fuel: nat) returns (k: nat)
    requires Loaded(prog, o, s, m)
    ensures var r := Actual(o, s, EnvOf(m), true, Top, fuel);
            if r.Timeout? then k >= fuel && !Steps(prog, o, m, k).halted else EndsAs(prog, o, m, k, r)
  {
    hide Step, Steps, Fits, LayoutFits, Actual, Invariant, Kept;
    assert Ready(m.np, LoopDepth(s), IfDepth(s), true, Top) by { IdleIsReady(m.np, LoopDepth(s), IfDepth(s)); }
    var m';
    k, m' := SimulateBlock(prog, o, m, s, true, Top, fuel);
    var r := Actual(o, s, EnvOf(m), true, Top, fuel);
    if r.Finish? {
      IdleKept(m.np, m'.np, r.on);
      StepAtEnd(prog, o, m');
      ReachesNext(prog, o, m');
      ReachesTransitive(prog, o, m, k, m', 1, m'.(halted := true));
      k := k + 1;
    }
  }

  lemma IdleIsReady(np: Parser, loopDepth: nat, ifDepth: nat)
    requires Idle(np) && loopDepth < |np.loops.slots| && ifDepth < |np.itef.slots|
    ensures Ready(np, loopDepth, ifDepth, true, Top)
  {
  }

  lemma IdleKept(np: Parser, np': Parser, on: bool)
    requires Idle(np) && Invariant(np') && Kept(np, np', on)
    ensures Idle(np')
  {
  }

  /** A guarded script runs the commands its structure prescribes and leaves both
      stacks empty. */
  lemma MachineRunsScript(prog: seq<Command>, o: Oracle, s: Script, m: Machine, fuel: nat) returns (k: nat)
    requires Loaded(prog, o, s, m) && Guarded(s, Top)
    ensures var r := Eval(o, s, EnvOf(m), Top, fuel);
            if r.Timeout? then k >= fuel && !Steps(prog, o, m, k).halted else EndsAs(prog, o, m, k, r)
  {
    hide Steps, Eval, Actual, Fits, LayoutFits, EndsAs;
    ActualIsEval(o, s, EnvOf(m), Top, fuel);
    k := MachineRunsActual(prog, o, s, m, fuel);
  }

  /** The machine stops if and only if the prescribed run is finite. */
  lemma MachineStopsIff(prog: seq<Command>, o: Oracle, s: Script, m: Machine)
    requires Loaded(prog, o, s, m) && Guarded(s, Top)
    ensures (exists k: nat :: Steps(prog, o, m, k).halted)
            <==> (exists fuel: nat :: !Eval(o, s, EnvOf(m), Top, fuel).Timeout?)
  {
    hide Step, Steps, Eval, Fits, LayoutFits, LoopInvariant;
    if fuel: nat :| !Eval(o, s, EnvOf(m), Top, fuel).Timeout? {
      var k := MachineRunsScript(prog, o, s, m, fuel);
      assert Steps(prog, o, m, k).halted;
    }
    if k: nat :| Steps(prog, o, m, k).halted {
      var j := MachineRunsScript(prog, o, s, m, k);
      if Eval(o, s, EnvOf(m), Top, k).Timeout? {
        var m' := Steps(prog, o, m, k);
        HaltedStays(prog, o, m', j - k);
        ReachesTransitive(prog, o, m, k, m', j - k, m');
        assert false;
      }
    }
  }

  /** Any run that is long enough ends in the same way. */
  lemma EnoughSteps(prog: seq<Command>, o: Oracle, m: Machine, k: nat, r: Result, j: nat)
    requires Invariant(m.np) && EndsAs(prog, o, m, k, r) && j >= k
    ensures EndsAs(prog, o, m, j, r)
  {
    hide Step, Steps, LoopInvariant;
    var m' := Steps(prog, o, m, k);
    HaltedStays(prog, o, m', j - k);
    ReachesTransitive(prog, o, m, k, m', j - k, m');
  }

  // ----- the exact boundary -----

  /** Why line breaks matter once errors are ignored: after a failing command the
      machine goes on with the first command of the next line, wherever that is. */
  lemma FailureEndsLine(prog: seq<Command>, o: Oracle, m: Machine, c: Words)
    requires At(prog, m, c) && Plain(c) && !ItefWord(c[0]) && !LoopWord(c[0])
    requires Between(m.np, 0, 0) && CmdEnabled(m.np.loops, m.np.itef)
    requires o(m.trace, m.np.fail, c) == Outcome(true, true)
    ensures !Step(prog, o, m).halted
    ensures var next := Step(prog, o, m).pc;
            && m.pc < next <= |prog| && (next == |prog| || prog[next - 1].eol)
            && (forall j :: m.pc <= j < next - 1 ==> !prog[j].eol)
  {
    hide LoopInvariant;
  }

  /** A simple command is run once, its failure is recorded and is the status of the
      line, and ends the script unless errors are ignored; after a success the next
      command of the text follows. */
  lemma CommandOutcome(prog: seq<Command>, o: Oracle, m: Machine, c: Words)
    requires At(prog, m, c) && Plain(c) && !ItefWord(c[0]) && !LoopWord(c[0])
    requires Between(m.np, 0, 0) && CmdEnabled(m.np.loops, m.np.itef)
    ensures var m', out := Step(prog, o, m), o(m.trace, m.np.fail, c);
            && m'.trace == m.trace + [c] && m'.np.fail == out.fail && m'.np.ignore == out.ignore
            && m'.ok == !out.fail && m'.halted == (out.fail && !out.ignore)
            && (!out.fail ==> m'.pc == m.pc + 1)
  {
    hide LoopInvariant;
  }

  /** A condition is run once, like a command, but never fails the line, and leaves no
      failure in `$?`; the next command of the text follows. */
  lemma ConditionOutcome(prog: seq<Command>, o: Oracle, m: Machine, word: Word, cond: Words)
    requires At(prog, m, [word] + cond) && (word == If || word == While || word == Until)
    requires Plain(cond) && cond[0] != Bang && !ItefWord(cond[0])
    requires Between(m.np, 1, 1) && CmdEnabled(m.np.loops, m.np.itef)
    ensures var m' := Step(prog, o, m);
            && m'.trace == m.trace + [cond] && !m'.np.fail && m'.np.ignore == o(m.trace, m.np.fail, cond).ignore
            && m'.ok && !m'.halted && m'.pc == m.pc + 1
  {
    hide LoopInvariant, LoopToken, ItefToken;
    if word == If {
      assert [If] + [] + cond == [If] + cond;
      IfPushes(m.np.itef, false, cond, CmdEnabled(m.np.loops, m.np.itef));
      NoLoopWord(m.np.loops, [If] + cond, CmdEnabled(m.np.loops, m.np.itef), m.np.stream, m.pc, m.np.itef.ndx, m.np.seek);
    } else {
      LoopPushes(m.np.loops, word == Until, cond, CmdEnabled(m.np.loops, m.np.itef), m.pc, m.np.itef.ndx, m.np.seek);
      NoItefWord(m.np.itef, cond);
    }
  }

  lemma NoLoopWord(s: LoopStack, c: Words, on: bool, mayLoop: bool, offset: nat, iendx: nat, seek: nat)
    requires LoopInvariant(s) && iendx < |s.slots| && c != [] && !LoopWord(c[0]) && !s.AwaitsCond()
    ensures LoopToken(s, c, on, mayLoop, offset, iendx, seek) == LoopParsed(s, false, seek, c, Accepted)
  {
    hide LoopInvariant;
  }

  lemma NoItefWord(s: ItefStack, c: Words)
    requires ItefInvariant(s) && c != [] && !ItefWord(c[0]) && s.Top().state != ItIf
    ensures forall on :: ItefToken(s, c, on) == ItefParsed(s, c, Accepted)
  {
  }

  /** `prog` is `s` written out with one command on each line, about to be run by `m`. */
  ghost predicate Listed(prog: seq<Command>, s: Script, m: Machine) {
    && |prog| == |Flat(s)| && Fits(prog, 0, Flat(s)) && WellFormed(s, Top) && (forall i :: 0 <= i < |prog| ==> prog[i].eol)
    && !m.halted && m.pc == 0 && Idle(m.np)
    && LoopDepth(s) < |m.np.loops.slots| && IfDepth(s) < |m.np.itef.slots|
  }

  /** Whenever the meaning of the script is a finite run, the machine ends as it does. */
  ghost predicate MachineAgrees(prog: seq<Command>, s: Script, m: Machine)
    requires Invariant(m.np)
  {
    forall o, fuel: nat :: var r := Eval(o, s, EnvOf(m), Top, fuel); !r.Timeout? ==> exists k: nat :: EndsAs(prog, o, m, k, r)
  }

  /** The machine runs a script as it is written, whatever its commands answer, if and
      only if the script is guarded. */
  lemma MachineAgreesIff(prog: seq<Command>, s: Script, m: Machine)
    requires Listed(prog, s, m)
    ensures MachineAgrees(prog, s, m) <==> Guarded(s, Top)
  {
    hide Steps, Eval, Actual, Fits, EndsAs, WellFormed, LoopInvariant, Differing;
    if Guarded(s, Top) {
      forall o, fuel: nat | !Eval(o, s, EnvOf(m), Top, fuel).Timeout?
        ensures exists k: nat :: EndsAs(prog, o, m, k, Eval(o, s, EnvOf(m), Top, fuel))
      {
        ListedIsLoaded(prog, o, s, m);
        var k := MachineRunsScript(prog, o, s, m, fuel);
      }
    } else {
      var o := Answering(|m.trace|, Differing(s, Top));
      ListedIsLoaded(prog, o, s, m);
      RunsDiffer(o, s, EnvOf(m), Top, 2);
      var r := Eval(o, s, EnvOf(m), Top, 2);
      forall k: nat
        ensures !EndsAs(prog, o, m, k, r)
      {
        RunsDiffer(o, s, EnvOf(m), Top, k + 2);
        MachineLasts(prog, o, s, m, k, r);
      }
    }
  }

  /** The machine does not end early with a shorter trace than `Actual` has. */
  lemma MachineLasts(prog: seq<Command>, o: Oracle, s: Script, m: Machine, k: nat, r: Result)
    requires Loaded(prog, o, s, m) && r.Finish?
    requires Lasts(Actual(o, s, EnvOf(m), true, Top, k + 2), |r.env.trace| + 1, true)
    ensures !EndsAs(prog, o, m, k, r)
  {
    hide Steps, Actual, Fits, LayoutFits, WellFormed, LoopInvariant;
    var j := MachineRunsActual(prog, o, s, m, k + 2);
    if Steps(prog, o, m, k).halted {
      OneEnd(prog, o, m, k, j);
    }
  }

  lemma ListedIsLoaded(prog: seq<Command>, o: Oracle, s: Script, m: Machine)
    requires Listed(prog, s, m)
    ensures Loaded(prog, o, s, m)
  {
    hide Fits, WellFormed, Flat;
  }

  /** An enabled `break` goes back to the conditional around its loop. */
  lemma BreakForgets(np: Parser, o: Oracle, trace: seq<Words>, w: Words)
    requires Invariant(np) && np.loops.Top().state == LpDo && CmdEnabled(np.loops, np.itef)
    requires w != [] && w[0] == BreakWord
    requires np.itef.Top().state == ItThen || np.itef.Top().state == ItElse
    ensures var np1 := ParseCommand(np, w, o, trace).np;
            && np1.itef.ndx == np.loops.Top().iendx && np1.itef.Top().state == np.itef.slots[np1.itef.ndx].state
            && np1.loops.ndx == np.loops.ndx && np1.loops.Top().state == LpDo
  {
    hide LoopInvariant, ItefInvariant;
  }

  /** After a `break` the next `fi` ends the conditional that the `break` stands in if
      and only if that is the one around the loop. Otherwise it is already forgotten,
      and `fi` ends an outer one or is an error. */
  lemma FiAfterBreakIff(np: Parser, o: Oracle, trace: seq<Words>, w: Words)
    requires Invariant(np) && np.loops.Top().state == LpDo && CmdEnabled(np.loops, np.itef)
    requires w != [] && w[0] == BreakWord
    requires np.itef.Top().state == ItThen || np.itef.Top().state == ItElse
    requires np.itef.ndx >= np.loops.Top().iendx
    ensures var outer := np.loops.Top().iendx;
            var r := ParseCommand(ParseCommand(np, w, o, trace).np, [Fi], o, trace + [w]);
            && (r.ok && r.np.itef.ndx == np.itef.ndx - 1 <==> np.itef.ndx == outer)
            && (np.itef.ndx > outer ==>
                  if np.itef.slots[outer].state == ItThen || np.itef.slots[outer].state == ItElse
                  then r.ok && r.np.itef.ndx == outer - 1
                  else !r.ok && r.np.itef.ndx == 0)
  {
    hide LoopInvariant, ItefInvariant;
    BreakForgets(np, o, trace, w);
    FiEnds(ParseCommand(np, w, o, trace).np, o, trace + [w]);
  }

  /** Inside a loop body `fi` ends a conditional exactly if one is open. */
  lemma FiEnds(np: Parser, o: Oracle, trace: seq<Words>)
    requires Invariant(np) && np.loops.Top().state == LpDo
    ensures var r := ParseCommand(np, [Fi], o, trace);
            if np.itef.Top().state == ItThen || np.itef.Top().state == ItElse
            then r.ok && r.np.itef.ndx == np.itef.ndx - 1
            else !r.ok && r.np.itef.ndx == 0
  {
    hide LoopInvariant;
  }
}
