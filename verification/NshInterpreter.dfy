/** The parser as the code runs it: counters, flags and two fixed arrays updated
    in place, proved to follow `ParseCommand` and `Step`. */
module NshInterpreter {
  import opened NshParser
  import opened NshMachine
  import NshScript
  import NshSimulation
  import NshTheorems

  class Interpreter {
    var fail: bool
    var ignore: bool
    var stream: bool
    var offset: nat
    var seek: nat
    var jump: bool
    var lpndx: nat
    var iendx: nat
    const lpstate: array<LoopEntry>
    const iestate: array<ItefEntry>

    /** The stream position, the commands run so far and the last status. */
    var pos: nat
    var trace: seq<Words>
    var ok: bool

    ghost function Loops(): LoopStack
      reads this, lpstate
    {
      LoopStack(lpndx, lpstate[..])
    }

    ghost function Itef(): ItefStack
      reads this, iestate
    {
      ItefStack(iendx, iestate[..])
    }

    ghost function Np(): Parser
      reads this, lpstate, iestate
    {
      Parser(fail, ignore, stream, offset, seek, jump, Loops(), Itef())
    }

    ghost function View(): Machine
      reads this, lpstate, iestate
    {
      Machine(pos, Np(), trace, false, ok)
    }

    constructor (depth: nat)
      requires depth > 0
      ensures fresh(lpstate) && fresh(iestate)
      ensures Invariant(Np()) && |Np().loops.slots| == |Np().itef.slots| == depth && lpndx == 0 && iendx == 0
      ensures NshTheorems.Idle(Opened().np) && trace == [] && !fail && !ignore && !stream
    {
      fail, ignore, stream, offset, seek, jump := false, false, false, 0, 0, false;
      lpndx, iendx, pos, trace, ok := 0, 0, 0, [], false;
      lpstate := new LoopEntry[depth](_ => LoopEntry(LpNormal, false, 0, 0));
      iestate := new ItefEntry[depth](_ => ItefEntry(ItNormal, false, false, false));
    }

    method LoopEnabled() returns (r: bool)
      requires Invariant(Np())
      ensures r == Loops().Enabled()
    {
      r := true;
      if lpstate[lpndx].state == LpDo {
        r := lpstate[lpndx].enable;
      }
    }

    method ItefEnabled() returns (r: bool)
      requires Invariant(Np())
      ensures r == Itef().Enabled()
    {
      r := !iestate[iendx].disabled;
      if r {
        match iestate[iendx].state
        case ItNormal =>
        case ItIf =>
        case ItThen => r := !iestate[iendx].ifcond;
        case ItElse => r := iestate[iendx].ifcond;
      }
    }

    method Enabled() returns (r: bool)
      requires Invariant(Np())
      ensures r == CmdEnabled(Loops(), Itef())
    {
      r := LoopEnabled();
      if r {
        r := ItefEnabled();
      }
    }

    method Save(result: bool) returns (success: bool)
      requires Invariant(Np())
      modifies `fail, lpstate, iestate
      ensures forall ran :: SaveResult(old(Np()), result, ran) == Commanded(Np(), ran, success)
    {
      if lpstate[lpndx].state == LpWhile {
        fail := false;
        lpstate[lpndx] := lpstate[lpndx].(enable := !result);
        success := true;
      } else if lpstate[lpndx].state == LpUntil {
        fail := false;
        lpstate[lpndx] := lpstate[lpndx].(enable := result);
        success := true;
      } else if iestate[iendx].state == ItIf {
        fail := false;
        iestate[iendx] := iestate[iendx].(ifcond := iestate[iendx].inverted != result);
        success := true;
      } else {
        fail := result;
        success := !result;
      }
    }

    /** The spec's answer to this command's leading loop word. */
    ghost function LoopSpec(c: Words): LoopParsed
      requires Invariant(Np())
      reads this, lpstate, iestate
    {
      LoopToken(Loops(), c, CmdEnabled(Loops(), Itef()), Itef().Top().state != ItIf && stream, offset, iendx, seek)
    }

    method ResetLoops()
      requires Invariant(Np())
      modifies `jump, `lpndx, lpstate
      ensures Loops() == old(Loops()).Reset() && !jump
    {
      jump := false;
      lpndx := 0;
      lpstate[0] := lpstate[0].(state := LpNormal, enable := true, topoffs := 0);
    }

    method Loop(c: Words) returns (rest: Words, accepted: bool)
      requires Invariant(Np()) && !jump
      modifies `jump, `seek, `lpndx, lpstate
      ensures var p := old(LoopSpec(c));
              accepted == (p.verdict == Accepted) && Loops() == p.loops && jump == p.jump && seek == p.seek
              && (accepted ==> rest == p.rest)
    {
      hide LoopInvariant;
      rest, accepted := c, true;
      if c != [] {
        if c[0] == While || c[0] == Until {
          rest := c[1..];
          if || rest == [] || rest[0] == EMPTY
             || iestate[iendx].state == ItIf
             || lpstate[lpndx].state == LpWhile || lpstate[lpndx].state == LpUntil || !stream
             || lpndx >= lpstate.Length - 1 {
            accepted := false;
          } else {
            var state := if c[0] == While then LpWhile else LpUntil;
            var enable := Enabled();
            jump := false;
            lpndx := lpndx + 1;
            lpstate[lpndx] := LoopEntry(state, enable, iendx, offset);
          }
        } else if c[0] == Do {
          rest := c[1..];
          if lpstate[lpndx].state != LpWhile && lpstate[lpndx].state != LpUntil {
            accepted := false;
          } else {
            lpstate[lpndx] := lpstate[lpndx].(state := LpDo);
          }
        } else if c[0] == Done {
          rest := c[1..];
          if rest != [] || lpstate[lpndx].state != LpDo || lpndx < 1 {
            accepted := false;
          } else {
            if lpstate[lpndx].enable {
              seek := lpstate[lpndx].topoffs;
              jump := true;
            } else {
              lpstate[lpndx] := lpstate[lpndx].(enable := true);
            }
            lpstate[lpndx] := lpstate[lpndx].(state := LpNormal);
            lpndx := lpndx - 1;
          }
        } else if lpstate[lpndx].state == LpWhile || lpstate[lpndx].state == LpUntil {
          accepted := false;
        }
      }
      if !accepted {
        ResetLoops();
      }
    }

    method ResetItef()
      requires Invariant(Np())
      modifies `iendx, iestate
      ensures Itef() == old(Itef()).Reset()
    {
      iendx := 0;
      iestate[0] := ItefEntry(ItNormal, false, false, false);
    }

    method IfThenElse(c: Words) returns (rest: Words, accepted: bool)
      requires Invariant(Np())
      modifies `iendx, iestate
      ensures var p := ItefToken(old(Itef()), c, old(CmdEnabled(Loops(), Itef())));
              accepted == (p.verdict == Accepted) && Itef() == p.itef && (accepted ==> rest == p.rest)
    {
      hide LoopInvariant;
      rest, accepted := c, true;
      if c != [] {
        if c[0] == If {
          var inverted := false;
          rest := c[1..];
          if rest != [] && rest[0] == Bang {
            inverted := true;
            rest := c[2..];
          }
          if rest == [] || rest[0] == EMPTY || iestate[iendx].state == ItIf || iendx >= iestate.Length - 1 {
            accepted := false;
          } else {
            var enabled := Enabled();
            iendx := iendx + 1;
            iestate[iendx] := ItefEntry(ItIf, !enabled, false, inverted);
          }
        } else if c[0] == Then {
          rest := c[1..];
          if iestate[iendx].state != ItIf {
            accepted := false;
          } else {
            iestate[iendx] := iestate[iendx].(state := ItThen);
          }
        } else if c[0] == Else {
          rest := c[1..];
          if iestate[iendx].state != ItThen {
            accepted := false;
          } else {
            iestate[iendx] := iestate[iendx].(state := ItElse);
          }
        } else if c[0] == Fi {
          rest := c[1..];
          if rest != [] || (iestate[iendx].state != ItThen && iestate[iendx].state != ItElse) || iendx < 1 {
            accepted := false;
          } else {
            iendx := iendx - 1;
          }
        } else if iestate[iendx].state == ItIf {
          accepted := false;
        }
      }
      if !accepted {
        ResetItef();
      }
    }

    method CmdBreak()
      requires Invariant(Np())
      modifies `iendx, lpstate
      ensures Np() == Break(old(Np()))
    {
      if lpstate[lpndx].state == LpDo {
        iendx := lpstate[lpndx].iendx;
        lpstate[lpndx] := lpstate[lpndx].(enable := false);
      }
    }

    method Run(w: Words, o: Oracle) returns (success: bool)
      requires Invariant(Np()) && w != []
      modifies this, lpstate, iestate
      ensures Execute(old(Np()), w, o, old(trace)) == Commanded(Np(), [w], success)
      ensures trace == old(trace) + [w] && pos == old(pos)
    {
      var result := false;
      if w[0] == BreakWord {
        CmdBreak();
      } else {
        var out := o(trace, fail, w);
        ignore, result := out.ignore, out.fail;
      }
      trace := trace + [w];
      success := Save(result);
    }

    /** One command of a line. */
    method Command(c: Words, o: Oracle) returns (success: bool)
      requires Invariant(Np()) && !jump
      modifies this, lpstate, iestate
      ensures var r := ParseCommand(old(Np()), c, o, old(trace));
              Np() == r.np && trace == old(trace) + r.ran && success == r.ok
      ensures pos == old(pos)
    {
      hide LoopInvariant, LoopToken, ItefToken, Execute, SaveResult;
      var rest, accepted := Loop(c);
      if !accepted {
        success := Save(true);
        return;
      }
      rest, accepted := IfThenElse(rest);
      if !accepted {
        success := Save(true);
        return;
      }
      var enabled := Enabled();
      if rest == [] || !enabled {
        return true;
      }
      success := Run(rest, o);
    }

    /** The state between two commands, apart from the two fields that the next
        command sets before anything else. */
    ghost predicate Shows(m: Machine, i: nat)
      reads this, lpstate, iestate
    {
      View().(pc := i) == m.(np := m.np.(offset := offset, jump := jump))
    }

    /** Runs the command at `i`, which is what `m` does in one step. */
    method CommandAt(prog: seq<NshMachine.Command>, o: Oracle, i: nat, ghost m: Machine)
      requires Invariant(Np()) && Invariant(m.np) && Shows(m, i) && i < |prog| && !jump
      modifies this, lpstate, iestate
      ensures Invariant(Np()) && pos == old(pos) && (jump ==> ok)
      ensures Step(prog, o, m)
           == View().(pc := if !ok then NextLine(prog, i) else if jump then seek else i + 1, halted := !ok && !ignore)
    {
      hide Step, LoopInvariant, ItefInvariant, LoopToken, ItefToken, Execute, SaveResult, CmdEnabled;
      StepIs(prog, o, m);
      JumpSucceeds(m.np.(offset := i, jump := false), prog[i].words, o, m.trace);
      offset := i;
      ok := Command(prog[i].words, o);
    }

    /** Reads the line at the stream position and runs its commands, up to a
        failing one or a jump back to the top of a loop. */
    method Parse(prog: seq<NshMachine.Command>, o: Oracle) returns (ghost k: nat)
      requires Invariant(Np()) && pos < |prog|
      modifies this, lpstate, iestate
      ensures Invariant(Np())
      ensures k > 0 && Reaches(prog, o, old(View()), k, View().(halted := !ok && !ignore))
    {
      hide Step, Steps, Reaches, LoopInvariant, ItefInvariant;
      var i, end := pos, NextLine(prog, pos);
      ghost var m := View();
      ReachesNext(prog, o, m);
      pos := end;
      jump, k := false, 0;
      while true
        invariant Invariant(Np()) && Invariant(m.np) && Shows(m, i)
        invariant i < end == NextLine(prog, i) == pos <= |prog|
        invariant !jump && Reaches(prog, o, old(View()), k, m)
        decreases end - i
      {
        ReachesNext(prog, o, m);
        ReachesTransitive(prog, o, old(View()), k, m, 1, Step(prog, o, m));
        CommandAt(prog, o, i, m);
        m, k := Step(prog, o, m), k + 1;
        if jump {
          pos := seek;
        }
        if !ok || jump || i + 1 == end {
          break;
        }
        i := i + 1;
      }
    }

    /** The machine that reads a script from its beginning. */
    ghost function Opened(): Machine
      reads this, lpstate, iestate
    {
      Machine(0, Np().(stream := true), trace, false, false)
    }

    /** Opens a script, runs its lines until it ends or a failure ends it, and goes
        back to the stream before. The machine ends within `bound` steps. */
    method Script(prog: seq<NshMachine.Command>, o: Oracle, ghost bound: nat)
      requires Invariant(Np()) && Steps(prog, o, Opened(), bound).halted
      modifies this, lpstate, iestate
      ensures Invariant(Np()) && stream == old(stream) && pos == old(pos)
      ensures var end := Steps(prog, o, old(Opened()), bound);
              View() == end.(pc := pos, np := end.np.(stream := stream), halted := false)
      ensures prog == [] ==> !ok && trace == old(trace) && fail == old(fail)
    {
      hide Step, Steps, Invariant, Reaches;
      StreamIrrelevant(Np());
      var savestream, savepos := stream, pos;
      stream, pos, ok := true, 0, false;
      ghost var start := View();
      ghost var k: nat := 0;
      ReachesNext(prog, o, start);
      var running := true;
      while running
        invariant Invariant(Np()) && Reaches(prog, o, start, k, View().(halted := !running))
        decreases running, bound - k
      {
        ghost var m := View();
        ReachesIs(prog, o, start, k, m);
        OneEnd(prog, o, start, bound, k);
        if pos >= |prog| {
          StepAtEnd(prog, o, m);
          ReachesNext(prog, o, m);
          ReachesTransitive(prog, o, start, k, m, 1, Step(prog, o, m));
          running, k := false, k + 1;
        } else {
          ghost var j := Parse(prog, o);
          ReachesTransitive(prog, o, start, k, m, j, View().(halted := !ok && !ignore));
          running, k := ok || ignore, k + j;
        }
      }
      ReachesIs(prog, o, start, k, View().(halted := true));
      OneEnd(prog, o, start, bound, k);
      if prog == [] {
        EmptyEnds(o, start, k);
      }
      stream, pos := savestream, savepos;
      StreamIrrelevant(Steps(prog, o, start, bound).np);
    }

    /** A guarded script whose run is finite ends, with the commands, the status and
        the settings that its structure prescribes; unless an error has cut it short,
        it leaves no loop and no conditional open. */
    method RunScript(prog: seq<NshMachine.Command>, o: Oracle, ghost s: NshScript.Script, ghost fuel: nat)
      requires Invariant(Np()) && NshTheorems.Loaded(prog, o, s, Opened()) && NshScript.Guarded(s, NshScript.Top)
      requires !NshScript.Eval(o, s, Before(), NshScript.Top, fuel).Timeout?
      modifies this, lpstate, iestate
      ensures var r := NshScript.Eval(o, s, old(Before()), NshScript.Top, fuel);
              && trace == r.env.trace && fail == r.env.fail && ignore == r.env.ignore
              && (r.Finish? ==> NshTheorems.Idle(Opened().np) && lpndx == 0 && iendx == 0) && (r.Abort? ==> !ok)
      ensures Invariant(Np()) && stream == old(stream) && pos == old(pos)
      ensures |Np().loops.slots| == old(|Np().loops.slots|) && |Np().itef.slots| == old(|Np().itef.slots|)
    {
      hide Steps, NshScript.Eval, NshTheorems.Loaded, LoopInvariant, ItefInvariant;
      ghost var k := NshTheorems.MachineRunsScript(prog, o, s, Opened(), fuel);
      Script(prog, o, k);
    }

    /** What the script finds when it begins. */
    ghost function Before(): NshScript.Env
      reads this, lpstate, iestate
    {
      NshSimulation.EnvOf(Opened())
    }
  }

  /** Whether a stream is open does not matter to the invariant. */
  lemma StreamIrrelevant(np: Parser)
    requires Invariant(np)
    ensures forall stream :: Invariant(np.(stream := stream))
  {
  }

  lemma ReachesIs(prog: seq<NshMachine.Command>, o: Oracle, m: Machine, k: nat, m': Machine)
    requires Reaches(prog, o, m, k, m')
    ensures Invariant(m.np) && Steps(prog, o, m, k) == m'
  {
  }

  lemma EmptyEnds(o: Oracle, m: Machine, k: nat)
    requires Invariant(m.np) && !m.halted && m.pc == 0 && Steps([], o, m, k).halted
    ensures Steps([], o, m, k) == m.(halted := true)
  {
    hide Steps, Step, Invariant;
    StepAtEnd([], o, m);
    ReachesNext([], o, m);
    OneEnd([], o, m, 1, k);
  }

  lemma StepIs(prog: seq<NshMachine.Command>, o: Oracle, m: Machine)
    requires Invariant(m.np) && !m.halted && m.pc < |prog|
    ensures var r := ParseCommand(m.np.(offset := m.pc, jump := false), prog[m.pc].words, o, m.trace);
            Step(prog, o, m) == Machine(if !r.ok then NextLine(prog, m.pc) else if r.np.jump then r.np.seek else m.pc + 1,
                                        r.np, m.trace + r.ran, !r.ok && !r.np.ignore, r.ok)
  {
    hide ParseCommand, LoopInvariant;
  }
}
