/** The flat machine simulates the structured semantics. */
module NshSimulation {
  import opened NshParser
  import opened NshMachine
  import opened NshScript

  // ----- programs and layouts -----

  /** The words of `prog` from `p` on are `ws`; line breaks may fall anywhere. */
  ghost predicate Fits(prog: seq<Command>, p: nat, ws: seq<Words>) {
    p + |ws| <= |prog| && forall i :: 0 <= i < |ws| ==> prog[p + i].words == ws[i]
  }

  lemma FitsSplit(prog: seq<Command>, p: nat, a: seq<Words>, b: seq<Words>)
    requires Fits(prog, p, a + b)
    ensures Fits(prog, p, a) && Fits(prog, p + |a|, b)
  {
    assert forall i :: 0 <= i < |a| ==> (a + b)[i] == a[i];
    forall i | 0 <= i < |b|
      ensures prog[p + |a| + i].words == b[i]
    {
      assert (a + b)[|a| + i] == b[i];
    }
  }

  lemma FitsHead(prog: seq<Command>, p: nat, c: Words, rest: seq<Words>)
    requires Fits(prog, p, [c] + rest)
    ensures p < |prog| && prog[p].words == c && Fits(prog, p + 1, rest)
  {
    FitsSplit(prog, p, [c], rest);
    assert prog[p + 0].words == [c][0];
  }

  /** The command that is run on a line and can end it: what stands after `then`,
      `else` or `do`, and not a condition, which never ends its line. */
  function Own(c: Words): Words {
    if c == [] then []
    else if c[0] == Then || c[0] == Else || c[0] == Do then c[1..]
    else if ItefWord(c[0]) || LoopWord(c[0]) then []
    else c
  }

  /** The command never fails with errors ignored. */
  ghost predicate Steady(o: Oracle, c: Words) {
    c != [] ==> forall trace, fail :: o(trace, fail, c).fail ==> !o(trace, fail, c).ignore
  }

  /** A failing command ends its line, so one that can fail without ending the script
      must be the last on its line. */
  ghost predicate LineFits(prog: seq<Command>, o: Oracle, i: nat) {
    i < |prog| ==> prog[i].eol || i + 1 == |prog| || Steady(o, Own(prog[i].words))
  }

  ghost predicate LayoutFits(prog: seq<Command>, o: Oracle) {
    forall i: nat :: LineFits(prog, o, i)
  }

  lemma LineOfLayout(prog: seq<Command>, o: Oracle, i: nat)
    ensures LayoutFits(prog, o) ==> LineFits(prog, o, i)
  {
  }

  // ----- machine states between statements -----

  function EnvOf(m: Machine): Env {
    Env(m.trace, m.np.fail, m.np.ignore)
  }

  ghost predicate SameLoops(a: LoopStack, b: LoopStack) {
    a.ndx == b.ndx && |a.slots| == |b.slots| && forall i :: 0 <= i <= a.ndx < |a.slots| ==> a.slots[i] == b.slots[i]
  }

  ghost predicate SameItef(a: ItefStack, b: ItefStack) {
    a.ndx == b.ndx && |a.slots| == |b.slots| && forall i :: 0 <= i <= a.ndx < |a.slots| ==> a.slots[i] == b.slots[i]
  }

  /** Neither stack is waiting for a condition, and there is room on both. */
  ghost predicate Between(np: Parser, loopDepth: nat, ifDepth: nat) {
    && Invariant(np) && np.stream
    && !np.loops.AwaitsCond() && np.itef.Top().state != ItIf
    && np.loops.ndx + loopDepth < |np.loops.slots| && np.itef.ndx + ifDepth < |np.itef.slots|
  }

  ghost predicate Ready(np: Parser, loopDepth: nat, ifDepth: nat, on: bool, ctx: Context) {
    && Between(np, loopDepth, ifDepth)
    && np.itef.Enabled() && np.loops.Enabled() == on
    && (ctx == Top ==> np.loops.Top().state == LpNormal)
    && (ctx == Body ==> np.loops.Top().state == LpDo && np.loops.Top().iendx == np.itef.ndx)
  }

  /** Only a `break` changes a live slot: it disables the loop it leaves. */
  function LoopsAfter(s: LoopStack, on: bool): LoopStack
    requires s.ndx < |s.slots|
  {
    if s.Enabled() && !on then s.WithTop(s.Top().(enable := false)) else s
  }

  ghost predicate Kept(np: Parser, np': Parser, on: bool)
    requires Invariant(np) && Invariant(np')
  {
    && np'.stream == np.stream
    && SameItef(np.itef, np'.itef)
    && SameLoops(LoopsAfter(np.loops, on), np'.loops)
    && np'.loops.Enabled() == on
    && (on ==> np.loops.Enabled())
  }

  lemma KeptTransitive(a: Parser, b: Parser, on: bool, c: Parser, on': bool)
    requires Invariant(a) && Invariant(b) && Invariant(c)
    requires Kept(a, b, on) && Kept(b, c, on')
    ensures Kept(a, c, on')
  {
  }

  lemma KeptReady(a: Parser, b: Parser, loopDepth: nat, ifDepth: nat, on: bool, on': bool, ctx: Context)
    requires Invariant(b) && Ready(a, loopDepth, ifDepth, on, ctx) && Kept(a, b, on')
    ensures Ready(b, loopDepth, ifDepth, on', ctx)
  {
  }

  lemma KeptBetween(a: Parser, b: Parser, loopDepth: nat, ifDepth: nat, on: bool)
    requires Invariant(b) && Between(a, loopDepth, ifDepth) && Kept(a, b, on)
    ensures Between(b, loopDepth, ifDepth) && b.itef.Top() == a.itef.Top() && b.loops.Top().state == a.loops.Top().state
  {
    hide LoopInvariant, ItefInvariant;
  }

  // ----- one command -----

  /** One step has outcome `r` and, if the script goes on, moves to the next
      command and leaves these stacks. */
  ghost predicate Ran(prog: seq<Command>, o: Oracle, m: Machine, r: Result, loops: LoopStack, itef: ItefStack)
    requires Invariant(m.np) && !r.Timeout?
  {
    var m' := Step(prog, o, m);
    && EnvOf(m') == r.env
    && (r.Abort? ==> m'.halted && !m'.ok)
    && (r.Finish? ==> !m'.halted && m'.pc == m.pc + 1 && m'.np.stream == m.np.stream
                      && m'.np.loops == loops && m'.np.itef == itef)
  }

  /** The machine is about to parse `c`. */
  ghost predicate At(prog: seq<Command>, m: Machine, c: Words) {
    Invariant(m.np) && m.np.stream && !m.halted && m.pc < |prog| && prog[m.pc].words == c
  }

  lemma StepPlain(prog: seq<Command>, o: Oracle, m: Machine, c: Words)
    requires At(prog, m, c) && Plain(c) && !ItefWord(c[0]) && !LoopWord(c[0])
    requires !m.np.loops.AwaitsCond() && m.np.itef.Top().state != ItIf
    requires CmdEnabled(m.np.loops, m.np.itef) ==> LineFits(prog, o, m.pc)
    ensures Ran(prog, o, m, RunCmd(o, EnvOf(m), c, CmdEnabled(m.np.loops, m.np.itef)), m.np.loops, m.np.itef)
  {
    hide LoopInvariant;
  }

  lemma StepBreak(prog: seq<Command>, o: Oracle, m: Machine, args: Words)
    requires At(prog, m, [BreakWord] + args)
    requires !m.np.loops.AwaitsCond() && m.np.itef.Top().state != ItIf
    requires m.np.loops.Top().state == LpDo ==> m.np.loops.Top().iendx == m.np.itef.ndx
    ensures var on := CmdEnabled(m.np.loops, m.np.itef);
            var e := EnvOf(m);
            var inLoop := m.np.loops.Top().state == LpDo;
            Ran(prog, o, m, Finish(if on then Env(e.trace + [[BreakWord] + args], false, e.ignore) else e, on && !inLoop),
                if on && inLoop then LoopsAfter(m.np.loops, false) else m.np.loops, m.np.itef)
  {
    hide LoopInvariant;
  }

  lemma StepBreakOff(prog: seq<Command>, o: Oracle, m: Machine, args: Words)
    requires At(prog, m, [BreakWord] + args)
    requires !m.np.loops.AwaitsCond() && m.np.itef.Top().state != ItIf && !CmdEnabled(m.np.loops, m.np.itef)
    ensures Ran(prog, o, m, Finish(EnvOf(m), false), m.np.loops, m.np.itef)
  {
    hide LoopInvariant;
  }

  /** `if` tests its condition when commands are enabled; otherwise it only marks
      the block as disabled. */
  lemma StepIf(prog: seq<Command>, o: Oracle, m: Machine, inverted: bool, cond: Words)
    requires At(prog, m, [If] + (if inverted then [Bang] else []) + cond)
    requires Plain(cond) && (!inverted ==> cond[0] != Bang)
    requires !m.np.loops.AwaitsCond() && m.np.itef.Top().state != ItIf && m.np.itef.ndx + 1 < |m.np.itef.slots|
    ensures var on := CmdEnabled(m.np.loops, m.np.itef);
            var fail := o(m.trace, m.np.fail, cond).fail;
            Ran(prog, o, m, Finish(if on then RunCond(o, EnvOf(m), cond) else EnvOf(m), on), m.np.loops,
                m.np.itef.Push(ItefEntry(ItIf, !on, on && inverted != fail, inverted)))
  {
    hide LoopInvariant, ItefToken;
    IfPushes(m.np.itef, inverted, cond, CmdEnabled(m.np.loops, m.np.itef));
  }

  lemma IfPushes(s: ItefStack, inverted: bool, cond: Words, on: bool)
    requires ItefInvariant(s) && Plain(cond) && (!inverted ==> cond[0] != Bang)
    requires s.Top().state != ItIf && s.ndx + 1 < |s.slots|
    ensures ItefToken(s, [If] + (if inverted then [Bang] else []) + cond, on)
         == ItefParsed(s.Push(ItefEntry(ItIf, !on, false, inverted)), cond, Accepted)
  {
    var c := [If] + (if inverted then [Bang] else []) + cond;
    assert (if inverted then c[2..] else c[1..]) == cond;
  }

  lemma StepThen(prog: seq<Command>, o: Oracle, m: Machine, cmd: Words)
    requires At(prog, m, [Then] + cmd) && (cmd == [] || Plain(cmd))
    requires !m.np.loops.AwaitsCond() && m.np.itef.Top().state == ItIf
    requires CmdEnabled(m.np.loops, m.np.itef.WithTop(m.np.itef.Top().(state := ItThen))) ==> LineFits(prog, o, m.pc)
    ensures var itef := m.np.itef.WithTop(m.np.itef.Top().(state := ItThen));
            Ran(prog, o, m, RunCmd(o, EnvOf(m), cmd, CmdEnabled(m.np.loops, itef)), m.np.loops, itef)
  {
    hide LoopInvariant;
    var c := prog[m.pc].words;
    assert c[1..] == cmd;
    assert ItefToken(m.np.itef, c, CmdEnabled(m.np.loops, m.np.itef))
        == ItefParsed(m.np.itef.WithTop(m.np.itef.Top().(state := ItThen)), cmd, Accepted);
  }

  lemma StepElse(prog: seq<Command>, o: Oracle, m: Machine, cmd: Words)
    requires At(prog, m, [Else] + cmd) && (cmd == [] || Plain(cmd))
    requires !m.np.loops.AwaitsCond() && m.np.itef.Top().state == ItThen
    requires CmdEnabled(m.np.loops, m.np.itef.WithTop(m.np.itef.Top().(state := ItElse))) ==> LineFits(prog, o, m.pc)
    ensures var itef := m.np.itef.WithTop(m.np.itef.Top().(state := ItElse));
            Ran(prog, o, m, RunCmd(o, EnvOf(m), cmd, CmdEnabled(m.np.loops, itef)), m.np.loops, itef)
  {
    hide LoopInvariant;
    assert prog[m.pc].words[1..] == cmd;
  }

  lemma StepFi(prog: seq<Command>, o: Oracle, m: Machine, on: bool)
    requires At(prog, m, [Fi])
    requires !m.np.loops.AwaitsCond() && (m.np.itef.Top().state == ItThen || m.np.itef.Top().state == ItElse)
    ensures m.np.itef.ndx > 0
    ensures Ran(prog, o, m, Finish(EnvOf(m), on), m.np.loops, ItefStack(m.np.itef.ndx - 1, m.np.itef.slots))
  {
    hide LoopInvariant;
  }

  /** `while` and `until` test their condition unless an `if` disables it; the
      loop they stand in does not matter. */
  lemma StepLoop(prog: seq<Command>, o: Oracle, m: Machine, until: bool, cond: Words)
    requires At(prog, m, [if until then Until else While] + cond)
    requires Plain(cond) && !ItefWord(cond[0])
    requires !m.np.loops.AwaitsCond() && m.np.itef.Top().state != ItIf && m.np.loops.ndx + 1 < |m.np.loops.slots|
    ensures var on := m.np.itef.Enabled();
            var go := on && o(m.trace, m.np.fail, cond).fail == until;
            Ran(prog, o, m, Finish(if on then RunCond(o, EnvOf(m), cond) else EnvOf(m), go),
                m.np.loops.Push(LoopEntry(if until then LpUntil else LpWhile, go, m.np.itef.ndx, m.pc)), m.np.itef)
  {
    hide LoopInvariant, LoopToken;
    LoopPushes(m.np.loops, until, cond, CmdEnabled(m.np.loops, m.np.itef), m.pc, m.np.itef.ndx, m.np.seek);
  }

  lemma LoopPushes(s: LoopStack, until: bool, cond: Words, on: bool, offset: nat, iendx: nat, seek: nat)
    requires LoopInvariant(s) && iendx < |s.slots| && Plain(cond) && !s.AwaitsCond() && s.ndx + 1 < |s.slots|
    ensures LoopToken(s, [if until then Until else While] + cond, on, true, offset, iendx, seek)
         == LoopParsed(s.Push(LoopEntry(if until then LpUntil else LpWhile, on, iendx, offset)), false, seek, cond, Accepted)
  {
    hide LoopInvariant;
    assert ([if until then Until else While] + cond)[1..] == cond;
  }

  lemma StepDo(prog: seq<Command>, o: Oracle, m: Machine, cmd: Words)
    requires At(prog, m, [Do] + cmd) && (cmd == [] || (Plain(cmd) && !ItefWord(cmd[0])))
    requires m.np.loops.AwaitsCond() && m.np.itef.Top().state != ItIf
    requires m.np.loops.Top().enable && m.np.itef.Enabled() ==> LineFits(prog, o, m.pc)
    ensures var loops := m.np.loops.WithTop(m.np.loops.Top().(state := LpDo));
            Ran(prog, o, m, RunCmd(o, EnvOf(m), cmd, CmdEnabled(loops, m.np.itef)), loops, m.np.itef)
  {
    hide LoopInvariant;
    assert prog[m.pc].words[1..] == cmd;
  }

  /** `done` goes back to the loop's first command or past the loop. */
  lemma StepDone(prog: seq<Command>, o: Oracle, m: Machine)
    requires At(prog, m, [Done]) && m.np.loops.Top().state == LpDo && m.np.itef.Top().state != ItIf
    ensures m.np.loops.ndx > 0
    ensures var top, m' := m.np.loops.Top(), Step(prog, o, m);
            && EnvOf(m') == EnvOf(m) && !m'.halted && m'.np.stream
            && m'.pc == (if top.enable then top.topoffs else m.pc + 1)
            && m'.np.loops == m.np.loops.Pop() && m'.np.itef == m.np.itef
  {
  }

  // ----- two commands: into a conditional, into a loop -----

  /** Two steps have outcome `r` and, if the script goes on, lead to `m'` with
      these stacks. */
  ghost predicate Entered(prog: seq<Command>, o: Oracle, m: Machine, r: Result, loops: LoopStack, itef: ItefStack, m': Machine) {
    && Reaches(prog, o, m, 2, m') && Invariant(m'.np)
    && !r.Timeout? && EnvOf(m') == r.env
    && (r.Abort? ==> m'.halted && !m'.ok)
    && (r.Finish? ==> !m'.halted && m'.pc == m.pc + 2 && m'.np.stream == m.np.stream
                      && m'.np.loops == loops && m'.np.itef == itef)
  }

  lemma PushLoopWithTop(s: LoopStack, a: LoopEntry, b: LoopEntry)
    requires s.ndx + 1 < |s.slots|
    ensures s.Push(a).WithTop(b) == s.Push(b) && s.Push(a).Top() == a
  {
  }

  lemma PushItefWithTop(s: ItefStack, a: ItefEntry, b: ItefEntry)
    requires s.ndx + 1 < |s.slots|
    ensures s.Push(a).WithTop(b) == s.Push(b) && s.Push(a).Top() == a
  {
  }

  lemma EnterIf(prog: seq<Command>, o: Oracle, m: Machine, s: Stmt, ctx: Context) returns (m': Machine)
    requires s.IfStmt? && Fits(prog, m.pc, FlatStmt(s)) && WellFormedStmt(s, ctx)
    requires !m.halted && Between(m.np, 0, 1) && (CmdEnabled(m.np.loops, m.np.itef) ==> LayoutFits(prog, o))
    ensures var on := CmdEnabled(m.np.loops, m.np.itef);
            var taken := Fails(o, EnvOf(m), s.cond) == s.inverted;
            Entered(prog, o, m, RunCmd(o, if on then RunCond(o, EnvOf(m), s.cond) else EnvOf(m), s.thenCmd, on && taken),
                    m.np.loops, m.np.itef.Push(ItefEntry(ItThen, !on, on && !taken, s.inverted)), m')
    ensures Fits(prog, m.pc + 2, Flat(s.thenPart)) && Fits(prog, m.pc + 2 + |Flat(s.thenPart)|, FlatElse(s))
  {
    hide Step, Steps, Reaches, Fits, LayoutFits, LineFits, LoopInvariant, Flat, FlatStmt, FlatElse, WellFormed, LoopDepth, IfDepth;
    IfLines(prog, m.pc, s);
    StepIf(prog, o, m, s.inverted, s.cond);
    ReachesNext(prog, o, m);
    var m1 := Step(prog, o, m);
    LineOfLayout(prog, o, m1.pc);
    StepThenPushed(prog, o, m1, m.np.itef, m1.np.itef.Top(), s.thenCmd);
    ReachesNext(prog, o, m1);
    m' := Step(prog, o, m1);
    ReachesTransitive(prog, o, m, 1, m1, 1, m');
  }

  lemma IfLines(prog: seq<Command>, p: nat, s: Stmt)
    requires s.IfStmt? && Fits(prog, p, FlatStmt(s))
    ensures p + 1 < |prog| && prog[p].words == IfLine(s) && prog[p + 1].words == [Then] + s.thenCmd
    ensures Fits(prog, p + 2, Flat(s.thenPart)) && Fits(prog, p + 2 + |Flat(s.thenPart)|, FlatElse(s))
  {
    hide Fits, Flat, FlatElse, IfLine;
    FitsHead(prog, p, IfLine(s), [[Then] + s.thenCmd] + (Flat(s.thenPart) + FlatElse(s)));
    FitsHead(prog, p + 1, [Then] + s.thenCmd, Flat(s.thenPart) + FlatElse(s));
    FitsSplit(prog, p + 2, Flat(s.thenPart), FlatElse(s));
  }

  /** `then` just after the condition that has pushed `entry`. */
  lemma StepThenPushed(prog: seq<Command>, o: Oracle, m: Machine, base: ItefStack, entry: ItefEntry, cmd: Words)
    requires At(prog, m, [Then] + cmd) && (cmd == [] || Plain(cmd))
    requires base.ndx + 1 < |base.slots| && m.np.itef == base.Push(entry)
    requires entry.state == ItIf && !m.np.loops.AwaitsCond()
    requires m.np.loops.Enabled() && !entry.disabled && !entry.ifcond ==> LineFits(prog, o, m.pc)
    ensures Ran(prog, o, m, RunCmd(o, EnvOf(m), cmd, m.np.loops.Enabled() && !entry.disabled && !entry.ifcond), m.np.loops,
                base.Push(entry.(state := ItThen)))
  {
    hide Step, LoopInvariant, LineFits, RunCmd;
    PushItefWithTop(base, entry, entry.(state := ItThen));
    StepThen(prog, o, m, cmd);
  }

  lemma EnterLoop(prog: seq<Command>, o: Oracle, m: Machine, s: Stmt, ctx: Context) returns (m': Machine)
    requires s.LoopStmt? && Fits(prog, m.pc, FlatStmt(s)) && WellFormedStmt(s, ctx)
    requires !m.halted && Between(m.np, 1, 0) && (m.np.itef.Enabled() ==> LayoutFits(prog, o))
    ensures var on := m.np.itef.Enabled();
            var go := on && Fails(o, EnvOf(m), s.cond) == s.until;
            Entered(prog, o, m, RunCmd(o, if on then RunCond(o, EnvOf(m), s.cond) else EnvOf(m), s.doCmd, go),
                    m.np.loops.Push(LoopEntry(LpDo, go, m.np.itef.ndx, m.pc)), m.np.itef, m')
    ensures Fits(prog, m.pc + 2, Flat(s.body)) && Fits(prog, m.pc + 2 + |Flat(s.body)|, [[Done]])
  {
    hide Step, Steps, Reaches, Fits, LayoutFits, LineFits, LoopInvariant, Flat, FlatStmt, WellFormed, LoopDepth, IfDepth;
    LoopLines(prog, m.pc, s);
    StepLoop(prog, o, m, s.until, s.cond);
    ReachesNext(prog, o, m);
    var m1 := Step(prog, o, m);
    LineOfLayout(prog, o, m1.pc);
    StepDoPushed(prog, o, m1, m.np.loops, m1.np.loops.Top(), s.doCmd);
    ReachesNext(prog, o, m1);
    m' := Step(prog, o, m1);
    ReachesTransitive(prog, o, m, 1, m1, 1, m');
  }

  lemma LoopLines(prog: seq<Command>, p: nat, s: Stmt)
    requires s.LoopStmt? && Fits(prog, p, FlatStmt(s))
    ensures p + 1 < |prog| && prog[p].words == [if s.until then Until else While] + s.cond
    ensures prog[p + 1].words == [Do] + s.doCmd
    ensures Fits(prog, p + 2, Flat(s.body)) && Fits(prog, p + 2 + |Flat(s.body)|, [[Done]])
  {
    hide Fits, Flat;
    FitsHead(prog, p, [if s.until then Until else While] + s.cond, [[Do] + s.doCmd] + (Flat(s.body) + [[Done]]));
    FitsHead(prog, p + 1, [Do] + s.doCmd, Flat(s.body) + [[Done]]);
    FitsSplit(prog, p + 2, Flat(s.body), [[Done]]);
  }

  /** `do` just after the condition that has pushed `entry`. */
  lemma StepDoPushed(prog: seq<Command>, o: Oracle, m: Machine, base: LoopStack, entry: LoopEntry, cmd: Words)
    requires At(prog, m, [Do] + cmd) && (cmd == [] || (Plain(cmd) && !ItefWord(cmd[0])))
    requires base.ndx + 1 < |base.slots| && m.np.loops == base.Push(entry)
    requires (entry.state == LpWhile || entry.state == LpUntil) && m.np.itef.Top().state != ItIf
    requires entry.enable && m.np.itef.Enabled() ==> LineFits(prog, o, m.pc)
    ensures Ran(prog, o, m, RunCmd(o, EnvOf(m), cmd, entry.enable && m.np.itef.Enabled()),
                base.Push(entry.(state := LpDo)), m.np.itef)
  {
    hide Step, LoopInvariant, LineFits, RunCmd;
    PushLoopWithTop(base, entry, entry.(state := LpDo));
    StepDo(prog, o, m, cmd);
  }

  // ----- disabled blocks -----

  /** `d` commands on, with the same environment and the same live slots. */
  ghost predicate Quiet(m: Machine, m': Machine, d: nat) {
    && Invariant(m'.np) && !m'.halted && m'.pc == m.pc + d && EnvOf(m') == EnvOf(m) && m'.np.stream == m.np.stream
    && SameLoops(m.np.loops, m'.np.loops) && SameItef(m.np.itef, m'.np.itef)
  }

  ghost predicate QuietlyReaches(prog: seq<Command>, o: Oracle, m: Machine, d: nat, m': Machine) {
    Reaches(prog, o, m, d, m') && Quiet(m, m', d)
  }

  lemma QuietTransitive(prog: seq<Command>, o: Oracle, m: Machine, d: nat, m': Machine, d': nat, m'': Machine)
    requires QuietlyReaches(prog, o, m, d, m') && QuietlyReaches(prog, o, m', d', m'')
    ensures QuietlyReaches(prog, o, m, d + d', m'')
  {
    hide Reaches, Invariant;
    ReachesTransitive(prog, o, m, d, m', d', m'');
  }

  lemma QuietBetween(m: Machine, m': Machine, d: nat, loopDepth: nat, ifDepth: nat)
    requires Between(m.np, loopDepth, ifDepth) && Quiet(m, m', d)
    ensures Between(m'.np, loopDepth, ifDepth)
    ensures m'.np.itef.Top() == m.np.itef.Top() && m'.np.loops.Top() == m.np.loops.Top()
    ensures Kept(m.np, m'.np, m.np.loops.Enabled())
  {
    hide LoopInvariant, ItefInvariant;
  }

  /** A block disabled by an `if` runs nothing and leaves `$?` and both stacks as
      they were, whatever it contains. */
  lemma {:induction false} DisabledBlock(prog: seq<Command>, o: Oracle, m: Machine, s: Script, ctx: Context)
    returns (m': Machine)
    requires Fits(prog, m.pc, Flat(s)) && WellFormed(s, ctx)
    requires !m.halted && Between(m.np, LoopDepth(s), IfDepth(s)) && !m.np.itef.Enabled()
    ensures QuietlyReaches(prog, o, m, |Flat(s)|, m')
    decreases s, 3
  {
    hide Reaches, Fits, LayoutFits, FlatStmt, WellFormedStmt, LoopDepthStmt, IfDepthStmt;
    if s.End? {
      m' := m;
      ReachesNext(prog, o, m);
    } else {
      FitsSplit(prog, m.pc, FlatStmt(s.head), Flat(s.next));
      var m1 := DisabledStmt(prog, o, m, s.head, ctx);
      QuietBetween(m, m1, |FlatStmt(s.head)|, LoopDepth(s), IfDepth(s));
      m' := DisabledBlock(prog, o, m1, s.next, ctx);
      QuietTransitive(prog, o, m, |FlatStmt(s.head)|, m1, |Flat(s.next)|, m');
    }
  }

  lemma {:induction false} DisabledStmt(prog: seq<Command>, o: Oracle, m: Machine, s: Stmt, ctx: Context)
    returns (m': Machine)
    requires Fits(prog, m.pc, FlatStmt(s)) && WellFormedStmt(s, ctx)
    requires !m.halted && Between(m.np, LoopDepthStmt(s), IfDepthStmt(s)) && !m.np.itef.Enabled()
    ensures QuietlyReaches(prog, o, m, |FlatStmt(s)|, m')
    decreases s, 2
  {
    hide Step, Steps, Reaches, Fits, LayoutFits, LoopInvariant, Flat, WellFormed, LoopDepth, IfDepth;
    match s
    case Simple(cmd) =>
      assert [cmd] + [] == [cmd];
      FitsHead(prog, m.pc, cmd, []);
      StepPlain(prog, o, m, cmd);
      ReachesNext(prog, o, m);
      m' := Step(prog, o, m);
    case BreakStmt(args) =>
      assert [[BreakWord] + args] + [] == FlatStmt(s);
      FitsHead(prog, m.pc, [BreakWord] + args, []);
      StepBreakOff(prog, o, m, args);
      ReachesNext(prog, o, m);
      m' := Step(prog, o, m);
    case IfStmt(_, _, _, _, _, _, _) =>
      m' := DisabledIf(prog, o, m, s, ctx);
    case LoopStmt(_, _, _, _) =>
      m' := DisabledLoop(prog, o, m, s, ctx);
  }

  lemma {:induction false} DisabledIf(prog: seq<Command>, o: Oracle, m: Machine, s: Stmt, ctx: Context)
    returns (m': Machine)
    requires s.IfStmt? && Fits(prog, m.pc, FlatStmt(s)) && WellFormedStmt(s, ctx)
    requires !m.halted && Between(m.np, LoopDepthStmt(s), IfDepthStmt(s)) && !CmdEnabled(m.np.loops, m.np.itef)
    ensures QuietlyReaches(prog, o, m, |FlatStmt(s)|, m')
    decreases s, 1
  {
    hide Step, Steps, Reaches, Fits, LayoutFits, LoopInvariant, Flat, WellFormed, LoopDepth, IfDepth;
    var m1 := EnterIf(prog, o, m, s, ctx);
    var m2 := DisabledBlock(prog, o, m1, s.thenPart, Branch(ctx));
    ReachesTransitive(prog, o, m, 2, m1, |Flat(s.thenPart)|, m2);
    m' := DisabledElse(prog, o, m2, s, ctx);
    ReachesTransitive(prog, o, m, 2 + |Flat(s.thenPart)|, m2, |FlatElse(s)|, m');
  }

  /** `d` commands on, out of the innermost `if`. */
  ghost predicate OutOfIf(m: Machine, m': Machine, d: nat, e: Env) {
    && Invariant(m'.np) && !m'.halted && m'.pc == m.pc + d && EnvOf(m') == e && m'.np.stream == m.np.stream
    && SameLoops(m.np.loops, m'.np.loops)
    && m.np.itef.ndx > 0 && SameItef(ItefStack(m.np.itef.ndx - 1, m.np.itef.slots), m'.np.itef)
  }

  lemma EnterElse(prog: seq<Command>, o: Oracle, m: Machine, s: Stmt, ctx: Context) returns (m': Machine)
    requires s.IfStmt? && s.hasElse && Fits(prog, m.pc, FlatElse(s)) && WellFormedStmt(s, ctx)
    requires !m.halted && Between(m.np, LoopDepthStmt(s), IfDepthStmt(s) - 1) && m.np.itef.Top().state == ItThen
    requires CmdEnabled(m.np.loops, m.np.itef.WithTop(m.np.itef.Top().(state := ItElse))) ==> LayoutFits(prog, o)
    ensures Reaches(prog, o, m, 1, m') && m' == Step(prog, o, m)
    ensures var itef := m.np.itef.WithTop(m.np.itef.Top().(state := ItElse));
            var r := RunCmd(o, EnvOf(m), s.elseCmd, CmdEnabled(m.np.loops, itef));
            Ran(prog, o, m, r, m.np.loops, itef) && (r.Finish? ==> Between(m'.np, LoopDepth(s.elsePart), IfDepth(s.elsePart)))
    ensures Fits(prog, m.pc + 1, Flat(s.elsePart)) && Fits(prog, m.pc + 1 + |Flat(s.elsePart)|, [[Fi]])
  {
    hide Step, Steps, Reaches, Fits, LayoutFits, LineFits, LoopInvariant, ItefInvariant, Flat, WellFormed, LoopDepth, IfDepth;
    FitsHead(prog, m.pc, [Else] + s.elseCmd, Flat(s.elsePart) + [[Fi]]);
    LineOfLayout(prog, o, m.pc);
    StepElse(prog, o, m, s.elseCmd);
    ReachesNext(prog, o, m);
    m' := Step(prog, o, m);
    FitsSplit(prog, m.pc + 1, Flat(s.elsePart), [[Fi]]);
  }

  lemma LeaveIf(prog: seq<Command>, o: Oracle, m: Machine) returns (m': Machine)
    requires Fits(prog, m.pc, [[Fi]]) && !m.halted && Between(m.np, 0, 0)
    requires m.np.itef.Top().state == ItThen || m.np.itef.Top().state == ItElse
    ensures Reaches(prog, o, m, 1, m') && OutOfIf(m, m', 1, EnvOf(m))
  {
    hide Step, Reaches, Fits;
    assert [[Fi]] + [] == [[Fi]];
    FitsHead(prog, m.pc, [Fi], []);
    StepFi(prog, o, m, true);
    ReachesNext(prog, o, m);
    m' := Step(prog, o, m);
  }

  /** The rest of a conditional whose `else` part is not to be run. */
  lemma {:induction false} DisabledElse(prog: seq<Command>, o: Oracle, m: Machine, s: Stmt, ctx: Context)
    returns (m': Machine)
    requires s.IfStmt? && Fits(prog, m.pc, FlatElse(s)) && WellFormedStmt(s, ctx)
    requires !m.halted && Between(m.np, LoopDepthStmt(s), IfDepthStmt(s) - 1)
    requires m.np.itef.Top().state == ItThen && (m.np.itef.Top().disabled || !m.np.itef.Top().ifcond)
    ensures Reaches(prog, o, m, |FlatElse(s)|, m') && OutOfIf(m, m', |FlatElse(s)|, EnvOf(m))
    decreases s, 0
  {
    hide Step, Steps, Reaches, Fits, LayoutFits, LoopInvariant, ItefInvariant, SameLoops, SameItef, Flat, WellFormed, LoopDepth, IfDepth;
    if s.hasElse {
      var m1 := EnterElse(prog, o, m, s, ctx);
      var m2 := DisabledBlock(prog, o, m1, s.elsePart, Branch(ctx));
      ReachesTransitive(prog, o, m, 1, m1, |Flat(s.elsePart)|, m2);
      QuietBetween(m1, m2, |Flat(s.elsePart)|, 0, 0);
      m' := LeaveIf(prog, o, m2);
      ReachesTransitive(prog, o, m, 1 + |Flat(s.elsePart)|, m2, 1, m');
      ElseLeft(m, m1, m2, m', 1 + |Flat(s.elsePart)|, EnvOf(m));
    } else {
      m' := LeaveIf(prog, o, m);
    }
  }

  /** Out of the innermost loop: back to its first command, or `d` commands on. */
  ghost predicate OutOfLoop(m: Machine, m': Machine, d: nat, e: Env, again: bool) {
    && Invariant(m.np) && Invariant(m'.np) && !m'.halted && EnvOf(m') == e && m'.np.stream == m.np.stream
    && m'.pc == (if again then m.np.loops.Top().topoffs else m.pc + d)
    && SameItef(m.np.itef, m'.np.itef)
    && m.np.loops.ndx > 0 && SameLoops(LoopStack(m.np.loops.ndx - 1, m.np.loops.slots), m'.np.loops)
  }

  lemma LeaveLoop(prog: seq<Command>, o: Oracle, m: Machine) returns (m': Machine)
    requires Fits(prog, m.pc, [[Done]]) && !m.halted && Between(m.np, 0, 0) && m.np.loops.Top().state == LpDo
    ensures Reaches(prog, o, m, 1, m') && OutOfLoop(m, m', 1, EnvOf(m), m.np.loops.Enabled())
  {
    hide Step, Steps, Reaches, Fits, LoopInvariant;
    assert [[Done]] + [] == [[Done]];
    FitsHead(prog, m.pc, [Done], []);
    StepDone(prog, o, m);
    ReachesNext(prog, o, m);
    m' := Step(prog, o, m);
  }

  lemma {:induction false} DisabledLoop(prog: seq<Command>, o: Oracle, m: Machine, s: Stmt, ctx: Context)
    returns (m': Machine)
    requires s.LoopStmt? && Fits(prog, m.pc, FlatStmt(s)) && WellFormedStmt(s, ctx)
    requires !m.halted && Between(m.np, LoopDepthStmt(s), IfDepthStmt(s)) && !m.np.itef.Enabled()
    ensures QuietlyReaches(prog, o, m, |FlatStmt(s)|, m')
    decreases s, 0
  {
    hide Step, Steps, Reaches, Fits, LayoutFits, LoopInvariant, ItefInvariant, Flat, WellFormed, LoopDepth, IfDepth;
    var m1 := EnterLoop(prog, o, m, s, ctx);
    var m2 := DisabledBlock(prog, o, m1, s.body, Body);
    ReachesTransitive(prog, o, m, 2, m1, |Flat(s.body)|, m2);
    m' := LeaveLoop(prog, o, m2);
    ReachesTransitive(prog, o, m, 2 + |Flat(s.body)|, m2, 1, m');
  }

  // ----- enabled blocks -----

  /** `k` steps take `m` to `m'`, which is where outcome `r` of a block of `d`
      commands should end; a block that runs out of fuel takes at least as many
      steps as there was fuel. */
  ghost predicate Simulated(prog: seq<Command>, o: Oracle, m: Machine, k: nat, m': Machine, r: Result, d: nat, fuel: nat) {
    && Reaches(prog, o, m, k, m') && Invariant(m.np) && Invariant(m'.np)
    && match r
       case Finish(e, on) => !m'.halted && m'.pc == m.pc + d && EnvOf(m') == e && Kept(m.np, m'.np, on)
       case Abort(e) => m'.halted && !m'.ok && EnvOf(m') == e
       case Timeout => !m'.halted && k >= fuel
  }

  lemma SimulatedAfter(prog: seq<Command>, o: Oracle, m: Machine, j: nat, m1: Machine, on: bool, k: nat, m': Machine,
                       r: Result, d1: nat, fuel1: nat, d: nat, fuel: nat)
    requires Invariant(m.np) && Invariant(m1.np) && Reaches(prog, o, m, j, m1) && Kept(m.np, m1.np, on)
    requires Simulated(prog, o, m1, k, m', r, d1, fuel1) && m1.pc + d1 == m.pc + d && j + fuel1 >= fuel
    ensures Simulated(prog, o, m, j + k, m', r, d, fuel)
  {
    hide Steps, Reaches, LoopInvariant, ItefInvariant;
    ReachesTransitive(prog, o, m, j, m1, k, m');
    if r.Finish? {
      KeptTransitive(m.np, m1.np, on, m'.np, r.on);
    }
  }

  /** Only a loop body can end with a `break` pending. */
  lemma {:induction false} ActualKeepsOn(o: Oracle, s: Script, e: Env, on: bool, ctx: Context, fuel: nat)
    requires ctx != Body
    ensures var r := Actual(o, s, e, on, ctx, fuel); r.Finish? ==> r.on == on
    decreases fuel, s, 1
  {
    if s.Cons? {
      ActualStmtKeepsOn(o, s.head, e, on, ctx, fuel);
      var r := ActualStmt(o, s.head, e, on, ctx, fuel);
      if r.Finish? {
        ActualKeepsOn(o, s.next, r.env, r.on, ctx, fuel);
      }
    }
  }

  lemma {:induction false} ActualStmtKeepsOn(o: Oracle, s: Stmt, e: Env, on: bool, ctx: Context, fuel: nat)
    requires ctx != Body || s.IfStmt?
    ensures var r := ActualStmt(o, s, e, on, ctx, fuel); r.Finish? ==> r.on == on
    decreases fuel, s, 0
  {
    match s
    case IfStmt(inverted, cond, thenCmd, thenPart, hasElse, elseCmd, elsePart) =>
      var taken := Fails(o, e, cond) == inverted;
      var r := RunCmd(o, RunCond(o, e, cond), if taken then thenCmd else elseCmd, true);
      if r.Finish? {
        ActualKeepsOn(o, if taken then thenPart else elsePart, r.env, true, Branch(ctx), fuel);
      }
    case LoopStmt(until, cond, doCmd, body) =>
      if fuel > 0 {
        var go := Fails(o, e, cond) == until;
        var r0 := RunCmd(o, RunCond(o, e, cond), doCmd, go);
        var r := if r0.Finish? then Actual(o, body, r0.env, go, Body, fuel) else r0;
        if r.Finish? && r.on {
          ActualStmtKeepsOn(o, s, r.env, on, ctx, fuel - 1);
        }
      }
    case _ =>
  }

  lemma {:induction false} SimulateBlock(prog: seq<Command>, o: Oracle, m: Machine, s: Script, on: bool, ctx: Context, fuel: nat)
    returns (k: nat, m': Machine)
    requires LayoutFits(prog, o) && Fits(prog, m.pc, Flat(s)) && WellFormed(s, ctx)
    requires !m.halted && Ready(m.np, LoopDepth(s), IfDepth(s), on, ctx)
    ensures Simulated(prog, o, m, k, m', Actual(o, s, EnvOf(m), on, ctx, fuel), |Flat(s)|, fuel)
    decreases fuel, s, 4
  {
    hide Steps, Reaches, Fits, LayoutFits, LoopInvariant, ItefInvariant, FlatStmt, WellFormedStmt, LoopDepthStmt, IfDepthStmt, ActualStmt;
    if s.End? {
      k, m' := 0, m;
      ReachesNext(prog, o, m);
    } else {
      FitsSplit(prog, m.pc, FlatStmt(s.head), Flat(s.next));
      k, m' := SimulateStmt(prog, o, m, s.head, on, ctx, fuel);
      var r := ActualStmt(o, s.head, EnvOf(m), on, ctx, fuel);
      if r.Finish? {
        KeptReady(m.np, m'.np, LoopDepth(s), IfDepth(s), on, r.on, ctx);
        var k1, m1 := SimulateBlock(prog, o, m', s.next, r.on, ctx, fuel);
        SimulatedAfter(prog, o, m, k, m', r.on, k1, m1, Actual(o, s, EnvOf(m), on, ctx, fuel),
                       |Flat(s.next)|, fuel, |Flat(s)|, fuel);
        k, m' := k + k1, m1;
      }
    }
  }

  lemma {:induction false} SimulateStmt(prog: seq<Command>, o: Oracle, m: Machine, s: Stmt, on: bool, ctx: Context, fuel: nat)
    returns (k: nat, m': Machine)
    requires LayoutFits(prog, o) && Fits(prog, m.pc, FlatStmt(s)) && WellFormedStmt(s, ctx)
    requires !m.halted && Ready(m.np, LoopDepthStmt(s), IfDepthStmt(s), on, ctx)
    ensures Simulated(prog, o, m, k, m', ActualStmt(o, s, EnvOf(m), on, ctx, fuel), |FlatStmt(s)|, fuel)
    decreases fuel, s, 3
  {
    hide Step, Steps, Reaches, Fits, LayoutFits, LoopInvariant, ItefInvariant, Flat, WellFormed, LoopDepth, IfDepth, Actual;
    match s
    case Simple(cmd) =>
      assert [cmd] + [] == [cmd];
      FitsHead(prog, m.pc, cmd, []);
      LineOfLayout(prog, o, m.pc);
      StepPlain(prog, o, m, cmd);
      ReachesNext(prog, o, m);
      k, m' := 1, Step(prog, o, m);
    case BreakStmt(args) =>
      assert [[BreakWord] + args] + [] == FlatStmt(s);
      FitsHead(prog, m.pc, [BreakWord] + args, []);
      StepBreak(prog, o, m, args);
      ReachesNext(prog, o, m);
      k, m' := 1, Step(prog, o, m);
    case IfStmt(_, _, _, _, _, _, _) =>
      if on {
        k, m' := SimulateIf(prog, o, m, s, ctx, fuel);
      } else {
        m' := DisabledIf(prog, o, m, s, ctx);
        k := |FlatStmt(s)|;
      }
    case LoopStmt(_, _, _, _) =>
      if fuel == 0 {
        k, m' := 0, m;
        ReachesNext(prog, o, m);
      } else {
        k, m' := SimulateLoop(prog, o, m, s, on, ctx, fuel);
      }
  }

  lemma {:induction false} SimulateIf(prog: seq<Command>, o: Oracle, m: Machine, s: Stmt, ctx: Context, fuel: nat)
    returns (k: nat, m': Machine)
    requires s.IfStmt? && LayoutFits(prog, o) && Fits(prog, m.pc, FlatStmt(s)) && WellFormedStmt(s, ctx)
    requires !m.halted && Ready(m.np, LoopDepthStmt(s), IfDepthStmt(s), true, ctx)
    ensures Simulated(prog, o, m, k, m', ActualStmt(o, s, EnvOf(m), true, ctx, fuel), |FlatStmt(s)|, fuel)
    decreases fuel, s, 2
  {
    hide Step, Steps, Reaches, Fits, LayoutFits, LoopInvariant, ItefInvariant, SameLoops, SameItef, Flat, WellFormed, LoopDepth, IfDepth, Actual;
    var m1 := EnterIf(prog, o, m, s, ctx);
    var taken := Fails(o, EnvOf(m), s.cond) == s.inverted;
    var e1 := RunCond(o, EnvOf(m), s.cond);
    var r0 := RunCmd(o, e1, s.thenCmd, taken);
    var r := if taken then (if r0.Finish? then Actual(o, s.thenPart, r0.env, true, Branch(ctx), fuel) else r0)
             else ActualElse(o, s, e1, ctx, fuel);
    if r0.Abort? {
      k, m' := 2, m1;
    } else {
      if taken {
        k, m' := SimulateThen(prog, o, m1, s, ctx, fuel);
      } else {
        k, m' := SimulateNotThen(prog, o, m1, s, ctx, fuel);
      }
      ReachesTransitive(prog, o, m, 2, m1, k, m');
      k := 2 + k;
      if r.Finish? {
        IfLeft(m, m1, m', |Flat(s.thenPart) + FlatElse(s)|, r.env);
      }
    }
  }

  /** Inside a conditional, at the first command after its `then` line. */
  ghost predicate InThen(prog: seq<Command>, o: Oracle, m: Machine, s: Stmt, ctx: Context, taken: bool) {
    && s.IfStmt? && LayoutFits(prog, o) && WellFormedStmt(s, ctx)
    && Fits(prog, m.pc, Flat(s.thenPart)) && Fits(prog, m.pc + |Flat(s.thenPart)|, FlatElse(s))
    && !m.halted && Between(m.np, LoopDepthStmt(s), IfDepthStmt(s) - 1) && m.np.loops.Enabled()
    && (ctx == Top ==> m.np.loops.Top().state == LpNormal)
    && m.np.itef.Top().state == ItThen && m.np.itef.Top().ifcond == !taken && !m.np.itef.Top().disabled
  }

  /** `k` steps take a machine inside a conditional to where outcome `r` of the
      `d` commands left of it should end. */
  ghost predicate IfSimulated(prog: seq<Command>, o: Oracle, m: Machine, k: nat, m': Machine, r: Result, d: nat, fuel: nat) {
    && Reaches(prog, o, m, k, m') && Invariant(m'.np)
    && match r
       case Finish(e, on) => on && OutOfIf(m, m', d, e)
       case Abort(e) => m'.halted && !m'.ok && EnvOf(m') == e
       case Timeout => !m'.halted && k >= fuel
  }

  lemma {:induction false} SimulateThen(prog: seq<Command>, o: Oracle, m: Machine, s: Stmt, ctx: Context, fuel: nat)
    returns (k: nat, m': Machine)
    requires InThen(prog, o, m, s, ctx, true)
    ensures IfSimulated(prog, o, m, k, m', Actual(o, s.thenPart, EnvOf(m), true, Branch(ctx), fuel),
                        |Flat(s.thenPart) + FlatElse(s)|, fuel)
    decreases fuel, s, 1
  {
    hide Step, Steps, Reaches, Fits, LayoutFits, LoopInvariant, ItefInvariant, SameLoops, SameItef, Flat, WellFormed, LoopDepth, IfDepth, Actual;
    k, m' := SimulateBlock(prog, o, m, s.thenPart, true, Branch(ctx), fuel);
    var r := Actual(o, s.thenPart, EnvOf(m), true, Branch(ctx), fuel);
    if r.Finish? {
      ActualKeepsOn(o, s.thenPart, EnvOf(m), true, Branch(ctx), fuel);
      var m1 := m';
      KeptBetween(m.np, m1.np, LoopDepthStmt(s), IfDepthStmt(s) - 1, true);
      m' := DisabledElse(prog, o, m1, s, ctx);
      ReachesTransitive(prog, o, m, k, m1, |FlatElse(s)|, m');
      k := k + |FlatElse(s)|;
      PartLeft(m, m1, |Flat(s.thenPart)|, m', |FlatElse(s)|, r.env);
    }
  }

  lemma {:induction false} SimulateNotThen(prog: seq<Command>, o: Oracle, m: Machine, s: Stmt, ctx: Context, fuel: nat)
    returns (k: nat, m': Machine)
    requires InThen(prog, o, m, s, ctx, false)
    ensures IfSimulated(prog, o, m, k, m', ActualElse(o, s, EnvOf(m), ctx, fuel), |Flat(s.thenPart) + FlatElse(s)|, fuel)
    decreases fuel, s, 1
  {
    hide Step, Steps, Reaches, Fits, LayoutFits, LoopInvariant, ItefInvariant, SameLoops, SameItef, Flat, WellFormed, LoopDepth, IfDepth, Actual;
    var m1 := DisabledBlock(prog, o, m, s.thenPart, Branch(ctx));
    QuietBetween(m, m1, |Flat(s.thenPart)|, LoopDepthStmt(s), IfDepthStmt(s) - 1);
    k, m' := SimulateElse(prog, o, m1, s, ctx, fuel);
    ReachesTransitive(prog, o, m, |Flat(s.thenPart)|, m1, k, m');
    k := |Flat(s.thenPart)| + k;
    var r := ActualElse(o, s, EnvOf(m1), ctx, fuel);
    if r.Finish? {
      PartLeft(m, m1, |Flat(s.thenPart)|, m', |FlatElse(s)|, r.env);
    }
  }

  lemma PartLeft(m: Machine, m1: Machine, d1: nat, m': Machine, d: nat, e: Env)
    requires Invariant(m.np) && m.np.loops.Enabled() && m1.pc == m.pc + d1
    requires Invariant(m1.np) && Kept(m.np, m1.np, true) && OutOfIf(m1, m', d, e)
    ensures OutOfIf(m, m', d1 + d, e)
  {
    hide LoopInvariant, ItefInvariant;
  }

  /** What is run from `else` on when the condition has chosen it. */
  function ActualElse(o: Oracle, s: Stmt, e: Env, ctx: Context, fuel: nat): Result
    requires s.IfStmt?
  {
    if s.hasElse then
      var r := RunCmd(o, e, s.elseCmd, true);
      if r.Finish? then Actual(o, s.elsePart, r.env, true, Branch(ctx), fuel) else r
    else Finish(e, true)
  }

  lemma {:induction false} SimulateElse(prog: seq<Command>, o: Oracle, m: Machine, s: Stmt, ctx: Context, fuel: nat)
    returns (k: nat, m': Machine)
    requires s.IfStmt? && LayoutFits(prog, o) && Fits(prog, m.pc, FlatElse(s)) && WellFormedStmt(s, ctx)
    requires !m.halted && Between(m.np, LoopDepthStmt(s), IfDepthStmt(s) - 1) && m.np.loops.Enabled()
    requires m.np.itef.Top().state == ItThen && m.np.itef.Top().ifcond && !m.np.itef.Top().disabled
    requires ctx == Top ==> m.np.loops.Top().state == LpNormal
    ensures IfSimulated(prog, o, m, k, m', ActualElse(o, s, EnvOf(m), ctx, fuel), |FlatElse(s)|, fuel)
    decreases fuel, s, 0
  {
    hide Step, Steps, Reaches, Fits, LayoutFits, LoopInvariant, ItefInvariant, SameLoops, SameItef, Flat, WellFormed, LoopDepth, IfDepth, Actual;
    if !s.hasElse {
      m' := LeaveIf(prog, o, m);
      k := 1;
    } else {
      m' := EnterElse(prog, o, m, s, ctx);
      k := 1;
      var r0 := RunCmd(o, EnvOf(m), s.elseCmd, true);
      if r0.Finish? {
        var m1 := m';
        k, m' := SimulateBlock(prog, o, m1, s.elsePart, true, Branch(ctx), fuel);
        ReachesTransitive(prog, o, m, 1, m1, k, m');
        k := 1 + k;
        if Actual(o, s.elsePart, r0.env, true, Branch(ctx), fuel).Finish? {
          ActualKeepsOn(o, s.elsePart, r0.env, true, Branch(ctx), fuel);
          var m2 := m';
          KeptBetween(m1.np, m2.np, 0, 0, true);
          m' := LeaveIf(prog, o, m2);
          ReachesTransitive(prog, o, m, k, m2, 1, m');
          k := k + 1;
          ElseLeft(m, m1, m2, m', 1 + |Flat(s.elsePart)|, EnvOf(m2));
        }
      }
    }
  }

  lemma ElseLeft(m: Machine, m1: Machine, m2: Machine, m': Machine, d: nat, e: Env)
    requires Invariant(m.np)
    requires Invariant(m1.np) && m1.np.loops == m.np.loops && m1.np.stream == m.np.stream
    requires m1.np.itef == m.np.itef.WithTop(m1.np.itef.Top()) && m2.pc == m.pc + d
    requires Invariant(m2.np) && Kept(m1.np, m2.np, m.np.loops.Enabled()) && OutOfIf(m2, m', 1, e)
    ensures OutOfIf(m, m', d + 1, e)
  {
    hide LoopInvariant, ItefInvariant;
  }

  /** In, through a part and out again: the stacks are those from before. */
  lemma IfLeft(m: Machine, m1: Machine, m': Machine, d: nat, e: Env)
    requires Invariant(m.np) && m.np.itef.ndx + 1 < |m.np.itef.slots| && m.np.loops.Enabled()
    requires Invariant(m1.np) && m1.np.loops == m.np.loops && m1.np.stream == m.np.stream
    requires m1.np.itef == m.np.itef.Push(m1.np.itef.Top())
    requires OutOfIf(m1, m', d, e)
    ensures Kept(m.np, m'.np, true)
  {
    hide LoopInvariant, ItefInvariant;
  }

  /** One pass: the condition, the body and `done`. */
  lemma {:induction false} SimulatePass(prog: seq<Command>, o: Oracle, m: Machine, s: Stmt, on: bool, ctx: Context, fuel: nat)
    returns (k: nat, m': Machine)
    requires s.LoopStmt? && LayoutFits(prog, o) && Fits(prog, m.pc, FlatStmt(s)) && WellFormedStmt(s, ctx)
    requires !m.halted && Ready(m.np, LoopDepthStmt(s), IfDepthStmt(s), on, ctx)
    ensures Reaches(prog, o, m, k, m') && Invariant(m'.np) && k > 0
    ensures match ActualPass(o, s, EnvOf(m), fuel)
            case Finish(e, again) =>
              && !m'.halted && EnvOf(m') == e && Kept(m.np, m'.np, on)
              && m'.pc == (if again then m.pc else m.pc + |FlatStmt(s)|)
            case Abort(e) => m'.halted && !m'.ok && EnvOf(m') == e
            case Timeout => !m'.halted && k >= fuel
    decreases fuel, s, 1
  {
    hide Step, Steps, Reaches, Fits, LayoutFits, LoopInvariant, ItefInvariant, SameLoops, SameItef, Flat, WellFormed, LoopDepth, IfDepth, Actual;
    m' := EnterLoop(prog, o, m, s, ctx);
    k := 2;
    var go := Fails(o, EnvOf(m), s.cond) == s.until;
    var r0 := RunCmd(o, RunCond(o, EnvOf(m), s.cond), s.doCmd, go);
    if r0.Finish? {
      var m1 := m';
      k, m' := SimulateBody(prog, o, m1, s, go, fuel);
      ReachesTransitive(prog, o, m, 2, m1, k, m');
      k := 2 + k;
      var r := Actual(o, s.body, r0.env, go, Body, fuel);
      if r.Finish? {
        LoopLeft(m, m1, m', |Flat(s.body)| + 1, r.env, r.on);
      }
    }
  }

  lemma {:induction false} SimulateBody(prog: seq<Command>, o: Oracle, m: Machine, s: Stmt, go: bool, fuel: nat)
    returns (k: nat, m': Machine)
    requires s.LoopStmt? && LayoutFits(prog, o) && WellFormed(s.body, Body)
    requires Fits(prog, m.pc, Flat(s.body)) && Fits(prog, m.pc + |Flat(s.body)|, [[Done]])
    requires !m.halted && Ready(m.np, LoopDepth(s.body), IfDepth(s.body), go, Body)
    ensures Reaches(prog, o, m, k, m') && Invariant(m'.np)
    ensures match Actual(o, s.body, EnvOf(m), go, Body, fuel)
            case Finish(e, again) => OutOfLoop(m, m', |Flat(s.body)| + 1, e, again)
            case Abort(e) => m'.halted && !m'.ok && EnvOf(m') == e
            case Timeout => !m'.halted && k >= fuel
    decreases fuel, s, 0
  {
    hide Step, Steps, Reaches, Fits, LayoutFits, LoopInvariant, ItefInvariant, SameLoops, SameItef, Flat, WellFormed, LoopDepth, IfDepth, Actual;
    k, m' := SimulateBlock(prog, o, m, s.body, go, Body, fuel);
    var r := Actual(o, s.body, EnvOf(m), go, Body, fuel);
    if r.Finish? {
      var m1 := m';
      KeptBetween(m.np, m1.np, 0, 0, r.on);
      m' := LeaveLoop(prog, o, m1);
      ReachesTransitive(prog, o, m, k, m1, 1, m');
      k := k + 1;
      BodyLeft(m, m1, |Flat(s.body)|, r.on, m', r.env);
    }
  }

  lemma BodyLeft(m: Machine, m1: Machine, d: nat, on: bool, m': Machine, e: Env)
    requires Invariant(m.np) && Invariant(m1.np) && m1.pc == m.pc + d && Kept(m.np, m1.np, on)
    requires m.np.loops.Top().state == LpDo && OutOfLoop(m1, m', 1, e, on)
    ensures OutOfLoop(m, m', d + 1, e, on)
  {
    hide LoopInvariant, ItefInvariant;
  }

  function ActualPass(o: Oracle, s: Stmt, e: Env, fuel: nat): Result
    requires s.LoopStmt?
  {
    var go := Fails(o, e, s.cond) == s.until;
    var r0 := RunCmd(o, RunCond(o, e, s.cond), s.doCmd, go);
    if r0.Finish? then Actual(o, s.body, r0.env, go, Body, fuel) else r0
  }

  lemma {:induction false} SimulateLoop(prog: seq<Command>, o: Oracle, m: Machine, s: Stmt, on: bool, ctx: Context, fuel: nat)
    returns (k: nat, m': Machine)
    requires s.LoopStmt? && LayoutFits(prog, o) && Fits(prog, m.pc, FlatStmt(s)) && WellFormedStmt(s, ctx)
    requires !m.halted && Ready(m.np, LoopDepthStmt(s), IfDepthStmt(s), on, ctx) && fuel > 0
    ensures Simulated(prog, o, m, k, m', ActualStmt(o, s, EnvOf(m), on, ctx, fuel), |FlatStmt(s)|, fuel)
    decreases fuel, s, 2
  {
    hide Step, Steps, Reaches, Fits, LayoutFits, LoopInvariant, ItefInvariant, SameLoops, SameItef, Flat, WellFormed, LoopDepth, IfDepth, Actual;
    k, m' := SimulatePass(prog, o, m, s, on, ctx, fuel);
    var r := ActualPass(o, s, EnvOf(m), fuel);
    if r.Finish? && r.on {
      KeptReady(m.np, m'.np, LoopDepthStmt(s), IfDepthStmt(s), on, on, ctx);
      var k1, m1 := SimulateStmt(prog, o, m', s, on, ctx, fuel - 1);
      SimulatedAfter(prog, o, m, k, m', on, k1, m1, ActualStmt(o, s, r.env, on, ctx, fuel - 1),
                     |FlatStmt(s)|, fuel - 1, |FlatStmt(s)|, fuel);
      k, m' := k + k1, m1;
    }
  }

  /** In, through the body and out again: the stacks are those from before. */
  lemma LoopLeft(m: Machine, m1: Machine, m': Machine, d: nat, e: Env, again: bool)
    requires Invariant(m.np) && m.np.loops.ndx + 1 < |m.np.loops.slots|
    requires Invariant(m1.np) && m1.np.itef == m.np.itef && m1.np.stream == m.np.stream
    requires m1.np.loops == m.np.loops.Push(m1.np.loops.Top())
    requires OutOfLoop(m1, m', d, e, again)
    ensures Kept(m.np, m'.np, m.np.loops.Enabled())
  {
    hide LoopInvariant, ItefInvariant;
  }
}
