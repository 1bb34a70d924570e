/** The control part of the NSH command parser: the if-then-else-fi stack, the
    while/until-do-done stack, and the step that parses and runs one command. */
module NshParser {

  /** A word of a command: one of the spellings the parser compares against, or
      any other text. */
  datatype Word =
    | While | Until | Do | Done
    | If | Bang | Then | Else | Fi
    | BreakWord
    | Text(text: string)

  /** The words of one command, as they come back from the argument scanner. */
  type Words = seq<Word>

  const EMPTY := Text("")

  /** What running one simple command does to the parser: whether it failed, and
      whether errors are ignored afterwards (the `e` option of `set`). */
  datatype Outcome = Outcome(fail: bool, ignore: bool)

  /** The world decides outcomes from everything run so far, the last exit
      status (`$?`) and the command itself. */
  type Oracle = (seq<Words>, bool, Words) -> Outcome

  /** `Internal` marks the two branches commented "Shouldn't happen". */
  datatype Verdict = Accepted | Rejected | Internal

  // ----- the loop stack -----

  datatype LoopState = LpNormal | LpWhile | LpUntil | LpDo
  datatype LoopEntry = LoopEntry(state: LoopState, enable: bool, iendx: nat, topoffs: nat)

  /** `np_lpndx` and `np_lpstate`; the number of slots is the nesting depth. */
  datatype LoopStack = LoopStack(ndx: nat, slots: seq<LoopEntry>)
  {
    function Top(): LoopEntry
      requires ndx < |slots|
    {
      slots[ndx]
    }

    predicate AwaitsCond()
      requires ndx < |slots|
    {
      Top().state == LpWhile || Top().state == LpUntil
    }

    predicate Enabled()
      requires ndx < |slots|
    {
      Top().state == LpDo ==> Top().enable
    }

    function WithTop(entry: LoopEntry): LoopStack
      requires ndx < |slots|
    {
      LoopStack(ndx, slots[ndx := entry])
    }

    function Push(entry: LoopEntry): LoopStack
      requires ndx + 1 < |slots|
    {
      LoopStack(ndx + 1, slots[ndx + 1 := entry])
    }

    function Pop(): LoopStack
      requires 0 < ndx < |slots|
    {
      LoopStack(ndx - 1, slots[ndx := Top().(state := LpNormal, enable := true)])
    }

    function Reset(): LoopStack
      requires ndx < |slots|
    {
      LoopStack(0, slots[0 := slots[0].(state := LpNormal, enable := true, topoffs := 0)])
    }
  }

  /** Slot 0 is never a loop, every loop below the top one is running its body,
      and no live slot is idle. */
  ghost predicate LoopInvariant(s: LoopStack) {
    && s.ndx < |s.slots|
    && s.slots[0].state == LpNormal
    && (forall i :: 0 < i < s.ndx ==> s.slots[i].state == LpDo)
    && (s.ndx > 0 ==> s.Top().state != LpNormal)
    && (forall i :: 0 <= i < |s.slots| ==> s.slots[i].iendx < |s.slots|)
  }

  datatype LoopParsed = LoopParsed(loops: LoopStack, jump: bool, seek: nat, rest: Words, verdict: Verdict)

  /** One command's leading word against the loop stack. `enabled` is whether
      commands are enabled, `mayLoop` that a loop may start here, `offset` the
      position of this command and `iendx` the current if-then-else-fi index. */
  function LoopToken(s: LoopStack, c: Words, enabled: bool, mayLoop: bool, offset: nat, iendx: nat, seek: nat)
    : (r: LoopParsed)
    requires LoopInvariant(s) && iendx < |s.slots|
    ensures LoopInvariant(r.loops) && r.loops.ndx < |r.loops.slots| == |s.slots|
    ensures r.verdict != Internal
  {
    var error := LoopParsed(s.Reset(), false, seek, [], Rejected);
    if c == [] then LoopParsed(s, false, seek, c, Accepted)
    else match c[0]
      case While | Until =>
        if |c| == 1 || c[1] == EMPTY || !mayLoop || s.AwaitsCond() || s.ndx + 1 >= |s.slots| then error
        else
          var entry := LoopEntry(if c[0] == Until then LpUntil else LpWhile, enabled, iendx, offset);
          LoopParsed(s.Push(entry), false, seek, c[1..], Accepted)
      case Do =>
        if !s.AwaitsCond() then error
        else LoopParsed(s.WithTop(s.Top().(state := LpDo)), false, seek, c[1..], Accepted)
      case Done =>
        if |c| > 1 || s.Top().state != LpDo then error
        else if s.ndx < 1 then error.(verdict := Internal)
        else if s.Top().enable then LoopParsed(s.Pop(), true, s.Top().topoffs, [], Accepted)
        else LoopParsed(s.Pop(), false, seek, [], Accepted)
      case _ =>
        if s.AwaitsCond() then error else LoopParsed(s, false, seek, c, Accepted)
  }

  /** Where the loop words may stand: `while` and `until` with a condition, where a loop
      may start and the nesting allows it; `do` just after a condition; `done` alone, in
      a body; anything else except just after a condition. All else is rejected, and
      then no loop is open and commands are enabled. */
  lemma LoopRejects(s: LoopStack, c: Words, enabled: bool, mayLoop: bool, offset: nat, iendx: nat, seek: nat)
    requires LoopInvariant(s) && iendx < |s.slots| && c != []
    ensures var r, top := LoopToken(s, c, enabled, mayLoop, offset, iendx, seek), s.slots[s.ndx].state;
            && (r.verdict == Accepted <==>
                  match c[0]
                  case While => |c| > 1 && c[1] != EMPTY && mayLoop && top != LpWhile && top != LpUntil && s.ndx + 1 < |s.slots|
                  case Until => |c| > 1 && c[1] != EMPTY && mayLoop && top != LpWhile && top != LpUntil && s.ndx + 1 < |s.slots|
                  case Do => top == LpWhile || top == LpUntil
                  case Done => |c| == 1 && top == LpDo
                  case _ => top != LpWhile && top != LpUntil)
            && (r.verdict != Accepted ==> r.loops.ndx == 0 && r.loops.slots[0].state == LpNormal && !r.jump && r.seek == seek)
  {
    hide LoopInvariant;
  }

  // ----- the if-then-else-fi stack -----

  datatype ItefState = ItNormal | ItIf | ItThen | ItElse
  datatype ItefEntry = ItefEntry(state: ItefState, disabled: bool, ifcond: bool, inverted: bool)

  /** `np_iendx` and `np_iestate`. */
  datatype ItefStack = ItefStack(ndx: nat, slots: seq<ItefEntry>)
  {
    function Top(): ItefEntry
      requires ndx < |slots|
    {
      slots[ndx]
    }

    predicate Enabled()
      requires ndx < |slots|
    {
      !Top().disabled && (Top().state == ItThen ==> !Top().ifcond) && (Top().state == ItElse ==> Top().ifcond)
    }

    function WithTop(entry: ItefEntry): ItefStack
      requires ndx < |slots|
    {
      ItefStack(ndx, slots[ndx := entry])
    }

    function Push(entry: ItefEntry): ItefStack
      requires ndx + 1 < |slots|
    {
      ItefStack(ndx + 1, slots[ndx + 1 := entry])
    }

    function Reset(): ItefStack
      requires ndx < |slots|
    {
      ItefStack(0, slots[0 := ItefEntry(ItNormal, false, false, false)])
    }
  }

  ghost predicate ItefInvariant(s: ItefStack) {
    s.ndx < |s.slots| && s.slots[0].state == ItNormal
  }

  datatype ItefParsed = ItefParsed(itef: ItefStack, rest: Words, verdict: Verdict)

  /** One command's leading word against the if-then-else-fi stack. */
  function ItefToken(s: ItefStack, c: Words, enabled: bool): (r: ItefParsed)
    requires ItefInvariant(s)
    ensures ItefInvariant(r.itef) && r.itef.ndx < |r.itef.slots| == |s.slots|
    ensures r.verdict != Internal
  {
    var error := ItefParsed(s.Reset(), [], Rejected);
    if c == [] then ItefParsed(s, c, Accepted)
    else match c[0]
      case If =>
        var inverted := |c| > 1 && c[1] == Bang;
        var cond := if inverted then c[2..] else c[1..];
        if cond == [] || cond[0] == EMPTY || s.Top().state == ItIf || s.ndx + 1 >= |s.slots| then error
        else ItefParsed(s.Push(ItefEntry(ItIf, !enabled, false, inverted)), cond, Accepted)
      case Then =>
        if s.Top().state != ItIf then error
        else ItefParsed(s.WithTop(s.Top().(state := ItThen)), c[1..], Accepted)
      case Else =>
        if s.Top().state != ItThen then error
        else ItefParsed(s.WithTop(s.Top().(state := ItElse)), c[1..], Accepted)
      case Fi =>
        if |c| > 1 || (s.Top().state != ItThen && s.Top().state != ItElse) then error
        else if s.ndx < 1 then error.(verdict := Internal)
        else ItefParsed(ItefStack(s.ndx - 1, s.slots), [], Accepted)
      case _ =>
        if s.Top().state == ItIf then error else ItefParsed(s, c, Accepted)
  }

  /** Where the words of conditionals may stand: `if` with a condition, not just after
      another, if the nesting allows it; `then` just after a condition; `else` in the
      first branch; `fi` alone, in either branch; anything else except just after a
      condition. All else is rejected, and then no conditional is open and commands are
      enabled. */
  lemma ItefRejects(s: ItefStack, c: Words, enabled: bool)
    requires ItefInvariant(s) && c != []
    ensures var r, top := ItefToken(s, c, enabled), s.slots[s.ndx].state;
            var cond := if |c| > 1 && c[1] == Bang then c[2..] else c[1..];
            && (r.verdict == Accepted <==>
                  match c[0]
                  case If => cond != [] && cond[0] != EMPTY && top != ItIf && s.ndx + 1 < |s.slots|
                  case Then => top == ItIf
                  case Else => top == ItThen
                  case Fi => |c| == 1 && (top == ItThen || top == ItElse)
                  case _ => top != ItIf)
            && (r.verdict != Accepted ==>
                  r.itef.ndx == 0 && r.itef.slots[0].state == ItNormal && !r.itef.slots[0].disabled)
  {
  }

  /** A command that is rejected runs nothing, fails, and resets the stack of the word. */
  lemma RejectedRunsNothing(np: Parser, c: Words, o: Oracle, trace: seq<Words>)
    requires Invariant(np) && c != []
    ensures var p := LoopToken(np.loops, c, CmdEnabled(np.loops, np.itef), np.itef.Top().state != ItIf && np.stream,
                               np.offset, np.itef.ndx, np.seek);
            var r := ParseCommand(np, c, o, trace);
            p.verdict != Accepted ==> r.ran == [] && r.np.loops.ndx == 0 && !r.np.jump && (np.itef.Top().state != ItIf ==> !r.ok)
    ensures !np.stream && (c[0] == While || c[0] == Until) ==> ParseCommand(np, c, o, trace).ran == []
  {
    hide ItefInvariant, ItefToken, Execute;
  }

  // ----- the parser -----

  /** `stream` says that a script file is being read and that its offset is
      known; `offset` is the position of the command being parsed; `seek` is
      where `done` last repositioned the stream. */
  datatype Parser = Parser(fail: bool, ignore: bool, stream: bool, offset: nat, seek: nat, jump: bool,
                           loops: LoopStack, itef: ItefStack)

  /** What every command keeps, well formed or not. */
  ghost predicate Invariant(np: Parser) {
    && np.loops.ndx < |np.loops.slots| && LoopInvariant(np.loops)
    && np.itef.ndx < |np.itef.slots| == |np.loops.slots| && ItefInvariant(np.itef)
  }

  predicate CmdEnabled(loops: LoopStack, itef: ItefStack)
    requires loops.ndx < |loops.slots| && itef.ndx < |itef.slots|
  {
    loops.Enabled() && itef.Enabled()
  }

  /** The parser after one command, the command it ran if any, and its status. */
  datatype Commanded = Commanded(np: Parser, ran: seq<Words>, ok: bool)

  /** Records the result of a command: as the condition that a loop or an `if`
      is waiting for, or else as the exit status. */
  function SaveResult(np: Parser, failed: bool, ran: seq<Words>): (r: Commanded)
    requires Invariant(np)
    ensures Invariant(r.np)
  {
    var lp, ie := np.loops.Top(), np.itef.Top();
    if np.loops.AwaitsCond() then
      Commanded(np.(fail := false, loops := np.loops.WithTop(lp.(enable := (lp.state == LpUntil) == failed))), ran, true)
    else if ie.state == ItIf then
      Commanded(np.(fail := false, itef := np.itef.WithTop(ie.(ifcond := ie.inverted != failed))), ran, true)
    else
      Commanded(np.(fail := failed), ran, !failed)
  }

  function Break(np: Parser): (r: Parser)
    requires Invariant(np)
    ensures Invariant(r)
  {
    var lp := np.loops.Top();
    if lp.state == LpDo then
      np.(loops := np.loops.WithTop(lp.(enable := false)), itef := ItefStack(lp.iendx, np.itef.slots))
    else np
  }

  /** Runs a simple command; `break` is the one that changes the stacks itself. */
  function Execute(np: Parser, w: Words, o: Oracle, trace: seq<Words>): (r: Commanded)
    requires Invariant(np) && w != []
    ensures Invariant(r.np)
  {
    if w[0] == BreakWord then SaveResult(Break(np), false, [w])
    else
      var out := o(trace, np.fail, w);
      SaveResult(np.(ignore := out.ignore), out.fail, [w])
  }

  /** Only an accepted `done` jumps, and it cannot fail. */
  lemma JumpSucceeds(np: Parser, c: Words, o: Oracle, trace: seq<Words>)
    requires Invariant(np)
    ensures var r := ParseCommand(np, c, o, trace); r.np.jump ==> r.ok
  {
    hide LoopInvariant, ItefInvariant;
  }

  /** Parses and runs one command of a line. */
  function ParseCommand(np: Parser, c: Words, o: Oracle, trace: seq<Words>): (r: Commanded)
    requires Invariant(np)
    ensures Invariant(r.np)
  {
    var p := LoopToken(np.loops, c, CmdEnabled(np.loops, np.itef), np.itef.Top().state != ItIf && np.stream,
                       np.offset, np.itef.ndx, np.seek);
    var np1 := np.(loops := p.loops, jump := p.jump, seek := p.seek);
    if p.verdict != Accepted then SaveResult(np1, true, [])
    else
      var q := ItefToken(np.itef, p.rest, CmdEnabled(p.loops, np.itef));
      var np2 := np1.(itef := q.itef);
      if q.verdict != Accepted then SaveResult(np2, true, [])
      else if q.rest == [] || !CmdEnabled(p.loops, q.itef) then Commanded(np2, [], true)
      else Execute(np2, q.rest, o, trace)
  }
}
