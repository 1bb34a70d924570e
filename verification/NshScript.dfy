/** The structured reading of NSH scripts: their text, their meaning, and the
    meaning the flat machine really gives them. */
module NshScript {
  import opened Common
  import opened NshParser

  /** The command on a `then`, `else` or `do` line may be absent. */
  datatype Stmt =
    | Simple(cmd: Words)
    | BreakStmt(args: Words)
    | IfStmt(inverted: bool, cond: Words, thenCmd: Words, thenPart: Script,
             hasElse: bool, elseCmd: Words, elsePart: Script)
    | LoopStmt(until: bool, cond: Words, doCmd: Words, body: Script)

  datatype Script = End | Cons(head: Stmt, next: Script)

  /** The commands of a script in the order they are written. */
  function Flat(s: Script): seq<Words>
    decreases s, 2
  {
    match s
    case End => []
    case Cons(head, next) => FlatStmt(head) + Flat(next)
  }

  function FlatStmt(s: Stmt): seq<Words>
    decreases s, 1
  {
    match s
    case Simple(cmd) => [cmd]
    case BreakStmt(args) => [[BreakWord] + args]
    case IfStmt(_, _, thenCmd, thenPart, _, _, _) =>
      [IfLine(s)] + ([[Then] + thenCmd] + (Flat(thenPart) + FlatElse(s)))
    case LoopStmt(until, cond, doCmd, body) =>
      [[if until then Until else While] + cond] + ([[Do] + doCmd] + (Flat(body) + [[Done]]))
  }

  function IfLine(s: Stmt): Words
    requires s.IfStmt?
  {
    [If] + (if s.inverted then [Bang] else []) + s.cond
  }

  function FlatElse(s: Stmt): seq<Words>
    requires s.IfStmt?
    decreases s, 0
  {
    if s.hasElse then [[Else] + s.elseCmd] + (Flat(s.elsePart) + [[Fi]]) else [[Fi]]
  }

  /** Where a statement stands: outside every loop, directly in a loop body, or
      under an `if` inside a loop body. */
  datatype Context = Top | Body | Nested

  /** A command that is neither empty nor `break`. */
  predicate Plain(c: Words) {
    c != [] && c[0] != EMPTY && c[0] != BreakWord
  }

  predicate ItefWord(w: Word) {
    w == If || w == Then || w == Else || w == Fi
  }

  predicate LoopWord(w: Word) {
    w == While || w == Until || w == Do || w == Done
  }

  /** Reserved words stand only where the grammar has them, and no `break` is
      under an `if` of the loop it leaves. */
  predicate WellFormed(s: Script, ctx: Context) {
    s.Cons? ==> WellFormedStmt(s.head, ctx) && WellFormed(s.next, ctx)
  }

  predicate WellFormedStmt(s: Stmt, ctx: Context) {
    match s
    case Simple(cmd) => Plain(cmd) && !ItefWord(cmd[0]) && !LoopWord(cmd[0])
    case BreakStmt(args) => ctx != Nested
    case IfStmt(inverted, cond, thenCmd, thenPart, hasElse, elseCmd, elsePart) =>
      && Plain(cond) && (!inverted ==> cond[0] != Bang)
      && (thenCmd == [] || Plain(thenCmd)) && (elseCmd == [] || Plain(elseCmd))
      && WellFormed(thenPart, Branch(ctx)) && WellFormed(elsePart, Branch(ctx))
    case LoopStmt(until, cond, doCmd, body) =>
      && Plain(cond) && !ItefWord(cond[0])
      && (doCmd == [] || (Plain(doCmd) && !ItefWord(doCmd[0])))
      && WellFormed(body, Body)
  }

  function Branch(ctx: Context): Context {
    if ctx == Top then Top else Nested
  }

  /** The deepest nesting of loops, and of conditionals. */
  function LoopDepth(s: Script): nat {
    if s.End? then 0 else Max(LoopDepthStmt(s.head), LoopDepth(s.next))
  }

  function LoopDepthStmt(s: Stmt): nat {
    match s
    case IfStmt(_, _, _, thenPart, _, _, elsePart) => Max(LoopDepth(thenPart), LoopDepth(elsePart))
    case LoopStmt(_, _, _, body) => 1 + LoopDepth(body)
    case _ => 0
  }

  function IfDepth(s: Script): nat {
    if s.End? then 0 else Max(IfDepthStmt(s.head), IfDepth(s.next))
  }

  function IfDepthStmt(s: Stmt): nat {
    match s
    case IfStmt(_, _, _, thenPart, _, _, elsePart) => 1 + Max(IfDepth(thenPart), IfDepth(elsePart))
    case LoopStmt(_, _, _, body) => IfDepth(body)
    case _ => 0
  }

  // ----- semantics -----

  /** What a script can observe: the commands run, `$?` and the `e` option. */
  datatype Env = Env(trace: seq<Words>, fail: bool, ignore: bool)

  /** `on` is false after a `break`, until the loop it leaves has ended. */
  datatype Result = Timeout | Abort(env: Env) | Finish(env: Env, on: bool)

  predicate Fails(o: Oracle, e: Env, c: Words) {
    o(e.trace, e.fail, c).fail
  }

  function RunCond(o: Oracle, e: Env, c: Words): Env {
    Env(e.trace + [c], false, o(e.trace, e.fail, c).ignore)
  }

  /** Runs a command if there is one and commands are enabled. A failing command
      ends the script unless errors are ignored. */
  function RunCmd(o: Oracle, e: Env, c: Words, on: bool): Result {
    if c == [] || !on then Finish(e, on)
    else
      var out := o(e.trace, e.fail, c);
      var e' := Env(e.trace + [c], out.fail, out.ignore);
      if out.fail && !out.ignore then Abort(e') else Finish(e', on)
  }

  function RunBreak(e: Env, args: Words): Env {
    Env(e.trace + [[BreakWord] + args], false, e.ignore)
  }

  /** The meaning of a script: conditions choose branches, `while` repeats on
      success and `until` on failure, `break` leaves the loop at once. `fuel`
      bounds the number of times any loop repeats. */
  function Eval(o: Oracle, s: Script, e: Env, ctx: Context, fuel: nat): Result
    decreases fuel, s, 1
  {
    if s.End? then Finish(e, true)
    else
      var r := EvalStmt(o, s.head, e, ctx, fuel);
      if r.Finish? && r.on then Eval(o, s.next, r.env, ctx, fuel) else r
  }

  function EvalStmt(o: Oracle, s: Stmt, e: Env, ctx: Context, fuel: nat): Result
    decreases fuel, s, 0
  {
    match s
    case Simple(cmd) => RunCmd(o, e, cmd, true)
    case BreakStmt(args) => Finish(RunBreak(e, args), ctx != Body)
    case IfStmt(inverted, cond, thenCmd, thenPart, hasElse, elseCmd, elsePart) =>
      var e1 := RunCond(o, e, cond);
      if Fails(o, e, cond) == inverted then
        var r := RunCmd(o, e1, thenCmd, true);
        if r.Finish? then Eval(o, thenPart, r.env, Branch(ctx), fuel) else r
      else if hasElse then
        var r := RunCmd(o, e1, elseCmd, true);
        if r.Finish? then Eval(o, elsePart, r.env, Branch(ctx), fuel) else r
      else Finish(e1, true)
    case LoopStmt(until, cond, doCmd, body) =>
      var e1 := RunCond(o, e, cond);
      if fuel == 0 then Timeout
      else if Fails(o, e, cond) != until then Finish(e1, true)
      else
        var r0 := RunCmd(o, e1, doCmd, true);
        var r := if r0.Finish? then Eval(o, body, r0.env, Body, fuel) else r0;
        if !r.Finish? then r
        else if r.on then EvalStmt(o, s, r.env, ctx, fuel - 1)
        else Finish(r.env, true)
  }

  /** What the flat machine really runs. It differs from `Eval` in one place: the
      rest of a loop body after a `break`, and a whole body whose condition has
      ended the loop, are still scanned with `on` false, and a loop written
      directly there tests its condition and runs as if it were enabled. */
  function Actual(o: Oracle, s: Script, e: Env, on: bool, ctx: Context, fuel: nat): Result
    decreases fuel, s, 1
  {
    if s.End? then Finish(e, on)
    else
      var r := ActualStmt(o, s.head, e, on, ctx, fuel);
      if r.Finish? then Actual(o, s.next, r.env, r.on, ctx, fuel) else r
  }

  function ActualStmt(o: Oracle, s: Stmt, e: Env, on: bool, ctx: Context, fuel: nat): Result
    decreases fuel, s, 0
  {
    match s
    case Simple(cmd) => RunCmd(o, e, cmd, on)
    case BreakStmt(args) => if on then Finish(RunBreak(e, args), ctx != Body) else Finish(e, on)
    case IfStmt(inverted, cond, thenCmd, thenPart, hasElse, elseCmd, elsePart) =>
      var e1 := RunCond(o, e, cond);
      if !on then Finish(e, on)
      else if Fails(o, e, cond) == inverted then
        var r := RunCmd(o, e1, thenCmd, true);
        if r.Finish? then Actual(o, thenPart, r.env, true, Branch(ctx), fuel) else r
      else if hasElse then
        var r := RunCmd(o, e1, elseCmd, true);
        if r.Finish? then Actual(o, elsePart, r.env, true, Branch(ctx), fuel) else r
      else Finish(e1, true)
    case LoopStmt(until, cond, doCmd, body) =>
      if fuel == 0 then Timeout
      else
        var go := Fails(o, e, cond) == until;
        var r0 := RunCmd(o, RunCond(o, e, cond), doCmd, go);
        var r := if r0.Finish? then Actual(o, body, r0.env, go, Body, fuel) else r0;
        if !r.Finish? then r
        else if r.on then ActualStmt(o, s, r.env, on, ctx, fuel - 1)
        else Finish(r.env, on)
  }

  // ----- the scripts on which the two agree -----

  /** No loop outside an `if`. */
  predicate NoDirectLoop(s: Script) {
    s.Cons? ==> !s.head.LoopStmt? && NoDirectLoop(s.next)
  }

  /** What follows this statement in its body is never reached. */
  predicate EndsBody(s: Stmt, ctx: Context) {
    s.BreakStmt? && ctx == Body
  }

  /** Every loop inside a loop body is under an `if` of that body, as far as it can be
      reached at all. */
  predicate Guarded(s: Script, ctx: Context) {
    s.Cons? ==> GuardedStmt(s.head, ctx) && (EndsBody(s.head, ctx) || Guarded(s.next, ctx))
  }

  predicate GuardedStmt(s: Stmt, ctx: Context) {
    match s
    case IfStmt(_, _, _, thenPart, hasElse, _, elsePart) =>
      Guarded(thenPart, Branch(ctx)) && (hasElse ==> Guarded(elsePart, Branch(ctx)))
    case LoopStmt(_, _, _, body) => NoDirectLoop(body) && Guarded(body, Body)
    case _ => true
  }

  /** A finished body runs nothing if no loop is written directly in it. */
  lemma {:induction false} ActualOff(o: Oracle, s: Script, e: Env, ctx: Context, fuel: nat)
    requires NoDirectLoop(s)
    ensures Actual(o, s, e, false, ctx, fuel) == Finish(e, false)
  {
    if s.Cons? {
      ActualOff(o, s.next, e, ctx, fuel);
    }
  }

  /** Outside loop bodies no `break` is ever pending. */
  ghost predicate Settled(r: Result, ctx: Context) {
    r.Finish? && ctx != Body ==> r.on
  }

  /** On guarded scripts the machine gives every script its meaning. */
  lemma {:induction false} ActualIsEval(o: Oracle, s: Script, e: Env, ctx: Context, fuel: nat)
    requires Guarded(s, ctx) && WellFormed(s, ctx) && (ctx == Body ==> NoDirectLoop(s))
    ensures Actual(o, s, e, true, ctx, fuel) == Eval(o, s, e, ctx, fuel)
    ensures Settled(Eval(o, s, e, ctx, fuel), ctx)
    decreases fuel, s, 1
  {
    if s.Cons? {
      ActualIsEvalStmt(o, s.head, e, ctx, fuel);
      var r := EvalStmt(o, s.head, e, ctx, fuel);
      if r.Finish? {
        if r.on {
          ActualIsEval(o, s.next, r.env, ctx, fuel);
        } else {
          ActualOff(o, s.next, r.env, ctx, fuel);
        }
      }
    }
  }

  lemma {:induction false} ActualIsEvalStmt(o: Oracle, s: Stmt, e: Env, ctx: Context, fuel: nat)
    requires GuardedStmt(s, ctx) && WellFormedStmt(s, ctx) && (ctx == Body ==> !s.LoopStmt?)
    ensures ActualStmt(o, s, e, true, ctx, fuel) == EvalStmt(o, s, e, ctx, fuel)
    ensures Settled(EvalStmt(o, s, e, ctx, fuel), ctx)
    ensures s.IfStmt? ==> Settled(EvalStmt(o, s, e, ctx, fuel), Top)
    decreases fuel, s, 0
  {
    match s
    case Simple(_) =>
    case BreakStmt(_) =>
    case IfStmt(inverted, cond, thenCmd, thenPart, hasElse, elseCmd, elsePart) =>
      var taken := Fails(o, e, cond) == inverted;
      var r := RunCmd(o, RunCond(o, e, cond), if taken then thenCmd else elseCmd, true);
      if r.Finish? && (taken || hasElse) {
        ActualIsEval(o, if taken then thenPart else elsePart, r.env, Branch(ctx), fuel);
      }
    case LoopStmt(until, cond, doCmd, body) =>
      if fuel > 0 {
        var e1 := RunCond(o, e, cond);
        if Fails(o, e, cond) != until {
          ActualOff(o, body, e1, Body, fuel);
        } else {
          var r0 := RunCmd(o, e1, doCmd, true);
          if r0.Finish? {
            ActualIsEval(o, body, r0.env, Body, fuel);
            var r := Eval(o, body, r0.env, Body, fuel);
            if r.Finish? && r.on {
              ActualIsEvalStmt(o, s, r.env, ctx, fuel - 1);
            }
          }
        }
      }
  }
}
