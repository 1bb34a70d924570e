/** Exactly which scripts the flat machine runs as they are written. */
module NshBoundary {
  import opened Common
  import opened NshParser
  import opened NshScript

  // ----- what a run adds to the trace -----

  lemma {:induction false} ActualGrows(o: Oracle, s: Script, e: Env, on: bool, ctx: Context, fuel: nat)
    ensures var r := Actual(o, s, e, on, ctx, fuel); r.Timeout? || |r.env.trace| >= |e.trace|
    decreases fuel, s, 1
  {
    if s.Cons? {
      ActualStmtGrows(o, s.head, e, on, ctx, fuel);
      var r := ActualStmt(o, s.head, e, on, ctx, fuel);
      if r.Finish? {
        ActualGrows(o, s.next, r.env, r.on, ctx, fuel);
      }
    }
  }

  lemma {:induction false} ActualStmtGrows(o: Oracle, s: Stmt, e: Env, on: bool, ctx: Context, fuel: nat)
    ensures var r := ActualStmt(o, s, e, on, ctx, fuel);
            r.Timeout? || |r.env.trace| >= |e.trace| + (if s.LoopStmt? then 1 else 0)
    decreases fuel, s, 0
  {
    match s
    case IfStmt(inverted, cond, thenCmd, thenPart, hasElse, elseCmd, elsePart) =>
      var taken := Fails(o, e, cond) == inverted;
      var r := RunCmd(o, RunCond(o, e, cond), if taken then thenCmd else elseCmd, true);
      if r.Finish? {
        ActualGrows(o, if taken then thenPart else elsePart, r.env, true, Branch(ctx), fuel);
      }
    case LoopStmt(until, cond, doCmd, body) =>
      if fuel > 0 {
        var go := Fails(o, e, cond) == until;
        var r0 := RunCmd(o, RunCond(o, e, cond), doCmd, go);
        if r0.Finish? {
          ActualGrows(o, body, r0.env, go, Body, fuel);
          var r := Actual(o, body, r0.env, go, Body, fuel);
          if r.Finish? && r.on {
            ActualStmtGrows(o, s, r.env, on, ctx, fuel - 1);
          }
        }
      }
    case _ =>
  }

  /** Scanning a finished body that has a loop written directly in it runs at
      least that loop's condition. */
  lemma {:induction false} FinishedBodyRuns(o: Oracle, s: Script, e: Env, ctx: Context, fuel: nat)
    requires !NoDirectLoop(s)
    ensures var r := Actual(o, s, e, false, ctx, fuel); r.Timeout? || |r.env.trace| > |e.trace|
  {
    ActualStmtGrows(o, s.head, e, false, ctx, fuel);
    var r := ActualStmt(o, s.head, e, false, ctx, fuel);
    if s.head.LoopStmt? {
      if r.Finish? {
        ActualGrows(o, s.next, r.env, r.on, ctx, fuel);
      }
    } else {
      FinishedBodyRuns(o, s.next, e, ctx, fuel);
    }
  }

  // ----- shortest runs -----

  /** Whether a `break` stands directly in this body. */
  predicate HasBreak(s: Script) {
    s.Cons? && (s.head.BreakStmt? || HasBreak(s.next))
  }

  /** A body with a direct `break` always breaks; nothing else does. */
  predicate StaysOn(s: Script, ctx: Context) {
    ctx == Body ==> !HasBreak(s)
  }

  /** No failure ends the script, and the commands at positions `start` and following
      of the trace fail as `bits` say. */
  ghost predicate Follows(o: Oracle, start: nat, bits: seq<bool>) {
    forall trace, fail, c :: o(trace, fail, c).ignore
      && (start <= |trace| < start + |bits| ==> o(trace, fail, c).fail == bits[|trace| - start])
  }

  lemma FollowsSplit(o: Oracle, start: nat, a: seq<bool>, b: seq<bool>)
    requires Follows(o, start, a + b)
    ensures Follows(o, start, a) && Follows(o, start + |a|, b)
  {
    forall trace, fail, c
      ensures o(trace, fail, c).ignore
      ensures start <= |trace| < start + |a| ==> o(trace, fail, c).fail == a[|trace| - start]
      ensures start + |a| <= |trace| < start + |a| + |b| ==> o(trace, fail, c).fail == b[|trace| - start - |a|]
    {
      assert o(trace, fail, c).ignore;
    }
  }

  function CmdBits(c: Words): seq<bool> {
    if c == [] then [] else [false]
  }

  /** The outcomes on a shortest way through a script: loops end at once and each
      conditional takes its shorter branch. */
  function Bits(s: Script, ctx: Context): seq<bool> {
    if s.End? then [] else BitsStmt(s.head, ctx) + if EndsBody(s.head, ctx) then [] else Bits(s.next, ctx)
  }

  function BitsStmt(s: Stmt, ctx: Context): seq<bool> {
    match s
    case IfStmt(inverted, _, thenCmd, thenPart, hasElse, elseCmd, elsePart) =>
      var yes := CmdBits(thenCmd) + Bits(thenPart, Branch(ctx));
      var no := if hasElse then CmdBits(elseCmd) + Bits(elsePart, Branch(ctx)) else [];
      if |yes| <= |no| then [inverted] + yes else [!inverted] + no
    case LoopStmt(until, _, _, _) => [!until]
    case _ => [false]
  }

  /** The run ends with exactly this many commands in the trace. */
  ghost predicate Ends(r: Result, length: nat, on: bool) {
    r.Finish? && |r.env.trace| == length && r.on == on
  }

  /** If the run ends it has at least this many commands in the trace. */
  ghost predicate Lasts(r: Result, length: nat, on: bool) {
    r.Timeout? || (r.Finish? && |r.env.trace| >= length && r.on == on)
  }

  lemma CmdEnds(o: Oracle, e: Env, c: Words, start: nat, bits: seq<bool>)
    requires Follows(o, start, bits)
    ensures Ends(RunCmd(o, e, c, true), |e.trace| + |CmdBits(c)|, true)
  {
    assert o(e.trace, e.fail, c).ignore;
  }

  /** The shortest way is a run of the script. */
  lemma {:induction false} ShortestEnds(o: Oracle, s: Script, e: Env, ctx: Context, fuel: nat)
    requires WellFormed(s, ctx) && fuel > 0 && Follows(o, |e.trace|, Bits(s, ctx))
    ensures Ends(Eval(o, s, e, ctx, fuel), |e.trace| + |Bits(s, ctx)|, StaysOn(s, ctx))
    decreases s, 2
  {
    hide Follows, BitsStmt, EvalStmt, WellFormedStmt;
    if s.Cons? {
      var rest := if EndsBody(s.head, ctx) then [] else Bits(s.next, ctx);
      FollowsSplit(o, |e.trace|, BitsStmt(s.head, ctx), rest);
      ShortestStmtEnds(o, s.head, e, ctx, fuel);
      if !EndsBody(s.head, ctx) {
        ShortestEnds(o, s.next, EvalStmt(o, s.head, e, ctx, fuel).env, ctx, fuel);
      }
    }
  }

  lemma {:induction false} ShortestStmtEnds(o: Oracle, s: Stmt, e: Env, ctx: Context, fuel: nat)
    requires WellFormedStmt(s, ctx) && fuel > 0 && Follows(o, |e.trace|, BitsStmt(s, ctx))
    ensures Ends(EvalStmt(o, s, e, ctx, fuel), |e.trace| + |BitsStmt(s, ctx)|, !EndsBody(s, ctx))
    decreases s, 1
  {
    match s
    case Simple(cmd) =>
      CmdEnds(o, e, cmd, |e.trace|, BitsStmt(s, ctx));
    case BreakStmt(_) =>
    case IfStmt(_, _, _, _, _, _, _) =>
      ShortestIfEnds(o, s, e, ctx, fuel);
    case LoopStmt(until, cond, _, _) =>
      assert o(e.trace, e.fail, cond).fail == BitsStmt(s, ctx)[0];
  }

  /** The first outcome is the condition's. */
  lemma CondBit(o: Oracle, e: Env, cond: Words, bit: bool, bits: seq<bool>)
    requires Follows(o, |e.trace|, [bit] + bits)
    ensures Fails(o, e, cond) == bit
    ensures |RunCond(o, e, cond).trace| == |e.trace| + 1 && Follows(o, |e.trace| + 1, bits)
  {
    assert o(e.trace, e.fail, cond).fail == ([bit] + bits)[0];
    FollowsSplit(o, |e.trace|, [bit], bits);
  }

  lemma {:induction false} ShortestIfEnds(o: Oracle, s: Stmt, e: Env, ctx: Context, fuel: nat)
    requires s.IfStmt? && WellFormedStmt(s, ctx) && fuel > 0 && Follows(o, |e.trace|, BitsStmt(s, ctx))
    ensures Ends(EvalStmt(o, s, e, ctx, fuel), |e.trace| + |BitsStmt(s, ctx)|, true)
    decreases s, 0
  {
    hide Follows, Bits, Eval, WellFormed, RunCmd, Fails, RunCond;
    var bits := BitsStmt(s, ctx);
    assert bits == [bits[0]] + bits[1..];
    CondBit(o, e, s.cond, bits[0], bits[1..]);
    var e1 := RunCond(o, e, s.cond);
    if bits[0] == s.inverted {
      ShortestBranchEnds(o, s.thenCmd, s.thenPart, e1, Branch(ctx), fuel);
    } else if s.hasElse {
      ShortestBranchEnds(o, s.elseCmd, s.elsePart, e1, Branch(ctx), fuel);
    }
  }

  lemma {:induction false} ShortestBranchEnds(o: Oracle, c: Words, s: Script, e: Env, ctx: Context, fuel: nat)
    requires WellFormed(s, ctx) && ctx != Body && fuel > 0 && Follows(o, |e.trace|, CmdBits(c) + Bits(s, ctx))
    ensures var r := RunCmd(o, e, c, true);
            r.Finish? && Ends(Eval(o, s, r.env, ctx, fuel), |e.trace| + |CmdBits(c) + Bits(s, ctx)|, true)
    decreases s, 3
  {
    hide Follows, Bits, Eval, WellFormed;
    FollowsSplit(o, |e.trace|, CmdBits(c), Bits(s, ctx));
    CmdEnds(o, e, c, |e.trace|, CmdBits(c));
    ShortestEnds(o, s, RunCmd(o, e, c, true).env, ctx, fuel);
  }

  /** No run of the machine is shorter. */
  lemma {:induction false} ShortestLasts(o: Oracle, s: Script, e: Env, ctx: Context, fuel: nat)
    requires WellFormed(s, ctx) && Follows(o, 0, [])
    ensures Lasts(Actual(o, s, e, true, ctx, fuel), |e.trace| + |Bits(s, ctx)|, StaysOn(s, ctx))
    decreases fuel, s, 1
  {
    hide Follows, BitsStmt, ActualStmt, WellFormedStmt;
    if s.Cons? {
      ShortestStmtLasts(o, s.head, e, ctx, fuel);
      var r := ActualStmt(o, s.head, e, true, ctx, fuel);
      if r.Finish? {
        if EndsBody(s.head, ctx) {
          OffLasts(o, s.next, r.env, ctx, fuel);
        } else {
          ShortestLasts(o, s.next, r.env, ctx, fuel);
        }
      }
    }
  }

  lemma {:induction false} ShortestStmtLasts(o: Oracle, s: Stmt, e: Env, ctx: Context, fuel: nat)
    requires WellFormedStmt(s, ctx) && Follows(o, 0, [])
    ensures Lasts(ActualStmt(o, s, e, true, ctx, fuel), |e.trace| + |BitsStmt(s, ctx)|, !EndsBody(s, ctx))
    decreases fuel, s, 1
  {
    match s
    case Simple(cmd) =>
      CmdEnds(o, e, cmd, 0, []);
    case BreakStmt(_) =>
    case IfStmt(_, _, _, _, _, _, _) =>
      ShortestIfLasts(o, s, e, ctx, fuel);
    case LoopStmt(_, _, _, _) =>
      LoopLasts(o, s, e, true, ctx, fuel);
  }

  lemma {:induction false} ShortestIfLasts(o: Oracle, s: Stmt, e: Env, ctx: Context, fuel: nat)
    requires s.IfStmt? && WellFormedStmt(s, ctx) && Follows(o, 0, [])
    ensures Lasts(ActualStmt(o, s, e, true, ctx, fuel), |e.trace| + |BitsStmt(s, ctx)|, true)
    decreases fuel, s, 0
  {
    hide Follows, Bits, Actual, WellFormed, RunCmd, Fails;
    var e1 := RunCond(o, e, s.cond);
    if Fails(o, e, s.cond) == s.inverted {
      CmdEnds(o, e1, s.thenCmd, 0, []);
      ShortestLasts(o, s.thenPart, RunCmd(o, e1, s.thenCmd, true).env, Branch(ctx), fuel);
    } else if s.hasElse {
      CmdEnds(o, e1, s.elseCmd, 0, []);
      ShortestLasts(o, s.elsePart, RunCmd(o, e1, s.elseCmd, true).env, Branch(ctx), fuel);
    }
  }

  /** Disabled statements never abort a script or switch commands on. */
  lemma {:induction false} OffLasts(o: Oracle, s: Script, e: Env, ctx: Context, fuel: nat)
    requires WellFormed(s, ctx) && Follows(o, 0, [])
    ensures Lasts(Actual(o, s, e, false, ctx, fuel), |e.trace|, false)
    decreases fuel, s, 1
  {
    if s.Cons? {
      if s.head.LoopStmt? {
        LoopLasts(o, s.head, e, false, ctx, fuel);
      }
      var r := ActualStmt(o, s.head, e, false, ctx, fuel);
      if r.Finish? {
        OffLasts(o, s.next, r.env, ctx, fuel);
      }
    }
  }

  lemma {:induction false} LoopLasts(o: Oracle, s: Stmt, e: Env, on: bool, ctx: Context, fuel: nat)
    requires s.LoopStmt? && WellFormedStmt(s, ctx) && Follows(o, 0, [])
    ensures Lasts(ActualStmt(o, s, e, on, ctx, fuel), |e.trace| + 1, on)
    decreases fuel, s, 0
  {
    hide Follows;
    if fuel > 0 {
      var go := Fails(o, e, s.cond) == s.until;
      var e1 := RunCond(o, e, s.cond);
      CmdEnds(o, e1, s.doCmd, 0, []);
      var r0 := RunCmd(o, e1, s.doCmd, go);
      if go {
        ShortestLasts(o, s.body, r0.env, Body, fuel);
      } else {
        OffLasts(o, s.body, r0.env, Body, fuel);
      }
      var r := Actual(o, s.body, r0.env, go, Body, fuel);
      if r.Finish? && r.on {
        LoopLasts(o, s, r.env, on, ctx, fuel - 1);
      }
    }
  }

  // ----- runs that differ -----

  /** The outcomes that lead into an unguarded loop and from there by a shortest way
      to the end. */
  function Differing(s: Script, ctx: Context): seq<bool>
    requires !Guarded(s, ctx)
  {
    if GuardedStmt(s.head, ctx) then BitsStmt(s.head, ctx) + Differing(s.next, ctx)
    else DifferingStmt(s.head, ctx) + Bits(s.next, ctx)
  }

  function DifferingStmt(s: Stmt, ctx: Context): seq<bool>
    requires !GuardedStmt(s, ctx)
  {
    if s.IfStmt? then
      if !Guarded(s.thenPart, Branch(ctx)) then [s.inverted] + (CmdBits(s.thenCmd) + Differing(s.thenPart, Branch(ctx)))
      else [!s.inverted] + (CmdBits(s.elseCmd) + Differing(s.elsePart, Branch(ctx)))
    else if !NoDirectLoop(s.body) then [!s.until]
    else [s.until] + (CmdBits(s.doCmd) + (Differing(s.body, Body) + if HasBreak(s.body) then [] else [!s.until]))
  }

  /** The meaning ends with this many commands, the machine only with more. */
  ghost predicate Differ(meaning: Result, machine: Result, length: nat, on: bool) {
    Ends(meaning, length, on) && Lasts(machine, length + 1, on)
  }

  lemma {:induction false} RunsDiffer(o: Oracle, s: Script, e: Env, ctx: Context, fuel: nat)
    requires WellFormed(s, ctx) && !Guarded(s, ctx) && (ctx == Body ==> NoDirectLoop(s)) && fuel > 1
    requires Follows(o, |e.trace|, Differing(s, ctx))
    ensures Differ(Eval(o, s, e, ctx, fuel), Actual(o, s, e, true, ctx, fuel),
                   |e.trace| + |Differing(s, ctx)|, StaysOn(s, ctx))
    decreases s, 2
  {
    hide Follows, BitsStmt, DifferingStmt, EvalStmt, ActualStmt, WellFormedStmt, GuardedStmt;
    NoneFollows(o, |e.trace|, Differing(s, ctx));
    var r := EvalStmt(o, s.head, e, ctx, fuel);
    if GuardedStmt(s.head, ctx) {
      FollowsSplit(o, |e.trace|, BitsStmt(s.head, ctx), Differing(s.next, ctx));
      ShortestStmtEnds(o, s.head, e, ctx, fuel);
      ActualIsEvalStmt(o, s.head, e, ctx, fuel);
      RunsDiffer(o, s.next, r.env, ctx, fuel);
    } else {
      FollowsSplit(o, |e.trace|, DifferingStmt(s.head, ctx), Bits(s.next, ctx));
      NotBreak(s.head, ctx);
      StmtRunsDiffer(o, s.head, e, ctx, fuel);
      ShortestEnds(o, s.next, r.env, ctx, fuel);
      var r' := ActualStmt(o, s.head, e, true, ctx, fuel);
      if r'.Finish? {
        ShortestLasts(o, s.next, r'.env, ctx, fuel);
      }
    }
  }

  lemma NoneFollows(o: Oracle, start: nat, bits: seq<bool>)
    requires Follows(o, start, bits)
    ensures Follows(o, 0, [])
  {
    forall trace, fail, c
      ensures o(trace, fail, c).ignore
    {
      assert o(trace, fail, c).ignore;
    }
  }

  lemma NotBreak(s: Stmt, ctx: Context)
    requires !GuardedStmt(s, ctx)
    ensures s.IfStmt? || s.LoopStmt?
  {
  }

  lemma {:induction false} StmtRunsDiffer(o: Oracle, s: Stmt, e: Env, ctx: Context, fuel: nat)
    requires WellFormedStmt(s, ctx) && !GuardedStmt(s, ctx) && (ctx == Body ==> !s.LoopStmt?) && fuel > 1
    requires Follows(o, |e.trace|, DifferingStmt(s, ctx))
    ensures Differ(EvalStmt(o, s, e, ctx, fuel), ActualStmt(o, s, e, true, ctx, fuel),
                   |e.trace| + |DifferingStmt(s, ctx)|, true)
    decreases s, 1
  {
    hide Follows, Bits, Eval, Actual, WellFormed, RunCmd, Fails, RunCond, Differing, Guarded;
    var e1 := RunCond(o, e, s.cond);
    if s.IfStmt? {
      var taken := !Guarded(s.thenPart, Branch(ctx));
      var c, part := if taken then s.thenCmd else s.elseCmd, if taken then s.thenPart else s.elsePart;
      CondBit(o, e, s.cond, taken == s.inverted, CmdBits(c) + Differing(part, Branch(ctx)));
      BranchRunsDiffer(o, c, part, e1, Branch(ctx), fuel);
    } else if !NoDirectLoop(s.body) {
      assert [!s.until] + [] == [!s.until];
      CondBit(o, e, s.cond, !s.until, []);
      SkippedBodyDiffers(o, s, e, ctx, fuel);
    } else {
      LoopRunsDiffer(o, s, e, ctx, fuel);
    }
  }

  /** A loop that ends at once, but whose body holds a loop. */
  lemma SkippedBodyDiffers(o: Oracle, s: Stmt, e: Env, ctx: Context, fuel: nat)
    requires s.LoopStmt? && WellFormedStmt(s, ctx) && !NoDirectLoop(s.body) && fuel > 1
    requires Fails(o, e, s.cond) != s.until && Follows(o, |e.trace| + 1, [])
    ensures Differ(EvalStmt(o, s, e, ctx, fuel), ActualStmt(o, s, e, true, ctx, fuel), |e.trace| + 1, true)
  {
    hide Follows, Actual, Fails;
    var e1 := RunCond(o, e, s.cond);
    NoneFollows(o, |e.trace| + 1, []);
    FinishedBodyRuns(o, s.body, e1, Body, fuel);
    OffLasts(o, s.body, e1, Body, fuel);
  }

  lemma {:induction false} BranchRunsDiffer(o: Oracle, c: Words, s: Script, e: Env, ctx: Context, fuel: nat)
    requires WellFormed(s, ctx) && !Guarded(s, ctx) && (ctx == Body ==> NoDirectLoop(s)) && fuel > 1
    requires Follows(o, |e.trace|, CmdBits(c) + Differing(s, ctx))
    ensures var r := RunCmd(o, e, c, true);
            && r.Finish?
            && Differ(Eval(o, s, r.env, ctx, fuel), Actual(o, s, r.env, true, ctx, fuel),
                      |e.trace| + |CmdBits(c) + Differing(s, ctx)|, StaysOn(s, ctx))
    decreases s, 3
  {
    hide Follows, Bits, Eval, Actual, WellFormed, Differing, Guarded, NoDirectLoop;
    FollowsSplit(o, |e.trace|, CmdBits(c), Differing(s, ctx));
    CmdEnds(o, e, c, |e.trace|, CmdBits(c));
    RunsDiffer(o, s, RunCmd(o, e, c, true).env, ctx, fuel);
  }

  /** A loop that runs its body once. */
  lemma {:induction false} LoopRunsDiffer(o: Oracle, s: Stmt, e: Env, ctx: Context, fuel: nat)
    requires s.LoopStmt? && WellFormedStmt(s, ctx) && !Guarded(s.body, Body) && NoDirectLoop(s.body) && fuel > 1
    requires Follows(o, |e.trace|, DifferingStmt(s, ctx))
    ensures Differ(EvalStmt(o, s, e, ctx, fuel), ActualStmt(o, s, e, true, ctx, fuel),
                   |e.trace| + |DifferingStmt(s, ctx)|, true)
    decreases s, 0
  {
    hide Follows, Bits, Eval, Actual, WellFormed, RunCmd, RunCond, Differing, Guarded, NoDirectLoop;
    var first := CmdBits(s.doCmd) + Differing(s.body, Body);
    var last := if HasBreak(s.body) then [] else [!s.until];
    assert DifferingStmt(s, ctx) == [s.until] + (first + last);
    CondBit(o, e, s.cond, s.until, first + last);
    FollowsSplit(o, |e.trace| + 1, first, last);
    var e1 := RunCond(o, e, s.cond);
    BranchRunsDiffer(o, s.doCmd, s.body, e1, Body, fuel);
    NoneFollows(o, |e1.trace| + |first|, last);
    LoopEndsLater(o, s, e, ctx, fuel, |e1.trace| + |first|);
  }

  /** The second test of the condition, if there is one, ends the loop. */
  lemma LoopEndsLater(o: Oracle, s: Stmt, e: Env, ctx: Context, fuel: nat, length: nat)
    requires s.LoopStmt? && WellFormedStmt(s, ctx) && fuel > 1 && Fails(o, e, s.cond) == s.until
    requires Follows(o, 0, []) && Follows(o, length, if HasBreak(s.body) then [] else [!s.until])
    requires var r := RunCmd(o, RunCond(o, e, s.cond), s.doCmd, true);
             && r.Finish?
             && Differ(Eval(o, s.body, r.env, Body, fuel), Actual(o, s.body, r.env, true, Body, fuel), length, !HasBreak(s.body))
    ensures Differ(EvalStmt(o, s, e, ctx, fuel), ActualStmt(o, s, e, true, ctx, fuel),
                   if HasBreak(s.body) then length else length + 1, true)
  {
    hide Follows, Eval, Actual, WellFormed, RunCmd, RunCond, HasBreak;
    var e2 := RunCmd(o, RunCond(o, e, s.cond), s.doCmd, true).env;
    var r, r' := Eval(o, s.body, e2, Body, fuel), Actual(o, s.body, e2, true, Body, fuel);
    if !HasBreak(s.body) {
      assert [!s.until] + [] == [!s.until];
      CondBit(o, r.env, s.cond, !s.until, []);
      if r'.Finish? {
        LoopLasts(o, s, r'.env, true, ctx, fuel - 1);
      }
    }
  }

  /** The oracle that answers as `bits` say from this position of the trace on. */
  function Answering(start: nat, bits: seq<bool>): Oracle {
    (trace, fail, c) => Outcome(start <= |trace| < start + |bits| && bits[|trace| - start], true)
  }

  /** A script means what the machine makes of it, whatever its commands answer, if and
      only if it is guarded. */
  lemma RunsAsWrittenIff(s: Script)
    requires WellFormed(s, Top)
    ensures (forall o, e, fuel: nat :: Actual(o, s, e, true, Top, fuel) == Eval(o, s, e, Top, fuel)) <==> Guarded(s, Top)
  {
    hide Actual, Eval, WellFormed, Differing;
    if Guarded(s, Top) {
      forall o, e, fuel: nat
        ensures Actual(o, s, e, true, Top, fuel) == Eval(o, s, e, Top, fuel)
      {
        ActualIsEval(o, s, e, Top, fuel);
      }
    } else {
      var o := Answering(0, Differing(s, Top));
      var e := Env([], false, false);
      RunsDiffer(o, s, e, Top, 2);
      assert Actual(o, s, e, true, Top, 2) != Eval(o, s, e, Top, 2);
    }
  }
}
