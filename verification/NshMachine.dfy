/** The script driver: reads lines, parses the commands on each, and goes back to
    the top of a loop when `done` has repositioned the stream. */
module NshMachine {
  import opened NshParser

  /** One command of a script; `eol` marks the last command on its line, the
      others are followed by a semicolon. */
  datatype Command = Command(words: Words, eol: bool)

  /** `pc` is the stream position, counted in commands. `ok` is the status of
      the last line parsed. */
  datatype Machine = Machine(pc: nat, np: Parser, trace: seq<Words>, halted: bool, ok: bool)

  /** The position after the line that holds command `i`. */
  function NextLine(prog: seq<Command>, i: nat): (r: nat)
    requires i < |prog|
    ensures i < r <= |prog| && (r == |prog| || prog[r - 1].eol)
    ensures forall j :: i <= j < r - 1 ==> !prog[j].eol
    decreases |prog| - i
  {
    if prog[i].eol || i + 1 == |prog| then i + 1 else NextLine(prog, i + 1)
  }

  /** Parses the command at `pc` and finds the next one. A failing command ends
      its line, and ends the script too unless errors are ignored. */
  function Step(prog: seq<Command>, o: Oracle, m: Machine): (r: Machine)
    requires Invariant(m.np)
    ensures Invariant(r.np)
  {
    if m.halted then m
    else if m.pc >= |prog| then m.(halted := true)
    else
      var r := ParseCommand(m.np.(offset := m.pc, jump := false), prog[m.pc].words, o, m.trace);
      var next := if !r.ok then NextLine(prog, m.pc) else if r.np.jump then r.np.seek else m.pc + 1;
      Machine(next, r.np, m.trace + r.ran, !r.ok && !r.np.ignore, r.ok)
  }

  lemma StepAtEnd(prog: seq<Command>, o: Oracle, m: Machine)
    requires Invariant(m.np) && !m.halted && m.pc >= |prog|
    ensures Step(prog, o, m) == m.(halted := true)
  {
  }

  function Steps(prog: seq<Command>, o: Oracle, m: Machine, k: nat): (r: Machine)
    requires Invariant(m.np)
    ensures Invariant(r.np)
    decreases k
  {
    if k == 0 then m else Steps(prog, o, Step(prog, o, m), k - 1)
  }

  /** The machine gets from `m` to `m'` in `k` steps. */
  ghost predicate Reaches(prog: seq<Command>, o: Oracle, m: Machine, k: nat, m': Machine) {
    Invariant(m.np) && Steps(prog, o, m, k) == m'
  }

  lemma ReachesNext(prog: seq<Command>, o: Oracle, m: Machine)
    requires Invariant(m.np)
    ensures Reaches(prog, o, m, 0, m) && Reaches(prog, o, m, 1, Step(prog, o, m))
  {
    hide Step;
    assert Steps(prog, o, Step(prog, o, m), 0) == Step(prog, o, m);
  }

  lemma {:induction false} ReachesTransitive(prog: seq<Command>, o: Oracle, m: Machine, j: nat, m': Machine,
                                             k: nat, m'': Machine)
    requires Reaches(prog, o, m, j, m') && Reaches(prog, o, m', k, m'')
    ensures Reaches(prog, o, m, j + k, m'')
    decreases j
  {
    hide Step, Invariant;
    if j > 0 {
      ReachesTransitive(prog, o, Step(prog, o, m), j - 1, m', k, m'');
    }
  }

  lemma {:induction false} HaltedStays(prog: seq<Command>, o: Oracle, m: Machine, k: nat)
    requires Invariant(m.np) && m.halted
    ensures Reaches(prog, o, m, k, m)
    decreases k
  {
    if k > 0 {
      HaltedStays(prog, o, m, k - 1);
    }
  }

  /** A run has one end, and does not go past it. */
  lemma OneEnd(prog: seq<Command>, o: Oracle, m: Machine, j: nat, k: nat)
    requires Invariant(m.np) && Steps(prog, o, m, j).halted
    ensures Steps(prog, o, m, k).halted ==> Steps(prog, o, m, k) == Steps(prog, o, m, j)
    ensures !Steps(prog, o, m, k).halted ==> k < j
  {
    hide Step, Steps, Invariant;
    var a, b := Steps(prog, o, m, j), Steps(prog, o, m, k);
    if k >= j {
      HaltedStays(prog, o, a, k - j);
      ReachesTransitive(prog, o, m, j, a, k - j, a);
    } else if b.halted {
      HaltedStays(prog, o, b, j - k);
      ReachesTransitive(prog, o, m, k, b, j - k, b);
    }
  }
}
