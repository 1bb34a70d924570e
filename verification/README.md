# NuttX shell, Modbus, audio and loader cores

A Dafny model of the parts of NuttX that keep real state: the NSH script interpreter, its quoting rules and variable
store, the `dd` command, the PCM fast-forward sub-sampler, the Modbus master and slave poll loops, the composite audio
device, the bitmap run-length encoder, the list of binary loaders and the physical/virtual address translation.

`dafny verify dfyconfig.toml` checks the whole project.

## How it is organised

| files | subject |
|---|---|
| `NshParser`, `NshMachine` | what one command does to the two parser stacks, and the machine that reads lines and jumps back |
| `NshScript`, `NshSimulation`, `NshTheorems` | scripts as trees, their meaning, and the proof that the flat machine gives them that meaning |
| `NshBoundary` | the proof that it does so for no other scripts |
| `NshInterpreter` | the interpreter on its arrays, method by method, proved against the machine |
| `NshQuote`, `NshVars`, `NshEnv`, `NshDd` | quoting, the packed variable buffer, its relation to the environment, `dd` |
| `PcmSubsample`, `PcmTheorems` | the in-place sub-sampler and what it keeps over whole streams |
| `ModbusMaster`, `ModbusSlave` | the two poll loops and the handler tables |
| `AudioComp`, `BitmapRle`, `Binfmt`, `AddrEnv` | the smaller cores |
| `Common`, `Modulo` | shared definitions and facts about remainders |

Code that updates fields, arrays or linked nodes is modelled by classes whose methods are proved against functions; the
theorems are about those functions. Outside influences are parameters: the outcome of a shell command is an oracle that may
depend on all commands run before it, the answers of `read` and `write` follow a schedule, the Modbus port and the lower
audio devices answer as they like, and a `memory` flag says whether an allocation succeeds.

## Where the code does something unexpected

The model follows the code. These results say exactly when the expected behaviour holds.

- A loop written directly in another loop's body tests its condition, and may run, while the outer body is disabled
  (`MachineAgreesIff`). Under an `if` inside the body it is safe.
- `nshlib/README.md` says that `break` ends the loop. Under an `if` it also forgets the `if`, so the `fi` is rejected or
  closes an outer conditional (`FiAfterBreakIff`).
- A failing command ends its line even when errors are ignored (`FailureEndsLine`).
- The skip counter of the sub-sampler has 8 bits, so high rates on wide frames are not honoured (`RateHonouredIff`) and
  frames may be cut (`FramesStayWholeIff`).
- The sector counter of `dd` has 32 bits, so a skip is applied again after it wraps (`WrittenAsAskedIff`).
- Nothing keeps `=` out of variable names. Setting such a name can drop another variable, and can put a name in both stores
  (`SetIsUpdateIff`, `SetDropsAnother`, `SetKeepsDisjointIff`); comparing a name with an entry that it is the whole of does
  not come to an end within the strings (`ComparisonEndsIff`).
- `export NAME` of a name that is already in the environment drops it (`ExportKeepsLookupsIff`), and a `setenv` that runs
  out of memory has lost the old value (`OnlyItsName`).
- A rejected start, resume or reserve of the composite device also undoes earlier devices that never accepted
  (`UndoesOnlyAcceptedIff`, `UndoesOnlyAcceptedIffSupported`).
- The error type and the frame buffer of the Modbus master are shared by all transactions (`OwnKindIff`, `OwnFrameIff`); only
  because transactions follow one another is each reported as its own (`ExclusiveReportsOwn`). A broadcast is judged by its
  last slave (`BroadcastOutcome`).
- The port of the Modbus slave holds one event, so an event that is posted while a frame waits loses that frame
  (`EveryFrameAccounted`, `NothingLost`).
- Removing a Modbus slave handler leaves a hole that hides the later ones and lets a handler be listed twice
  (`RemovalKeepsPackedIff`, `ServedIff`, `RemovalAllowsTwice`).
- Registering a loader twice ties the list into a ring (`Registry.Register`).
- Address translation does not round-trip for an unmapped address that lies in a region of the other side
  (`RoundTripIff`).

## Model

| member | source | states |
|---|---|---|
| `NshTheorems.MachineRunsScript` | Ubiquitous/Nuttx/apps/nshlib/nsh_parse.c:1826-2178 | Simulation. For every well-formed guarded script (no loop that can be reached stands directly in the body of another), every oracle of command outcomes and every layout in which a command that can fail with errors ignored is the last on its line (conditions may fail anywhere), the flat machine with its two stacks and its jumps back to the top of a loop runs exactly the commands that evaluating the script tree runs, ends with the same `$?`, and leaves both stacks empty; if the tree evaluation is cut off by its bound on repetitions the machine has taken at least that many steps and is still running |
| `NshTheorems.MachineRunsActual` | Ubiquitous/Nuttx/apps/nshlib/nsh_parse.c:1749-2178 | The same without the guard condition: every well-formed script, loops nested in any way and `break` included, runs exactly as a structural semantics that keeps testing inner loops on a disabled pass |
| `NshTheorems.MachineStopsIff` | Ubiquitous/Nuttx/apps/nshlib/nsh_script.c:106-146 | For guarded scripts the line loop of the driver ends if and only if the tree evaluation is finite |
| `NshTheorems.EnoughSteps` | Ubiquitous/Nuttx/apps/nshlib/nsh_script.c:106-146 | The end of a run does not depend on how long one goes on looking: every longer run ends with the same commands and status |
| `NshTheorems.MachineAgreesIff` | Ubiquitous/Nuttx/apps/nshlib/nsh_parse.c:1749-2178 | The exact boundary, for whole scripts written one command to a line: the machine ends as the script means, for all outcomes for which that is a finite run, if and only if the script is guarded, which can be read off its text |
| `NshTheorems.MachineLasts` | Ubiquitous/Nuttx/apps/nshlib/nsh_parse.c:1749-2178 | A machine that has to run more commands than another run has cannot end as that run does |
| `NshBoundary.RunsAsWrittenIff` | Ubiquitous/Nuttx/apps/nshlib/nsh_parse.c:1749-1818 | The same between the two semantics, for all outcomes, states and bounds |
| `NshBoundary.RunsDiffer` | Ubiquitous/Nuttx/apps/nshlib/nsh_parse.c:1749-1818 | For every unguarded script there are outcomes for which its meaning is a finite run and the machine, if it ends at all, has run strictly more commands |
| `NshBoundary.StmtRunsDiffer` | Ubiquitous/Nuttx/apps/nshlib/nsh_parse.c:1749-1818 | The same for a single statement |
| `NshBoundary.ShortestEnds` | Ubiquitous/Nuttx/apps/nshlib/nsh_parse.c:1826-2178 | For every script there are outcomes for which it ends after a number of commands that can be computed from its text |
| `NshBoundary.ShortestLasts` | Ubiquitous/Nuttx/apps/nshlib/nsh_parse.c:1826-2178 | The machine never ends a script with fewer commands than that |
| `NshBoundary.FinishedBodyRuns` | Ubiquitous/Nuttx/apps/nshlib/nsh_parse.c:1749-1766 | A body that holds a direct inner loop runs at least one command even when it is disabled |
| `NshTheorems.FiAfterBreakIff` | Ubiquitous/Nuttx/apps/nshlib/nsh_parse.c:2733-2743 | After a `break` the next `fi` ends the conditional that the `break` stands in if and only if that is the one around the loop; otherwise it ends the one around the loop if there is one, and is else rejected and resets the stack |
| `NshTheorems.BreakForgets` | Ubiquitous/Nuttx/apps/nshlib/nsh_parse.c:2733-2743 | An enabled `break`, in either branch of a conditional, goes back to the conditional around its loop and stays in the loop body |
| `NshTheorems.FiEnds` | Ubiquitous/Nuttx/apps/nshlib/nsh_parse.c:2125-2176 | In a loop body `fi` ends the innermost open branch, and is an error that empties the stack if there is none |
| `NshTheorems.FailureEndsLine` | Ubiquitous/Nuttx/apps/nshlib/nsh_parse.c:2665-2687 | With errors ignored, a failing command does not end the script: the machine goes on with the first command of the next line, wherever that is |
| `NshTheorems.CommandOutcome` | Ubiquitous/Nuttx/apps/nshlib/nsh_parse.c:2413-2449 | A simple command is run once, its failure is recorded in `$?` and is the status of the line, and ends the script unless errors are ignored |
| `NshTheorems.ConditionOutcome` | Ubiquitous/Nuttx/apps/nshlib/nsh_parse.c:420-477 | A condition is run once, never fails the line, and leaves no failure in `$?` |
| `NshBoundary.ActualGrows` | Ubiquitous/Nuttx/apps/nshlib/nsh_parse.c:1826-2010 | A run never retracts a command it has executed |
| `NshBoundary.ActualStmtGrows` | Ubiquitous/Nuttx/apps/nshlib/nsh_parse.c:1826-2010 | A loop executes its condition at least once in every pass, enabled or not |
| `NshScript.ActualIsEval` | Ubiquitous/Nuttx/apps/nshlib/nsh_parse.c:1749-1818 | On guarded scripts the behaviour with disabled passes and the plain meaning of the script coincide, in every context and for every bound |
| `NshScript.ActualIsEvalStmt` | Ubiquitous/Nuttx/apps/nshlib/nsh_parse.c:1749-1818 | The same for a single statement |
| `NshScript.ActualOff` | Ubiquitous/Nuttx/apps/nshlib/nsh_parse.c:1749-1818 | A disabled body without direct loops runs nothing and changes nothing |
| `NshSimulation.SimulateBlock` | Ubiquitous/Nuttx/apps/nshlib/nsh_parse.c:1826-2178 | From any state between statements, at any nesting depth that fits, the machine passes over a block in step with the structural semantics, keeps every enclosing stack entry and stands after the block |
| `NshSimulation.SimulateIf` | Ubiquitous/Nuttx/apps/nshlib/nsh_parse.c:2018-2178 | The same for a conditional, with and without `!` and `else` |
| `NshSimulation.SimulateLoop` | Ubiquitous/Nuttx/apps/nshlib/nsh_parse.c:1826-2010 | The same for a loop, through any number of jumps from `done` to its top |
| `NshSimulation.DisabledBlock` | Ubiquitous/Nuttx/apps/nshlib/nsh_parse.c:1776-1818 | A balanced block under a branch not taken runs nothing and leaves `$?` and every enclosing entry of both stacks as they were |
| `NshSimulation.StepIf` | Ubiquitous/Nuttx/apps/nshlib/nsh_parse.c:2027-2081 | `if` runs its condition once when commands are enabled and pushes the outcome, inverted after `!` |
| `NshSimulation.StepElse` | Ubiquitous/Nuttx/apps/nshlib/nsh_parse.c:2104-2123 | `else` switches the innermost conditional to its second branch and runs its own command exactly when that branch is enabled |
| `NshSimulation.StepFi` | Ubiquitous/Nuttx/apps/nshlib/nsh_parse.c:2125-2156 | `fi` takes the innermost conditional off and runs nothing |
| `NshSimulation.StepLoop` | Ubiquitous/Nuttx/apps/nshlib/nsh_parse.c:1838-1898 | `while` and `until` push an entry that remembers the position of this command, and run the condition if no enclosing branch is off |
| `NshSimulation.StepDone` | Ubiquitous/Nuttx/apps/nshlib/nsh_parse.c:1921-1985 | `done` either goes back to the remembered position or leaves the loop, and in both cases takes its entry off |
| `NshParser.LoopToken` | Ubiquitous/Nuttx/apps/nshlib/nsh_parse.c:1826-2010 | Every leading word, in place or not, keeps the loop stack well formed: the index below the nesting limit, slot 0 normal, every loop below the top in its body; the branch for an impossible state is unreachable |
| `NshParser.ItefToken` | Ubiquitous/Nuttx/apps/nshlib/nsh_parse.c:2018-2178 | Every leading word keeps the conditional stack well formed, with the index below the nesting limit and slot 0 normal; the branch for an impossible state is unreachable |
| `NshParser.LoopRejects` | Ubiquitous/Nuttx/apps/nshlib/nsh_parse.c:1826-2010 | Exactly where each loop word may stand; anywhere else it is rejected, and then no loop is open |
| `NshParser.ItefRejects` | Ubiquitous/Nuttx/apps/nshlib/nsh_parse.c:2018-2178 | Exactly where each word of a conditional may stand; anywhere else it is rejected, and then no conditional is open and commands are enabled |
| `NshParser.RejectedRunsNothing` | Ubiquitous/Nuttx/apps/nshlib/nsh_parse.c:2413-2449 | A command whose loop word is rejected runs nothing, and no loop starts outside a script |
| `NshParser.SaveResult` | Ubiquitous/Nuttx/apps/nshlib/nsh_parse.c:420-477 | Storing a result as condition or as `$?` keeps both stacks well formed |
| `NshParser.Break` | Ubiquitous/Nuttx/apps/nshlib/nsh_parse.c:2728-2750 | `break`, wherever it stands, keeps both stacks well formed |
| `NshParser.ParseCommand` | Ubiquitous/Nuttx/apps/nshlib/nsh_parse.c:2413-2449 | Parsing and running any command in any reachable state, after a syntax error too, keeps both stacks well formed |
| `NshParser.JumpSucceeds` | Ubiquitous/Nuttx/apps/nshlib/nsh_parse.c:1921-1985 | A command that asks for a jump never fails, so a jump is never taken together with an error |
| `NshMachine.Steps` | Ubiquitous/Nuttx/apps/nshlib/nsh_script.c:106-146 | The stack invariant holds in every state of every run of every command sequence, well formed or not |
| `NshMachine.NextLine` | Ubiquitous/Nuttx/apps/nshlib/nsh_parse.c:2603-2719 | The next line begins right after the first line end, or at the end of the text |
| `NshMachine.ReachesTransitive` | Ubiquitous/Nuttx/apps/nshlib/nsh_parse.c:2603-2719 | Runs compose |
| `NshMachine.HaltedStays` | Ubiquitous/Nuttx/apps/nshlib/nsh_script.c:106-146 | A script that has ended stays ended |
| `NshMachine.OneEnd` | Ubiquitous/Nuttx/apps/nshlib/nsh_script.c:106-146 | A run has one end and does not go past it |
| `NshInterpreter.Interpreter.constructor` | Ubiquitous/Nuttx/apps/nshlib/nsh.h:639-741 | A new parser has empty stacks of the configured depth, meets the invariant and is ready for a script |
| `NshInterpreter.Interpreter.LoopEnabled` | Ubiquitous/Nuttx/apps/nshlib/nsh_parse.c:1749-1766 | Decides from the top loop entry alone, as the specification does |
| `NshInterpreter.Interpreter.ItefEnabled` | Ubiquitous/Nuttx/apps/nshlib/nsh_parse.c:1776-1800 | Decides from the top conditional entry |
| `NshInterpreter.Interpreter.Enabled` | Ubiquitous/Nuttx/apps/nshlib/nsh_parse.c:1810-1818 | A command is enabled exactly when both stacks enable it |
| `NshInterpreter.Interpreter.Save` | Ubiquitous/Nuttx/apps/nshlib/nsh_parse.c:420-477 | The in-place update of `np_fail` and the entry on top of a stack is the specified one |
| `NshInterpreter.Interpreter.Loop` | Ubiquitous/Nuttx/apps/nshlib/nsh_parse.c:1826-2010 | The updates of the loop array, its index and the jump flag are those of `LoopToken`, whose invariant and reachability results therefore hold of the arrays |
| `NshInterpreter.Interpreter.IfThenElse` | Ubiquitous/Nuttx/apps/nshlib/nsh_parse.c:2018-2178 | The updates of the conditional array and its index are those of `ItefToken` |
| `NshInterpreter.Interpreter.CmdBreak` | Ubiquitous/Nuttx/apps/nshlib/nsh_parse.c:2728-2750 | The in-place `break` is the specified one |
| `NshInterpreter.Interpreter.Command` | Ubiquitous/Nuttx/apps/nshlib/nsh_parse.c:2413-2449 | One command of a line changes the whole parser state and the trace as specified |
| `NshInterpreter.Interpreter.Parse` | Ubiquitous/Nuttx/apps/nshlib/nsh_parse.c:2603-2719 | The loop over the commands of a line is a positive number of steps of the abstract machine, and leaves the stream at the next line or at the top of a loop |
| `NshInterpreter.Interpreter.Script` | Ubiquitous/Nuttx/apps/nshlib/nsh_script.c:59-161 | Opens the stream, runs lines while there are any and no failure ends the script, and restores the stream before: for every run of the machine that ends, the loop terminates in exactly the state that the machine ends in |
| `NshInterpreter.Interpreter.RunScript` | Ubiquitous/Nuttx/apps/nshlib/nsh_script.c:59-161 | End to end: the array code, given a guarded script in any layout that fits and whose meaning is a finite run, terminates with exactly the commands, `$?` and settings of that meaning, and unless an error has cut it short with both stacks empty and ready for the next script |
| `NshQuote.StrChr` | Ubiquitous/Nuttx/apps/nshlib/nsh_parse.c:1007-1031 | Finds the first unquoted occurrence of a character other than the backslash, or that there is none; the terminating NUL counts as a character |
| `NshQuote.ArgumentEnd` | Ubiquitous/Nuttx/apps/nshlib/nsh_parse.c:1586-1631 | Stops at the first unquoted delimiter, or at the end |
| `NshQuote.NextExpansion` | Ubiquitous/Nuttx/apps/nshlib/nsh_parse.c:1172-1201 | Stops at the first unquoted separator, or at the end |
| `NshQuote.QuotedBackward` | Ubiquitous/Nuttx/apps/nshlib/nsh_parse.c:1172-1201 | Counting backslashes backwards gives the same verdict as scanning forwards, at every position of every string |
| `NshQuote.QuotedIsParity` | Ubiquitous/Nuttx/apps/nshlib/nsh_parse.c:1172-1201 | A position is quoted if and only if an odd number of backslashes stands just before it |
| `NshQuote.QuotedIff` | Ubiquitous/Nuttx/apps/nshlib/nsh_parse.c:1172-1201 | The same by the characters themselves: a position is quoted if and only if the run of backslashes that ends just before it has odd length |
| `NshQuote.DelimitsIff` | Ubiquitous/Nuttx/apps/nshlib/nsh_parse.c:1586-1631 | A character ends an argument if and only if it is a terminator other than the quoting characters, is not quoted, and an even number of unquoted back-quotes is before it |
| `NshQuote.DequoteInPlace` | Ubiquitous/Nuttx/apps/nshlib/nsh_parse.c:1093-1139 | The nested in-place shifting leaves exactly the dequoted string and its terminator, and nothing behind the old terminator changes |
| `NshQuote.ShiftDown` | Ubiquitous/Nuttx/apps/nshlib/nsh_parse.c:1110-1123 | The inner loop moves the string down by one character, terminator included, and touches nothing else |
| `NshQuote.DequoteUndoesEscape` | Ubiquitous/Nuttx/apps/nshlib/nsh_parse.c:1093-1139 | Removing backslashes undoes putting one before every backslash and every character of any chosen set |
| `NshQuote.EscapeHidesSpecials` | Ubiquitous/Nuttx/apps/nshlib/nsh_parse.c:1007-1031 | After such escaping every chosen character is quoted |
| `NshQuote.EscapedWordSurvives` | Ubiquitous/Nuttx/apps/nshlib/nsh_parse.c:1476-1631 | An escaped word is not cut by the argument scanner, offers nothing to the expansion scanner, and dequotes to itself |
| `NshVars.EncodeInjective` | Ubiquitous/Nuttx/apps/nshlib/nsh_vars.c:59-122 | The packed buffer determines its variables: two lists of valid, distinctly named variables with the same bytes are the same list |
| `NshVars.EncodeRemove` | Ubiquitous/Nuttx/apps/nshlib/nsh_vars.c:139-178 | Cutting one entry out of the bytes is removing that variable from the list |
| `NshVars.RemoveAtIsRemoval` | Ubiquitous/Nuttx/apps/nshlib/nsh_vars.c:139-178 | As a map, removing an entry unbinds its name and no other |
| `NshVars.EntryIsBinding` | Ubiquitous/Nuttx/apps/nshlib/nsh_vars.c:207-231 | As a map, an entry is the binding of its name |
| `NshVars.StoreIsMap` | Ubiquitous/Nuttx/apps/nshlib/nsh_vars.c:59-364 | Over every sequence of get, set and unset on names without `=`, failing ones included: the list of entries is a map, names stay distinct, every lookup answers as the map does, and every comparison of names comes to an end |
| `NshVars.GetIsLookup` | Ubiquitous/Nuttx/apps/nshlib/nsh_vars.c:207-231 | For a name without `=` taking the first entry that matches is the map lookup |
| `NshVars.UnsetIsRemoval` | Ubiquitous/Nuttx/apps/nshlib/nsh_vars.c:309-364 | For a name without `=` removing the first entry that matches is map removal |
| `NshVars.SetIsUpdate` | Ubiquitous/Nuttx/apps/nshlib/nsh_vars.c:238-301 | For a name without `=` removing it and appending the new entry is the map update |
| `NshVars.OnlyItsEntryIff` | Ubiquitous/Nuttx/apps/nshlib/nsh_vars.c:59-75 | The entries that are taken for one of a name have this name, whatever the buffer holds, if and only if there is no `=` in it |
| `NshVars.SetIsUpdateIff` | Ubiquitous/Nuttx/apps/nshlib/nsh_vars.c:238-301 | Setting a name is the map update, whatever the buffer holds, if and only if there is no `=` in the name |
| `NshVars.SetDropsAnother` | Ubiquitous/Nuttx/apps/nshlib/nsh_vars.c:238-301 | The inputs where it fails: setting `head=tail` drops a variable `head` whose value begins with `tail=` |
| `NshVars.ComparisonEndsIff` | Ubiquitous/Nuttx/apps/nshlib/nsh_vars.c:59-75 | The comparison of a name with an entry ends within both strings if and only if the name is not the whole entry |
| `NshVars.AppendIsUpdate` | Ubiquitous/Nuttx/apps/nshlib/nsh_vars.c:238-301 | As a map, appending an entry for a new name is an update, and names stay distinct |
| `NshVars.Console.constructor` | Ubiquitous/Nuttx/apps/nshlib/nsh_vars.c:207-231 | A console starts without a buffer, as the empty map |
| `NshVars.Console.CmpName` | Ubiquitous/Nuttx/apps/nshlib/nsh_vars.c:59-75 | For every name other than the whole entry, with or without `=`: true exactly if the entry begins with the name and an `=` |
| `NshVars.Console.FindVar` | Ubiquitous/Nuttx/apps/nshlib/nsh_vars.c:101-121 | Finds the offset of the first entry that matches the name, if there is one |
| `NshVars.Console.RemoveVar` | Ubiquitous/Nuttx/apps/nshlib/nsh_vars.c:139-178 | Moves the tail of the buffer down so that exactly this entry is gone |
| `NshVars.Console.GetVar` | Ubiquitous/Nuttx/apps/nshlib/nsh_vars.c:207-231 | Gives what follows the first `=` of the first entry that matches; for distinct names without `=` this is the map lookup, and a value may itself hold `=` |
| `NshVars.Console.SetVar` | Ubiquitous/Nuttx/apps/nshlib/nsh_vars.c:238-301 | Replaces the first entry that matches by a new one at the end, or drops it with -ENOMEM if memory runs out; for distinct names without `=` this is the map update, and every other name keeps its value |
| `NshVars.Console.UnsetVar` | Ubiquitous/Nuttx/apps/nshlib/nsh_vars.c:309-364 | Drops the first entry that matches, whether or not the buffer can be shrunk; for distinct names without `=` this is map removal; -ENOMEM only if an entry was dropped and shrinking failed |
| `NshVars.Console.RunAll` | Ubiquitous/Nuttx/apps/nshlib/nsh_vars.c:207-364 | The packed buffer goes through every sequence of get, set and unset as the list of entries does, with the same answers; with `StoreIsMap` this makes it a map over every such sequence |
| `NshVars.Console.ForEachVar` | Ubiquitous/Nuttx/apps/nshlib/nsh_vars.c:386-418 | Visits the entries once each in order until the callback answers non-zero, and returns that answer |
| `NshEnv.StaysDisjoint` | Ubiquitous/Nuttx/apps/nshlib/nsh_envcmds.c:447-578 | Over every sequence of set, unset and export, whether or not memory runs out, no name is both an NSH variable and an environment variable |
| `NshEnv.OnlyItsName` | Ubiquitous/Nuttx/apps/nshlib/nsh_envcmds.c:447-578 | No command changes what another name expands to; its own name expands to the value set or exported, to nothing after an unset, and after a failure to nothing, or to the NSH variable that could not be exported |
| `NshEnv.LookupIs` | Ubiquitous/Nuttx/apps/nshlib/nsh_parse.c:1064-1083 | The four cases of expansion and their order |
| `NshEnv.WhereStored` | Ubiquitous/Nuttx/apps/nshlib/nsh_envcmds.c:447-578 | In which of the two stores a name is after each command |
| `NshEnv.ExportKeepsLookupsIff` | Ubiquitous/Nuttx/apps/nshlib/nsh_envcmds.c:538-578 | Export without a value leaves every `$name` unchanged, whether or not memory runs out, if and only if the name is an NSH variable or `?`, or expanded to nothing |
| `NshEnv.Session.SetEnvironment` | Ubiquitous/Nuttx/nuttx/sched/environ/env_setenv.c:67-185 | Binds the name, drops it if the value is empty, and has dropped it already when memory runs out |
| `NshEnv.Session.UnsetEnvironment` | Ubiquitous/Nuttx/nuttx/sched/environ/env_unsetenv.c:59-117 | Drops the name in every case; fails exactly if it was there, others are left and the buffer cannot be reallocated |
| `NshEnv.Session.CmdSet` | Ubiquitous/Nuttx/apps/nshlib/nsh_envcmds.c:447-475 | Stores in the environment if an entry there matches the name and in the packed buffer otherwise |
| `NshEnv.Session.CmdUnset` | Ubiquitous/Nuttx/apps/nshlib/nsh_envcmds.c:489-520 | Removes the name from both stores, even when it reports that a buffer could not be reallocated |
| `NshEnv.Session.RunAll` | Ubiquitous/Nuttx/apps/nshlib/nsh_envcmds.c:447-578 | Every sequence of set, unset and export on names without `=`, run on the packed buffer and the environment, acts on the two maps as specified and keeps them disjoint if they are |
| `NshEnv.ListApplyIs` | Ubiquitous/Nuttx/apps/nshlib/nsh_envcmds.c:447-578 | On names without `=` each command on the two lists of entries is the command on the two maps |
| `NshEnv.ListLookupIs` | Ubiquitous/Nuttx/apps/nshlib/nsh_parse.c:1064-1083 | On names without `=` expansion from the lists is expansion from the maps |
| `NshEnv.SetKeepsDisjointIff` | Ubiquitous/Nuttx/apps/nshlib/nsh_envcmds.c:447-475 | Setting a name keeps the two stores disjoint, whatever they hold, if and only if there is no `=` in it |
| `NshEnv.Session.CmdExport` | Ubiquitous/Nuttx/apps/nshlib/nsh_envcmds.c:528-581 | Hands the value given, or else the variable's, to the environment, and drops the variable exactly if the environment reports success |
| `NshEnv.Session.EnvExpand` | Ubiquitous/Nuttx/apps/nshlib/nsh_parse.c:1064-1083 | Expands `$?`, then the first NSH variable that matches, then the environment, then nothing |
| `NshDd.Dd.Transfer` | Ubiquitous/Nuttx/apps/nshlib/nsh_ddcmd.c:325-366 | Terminates under every schedule of short but progressing reads and writes; it succeeds exactly if none of the calls it makes fails, and then outputs exactly the chosen sectors, the last one padded with zeros; after an I/O error the output is a prefix of that |
| `NshDd.Dd.Read` | Ubiquitous/Nuttx/apps/nshlib/nsh_ddcmd.c:141-165 | Short reads add up: unless a call fails, the buffer holds the next bytes of the input as far as it goes, and the end is flagged only when nothing was left |
| `NshDd.Dd.Write` | Ubiquitous/Nuttx/apps/nshlib/nsh_ddcmd.c:109-135 | Short writes add up: unless a call fails, the whole buffer is output once, in order; on an error some part of its front |
| `NshDd.Dd.CopySector` | Ubiquitous/Nuttx/apps/nshlib/nsh_ddcmd.c:325-366 | One pass of the loop consumes one sector and keeps the relation between input position, sector counter and output |
| `NshDd.WrittenIsRange` | Ubiquitous/Nuttx/apps/nshlib/nsh_ddcmd.c:325-366 | As long as the 32-bit sector counter does not wrap, the sectors written are the contiguous range asked for, cut at the end of the input |
| `NshDd.WrittenSkips` | Ubiquitous/Nuttx/apps/nshlib/nsh_ddcmd.c:347-364 | Without that condition every sector written still has a counter value not below `skip` |
| `NshDd.WrittenIs` | Ubiquitous/Nuttx/apps/nshlib/nsh_ddcmd.c:325-366 | In every case exactly the first `count` sectors whose 32-bit number is not below `skip` are written, in order |
| `NshDd.OutputByte` | Ubiquitous/Nuttx/apps/nshlib/nsh_ddcmd.c:338-360 | The output byte by byte: each sector written is that of the input, with zeros after the end of the input |
| `NshDd.WrittenAsAskedIff` | Ubiquitous/Nuttx/apps/nshlib/nsh_ddcmd.c:325-366 | The sectors written are those asked for if and only if nothing is skipped, the input has at most 2^32 sectors, or the range asked for ends by sector 2^32 |
| `NshDd.SectorCountIs` | Ubiquitous/Nuttx/apps/nshlib/nsh_ddcmd.c:325-366 | The number of sectors is the input length divided by the sector size, rounded up, and none for size zero |
| `PcmTheorems.ChunkingDoesNotMatter` | Ubiquitous/Nuttx/nuttx/audio/pcm_decode.c:514-669 | However a stream is cut into buffers, empty and tiny ones included, the concatenated output is exactly the bytes whose offset modulo the period is within the first frame |
| `PcmTheorems.PlayAt` | Ubiquitous/Nuttx/nuttx/audio/pcm_decode.c:514-669 | The arrays themselves: running any sequence of buffers through the decoder at one rate leaves in them exactly the first frame of every period of the whole stream, the period being the rate if the dropped bytes fit in 8 bits |
| `PcmTheorems.Play` | Ubiquitous/Nuttx/nuttx/audio/pcm_decode.c:440-669 | The same with a rate of its own for every buffer: what is left in them is the specified output |
| `PcmTheorems.RateHonouredIff` | Ubiquitous/Nuttx/nuttx/audio/pcm_decode.c:514-669 | The frame kept is the first of every `subsample` frames if and only if align*(subsample-1) fits in the 8-bit skip counter |
| `PcmTheorems.RearmIsLowByte` | Ubiquitous/Nuttx/nuttx/audio/pcm_decode.c:514-540 | The skip counter is set to the number of dropped bytes modulo 256 |
| `PcmTheorems.KeptIsPeriodic` | Ubiquitous/Nuttx/nuttx/audio/pcm_decode.c:514-669 | At a fixed rate exactly the first frame of every period is kept |
| `PcmTheorems.PhaseAt` | Ubiquitous/Nuttx/nuttx/audio/pcm_decode.c:514-669 | The skip and partial-frame counters depend only on the offset within the period |
| `PcmTheorems.FixedRate` | Ubiquitous/Nuttx/nuttx/audio/pcm_decode.c:514-669 | Carrying the counters over buffer boundaries is the same as one long buffer |
| `PcmTheorems.OutputIsInput` | Ubiquitous/Nuttx/nuttx/audio/pcm_decode.c:514-669 | Under any sequence of buffers and rates the output is input bytes in increasing order of offset |
| `PcmTheorems.FramesStayWhole` | Ubiquitous/Nuttx/nuttx/audio/pcm_decode.c:440-669 | Under any interleaving of buffers and rates that drop whole frames, (input consumed + skip), output and npartial agree modulo the frame size, a partial frame excludes a pending skip, and every emitted frame is a whole aligned input frame, in order |
| `PcmTheorems.FramesStayWholeIff` | Ubiquitous/Nuttx/nuttx/audio/pcm_decode.c:514-669 | At a fixed rate emitted frames are whole input frames if and only if the re-arm value is a multiple of the frame size |
| `PcmTheorems.RearmIsWholeFrames` | Ubiquitous/Nuttx/nuttx/audio/pcm_decode.c:514-669 | It is one if the dropped bytes fit in 8 bits or the frame size divides 256 |
| `PcmTheorems.KeptAdd` | Ubiquitous/Nuttx/nuttx/audio/pcm_decode.c:514-669 | Processing n+m bytes is processing n and then m from where that left off |
| `PcmSubsample.Decoder.constructor` | Ubiquitous/Nuttx/nuttx/audio/pcm_decode.c:440-500 | A decoder starts in normal play with no pending frame |
| `PcmSubsample.Decoder.Configure` | Ubiquitous/Nuttx/nuttx/audio/pcm_decode.c:440-500 | Starting and stopping clear the pending frame and skip; changing from one rate to another keeps them |
| `PcmSubsample.Decoder.FinishPartial` | Ubiquitous/Nuttx/nuttx/audio/pcm_decode.c:546-601 | Completes the frame an earlier buffer began |
| `PcmSubsample.Decoder.CopyFrame` | Ubiquitous/Nuttx/nuttx/audio/pcm_decode.c:626-662 | Copies a frame or the part of it that is left, with the write position never past the read position |
| `PcmSubsample.Decoder.SkipBytes` | Ubiquitous/Nuttx/nuttx/audio/pcm_decode.c:610-624 | Drops bytes that are pending, as many as the buffer has |
| `PcmSubsample.Decoder.Subsample` | Ubiquitous/Nuttx/nuttx/audio/pcm_decode.c:514-669 | Working in place, the new window of the buffer is exactly the kept bytes of the old one and the counters are those after that many bytes; normal play changes nothing |
| `PcmSubsample.CopyRun` | Ubiquitous/Nuttx/nuttx/audio/pcm_decode.c:626-662 | Copying a run of bytes at once equals deciding byte by byte |
| `PcmSubsample.SkipRun` | Ubiquitous/Nuttx/nuttx/audio/pcm_decode.c:610-624 | Skipping a run of bytes at once equals deciding byte by byte |
| `ModbusMaster.RunConserves` | Ubiquitous/Nuttx/apps/modbus/mb_m.c:290-433 | Over every run of polls and posted events, for each transaction: pending events plus releases equals events posted by the port, and callbacks equal releases |
| `ModbusMaster.PollConserves` | Ubiquitous/Nuttx/apps/modbus/mb_m.c:290-433 | One poll, whatever the event and the port's answers, keeps pending events plus releases and the difference of callbacks and releases, for every transaction |
| `ModbusMaster.PollProgress` | Ubiquitous/Nuttx/apps/modbus/mb_m.c:290-433 | Every poll of an enabled master with a pending event lowers the measure 3/2/1 of the queue |
| `ModbusMaster.PollsDrain` | Ubiquitous/Nuttx/apps/modbus/mb_m.c:290-433 | As many polls as the measure empty the queue, with exactly one callback and one release for every transaction that was pending |
| `ModbusMaster.ThreePollsEach` | Ubiquitous/Nuttx/apps/modbus/mb_m.c:290-433 | Three polls for each pending event are always enough |
| `ModbusMaster.TransactionOutcome` | Ubiquitous/Nuttx/apps/modbus/mb_m.c:306-393 | On a first-in first-out port the response at the head of any queue is executed when the events that wait have had their turn, and ends with its calls, one success callback and the release or goes on as an execution error; a broken response, or one from another slave, is a receive error at once |
| `ModbusMaster.BroadcastOutcome` | Ubiquitous/Nuttx/apps/modbus/mb_m.c:325-376 | A broadcast calls the handler for every slave in order, leaves the last one as destination, and succeeds or fails by the last slave's exception alone |
| `ModbusMaster.UnicastOutcome` | Ubiquitous/Nuttx/apps/modbus/mb_m.c:324-393 | A response to one slave, by the handler table: the first slot with the code, no free one before it, is called once for the slave addressed and its exception decides; without such a slot, or for an exception response, no handler is called |
| `ModbusMaster.ReceiveOutcome` | Ubiquitous/Nuttx/apps/modbus/mb_m.c:306-322 | A response is accepted exactly if it is whole and from the slave addressed; an error report carries the kind stored and releases the bus |
| `ModbusMaster.SendOutcome` | Ubiquitous/Nuttx/apps/modbus/mb_m.c:395-403 | A request that is to go out is sent once, to the slave addressed; other events change nothing |
| `ModbusMaster.EveryRequestSent` | Ubiquitous/Nuttx/apps/modbus/mb_m.c:395-403 | In every run exactly the requests taken are sent, in order, each to the slave addressed at that moment |
| `ModbusMaster.KindIsLastFailure` | Ubiquitous/Nuttx/apps/modbus/mb_m.c:306-433 | In every run of polls, posted events and port errors, the one error variable holds the kind of the last failure of any transaction, or its first value if there was none |
| `ModbusMaster.ReportedKind` | Ubiquitous/Nuttx/apps/modbus/mb_m.c:405-431 | An error event anywhere in the queue is reported, with the release, as the kind of the last poll before it that fails, and only if none does as the kind stored |
| `ModbusMaster.ReportedAsStoredIff` | Ubiquitous/Nuttx/apps/modbus/mb_m.c:306-433 | It is reported as the kind stored now, whatever the port answers, if and only if no event before it in the queue can fail with another kind |
| `ModbusMaster.OwnKindIff` | Ubiquitous/Nuttx/apps/modbus/mb_m.c:306-433 | A transaction that fails is reported with its own kind of error, whatever the port answers afterwards, if and only if no event that already waits can fail with another kind |
| `ModbusMaster.OwnFrameIff` | Ubiquitous/Nuttx/apps/modbus/mb_m.c:306-393 | When a response is executed it is still in the frame buffer, whatever the port does, if and only if no event that waited before it takes a new frame |
| `ModbusMaster.EventsInTurn` | Ubiquitous/Nuttx/apps/modbus/mb_m.c:299-301 | A first-in first-out port hands events over in the order in which they were posted |
| `ModbusMaster.ExclusiveReportsOwn` | Ubiquitous/Nuttx/apps/modbus/mb_m.c:306-433 | Over every run in which transactions follow one another, as the bus semaphore makes them, every error is reported for the transaction that failed last, as the kind it failed with |
| `ModbusMaster.ExclusiveIsSingle` | Ubiquitous/Nuttx/apps/modbus/mb_m.c:306-433 | In such a run at most one transaction is pending, so the order in which the port hands events over does not matter to it |
| `ModbusMaster.Find` | Ubiquitous/Nuttx/apps/modbus/mb_m.c:338-347 | The slot that serves a code is the first with it, before the first free one |
| `ModbusMaster.Master.InitMaster` | Ubiquitous/Nuttx/apps/modbus/mb_m.c:153-212 | Leaves the uninitialized state, with nothing pending, exactly if both layers below start |
| `ModbusMaster.Master.RunSteps` | Ubiquitous/Nuttx/apps/modbus/mb_m.c:233-436 | An initialized master goes through every sequence of polls, events, enabling and disabling as specified, so the results over runs hold of its static state |
| `ModbusMaster.Master.EnableMaster` | Ubiquitous/Nuttx/apps/modbus/mb_m.c:233-250 | Enables only a disabled master |
| `ModbusMaster.Master.DisableMaster` | Ubiquitous/Nuttx/apps/modbus/mb_m.c:252-272 | Disables an enabled one, and fails only before initialization |
| `ModbusMaster.Master.RunHandler` | Ubiquitous/Nuttx/apps/modbus/mb_m.c:325-376 | The search loop and the loop over slaves give the specified calls, destination and exception |
| `ModbusMaster.Master.PollMaster` | Ubiquitous/Nuttx/apps/modbus/mb_m.c:274-436 | The poll on the static state is the specified one, so the conservation results hold of it |
| `ModbusSlave.EveryFrameAccounted` | Ubiquitous/Nuttx/apps/modbus/mb.c:352-444 | Over every interleaving of registrations, removals, polls and events of a port that holds one event: replies sent, frames ended silently (broken, for another slave, or a broadcast), the frame waiting and frames lost when another event took their place add up to exactly the frames that came in, and every reply carries the slave's own address |
| `ModbusSlave.NothingLost` | Ubiquitous/Nuttx/apps/modbus/nuttx/portevent.c:58-92 | No frame is lost if the port posts only while nothing is pending |
| `ModbusSlave.ExecutesAccepted` | Ubiquitous/Nuttx/apps/modbus/mb.c:382-436 | In every run, when a request is about to be executed the buffer holds the frame that was accepted last, whose address is the slave's own or the broadcast address |
| `ModbusSlave.RepliesAnswerAccepted` | Ubiquitous/Nuttx/apps/modbus/mb.c:393-436 | So every reply of every run is the answer to the frame accepted last, which was addressed to this slave alone, and no other poll adds one |
| `ModbusSlave.PollAccounts` | Ubiquitous/Nuttx/apps/modbus/mb.c:382-436 | A poll answers each frame that it ends exactly once, or ends it silently, and never withdraws a reply |
| `ModbusSlave.FrameOutcome` | Ubiquitous/Nuttx/apps/modbus/mb.c:382-436 | A frame that is polled twice in a row gets exactly one reply if it is whole and for this slave, the handler's or function code with the error bit plus exception; a broadcast, a broken frame and a frame for another slave get none |
| `ModbusSlave.ReplyContent` | Ubiquitous/Nuttx/apps/modbus/mb.c:393-436 | What the reply says, by the handler table: the response of the first slot with the code, no free one before it; with an exception the code with bit 7 and the exception; without such a slot the code with bit 7 and exception 1 |
| `ModbusSlave.SilentPolls` | Ubiquitous/Nuttx/apps/modbus/mb.c:393-436 | A broadcast is executed by its handler without a reply, and other events change nothing |
| `ModbusSlave.StaysConsistent` | Ubiquitous/Nuttx/apps/modbus/mb.c:243-290 | Over all registrations and removals a slot has code 0 exactly when its handler is null, and no code exceeds 127 |
| `ModbusSlave.StaysPacked` | Ubiquitous/Nuttx/apps/modbus/mb.c:243-290 | Over registrations only, the used slots form a prefix and no handler is listed twice |
| `ModbusSlave.RegisterIs` | Ubiquitous/Nuttx/apps/modbus/mb.c:243-290 | What a registration and a removal do to the table and what they return, by the slots of the table |
| `ModbusSlave.RemovalKeepsPackedIff` | Ubiquitous/Nuttx/apps/modbus/mb.c:243-290 | A removal keeps that if and only if the code was not listed or was the last one |
| `ModbusSlave.RemovalAllowsTwice` | Ubiquitous/Nuttx/apps/modbus/mb.c:243-290 | After any other removal, registering the next slot's handler again lists it twice |
| `ModbusSlave.ServedIff` | Ubiquitous/Nuttx/apps/modbus/mb.c:396-411 | A code is served if and only if it is listed with no free slot before it |
| `ModbusSlave.PackedServesAll` | Ubiquitous/Nuttx/apps/modbus/mb.c:396-411 | In a packed table every listed code is served |
| `ModbusSlave.ErrorCodeSetsBit` | Ubiquitous/Nuttx/apps/modbus/mb.c:417-426 | The error reply has bit 7 set and the request's code in the other bits |
| `ModbusSlave.Slave.Init` | Ubiquitous/Nuttx/apps/modbus/mb.c:139-206 | Succeeds exactly for addresses 1 to 247 with working layers below, and only then leaves the uninitialized state |
| `ModbusSlave.Slave.Enable` | Ubiquitous/Nuttx/apps/modbus/mb.c:311-328 | Enables only a disabled slave |
| `ModbusSlave.Slave.Disable` | Ubiquitous/Nuttx/apps/modbus/mb.c:330-350 | Disables an enabled one, and fails only before initialization |
| `ModbusSlave.Slave.PostEvent` | Ubiquitous/Nuttx/apps/modbus/nuttx/portevent.c:58-63 | The port holds one event, and a second one takes its place |
| `ModbusSlave.Slave.RunSteps` | Ubiquitous/Nuttx/apps/modbus/mb.c:243-444 | An initialized slave goes through every sequence of registrations, polls, events, enabling and disabling as specified, so the results over runs hold of its static state |
| `ModbusSlave.Slave.PollSlave` | Ubiquitous/Nuttx/apps/modbus/mb.c:352-444 | The poll on the static state is the specified one, and an error before the slave is enabled |
| `ModbusSlave.Slave.RegisterCB` | Ubiquitous/Nuttx/apps/modbus/mb.c:243-290 | The search loops and in-place update give the specified table and status |
| `ModbusSlave.Slave.Serve` | Ubiquitous/Nuttx/apps/modbus/mb.c:396-411 | The dispatch loop serves by the first slot with the code, and never calls a null handler |
| `AudioComp.Composite.AllOrNothing` | Ubiquitous/Nuttx/nuttx/audio/audio_comp.c:310-360 | If device f rejects, the calls are the operation on devices 0 to f upwards and then the undo operation on the devices below f downwards, no later device is touched and f's error is returned; otherwise every device is called once, and the answer of the highest device that supports the operation is returned, or the initial value if none does |
| `AudioComp.Composite.EveryDevice` | Ubiquitous/Nuttx/nuttx/audio/audio_comp.c:372-408 | The reverse operation is called once on every device that has it, downwards, whatever the answers |
| `AudioComp.Composite.Rollback` | Ubiquitous/Nuttx/nuttx/audio/audio_comp.c:344-354 | The undo loop calls every device below that has the operation, downwards |
| `AudioComp.LowestErrorWins` | Ubiquitous/Nuttx/nuttx/audio/audio_comp.c:386-407 | A reverse operation returns the error of the lowest device that has a real one, else the answer of the lowest device that supports the operation |
| `AudioComp.ErrorOfLowest` | Ubiquitous/Nuttx/nuttx/audio/audio_comp.c:386-407 | The same by the answers themselves: the error of the lowest device that has one |
| `AudioComp.AnswerOfLowest` | Ubiquitous/Nuttx/nuttx/audio/audio_comp.c:386-407 | and without errors the answer of the lowest device that supports the operation, or the initial value |
| `AudioComp.ResultOfAll` | Ubiquitous/Nuttx/nuttx/audio/audio_comp.c:324-359 | An operation that nobody rejects returns the answer of the highest device that supports it, or the initial value if none does |
| `AudioComp.RejectedRunsNothing` | Ubiquitous/Nuttx/nuttx/audio/audio_comp.c:324-359 | After a rejection a device runs if and only if it ran before or was just started, and it is not an earlier device with the undo operation |
| `AudioComp.UndoesOnlyAcceptedIff` | Ubiquitous/Nuttx/nuttx/audio/audio_comp.c:324-359 | Read off the operation tables: whatever the devices answer, only devices that accepted are undone if and only if no device with the undo operation comes before one with the operation |
| `AudioComp.UndoesOnlyAcceptedIffSupported` | Ubiquitous/Nuttx/nuttx/audio/audio_comp.c:324-359 | If no device answers that it does not support an operation it has, the same holds if and only if every device with the undo operation that comes before one with the operation has the operation too |
| `AudioComp.UpwardRuns` | Ubiquitous/Nuttx/nuttx/audio/audio_comp.c:324-359 | A pass upwards starts exactly the devices that accept |
| `AudioComp.DownwardStops` | Ubiquitous/Nuttx/nuttx/audio/audio_comp.c:482-517 | A pass downwards stops exactly the devices that have the operation |
| `AudioComp.DownwardReaches` | Ubiquitous/Nuttx/nuttx/audio/audio_comp.c:778-822 | A pass downwards reaches a device exactly if it has the operation |
| `AudioComp.DownwardDescends` | Ubiquitous/Nuttx/nuttx/audio/audio_comp.c:847-872 | A pass downwards goes in strictly descending order, so no device is called twice |
| `AudioComp.UpwardReaches` | Ubiquitous/Nuttx/nuttx/audio/audio_comp.c:778-822 | A pass upwards reaches a device exactly if it has the operation |
| `AudioComp.UpwardAscends` | Ubiquitous/Nuttx/nuttx/audio/audio_comp.c:482-517 | A pass upwards goes in strictly ascending order |
| `BitmapRle.EncodeRow` | Ubiquitous/Nuttx/apps/tools/bitmap_converter.py:60-80 | Expanding the entries gives back the quantized row, runs are 1 to 255 long and can be neither joined nor extended; fails exactly when there is a pixel and no colour |
| `BitmapRle.GreedyIsShortest` | Ubiquitous/Nuttx/apps/tools/bitmap_converter.py:60-80 | No encoding of the same row with runs of 1 to 255 has fewer entries |
| `BitmapRle.QuantizeIsNearest` | Ubiquitous/Nuttx/apps/tools/bitmap_converter.py:48-58 | The exact-match path and the nearest-colour path both give the least index of least squared distance |
| `BitmapRle.IndicesAreNearest` | Ubiquitous/Nuttx/apps/tools/bitmap_converter.py:60-80 | Every pixel of a row gets that index |
| `BitmapRle.DistanceIs` | Ubiquitous/Nuttx/apps/tools/bitmap_converter.py:54-56 | Distances are sums of squared differences |
| `BitmapRle.NearestIsFirst` | Ubiquitous/Nuttx/apps/tools/bitmap_converter.py:54-58 | Among equally near colours the first is taken |
| `Binfmt.Registry.Register` | Ubiquitous/Nuttx/nuttx/binfmt/binfmt_register.c:55-71 | Pushes an unlisted loader on the list; a null one is refused; a listed one ties the list into a ring |
| `Binfmt.Registry.Search` | Ubiquitous/Nuttx/nuttx/binfmt/binfmt_unregister.c:69-75 | The loop with two pointers finds the loader and the one before it |
| `Binfmt.Registry.Unregister` | Ubiquitous/Nuttx/nuttx/binfmt/binfmt_unregister.c:55-104 | Removes exactly this loader from the list, which stays acyclic and in order; an unlisted or null one is refused and changes nothing |
| `Binfmt.Registry.Unlink` | Ubiquitous/Nuttx/nuttx/binfmt/binfmt_unregister.c:77-98 | Both ways of unlinking, at the head and after it, remove exactly this loader |
| `Binfmt.WithoutIs` | Ubiquitous/Nuttx/nuttx/binfmt/binfmt_unregister.c:55-104 | The list without a loader holds all the others in their order |
| `Binfmt.LoadsFirst` | Ubiquitous/Nuttx/nuttx/binfmt/binfmt_loadmodule.c:98-137 | By the answers of the loaders: the first of the list that accepts is the last one called and gives the unload method; if none accepts all are called, nothing is saved and the last answer is returned |
| `Binfmt.TriedAlongIs` | Ubiquitous/Nuttx/nuttx/binfmt/binfmt_loadmodule.c:188-226 | A search goes on to the next path exactly if no loader accepts |
| `Binfmt.Registry.LoadAbsolute` | Ubiquitous/Nuttx/nuttx/binfmt/binfmt_loadmodule.c:98-137 | Calls the loaders from the last registered on, stops at the first that accepts and saves its unload method; fails exactly if none accepts |
| `Binfmt.Registry.LoadFromPath` | Ubiquitous/Nuttx/nuttx/binfmt/binfmt_loadmodule.c:188-226 | Takes the first path of the search list that any loader accepts, saves the unload method of the most recently registered such loader, restores the file name, and calls all loaders in order for each path before it |
| `Binfmt.Registry.LoadModule` | Ubiquitous/Nuttx/nuttx/binfmt/binfmt_loadmodule.c:157-240 | Replaces an unset priority by the default one, and loads by the name itself if it begins with a slash, else along the search path, with the calls that this takes in order |
| `AddrEnv.RoundTripIff` | Ubiquitous/Nuttx/nuttx/drivers/addrenv.c:47-77 | For every table with disjoint physical and disjoint virtual regions, wrapping ones included, translating there and back gives the address again if and only if it is mapped or lies in no region of the other side |
| `AddrEnv.TranslateBy` | Ubiquitous/Nuttx/nuttx/drivers/addrenv.c:47-77 | With disjoint regions the translation is by the one region that holds the address, wherever it is in the table |
| `AddrEnv.PhysicalKeepsOffset` | Ubiquitous/Nuttx/nuttx/drivers/addrenv.c:47-60 | By the table itself: the first region that holds a physical address moves it to the same offset of its virtual side |
| `AddrEnv.VirtualKeepsOffset` | Ubiquitous/Nuttx/nuttx/drivers/addrenv.c:62-77 | The same from virtual to physical addresses |
| `AddrEnv.OutsideStays` | Ubiquitous/Nuttx/nuttx/drivers/addrenv.c:47-77 | An address in no region stays as it is, on either side |
| `AddrEnv.TranslateNone` | Ubiquitous/Nuttx/nuttx/drivers/addrenv.c:58-76 | An address outside all regions is its own translation |
| `AddrEnv.MoveBack` | Ubiquitous/Nuttx/nuttx/drivers/addrenv.c:47-77 | Moving an address to the other side of a region and back is the identity modulo the word size, and stays within the region |
| `AddrEnv.AddressEnvironment.Initialize` | Ubiquitous/Nuttx/nuttx/drivers/addrenv.c:42-45 | Installs a table |
| `AddrEnv.AddressEnvironment.PaToVa` | Ubiquitous/Nuttx/nuttx/drivers/addrenv.c:47-60 | The search loop up to the table's end mark is the specified translation, for characters of 8 bits |
| `AddrEnv.AddressEnvironment.VaToPa` | Ubiquitous/Nuttx/nuttx/drivers/addrenv.c:62-77 | The search loop up to the table's end mark is the specified translation, for characters of 8 bits |

## Left out

- Script text: a script is a sequence of commands already split into words. File offsets are command indices, so the line
  length limit and loops on lines with double quotes, where the recorded offset is not that of the command, are not captured.
- Reserved words are compared as written; expansion of arguments happens inside the oracle. Splitting of expanded values,
  command substitution, redirection, background execution and `nice` are not modelled.
- `ftell` and `fseek` are taken to succeed, and a script is read from a seekable stream.
- Blank and comment-only lines are left out of scripts, and so are commands such as `sh` that re-enter the parser and share
  its stacks: the oracle gives such a command an outcome, but it cannot change a stack.
- NshInterpreter.Interpreter.Script: asks for a run that ends, because a script may loop forever; infinite runs are covered
  line by line (`Parse`) and by the stack invariant (`Steps`).
- NshTheorems.MachineRunsScript: `break` is covered directly in a loop body and outside loops; under an `if` of its loop it
  is covered by the stack invariant and `FiAfterBreakIff` only. A later `break` directly in the body of an outer loop can put
  the index of the conditionals right again, so that such a script may still run as it is written.
- NshVars.Console.CmpName: a name that is the whole of an entry, `=` included, is left out, because the comparison then reads
  past both strings.
- NshEnv.Session.SetEnvironment: the packed buffer of the process environment is modelled as the list of its entries.
- NshVars.Console.GetVar: returns the value as a string, not a pointer into the buffer, so its lifetime is not captured.
- NshDd.Dd.Transfer: `write` is taken to make progress when it does not fail; timing output and option parsing are left out.
- PcmSubsample.Decoder.Configure: WAV header parsing, buffer queues and the methods that only defer to the lower driver are
  left out.
- ModbusMaster.RunConserves: the port is a lossless first-in first-out queue, where `apps/modbus/nuttx/portevent_m.c` keeps
  one flag for each kind of event, merges equal ones and hands them over by priority, and events carry a transaction number
  that the source does not have; framing, timers and semaphores below the port are left out.
- ModbusMaster.OwnKindIff: likewise `ReportedKind`, `ReportedAsStoredIff`, `OwnFrameIff` and `TransactionOutcome` turn on the
  order of that queue; `ExclusiveReportsOwn` does not.
- AddrEnv.AddressEnvironment.PaToVa: characters have 8 bits, for which `nuttx/include/nuttx/b2c.h` makes the conversion
  from bytes to characters the identity; targets with wider characters are left out.
- AddrEnv.AddressEnvironment.VaToPa: likewise for the conversion from characters to bytes.
- ModbusSlave.Slave.Init: the layers below are two yes/no answers; `eMBTCPInit` and `eMBClose` are left out.
- AudioComp.Composite.AllOrNothing: one method stands for start, resume and reserve, and `EveryDevice` for stop, pause,
  release and shutdown; the session argument and the buffer operations are left out.
- Binfmt.Registry.LoadModule: the scheduler lock is left out and the search path is a list of names; whether the
  thread's priority can be read comes from the caller.
- Locking, interrupts and scheduling are not modelled anywhere.
- The network, mount, module, time, login, telnet and file system commands, `nsh_builtin.c`, `nsh_fileapps.c`,
  `nsh_codeccmd.c`, `exec_builtin.c`, `elf.c` and the rest of `binfmt` are left out: they are sequences of calls to other
  code, or would only add easy members.
