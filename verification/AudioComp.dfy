/** The composite audio device: one operation on several lower devices, undone in
    reverse order when one of them rejects it. */
module AudioComp {

  const OK := 0
  const ENOTTY := 25

  datatype Op = Start | Stop | Pause | Resume | Reserve | Release | Shutdown

  /** A call of an operation of lower device `i`. */
  datatype Call = Call(op: Op, i: nat)

  /** A negative answer other than "not supported". */
  predicate Rejects(r: int) {
    r < 0 && r != -ENOTTY
  }

  /** Which operations the lower devices have, and what a call answers, which may
      depend on all the calls before it. */
  datatype Devices = Devices(count: nat, has: (Op, nat) -> bool, answer: (seq<Call>, Op, nat) -> int)
  {
    /** The calls of `op` on the devices below `k`, upwards. */
    function Upward(op: Op, k: nat): seq<Call> {
      if k == 0 then [] else Upward(op, k - 1) + if has(op, k - 1) then [Call(op, k - 1)] else []
    }

    /** The calls of `op` on the devices below `k`, downwards to `low`. */
    function Downward(op: Op, k: nat, low: nat): seq<Call>
      requires low <= k
      decreases k - low
    {
      if low == k then [] else Downward(op, k, low + 1) + if has(op, low) then [Call(op, low)] else []
    }

    /** What device `i` answers when `op` has been called on those below it. */
    function UpAnswer(log: seq<Call>, op: Op, i: nat): int {
      answer(log + Upward(op, i), op, i)
    }

    /** What device `i` answers when `op` has been called on those above it. */
    function DownAnswer(log: seq<Call>, op: Op, i: nat): int
      requires i < count
    {
      answer(log + Downward(op, count, i + 1), op, i)
    }
  }

  class Composite {
    const lower: Devices
    var log: seq<Call>

    constructor (lower: Devices)
      ensures this.lower == lower && log == []
    {
      this.lower, log := lower, [];
    }

    method Invoke(op: Op, i: nat) returns (r: int)
      modifies this
      ensures r == lower.answer(old(log), op, i) && log == old(log) + [Call(op, i)]
    {
      r := lower.answer(log, op, i);
      log := log + [Call(op, i)];
    }

    /** Undoes the operation on the devices below `f`, downwards. */
    method Rollback(undo: Op, f: nat)
      modifies this
      ensures log == old(log) + lower.Downward(undo, f, 0)
    {
      var i: nat := f;
      while i > 0
        invariant i <= f && log == old(log) + lower.Downward(undo, f, i)
      {
        i := i - 1;
        if lower.has(undo, i) {
          var _ := Invoke(undo, i);
        }
      }
    }

    /** Start, resume and reserve: up to the first device `f` that rejects, then
        `undo` on the devices below it. */
    method AllOrNothing(op: Op, undo: Op, init: int) returns (ret: int, ghost f: nat)
      requires !Rejects(init)
      modifies this
      ensures f <= lower.count
      ensures forall j :: 0 <= j < f && lower.has(op, j) ==>
                lower.UpAnswer(old(log), op, j) >= 0 || lower.UpAnswer(old(log), op, j) == -ENOTTY
      ensures f < lower.count ==> lower.has(op, f) && ret == lower.UpAnswer(old(log), op, f) && ret < 0 && ret != -ENOTTY
                                  && log == old(log) + lower.Upward(op, f + 1) + lower.Downward(undo, f, 0)
      ensures f == lower.count ==> log == old(log) + lower.Upward(op, f)
      ensures f == lower.count ==>
                && (forall j :: 0 <= j < f && lower.has(op, j) && lower.UpAnswer(old(log), op, j) != -ENOTTY
                                && (forall i :: j < i < f && lower.has(op, i) ==> lower.UpAnswer(old(log), op, i) == -ENOTTY)
                      ==> ret == lower.UpAnswer(old(log), op, j))
                && ((forall j :: 0 <= j < f && lower.has(op, j) ==> lower.UpAnswer(old(log), op, j) == -ENOTTY) ==> ret == init)
    {
      ret, f := init, 0;
      var i := 0;
      while i < lower.count
        invariant i <= lower.count && log == old(log) + lower.Upward(op, i)
        invariant ret == LastAnswer(lower, old(log), op, i, init) && !Rejects(ret)
        invariant forall j :: 0 <= j < i && lower.has(op, j) ==> !Rejects(lower.UpAnswer(old(log), op, j))
      {
        if lower.has(op, i) {
          var tmp := Invoke(op, i);
          if tmp != -ENOTTY {
            ret := tmp;
            if ret < 0 {
              f := i;
              Rollback(undo, i);
              return;
            }
          }
        }
        i := i + 1;
      }
      f := i;
      ResultOfAll(lower, old(log), op, f, init);
    }

    /** Stop, pause, release and shutdown: every device, downwards. */
    method EveryDevice(op: Op, init: int) returns (ret: int)
      requires !Rejects(init)
      modifies this
      ensures log == old(log) + lower.Downward(op, lower.count, 0)
      ensures ret == DownResult(lower, old(log), op, 0, init)
    {
      ret := init;
      var i: nat := lower.count;
      while i > 0
        invariant i <= lower.count && log == old(log) + lower.Downward(op, lower.count, i)
        invariant ret == DownResult(lower, old(log), op, i, init)
      {
        i := i - 1;
        if lower.has(op, i) {
          var tmp := Invoke(op, i);
          if tmp != -ENOTTY {
            if tmp < 0 || ret == -ENOTTY || ret >= 0 {
              ret := tmp;
            }
          }
        }
      }
    }
  }

  /** The answer of the last device below `k` that supports `op`. */
  function LastAnswer(d: Devices, log: seq<Call>, op: Op, k: nat, init: int): int {
    if k == 0 then init
    else if d.has(op, k - 1) && d.UpAnswer(log, op, k - 1) != -ENOTTY then d.UpAnswer(log, op, k - 1)
    else LastAnswer(d, log, op, k - 1, init)
  }

  /** It is the answer of the highest device that supports the operation, */
  lemma {:induction false} LastAnswerIs(d: Devices, log: seq<Call>, op: Op, k: nat, init: int, j: nat)
    requires j < k && d.has(op, j) && d.UpAnswer(log, op, j) != -ENOTTY
    requires forall i :: j < i < k && d.has(op, i) ==> d.UpAnswer(log, op, i) == -ENOTTY
    ensures LastAnswer(d, log, op, k, init) == d.UpAnswer(log, op, j)
  {
    if j + 1 < k {
      LastAnswerIs(d, log, op, k - 1, init, j);
    }
  }

  /** and the initial value if there is none. */
  lemma {:induction false} NoAnswer(d: Devices, log: seq<Call>, op: Op, k: nat, init: int)
    requires forall j :: 0 <= j < k && d.has(op, j) ==> d.UpAnswer(log, op, j) == -ENOTTY
    ensures LastAnswer(d, log, op, k, init) == init
  {
    if k > 0 {
      NoAnswer(d, log, op, k - 1, init);
    }
  }

  /** Both, for every device and every case. */
  lemma ResultOfAll(d: Devices, log: seq<Call>, op: Op, k: nat, init: int)
    ensures forall j :: 0 <= j < k && d.has(op, j) && d.UpAnswer(log, op, j) != -ENOTTY
                        && (forall i :: j < i < k && d.has(op, i) ==> d.UpAnswer(log, op, i) == -ENOTTY)
                    ==> LastAnswer(d, log, op, k, init) == d.UpAnswer(log, op, j)
    ensures (forall j :: 0 <= j < k && d.has(op, j) ==> d.UpAnswer(log, op, j) == -ENOTTY)
        ==> LastAnswer(d, log, op, k, init) == init
  {
    hide LastAnswer;
    forall j | 0 <= j < k && d.has(op, j) && d.UpAnswer(log, op, j) != -ENOTTY
               && (forall i :: j < i < k && d.has(op, i) ==> d.UpAnswer(log, op, i) == -ENOTTY)
      ensures LastAnswer(d, log, op, k, init) == d.UpAnswer(log, op, j)
    {
      LastAnswerIs(d, log, op, k, init, j);
    }
    if forall j :: 0 <= j < k && d.has(op, j) ==> d.UpAnswer(log, op, j) == -ENOTTY {
      NoAnswer(d, log, op, k, init);
    }
  }

  /** The result of a downward pass that has reached device `i`. */
  function DownResult(d: Devices, log: seq<Call>, op: Op, i: nat, init: int): int
    requires i <= d.count
    decreases d.count - i
  {
    if i == d.count then init
    else
      var ret, tmp := DownResult(d, log, op, i + 1, init), d.DownAnswer(log, op, i);
      if d.has(op, i) && tmp != -ENOTTY && (tmp < 0 || ret == -ENOTTY || ret >= 0) then tmp else ret
  }

  predicate Answers(d: Devices, log: seq<Call>, op: Op, i: nat)
    requires i < d.count
  {
    d.has(op, i) && d.DownAnswer(log, op, i) != -ENOTTY
  }

  predicate Errs(d: Devices, log: seq<Call>, op: Op, i: nat)
    requires i < d.count
  {
    Answers(d, log, op, i) && d.DownAnswer(log, op, i) < 0
  }

  /** The lowest device from `i` on that supports the operation. */
  function FirstAnswer(d: Devices, log: seq<Call>, op: Op, i: nat): (r: nat)
    requires i <= d.count
    ensures i <= r <= d.count && (r < d.count ==> Answers(d, log, op, r))
    ensures forall j :: i <= j < r ==> !Answers(d, log, op, j)
    decreases d.count - i
  {
    if i == d.count || Answers(d, log, op, i) then i else FirstAnswer(d, log, op, i + 1)
  }

  /** The lowest device from `i` on that has a real error. */
  function FirstError(d: Devices, log: seq<Call>, op: Op, i: nat): (r: nat)
    requires i <= d.count
    ensures i <= r <= d.count && (r < d.count ==> Errs(d, log, op, r))
    ensures forall j :: i <= j < r ==> !Errs(d, log, op, j)
    decreases d.count - i
  {
    if i == d.count || Errs(d, log, op, i) then i else FirstError(d, log, op, i + 1)
  }

  /** The result is the error of the lowest device that has one, or else the answer
      of the lowest device that supports the operation, or else the initial value. */
  lemma {:induction false} LowestErrorWins(d: Devices, log: seq<Call>, op: Op, i: nat, init: int)
    requires i <= d.count && !Rejects(init)
    ensures var e, a := FirstError(d, log, op, i), FirstAnswer(d, log, op, i);
            DownResult(d, log, op, i, init)
            == if e < d.count then d.DownAnswer(log, op, e) else if a < d.count then d.DownAnswer(log, op, a) else init
    decreases d.count - i
  {
    if i < d.count {
      LowestErrorWins(d, log, op, i + 1, init);
      var a := FirstAnswer(d, log, op, i + 1);
      if FirstError(d, log, op, i + 1) == d.count && a < d.count {
        assert !Errs(d, log, op, a);
      }
    }
  }

  /** The result of a downward pass by what the devices answer: the error of the lowest
      that has one, */
  lemma ErrorOfLowest(d: Devices, log: seq<Call>, op: Op, init: int, e: nat)
    requires (init >= 0 || init == -ENOTTY) && e < d.count && d.has(op, e)
    requires d.DownAnswer(log, op, e) < 0 && d.DownAnswer(log, op, e) != -ENOTTY
    requires forall j :: 0 <= j < e && d.has(op, j) ==> d.DownAnswer(log, op, j) >= 0 || d.DownAnswer(log, op, j) == -ENOTTY
    ensures DownResult(d, log, op, 0, init) == d.DownAnswer(log, op, e)
  {
    hide DownResult, FirstError, FirstAnswer;
    LowestErrorWins(d, log, op, 0, init);
    assert Errs(d, log, op, e);
    assert FirstError(d, log, op, 0) == e;
  }

  /** or else the answer of the lowest that supports the operation, or else `init`. */
  lemma AnswerOfLowest(d: Devices, log: seq<Call>, op: Op, init: int, a: nat)
    requires (init >= 0 || init == -ENOTTY) && a <= d.count
    requires forall j :: 0 <= j < d.count && d.has(op, j) ==> d.DownAnswer(log, op, j) >= 0 || d.DownAnswer(log, op, j) == -ENOTTY
    requires a < d.count ==> d.has(op, a) && d.DownAnswer(log, op, a) != -ENOTTY
    requires forall j :: 0 <= j < a && d.has(op, j) ==> d.DownAnswer(log, op, j) == -ENOTTY
    ensures DownResult(d, log, op, 0, init) == if a < d.count then d.DownAnswer(log, op, a) else init
  {
    hide DownResult, FirstError, FirstAnswer;
    LowestErrorWins(d, log, op, 0, init);
    assert a < d.count ==> Answers(d, log, op, a);
    assert FirstAnswer(d, log, op, 0) == a;
  }

  // ----- all or nothing -----

  /** Device `i` is running after these calls: its last start was accepted and it has
      not been stopped since. */
  function Running(d: Devices, log: seq<Call>, i: nat, op: Op, undo: Op): bool {
    if log == [] then false
    else
      var init, last := log[..|log| - 1], log[|log| - 1];
      if last == Call(undo, i) then false
      else if last == Call(op, i) && d.answer(init, op, i) >= 0 then true
      else Running(d, init, i, op, undo)
  }

  lemma RunningNext(d: Devices, log: seq<Call>, c: Call, i: nat, op: Op, undo: Op)
    ensures Running(d, log + [c], i, op, undo)
         == if c == Call(undo, i) then false
            else if c == Call(op, i) && d.answer(log, op, i) >= 0 then true
            else Running(d, log, i, op, undo)
  {
    assert (log + [c])[..|log|] == log;
  }

  /** An upward pass runs the devices that accept. */
  lemma {:induction false} UpwardRuns(d: Devices, log: seq<Call>, op: Op, undo: Op, k: nat, i: nat)
    requires op != undo
    ensures Running(d, log + d.Upward(op, k), i, op, undo)
         == (Running(d, log, i, op, undo) || (i < k && d.has(op, i) && d.UpAnswer(log, op, i) >= 0))
  {
    hide Running;
    if k == 0 {
      assert log + d.Upward(op, 0) == log;
    } else {
      UpwardRuns(d, log, op, undo, k - 1, i);
      if d.has(op, k - 1) {
        RunningNext(d, log + d.Upward(op, k - 1), Call(op, k - 1), i, op, undo);
        assert log + d.Upward(op, k) == log + d.Upward(op, k - 1) + [Call(op, k - 1)];
      } else {
        assert d.Upward(op, k) == d.Upward(op, k - 1);
      }
    }
  }

  /** A downward pass stops the devices that can be stopped. */
  lemma {:induction false} DownwardStops(d: Devices, log: seq<Call>, op: Op, undo: Op, k: nat, low: nat, i: nat)
    requires op != undo && low <= k
    ensures Running(d, log + d.Downward(undo, k, low), i, op, undo)
         == (Running(d, log, i, op, undo) && !(low <= i < k && d.has(undo, i)))
    decreases k - low
  {
    hide Running;
    if low == k {
      assert log + d.Downward(undo, k, k) == log;
    } else {
      DownwardStops(d, log, op, undo, k, low + 1, i);
      if d.has(undo, low) {
        RunningNext(d, log + d.Downward(undo, k, low + 1), Call(undo, low), i, op, undo);
        assert log + d.Downward(undo, k, low) == log + d.Downward(undo, k, low + 1) + [Call(undo, low)];
      } else {
        assert d.Downward(undo, k, low) == d.Downward(undo, k, low + 1);
      }
    }
  }

  /** Device `f` has rejected: a device runs afterwards if and only if it has no way
      to be stopped and either ran before or has accepted. In particular, if every
      device that can start can stop and none ran, none runs. */
  lemma RejectedRunsNothing(d: Devices, log: seq<Call>, op: Op, undo: Op, f: nat, i: nat)
    requires op != undo && i < d.count && d.has(op, f) && Rejects(d.UpAnswer(log, op, f))
    ensures Running(d, log + d.Upward(op, f + 1) + d.Downward(undo, f, 0), i, op, undo)
            <==> && (Running(d, log, i, op, undo) || (i < f && d.has(op, i) && d.UpAnswer(log, op, i) >= 0))
                 && !(i < f && d.has(undo, i))
  {
    UpwardRuns(d, log, op, undo, f + 1, i);
    DownwardStops(d, log + d.Upward(op, f + 1), op, undo, f, 0, i);
  }

  /** Downward and upward calls go to each device of the range that has the
      operation, and to no other. */
  lemma {:induction false} DownwardReaches(d: Devices, op: Op, k: nat, low: nat, i: nat)
    requires low <= k
    ensures Call(op, i) in d.Downward(op, k, low) <==> low <= i < k && d.has(op, i)
    decreases k - low
  {
    if low < k {
      DownwardReaches(d, op, k, low + 1, i);
    }
  }

  lemma {:induction false} UpwardReaches(d: Devices, op: Op, k: nat, i: nat)
    ensures Call(op, i) in d.Upward(op, k) <==> i < k && d.has(op, i)
  {
    if k > 0 {
      UpwardReaches(d, op, k - 1, i);
    }
  }

  /** Strictly in order, so that no device is called twice. */
  ghost predicate Descending(calls: seq<Call>, op: Op, low: nat) {
    && (forall n :: 0 <= n < |calls| ==> calls[n].op == op && calls[n].i >= low)
    && (forall m, n :: 0 <= m < n < |calls| ==> calls[m].i > calls[n].i)
  }

  ghost predicate Ascending(calls: seq<Call>, op: Op, k: nat) {
    && (forall n :: 0 <= n < |calls| ==> calls[n].op == op && calls[n].i < k)
    && (forall m, n :: 0 <= m < n < |calls| ==> calls[m].i < calls[n].i)
  }

  lemma {:induction false} DownwardDescends(d: Devices, op: Op, k: nat, low: nat)
    requires low <= k
    ensures Descending(d.Downward(op, k, low), op, low)
    decreases k - low
  {
    if low < k {
      DownwardDescends(d, op, k, low + 1);
    }
  }

  lemma {:induction false} UpwardAscends(d: Devices, op: Op, k: nat)
    ensures Ascending(d.Upward(op, k), op, k)
  {
    if k > 0 {
      UpwardAscends(d, op, k - 1);
    }
  }

  /** Device `f` is the first to reject `op`. */
  ghost predicate FirstRejects(d: Devices, log: seq<Call>, op: Op, f: nat) {
    && f < d.count && d.has(op, f) && Rejects(d.UpAnswer(log, op, f))
    && forall j :: 0 <= j < f && d.has(op, j) ==> !Rejects(d.UpAnswer(log, op, j))
  }

  /** Every device that is undone when `f` rejects has accepted the operation. */
  ghost predicate UndoesOnlyAccepted(d: Devices, log: seq<Call>, op: Op, undo: Op, f: nat) {
    forall i: nat :: Call(undo, i) in d.Downward(undo, f, 0) ==> d.has(op, i) && d.UpAnswer(log, op, i) >= 0
  }

  lemma UndoesOnlyAcceptedIs(d: Devices, log: seq<Call>, op: Op, undo: Op, f: nat)
    ensures UndoesOnlyAccepted(d, log, op, undo, f)
            <==> forall i :: 0 <= i < f && d.has(undo, i) ==> d.has(op, i) && d.UpAnswer(log, op, i) >= 0
  {
    forall i: nat
      ensures Call(undo, i) in d.Downward(undo, f, 0) <==> i < f && d.has(undo, i)
    {
      DownwardReaches(d, undo, f, 0, i);
    }
  }

  /** Whatever the devices answer, only those that accepted are undone: this holds if
      and only if no device that can be undone comes before one with the operation,
      since a device may always answer that it does not support it. */
  lemma UndoesOnlyAcceptedIff(count: nat, has: (Op, nat) -> bool, op: Op, undo: Op)
    ensures (forall answer, log, f: nat :: FirstRejects(Devices(count, has, answer), log, op, f)
                                  ==> UndoesOnlyAccepted(Devices(count, has, answer), log, op, undo, f))
            <==> forall i, f :: 0 <= i < f < count && has(op, f) ==> !has(undo, i)
  {
    forall answer, log, f: nat | FirstRejects(Devices(count, has, answer), log, op, f)
      ensures (forall i :: 0 <= i < f ==> !has(undo, i)) ==> UndoesOnlyAccepted(Devices(count, has, answer), log, op, undo, f)
    {
      UndoesOnlyAcceptedIs(Devices(count, has, answer), log, op, undo, f);
    }
    if i, f :| 0 <= i < f < count && has(op, f) && has(undo, i) {
      var answer := (log: seq<Call>, o: Op, k: nat) => if k == f then -1 else -ENOTTY;
      var d := Devices(count, has, answer);
      assert FirstRejects(d, [], op, f);
      UndoesOnlyAcceptedIs(d, [], op, undo, f);
    }
  }

  /** The devices support the operations they have. */
  ghost predicate Supports(d: Devices, log: seq<Call>, op: Op) {
    forall i :: 0 <= i < d.count && d.has(op, i) ==> d.UpAnswer(log, op, i) != -ENOTTY
  }

  /** If no device answers that it does not support an operation it has, the same
      holds if and only if every device that can be undone and comes before one with
      the operation has the operation itself. */
  lemma UndoesOnlyAcceptedIffSupported(count: nat, has: (Op, nat) -> bool, op: Op, undo: Op)
    ensures (forall answer, log, f: nat :: FirstRejects(Devices(count, has, answer), log, op, f)
                                      && Supports(Devices(count, has, answer), log, op)
                                  ==> UndoesOnlyAccepted(Devices(count, has, answer), log, op, undo, f))
            <==> forall i, f :: 0 <= i < f < count && has(op, f) && has(undo, i) ==> has(op, i)
  {
    forall answer, log, f: nat | FirstRejects(Devices(count, has, answer), log, op, f)
                            && Supports(Devices(count, has, answer), log, op)
      ensures (forall i :: 0 <= i < f && has(undo, i) ==> has(op, i))
          ==> UndoesOnlyAccepted(Devices(count, has, answer), log, op, undo, f)
    {
      UndoesOnlyAcceptedIs(Devices(count, has, answer), log, op, undo, f);
    }
    if i, f :| 0 <= i < f < count && has(op, f) && has(undo, i) && !has(op, i) {
      var answer := (log: seq<Call>, o: Op, k: nat) => if k == f then -1 else OK;
      var d := Devices(count, has, answer);
      assert FirstRejects(d, [], op, f) && Supports(d, [], op);
      UndoesOnlyAcceptedIs(d, [], op, undo, f);
    }
  }
}
