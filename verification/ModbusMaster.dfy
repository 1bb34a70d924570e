/** The poll loop of the Modbus master: events from a first-in first-out port,
    handlers, callbacks and the release of the bus. */
module ModbusMaster {
  import opened Common

  const MB_EX_NONE := 0
  const MB_EX_ILLEGAL_FUNCTION := 1

  datatype ErrorKind = RespondTimeout | ReceiveData | ExecuteFunction

  /** The events that stand for a transaction carry its number. */
  datatype Event = Ready | FrameSent | Other | Received(id: nat) | Execute(id: nat) | ErrorProcess(id: nat)
  {
    predicate Tagged() {
      Received? || Execute? || ErrorProcess?
    }

    predicate Of(n: nat) {
      Tagged() && id == n
    }
  }

  /** What a poll does outside the master. */
  datatype Action =
    | Called(handler: nat, dest: nat)
    | Send(dest: nat)
    | Succeeded(id: nat)
    | Failed(id: nat, kind: ErrorKind)
    | Released(id: nat)

  /** A slot of the handler table; code 0 ends the table. */
  datatype Slot = Slot(code: nat, handler: nat)

  /** What the port and the handlers answer during one poll. */
  datatype Port = Port(rcvOk: bool, rcvAddress: nat, rcvFrame: seq<nat>, sndFrame: seq<nat>, broadcast: bool,
                       exception: (nat, nat) -> nat)
  {
    predicate Valid() {
      |rcvFrame| >= 2 && |sndFrame| >= 2
    }
  }

  datatype Config = Config(table: seq<Slot>, slaves: nat)

  datatype State = State(enabled: bool, dest: nat, error: ErrorKind, frame: seq<nat>, queue: seq<Event>, log: seq<Action>)
  {
    predicate Valid() {
      |frame| >= 2
    }
  }

  // ----- one poll -----

  /** The first slot with this code before the table's end, or its length. */
  function Find(table: seq<Slot>, code: nat, i: nat): (r: nat)
    requires i <= |table|
    ensures i <= r <= |table| && (r < |table| ==> table[r].code == code != 0)
    ensures r < |table| ==> forall j :: i <= j < r ==> table[j].code != code && table[j].code != 0
    decreases |table| - i
  {
    if i == |table| || table[i].code == 0 then |table|
    else if table[i].code == code then i
    else Find(table, code, i + 1)
  }

  /** One handler called for slaves 1 to `n` in turn. */
  function CallEach(h: nat, n: nat): seq<Action> {
    if n == 0 then [] else CallEach(h, n - 1) + [Called(h, n)]
  }

  /** The calls a response leads to, the exception it ends with and the address
      that is left; for a broadcast only the last slave's exception remains. */
  datatype Dispatch = Dispatch(calls: seq<Action>, exception: nat, dest: nat)

  function DispatchOf(c: Config, s: State, p: Port): Dispatch
    requires s.Valid()
  {
    if s.frame[0] / 128 != 0 then Dispatch([], s.frame[1], s.dest)
    else
      var i := Find(c.table, s.frame[0], 0);
      if i == |c.table| then Dispatch([], MB_EX_ILLEGAL_FUNCTION, s.dest)
      else
        var h := c.table[i].handler;
        if !p.broadcast then Dispatch([Called(h, s.dest)], p.exception(h, s.dest), s.dest)
        else if c.slaves == 0 then Dispatch([], MB_EX_ILLEGAL_FUNCTION, s.dest)
        else Dispatch(CallEach(h, c.slaves), p.exception(h, c.slaves), c.slaves)
  }

  function Poll(c: Config, s: State, p: Port): (r: State)
    requires s.Valid() && p.Valid()
    ensures r.Valid() && r.enabled == s.enabled && |r.queue| >= |s.queue| - 1
  {
    if !s.enabled || s.queue == [] then s
    else
      var rest := s.(queue := s.queue[1..]);
      match s.queue[0]
      case Received(id) =>
        var got := rest.(frame := p.rcvFrame);
        if p.rcvOk && p.rcvAddress == s.dest then got.(queue := got.queue + [Execute(id)])
        else got.(error := ReceiveData, queue := got.queue + [ErrorProcess(id)])
      case Execute(id) =>
        var d := DispatchOf(c, s, p);
        var ran := rest.(dest := d.dest, log := s.log + d.calls);
        if d.exception != MB_EX_NONE then ran.(error := ExecuteFunction, queue := ran.queue + [ErrorProcess(id)])
        else ran.(log := ran.log + [Succeeded(id), Released(id)])
      case FrameSent => rest.(frame := p.sndFrame, log := s.log + [Send(s.dest)])
      case ErrorProcess(id) => rest.(frame := p.sndFrame, log := s.log + [Failed(id, s.error), Released(id)])
      case _ => rest
  }

  lemma {:induction false} CallEachIs(h: nat, n: nat)
    ensures |CallEach(h, n)| == n && forall j :: 0 <= j < n ==> CallEach(h, n)[j] == Called(h, j + 1)
  {
    if n > 0 {
      CallEachIs(h, n - 1);
    }
  }

  /** A broadcast whose code has a handler calls it once for each slave in turn, and
      its outcome is the last slave's alone: earlier exceptions are lost. */
  lemma BroadcastOutcome(c: Config, s: State, p: Port, id: nat)
    requires s.Valid() && p.Valid() && s.enabled && s.queue != [] && s.queue[0] == Execute(id)
    requires p.broadcast && c.slaves > 0 && s.frame[0] < 128 && Find(c.table, s.frame[0], 0) < |c.table|
    ensures var h := c.table[Find(c.table, s.frame[0], 0)].handler;
            var s' := Poll(c, s, p);
            var calls := CallEach(h, c.slaves);
            && |calls| == c.slaves && (forall j :: 0 <= j < c.slaves ==> calls[j] == Called(h, j + 1))
            && s'.dest == c.slaves
            && s'.log == s.log + calls
                         + if p.exception(h, c.slaves) == MB_EX_NONE then [Succeeded(id), Released(id)] else []
  {
    CallEachIs(c.table[Find(c.table, s.frame[0], 0)].handler, c.slaves);
  }

  /** A response to a single slave, by what is in the table: the first slot with the code
      and no free slot before it is called once, for the slave addressed, and its
      exception decides; without such a slot, or when the response is itself an
      exception, no handler is called. */
  lemma UnicastOutcome(c: Config, s: State, p: Port, id: nat)
    requires s.Valid() && p.Valid() && s.enabled && s.queue != [] && s.queue[0] == Execute(id) && !p.broadcast
    ensures var s', code := Poll(c, s, p), s.frame[0];
            && s'.dest == s.dest
            && (code >= 128 ==> Ended(s, s', id, [], s.frame[1]))
            && (code < 128 ==>
                  && (forall i :: 0 <= i < |c.table| && c.table[i].code == code != 0
                                  && (forall j :: 0 <= j < i ==> c.table[j].code != 0 && c.table[j].code != code)
                        ==> Ended(s, s', id, [Called(c.table[i].handler, s.dest)], p.exception(c.table[i].handler, s.dest)))
                  && ((forall i :: 0 <= i < |c.table| && c.table[i].code == code != 0
                                   ==> exists j :: 0 <= j < i && c.table[j].code == 0)
                        ==> Ended(s, s', id, [], 1)))
  {
    hide Find, CallEach;
    var t, code := c.table, s.frame[0];
    forall i | 0 <= i < |t| && t[i].code == code != 0 && (forall j :: 0 <= j < i ==> t[j].code != 0 && t[j].code != code)
      ensures Find(t, code, 0) == i
    {
      FindIs(t, code, 0, i);
    }
    if forall i :: 0 <= i < |t| && t[i].code == code != 0 ==> exists j :: 0 <= j < i && t[j].code == 0 {
      FindNone(t, code);
    }
  }

  /** The poll made these calls and then, without an exception, called back with success
      and released the bus, and with one asked for an error report. */
  ghost predicate Ended(s: State, s': State, id: nat, calls: seq<Action>, exception: nat)
    requires s.queue != []
  {
    if exception == 0 then s'.log == s.log + calls + [Succeeded(id), Released(id)] && s'.queue == s.queue[1..]
    else s'.log == s.log + calls && s'.queue == s.queue[1..] + [ErrorProcess(id)] && s'.error == ExecuteFunction
  }

  lemma {:induction false} FindIs(t: seq<Slot>, code: nat, i: nat, k: nat)
    requires i <= k < |t| && t[k].code == code != 0 && forall j :: i <= j < k ==> t[j].code != 0 && t[j].code != code
    ensures Find(t, code, i) == k
    decreases k - i
  {
    if i < k {
      FindIs(t, code, i + 1, k);
    }
  }

  lemma FindNone(t: seq<Slot>, code: nat)
    requires forall i :: 0 <= i < |t| && t[i].code == code != 0 ==> exists j :: 0 <= j < i && t[j].code == 0
    ensures Find(t, code, 0) == |t|
  {
    hide Find;
    var k := Find(t, code, 0);
    if k < |t| {
      assert t[k].code == code != 0;
    }
  }

  /** A request that is to go out is sent once, to the slave addressed, and events that
      ask for nothing change nothing. */
  lemma SendOutcome(c: Config, s: State, p: Port)
    requires s.Valid() && p.Valid() && s.enabled && s.queue != []
    ensures s.queue[0] == FrameSent ==>
              Poll(c, s, p) == s.(queue := s.queue[1..], frame := p.sndFrame, log := s.log + [Send(s.dest)])
    ensures s.queue[0] == Ready || s.queue[0] == Other ==> Poll(c, s, p) == s.(queue := s.queue[1..])
  {
  }

  /** A response is accepted if it is whole and from the slave addressed; otherwise the
      master asks for an error report. The report is made once, with the kind of error
      that is stored, and the bus is released. */
  lemma ReceiveOutcome(c: Config, s: State, p: Port, id: nat)
    requires s.Valid() && p.Valid() && s.enabled && s.queue != []
    ensures s.queue[0] == Received(id) && p.rcvOk && p.rcvAddress == s.dest ==>
              Poll(c, s, p) == s.(queue := s.queue[1..] + [Execute(id)], frame := p.rcvFrame)
    ensures s.queue[0] == Received(id) && !(p.rcvOk && p.rcvAddress == s.dest) ==>
              Poll(c, s, p) == s.(queue := s.queue[1..] + [ErrorProcess(id)], frame := p.rcvFrame, error := ReceiveData)
    ensures s.queue[0] == ErrorProcess(id) ==>
              Poll(c, s, p) == s.(queue := s.queue[1..], frame := p.sndFrame, log := s.log + [Failed(id, s.error), Released(id)])
  {
  }

  // ----- conservation -----

  /** Events of transaction `n` that are pending. */
  function Pending(q: seq<Event>, n: nat): nat {
    if q == [] then 0 else Pending(q[..|q| - 1], n) + if q[|q| - 1].Of(n) then 1 else 0
  }

  function Releases(log: seq<Action>, n: nat): nat {
    if log == [] then 0 else Releases(log[..|log| - 1], n) + if log[|log| - 1] == Released(n) then 1 else 0
  }

  /** Success and error callbacks for transaction `n`. */
  function Callbacks(log: seq<Action>, n: nat): nat {
    if log == [] then 0
    else
      var a := log[|log| - 1];
      Callbacks(log[..|log| - 1], n) + if a == Succeeded(n) || (a.Failed? && a.id == n) then 1 else 0
  }

  lemma {:induction false} PendingConcat(a: seq<Event>, b: seq<Event>, n: nat)
    ensures Pending(a + b, n) == Pending(a, n) + Pending(b, n)
  {
    if b == [] {
      assert a + b == a;
    } else {
      assert (a + b)[..|a + b| - 1] == a + b[..|b| - 1];
      PendingConcat(a, b[..|b| - 1], n);
    }
  }

  lemma PendingTail(q: seq<Event>, n: nat)
    requires q != []
    ensures Pending(q, n) == (if q[0].Of(n) then 1 else 0) + Pending(q[1..], n)
  {
    assert q == [q[0]] + q[1..];
    PendingConcat([q[0]], q[1..], n);
    assert Pending([q[0]], n) == Pending([], n) + if q[0].Of(n) then 1 else 0;
  }

  lemma PendingSnoc(q: seq<Event>, e: Event, n: nat)
    ensures Pending(q + [e], n) == Pending(q, n) + if e.Of(n) then 1 else 0
  {
    assert (q + [e])[..|q|] == q;
  }

  lemma {:induction false} CountsConcat(a: seq<Action>, b: seq<Action>, n: nat)
    ensures Releases(a + b, n) == Releases(a, n) + Releases(b, n)
    ensures Callbacks(a + b, n) == Callbacks(a, n) + Callbacks(b, n)
  {
    if b == [] {
      assert a + b == a;
    } else {
      assert (a + b)[..|a + b| - 1] == a + b[..|b| - 1];
      CountsConcat(a, b[..|b| - 1], n);
    }
  }

  lemma {:induction false} CallsCountNothing(h: nat, k: nat, n: nat)
    ensures Releases(CallEach(h, k), n) == 0 && Callbacks(CallEach(h, k), n) == 0
  {
    if k > 0 {
      CallsCountNothing(h, k - 1, n);
      assert CallEach(h, k)[..|CallEach(h, k)| - 1] == CallEach(h, k - 1);
    }
  }

  /** The last two actions of a finished transaction. */
  lemma EndCounts(a: Action, id: nat, n: nat)
    requires a == Succeeded(id) || (a.Failed? && a.id == id)
    ensures var end := [a, Released(id)];
            Releases(end, n) == Callbacks(end, n) == if id == n then 1 else 0
  {
    var end := [a, Released(id)];
    assert end[..1] == [a] && [a][..0] == [];
    assert Releases([a], n) == 0 && Callbacks([a], n) == if id == n then 1 else 0;
  }

  /** Every poll conserves each transaction: an event of it is replaced by another,
      or by one release together with one callback. */
  lemma PollConserves(c: Config, s: State, p: Port, n: nat)
    requires s.Valid() && p.Valid()
    ensures var s' := Poll(c, s, p);
            && Pending(s'.queue, n) + Releases(s'.log, n) == Pending(s.queue, n) + Releases(s.log, n)
            && Callbacks(s'.log, n) - Releases(s'.log, n) == Callbacks(s.log, n) - Releases(s.log, n)
  {
    hide Pending, Releases, Callbacks;
    if s.enabled && s.queue != [] {
      var e := s.queue[0];
      PendingTail(s.queue, n);
      match e
      case Received(id) =>
        PendingSnoc(s.queue[1..], Execute(id), n);
        PendingSnoc(s.queue[1..], ErrorProcess(id), n);
      case Execute(id) =>
        var d := DispatchOf(c, s, p);
        DispatchCounts(c, s, p, n);
        PendingSnoc(s.queue[1..], ErrorProcess(id), n);
        CountsConcat(s.log, d.calls, n);
        CountsConcat(s.log + d.calls, [Succeeded(id), Released(id)], n);
        EndCounts(Succeeded(id), id, n);
      case ErrorProcess(id) =>
        CountsConcat(s.log, [Failed(id, s.error), Released(id)], n);
        EndCounts(Failed(id, s.error), id, n);
      case FrameSent =>
        CountsConcat(s.log, [Send(s.dest)], n);
        SendCounts(s.dest, n);
      case _ =>
    }
  }

  lemma DispatchCounts(c: Config, s: State, p: Port, n: nat)
    requires s.Valid()
    ensures Releases(DispatchOf(c, s, p).calls, n) == 0 && Callbacks(DispatchOf(c, s, p).calls, n) == 0
  {
    var i := Find(c.table, s.frame[0], 0);
    if i < |c.table| {
      CallsCountNothing(c.table[i].handler, c.slaves, n);
      var call := [Called(c.table[i].handler, s.dest)];
      assert call[..0] == [];
    }
  }

  lemma SendCounts(dest: nat, n: nat)
    ensures Releases([Send(dest)], n) == 0 && Callbacks([Send(dest)], n) == 0
  {
    assert [Send(dest)][..0] == [];
  }

  // ----- runs -----

  /** The port may post events between polls; a transaction begins when the port
      posts an event of it. With an error event it stores the kind of error. */
  datatype Step = DoPoll(port: Port) | Post(event: Event, kind: ErrorKind) | Enable | Disable

  function Do(c: Config, s: State, step: Step): (r: State)
    requires s.Valid() && (step.DoPoll? ==> step.port.Valid())
    ensures r.Valid()
  {
    match step
    case DoPoll(p) => Poll(c, s, p)
    case Post(e, kind) => s.(error := if e.ErrorProcess? then kind else s.error, queue := s.queue + [e])
    case Enable => s.(enabled := true)
    case Disable => s.(enabled := false)
  }

  ghost predicate ValidSteps(steps: seq<Step>) {
    forall i :: 0 <= i < |steps| && steps[i].DoPoll? ==> steps[i].port.Valid()
  }

  function Run(c: Config, s: State, steps: seq<Step>): (r: State)
    requires s.Valid() && ValidSteps(steps)
    ensures r.Valid()
  {
    if steps == [] then s else Do(c, Run(c, s, steps[..|steps| - 1]), steps[|steps| - 1])
  }

  /** How often the port has begun transaction `n`. */
  function Begun(steps: seq<Step>, n: nat): nat {
    if steps == [] then 0
    else
      var last := steps[|steps| - 1];
      Begun(steps[..|steps| - 1], n) + if last.Post? && last.event.Of(n) then 1 else 0
  }

  /** Over every run each transaction is pending or has been released, once for
      each time it was begun, and has had one callback for each release. */
  lemma {:induction false} RunConserves(c: Config, s: State, steps: seq<Step>, n: nat)
    requires s.Valid() && ValidSteps(steps) && s.queue == [] && s.log == []
    ensures var s' := Run(c, s, steps);
            && Pending(s'.queue, n) + Releases(s'.log, n) == Begun(steps, n)
            && Callbacks(s'.log, n) == Releases(s'.log, n)
  {
    if steps != [] {
      var init, last := steps[..|steps| - 1], steps[|steps| - 1];
      RunConserves(c, s, init, n);
      RunStep(c, Run(c, s, init), last, n);
    }
  }

  lemma RunStep(c: Config, s: State, step: Step, n: nat)
    requires s.Valid() && (step.DoPoll? ==> step.port.Valid())
    ensures var s' := Do(c, s, step);
            && Pending(s'.queue, n) + Releases(s'.log, n)
               == Pending(s.queue, n) + Releases(s.log, n) + (if step.Post? && step.event.Of(n) then 1 else 0)
            && Callbacks(s'.log, n) - Releases(s'.log, n) == Callbacks(s.log, n) - Releases(s.log, n)
  {
    hide Poll, Pending, Releases, Callbacks;
    if step.DoPoll? {
      PollConserves(c, s, step.port, n);
    } else if step.Post? {
      PendingSnoc(s.queue, step.event, n);
    }
  }

  // ----- what is sent -----

  /** The slaves that requests were sent to, in order. */
  function SentTo(log: seq<Action>): seq<nat> {
    if log == [] then []
    else SentTo(log[..|log| - 1]) + if log[|log| - 1].Send? then [log[|log| - 1].dest] else []
  }

  /** The slaves addressed when a poll took a request to be sent. */
  function ToSend(c: Config, s: State, steps: seq<Step>): seq<nat>
    requires s.Valid() && ValidSteps(steps)
  {
    if steps == [] then []
    else
      var before, last := steps[..|steps| - 1], steps[|steps| - 1];
      var s1 := Run(c, s, before);
      ToSend(c, s, before)
        + if last.DoPoll? && s1.enabled && s1.queue != [] && s1.queue[0] == FrameSent then [s1.dest] else []
  }

  lemma {:induction false} SentToConcat(a: seq<Action>, b: seq<Action>)
    ensures SentTo(a + b) == SentTo(a) + SentTo(b)
  {
    if b == [] {
      assert a + b == a;
    } else {
      assert (a + b)[..|a + b| - 1] == a + b[..|b| - 1];
      SentToConcat(a, b[..|b| - 1]);
    }
  }

  lemma {:induction false} NoneSent(log: seq<Action>)
    requires forall i :: 0 <= i < |log| ==> !log[i].Send?
    ensures SentTo(log) == []
  {
    if log != [] {
      NoneSent(log[..|log| - 1]);
    }
  }

  lemma PollSends(c: Config, s: State, p: Port)
    requires s.Valid() && p.Valid()
    ensures SentTo(Poll(c, s, p).log)
         == SentTo(s.log) + if s.enabled && s.queue != [] && s.queue[0] == FrameSent then [s.dest] else []
  {
    hide SentTo;
    if s.enabled && s.queue != [] {
      match s.queue[0]
      case Execute(id) =>
        var calls := DispatchOf(c, s, p).calls;
        CallsSendNothing(c, s, p);
        SentToConcat(s.log, calls);
        SentToConcat(s.log + calls, [Succeeded(id), Released(id)]);
        NoneSent([Succeeded(id), Released(id)]);
      case ErrorProcess(id) =>
        SentToConcat(s.log, [Failed(id, s.error), Released(id)]);
        NoneSent([Failed(id, s.error), Released(id)]);
      case FrameSent =>
        SentToConcat(s.log, [Send(s.dest)]);
        OneSent(s.dest);
      case _ =>
    }
  }

  lemma OneSent(dest: nat)
    ensures SentTo([Send(dest)]) == [dest]
  {
    assert [Send(dest)][..0] == [];
  }

  lemma CallsSendNothing(c: Config, s: State, p: Port)
    requires s.Valid()
    ensures SentTo(DispatchOf(c, s, p).calls) == []
  {
    hide SentTo, CallEach;
    var i := Find(c.table, s.frame[0], 0);
    if i < |c.table| {
      CallEachIs(c.table[i].handler, c.slaves);
    }
    NoneSent(DispatchOf(c, s, p).calls);
  }

  /** In every run exactly the requests that were taken are sent, in order, each to the
      slave that was addressed at that moment. */
  lemma {:induction false} EveryRequestSent(c: Config, s: State, steps: seq<Step>)
    requires s.Valid() && ValidSteps(steps) && s.log == []
    ensures SentTo(Run(c, s, steps).log) == ToSend(c, s, steps)
  {
    hide Poll, SentTo;
    if steps != [] {
      var before, step := steps[..|steps| - 1], steps[|steps| - 1];
      EveryRequestSent(c, s, before);
      if step.DoPoll? {
        PollSends(c, Run(c, s, before), step.port);
      }
    } else {
      NoneSent([]);
    }
  }

  // ----- every transaction ends -----

  /** How many polls an event can still lead to. */
  function Rank(e: Event): nat {
    match e
    case Received(_) => 3
    case Execute(_) => 2
    case _ => 1
  }

  function Weight(q: seq<Event>): nat {
    if q == [] then 0 else Rank(q[0]) + Weight(q[1..])
  }

  lemma {:induction false} WeightSnoc(q: seq<Event>, e: Event)
    ensures Weight(q + [e]) == Weight(q) + Rank(e)
  {
    if q == [] {
      assert [e][1..] == [];
      assert Weight([e]) == Rank(e) + Weight([]);
      assert q + [e] == [e];
    } else {
      assert (q + [e])[1..] == q[1..] + [e];
      WeightSnoc(q[1..], e);
    }
  }

  lemma PollProgress(c: Config, s: State, p: Port)
    requires s.Valid() && p.Valid() && s.enabled && s.queue != []
    ensures Weight(Poll(c, s, p).queue) < Weight(s.queue)
  {
    var e, rest := s.queue[0], s.queue[1..];
    if e.Tagged() {
      WeightSnoc(rest, Execute(e.id));
      WeightSnoc(rest, ErrorProcess(e.id));
    }
  }

  /** Polling an enabled master as often as the queue weighs ends everything that
      is pending, with one release and one callback for each. */
  lemma {:induction false} PollsDrain(c: Config, s: State, ports: seq<Port>, n: nat)
    requires s.Valid() && s.enabled && |ports| >= Weight(s.queue)
    requires forall i :: 0 <= i < |ports| ==> ports[i].Valid()
    ensures var s' := Polls(c, s, ports);
            && s'.queue == []
            && Releases(s'.log, n) == Releases(s.log, n) + Pending(s.queue, n)
            && Callbacks(s'.log, n) == Callbacks(s.log, n) + Pending(s.queue, n)
    decreases ports
  {
    hide Poll;
    if ports != [] {
      PollConserves(c, s, ports[0], n);
      if s.queue != [] {
        PollProgress(c, s, ports[0]);
      } else {
        PollIdle(c, s, ports[0]);
      }
      PollsDrain(c, Poll(c, s, ports[0]), ports[1..], n);
    } else {
      assert s.queue == [];
    }
  }

  lemma {:induction false} WeightBound(q: seq<Event>)
    ensures Weight(q) <= 3 * |q|
  {
    if q != [] {
      WeightBound(q[1..]);
    }
  }

  /** Three polls for each pending event are enough. */
  lemma ThreePollsEach(c: Config, s: State, ports: seq<Port>, n: nat)
    requires s.Valid() && s.enabled && |ports| >= 3 * |s.queue|
    requires forall i :: 0 <= i < |ports| ==> ports[i].Valid()
    ensures var s' := Polls(c, s, ports);
            && s'.queue == []
            && Releases(s'.log, n) == Releases(s.log, n) + Pending(s.queue, n)
            && Callbacks(s'.log, n) == Callbacks(s.log, n) + Pending(s.queue, n)
  {
    hide Polls, Weight, Pending, Releases, Callbacks;
    WeightBound(s.queue);
    PollsDrain(c, s, ports, n);
  }

  lemma PollIdle(c: Config, s: State, p: Port)
    requires s.Valid() && p.Valid() && s.queue == []
    ensures Poll(c, s, p) == s
  {
  }

  function Polls(c: Config, s: State, ports: seq<Port>): State
    requires s.Valid() && forall i :: 0 <= i < |ports| ==> ports[i].Valid()
    decreases ports
  {
    if ports == [] then s else Polls(c, Poll(c, s, ports[0]), ports[1..])
  }

  // ----- what is reported -----

  ghost predicate ValidPorts(ports: seq<Port>) {
    forall i :: 0 <= i < |ports| ==> ports[i].Valid()
  }

  /** Events are taken in order: after as many polls as there are events before it,
      an event is at the head of the queue. */
  lemma {:induction false} EventsInTurn(c: Config, s: State, ports: seq<Port>)
    requires s.Valid() && s.enabled && ValidPorts(ports) && |ports| <= |s.queue|
    ensures var s' := Polls(c, s, ports); s'.Valid() && s'.enabled && s.queue[|ports|..] <= s'.queue
    decreases ports
  {
    hide DispatchOf;
    if ports != [] {
      var s1 := Poll(c, s, ports[0]);
      assert s.queue[1..] <= s1.queue;
      EventsInTurn(c, s1, ports[1..]);
      assert s.queue[|ports|..] == s.queue[1..][|ports| - 1..] <= s1.queue[|ports| - 1..];
    }
  }

  /** The kind of error that a poll notices. */
  function Failure(c: Config, s: State, p: Port): Option<ErrorKind>
    requires s.Valid()
  {
    if !s.enabled || s.queue == [] then None
    else
      match s.queue[0]
      case Received(_) => if p.rcvOk && p.rcvAddress == s.dest then None else Some(ReceiveData)
      case Execute(_) => if DispatchOf(c, s, p).exception == MB_EX_NONE then None else Some(ExecuteFunction)
      case _ => None
  }

  function StepFailure(c: Config, s: State, step: Step): Option<ErrorKind>
    requires s.Valid()
  {
    match step
    case DoPoll(p) => Failure(c, s, p)
    case Post(e, kind) => if e.ErrorProcess? then Some(kind) else None
    case _ => None
  }

  /** The error that step `i` of a run notices. */
  function FailureAt(c: Config, s: State, steps: seq<Step>, i: nat): Option<ErrorKind>
    requires s.Valid() && ValidSteps(steps) && i < |steps|
  {
    StepFailure(c, Run(c, s, steps[..i]), steps[i])
  }

  lemma StepKind(c: Config, s: State, step: Step)
    requires s.Valid() && (step.DoPoll? ==> step.port.Valid())
    ensures var failure := StepFailure(c, s, step);
            Do(c, s, step).error == if failure.Some? then failure.value else s.error
  {
    hide DispatchOf;
  }

  /** Step `i` is the last that fails. */
  ghost predicate LastFailure(c: Config, s: State, steps: seq<Step>, i: nat)
    requires s.Valid() && ValidSteps(steps) && i < |steps|
  {
    FailureAt(c, s, steps, i).Some? && forall k :: i < k < |steps| ==> FailureAt(c, s, steps, k) == None
  }

  /** In every run the one error variable holds the kind of the last failure, whose
      transaction that was playing no part. */
  lemma {:induction false} KindIsLastFailure(c: Config, s: State, steps: seq<Step>)
    requires s.Valid() && ValidSteps(steps)
    ensures (forall k :: 0 <= k < |steps| ==> FailureAt(c, s, steps, k) == None) ==> Run(c, s, steps).error == s.error
    ensures forall i :: 0 <= i < |steps| && LastFailure(c, s, steps, i)
                    ==> FailureAt(c, s, steps, i) == Some(Run(c, s, steps).error)
  {
    hide Do, StepFailure;
    if steps != [] {
      var n := |steps| - 1;
      var before := steps[..n];
      KindIsLastFailure(c, s, before);
      StepKind(c, Run(c, s, before), steps[n]);
      assert FailureAt(c, s, steps, n) == StepFailure(c, Run(c, s, before), steps[n]);
      forall k | 0 <= k < n
        ensures FailureAt(c, s, steps, k) == FailureAt(c, s, before, k)
      {
        assert steps[..k] == before[..k];
      }
      forall i | 0 <= i < n && LastFailure(c, s, steps, i)
        ensures LastFailure(c, s, before, i)
      {
      }
    }
  }

  /** Polls of this event take a new frame. */
  predicate SetsFrame(e: Event) {
    e.Received? || e.FrameSent? || e.ErrorProcess?
  }

  /** The event at `i` can fail when its turn comes. A response can only be sure not to
      if it is the frame there is now and says that there was no exception. */
  ghost predicate CanFail(s: State, i: nat)
    requires s.Valid() && i < |s.queue|
  {
    || s.queue[i].Received?
    || (s.queue[i].Execute?
        && (s.frame[0] < 128 || s.frame[1] != MB_EX_NONE || exists k :: 0 <= k < i && SetsFrame(s.queue[k])))
  }

  function KindOf(e: Event): ErrorKind {
    if e.Received? then ReceiveData else ExecuteFunction
  }

  /** No event before `n` can fail with another kind than the one that is stored. */
  ghost predicate SameKind(s: State, n: nat)
    requires s.Valid() && n <= |s.queue|
  {
    forall i :: 0 <= i < n && CanFail(s, i) ==> KindOf(s.queue[i]) == s.error
  }

  lemma {:induction false} SameKindStays(c: Config, s: State, ports: seq<Port>)
    requires s.Valid() && s.enabled && ValidPorts(ports) && |ports| <= |s.queue| && SameKind(s, |ports|)
    ensures Polls(c, s, ports).error == s.error
    decreases ports
  {
    if ports != [] {
      SameKindNext(c, s, ports[0], |ports|);
      SameKindStays(c, Poll(c, s, ports[0]), ports[1..]);
    }
  }

  lemma SameKindNext(c: Config, s: State, p: Port, n: nat)
    requires s.Valid() && s.enabled && p.Valid() && 0 < n <= |s.queue| && SameKind(s, n)
    ensures var s1 := Poll(c, s, p); s1.error == s.error && |s1.queue| >= n - 1 && SameKind(s1, n - 1)
  {
    hide Find, CallEach;
    var s1 := Poll(c, s, p);
    assert s.queue[0].Received? || (s.queue[0].Execute? && DispatchOf(c, s, p).exception != MB_EX_NONE) ==> CanFail(s, 0);
    forall i | 0 <= i < n - 1 && CanFail(s1, i)
      ensures KindOf(s1.queue[i]) == s.error
    {
      assert s1.queue[i] == s.queue[i + 1];
      CanFailBefore(c, s, p, i);
    }
  }

  lemma CanFailBefore(c: Config, s: State, p: Port, i: nat)
    requires s.Valid() && s.enabled && p.Valid() && i + 1 < |s.queue|
    ensures i < |Poll(c, s, p).queue| && (CanFail(Poll(c, s, p), i) ==> CanFail(s, i + 1))
  {
    hide DispatchOf;
    var s1 := Poll(c, s, p);
    assert s1.queue[i] == s.queue[i + 1];
    if k :| 0 <= k < i && SetsFrame(s1.queue[k]) {
      assert s1.queue[k] == s.queue[k + 1];
    }
    assert s1.frame != s.frame ==> SetsFrame(s.queue[0]);
  }

  /** A port on which every response is an exception, and one on which none arrives. */
  function Refusing(dest: nat): Port {
    Port(true, dest, [128, 1], [128, 1], false, (_, _) => 1)
  }

  function Deaf(dest: nat): Port {
    Port(false, dest, [128, 0], [128, 0], false, (_, _) => 0)
  }

  lemma {:induction false} RefusingSpoils(c: Config, s: State, n: nat, i: nat)
    requires s.Valid() && s.enabled && n <= |s.queue|
    requires s.error == ExecuteFunction || (i < n && s.queue[i].Execute? && CanFail(s, i))
    ensures Polls(c, s, seq(n, _ => Refusing(s.dest))).error == ExecuteFunction
    decreases n
  {
    hide Find, CallEach;
    if n > 0 {
      var ports := seq(n, _ => Refusing(s.dest));
      var s1 := Poll(c, s, ports[0]);
      assert ports[1..] == seq(n - 1, _ => Refusing(s1.dest));
      if s.error != ExecuteFunction && i > 0 {
        assert s1.queue[i - 1] == s.queue[i];
        if k :| 0 < k < i && SetsFrame(s.queue[k]) {
          assert s1.queue[k - 1] == s.queue[k];
        }
      }
      RefusingSpoils(c, s1, n - 1, if i == 0 then 0 else i - 1);
    }
  }

  lemma {:induction false} DeafSpoils(c: Config, s: State, n: nat, i: nat)
    requires s.Valid() && s.enabled && n <= |s.queue|
    requires (s.error == ReceiveData && s.frame == [128, 0]) || (i < n && s.queue[i].Received?)
    ensures Polls(c, s, seq(n, _ => Deaf(s.dest))).error == ReceiveData
    decreases n
  {
    hide Find, CallEach;
    if n > 0 {
      var ports := seq(n, _ => Deaf(s.dest));
      var s1 := Poll(c, s, ports[0]);
      assert ports[1..] == seq(n - 1, _ => Deaf(s1.dest));
      if 0 < i < n {
        assert s1.queue[i - 1] == s.queue[i];
      }
      DeafSpoils(c, s1, n - 1, if i == 0 then 0 else i - 1);
    }
  }

  /** An error event that waits behind `n` others is reported with the kind that is
      stored now, whatever the port answers, if and only if none of the `n` can fail
      with another kind. */
  lemma ReportedAsStoredIff(c: Config, s: State, n: nat, id: nat)
    requires s.Valid() && s.enabled && n < |s.queue| && s.queue[n] == ErrorProcess(id)
    ensures (forall ports, p: Port :: |ports| == n && ValidPorts(ports) && p.Valid() ==> Reports(c, s, ports, p, id, s.error))
            <==> SameKind(s, n)
  {
    hide Polls, Poll, CanFail;
    forall ports, p: Port, kind | |ports| == n && ValidPorts(ports) && p.Valid()
      ensures Reports(c, s, ports, p, id, kind) <==> Polls(c, s, ports).error == kind
    {
      ErrorIsReported(c, s, ports, p, id, kind);
    }
    if SameKind(s, n) {
      forall ports | |ports| == n && ValidPorts(ports)
        ensures Polls(c, s, ports).error == s.error
      {
        SameKindStays(c, s, ports);
      }
    } else {
      var i :| 0 <= i < n && CanFail(s, i) && KindOf(s.queue[i]) != s.error;
      var port := if s.queue[i].Received? then Deaf(s.dest) else Refusing(s.dest);
      var ports := seq(n, _ => port);
      assert Polls(c, s, ports).error != s.error by {
        if s.queue[i].Received? {
          DeafSpoils(c, s, n, i);
        } else {
          CanFailIs(s, i);
          RefusingSpoils(c, s, n, i);
        }
      }
      assert !Reports(c, s, ports, port, id, s.error);
    }
  }

  lemma CanFailIs(s: State, i: nat)
    requires s.Valid() && i < |s.queue| && CanFail(s, i)
    ensures s.queue[i].Received? || s.queue[i].Execute?
  {
  }

  /** After these polls the next one reports transaction `id` with this kind of error
      and releases the bus. */
  ghost predicate Reports(c: Config, s: State, ports: seq<Port>, p: Port, id: nat, kind: ErrorKind)
    requires s.Valid() && ValidPorts(ports) && p.Valid()
  {
    var s' := Polls(c, s, ports);
    s'.Valid() && Poll(c, s', p).log == s'.log + [Failed(id, kind), Released(id)]
  }

  lemma ErrorIsReported(c: Config, s: State, ports: seq<Port>, p: Port, id: nat, kind: ErrorKind)
    requires s.Valid() && s.enabled && |ports| < |s.queue| && s.queue[|ports|] == ErrorProcess(id)
    requires ValidPorts(ports) && p.Valid()
    ensures Reports(c, s, ports, p, id, kind) <==> Polls(c, s, ports).error == kind
  {
    hide Polls, DispatchOf;
    EventsInTurn(c, s, ports);
    var s' := Polls(c, s, ports);
    assert s'.queue[0] == s.queue[|ports|..][0];
    var end := [Failed(id, s'.error), Released(id)];
    assert (s'.log + end)[|s'.log|] == Failed(id, s'.error);
    assert (s'.log + [Failed(id, kind), Released(id)])[|s'.log|] == Failed(id, kind);
  }

  lemma {:induction false} RunConcat(c: Config, s: State, a: seq<Step>, b: seq<Step>)
    requires s.Valid() && ValidSteps(a) && ValidSteps(b)
    ensures ValidSteps(a + b) && Run(c, s, a + b) == Run(c, Run(c, s, a), b)
    decreases |b|
  {
    hide Do;
    if b == [] {
      assert a + b == a;
    } else {
      var n := |b| - 1;
      assert (a + b)[..|a + b| - 1] == a + b[..n];
      RunConcat(c, s, a, b[..n]);
    }
  }

  function PollSteps(ports: seq<Port>): seq<Step> {
    seq(|ports|, i requires 0 <= i < |ports| => DoPoll(ports[i]))
  }

  lemma {:induction false} PollsIsRun(c: Config, s: State, ports: seq<Port>)
    requires s.Valid() && ValidPorts(ports)
    ensures ValidSteps(PollSteps(ports)) && Polls(c, s, ports) == Run(c, s, PollSteps(ports))
    decreases ports
  {
    hide Poll;
    if ports != [] {
      var first := [DoPoll(ports[0])];
      assert PollSteps(ports) == first + PollSteps(ports[1..]);
      PollsIsRun(c, Poll(c, s, ports[0]), ports[1..]);
      RunConcat(c, s, first, PollSteps(ports[1..]));
      assert first[..0] == [];
      assert Run(c, s, first) == Do(c, Run(c, s, first[..0]), first[0]) == Poll(c, s, ports[0]);
    }
  }

  /** An error event is reported with the kind of the last poll before it that fails,
      and only if none does with the kind that was stored. */
  lemma ReportedKind(c: Config, s: State, ports: seq<Port>, p: Port, id: nat)
    requires s.Valid() && s.enabled && |ports| < |s.queue| && s.queue[|ports|] == ErrorProcess(id)
    requires ValidPorts(ports) && p.Valid()
    ensures ValidSteps(PollSteps(ports))
    ensures var steps := PollSteps(ports);
            && (forall i :: 0 <= i < |steps| && LastFailure(c, s, steps, i)
                        ==> Reports(c, s, ports, p, id, FailureAt(c, s, steps, i).value))
            && ((forall k :: 0 <= k < |steps| ==> FailureAt(c, s, steps, k) == None) ==> Reports(c, s, ports, p, id, s.error))
  {
    hide Poll, Polls, Run, FailureAt, Reports;
    PollsIsRun(c, s, ports);
    KindIsLastFailure(c, s, PollSteps(ports));
    ErrorIsReported(c, s, ports, p, id, Polls(c, s, ports).error);
  }

  /** A transaction that fails is reported with its own kind of error, whatever the
      port answers afterwards, if and only if no event that waits before the report can
      fail with another kind. */
  lemma OwnKindIff(c: Config, s: State, p: Port, kind: ErrorKind)
    requires s.Valid() && p.Valid() && Failure(c, s, p) == Some(kind)
    ensures var s1, n := Poll(c, s, p), |s.queue| - 1;
            (forall ports, p': Port :: |ports| == n && ValidPorts(ports) && p'.Valid() ==>
               Reports(c, s1, ports, p', s.queue[0].id, kind))
            <==> SameKind(s1, n)
  {
    hide DispatchOf, SameKind, Reports;
    ReportedAsStoredIff(c, Poll(c, s, p), |s.queue| - 1, s.queue[0].id);
  }

  // ----- one transaction at a time -----

  ghost predicate NoneTagged(q: seq<Event>) {
    forall i :: 0 <= i < |q| ==> !q[i].Tagged()
  }

  ghost predicate OneTagged(q: seq<Event>) {
    forall i, j :: 0 <= i < j < |q| ==> !(q[i].Tagged() && q[j].Tagged())
  }

  /** The bus is taken: the port begins a transaction only when none is pending. */
  ghost predicate Exclusive(c: Config, s: State, steps: seq<Step>)
    requires s.Valid() && ValidSteps(steps)
  {
    forall i :: 0 <= i < |steps| && steps[i].Post? && steps[i].event.Tagged() ==> NoneTagged(Run(c, s, steps[..i]).queue)
  }

  /** The transaction that a failing step belongs to. */
  function FailedId(c: Config, s: State, step: Step): nat
    requires s.Valid() && StepFailure(c, s, step).Some?
  {
    if step.DoPoll? then s.queue[0].id else step.event.id
  }

  /** The last failure of a run: the transaction and the kind of error. */
  function LastFailed(c: Config, s: State, steps: seq<Step>): Option<(nat, ErrorKind)>
    requires s.Valid() && ValidSteps(steps)
  {
    if steps == [] then None
    else
      var before, last := steps[..|steps| - 1], steps[|steps| - 1];
      var s1 := Run(c, s, before);
      var failure := StepFailure(c, s1, last);
      if failure.Some? then Some((FailedId(c, s1, last), failure.value)) else LastFailed(c, s, before)
  }

  /** At most one transaction is pending, and an error event that is belongs to the
      last failure, whose kind is the one stored. */
  ghost predicate Single(s: State, failed: Option<(nat, ErrorKind)>) {
    OneTagged(s.queue)
    && forall k :: 0 <= k < |s.queue| && s.queue[k].ErrorProcess? ==> failed == Some((s.queue[k].id, s.error))
  }

  lemma SingleAfterPoll(c: Config, s: State, p: Port, failed: Option<(nat, ErrorKind)>)
    requires s.Valid() && p.Valid() && Single(s, failed)
    ensures var failure := Failure(c, s, p);
            Single(Poll(c, s, p), if failure.Some? then Some((s.queue[0].id, failure.value)) else failed)
  {
    hide DispatchOf;
    if s.enabled && s.queue != [] {
      var s1, n := Poll(c, s, p), |s.queue| - 1;
      assert forall i :: 0 <= i < n ==> s1.queue[i] == s.queue[i + 1];
      assert s.queue[0].Tagged() ==> forall i :: 0 <= i < n ==> !s1.queue[i].Tagged();
    }
  }

  /** While the bus is taken by one transaction at a time, every error that is reported
      is the transaction's own: it is the last failure of the run. */
  lemma {:induction false} ExclusiveIsSingle(c: Config, s: State, steps: seq<Step>)
    requires s.Valid() && ValidSteps(steps) && s.queue == [] && Exclusive(c, s, steps)
    ensures Single(Run(c, s, steps), LastFailed(c, s, steps))
  {
    hide Poll, Failure;
    if steps != [] {
      var n := |steps| - 1;
      var before, step := steps[..n], steps[n];
      forall i | 0 <= i < n && before[i].Post? && before[i].event.Tagged()
        ensures NoneTagged(Run(c, s, before[..i]).queue)
      {
        assert before[..i] == steps[..i];
      }
      ExclusiveIsSingle(c, s, before);
      var s1 := Run(c, s, before);
      if step.DoPoll? {
        SingleAfterPoll(c, s1, step.port, LastFailed(c, s, before));
      }
    }
  }

  lemma ExclusiveReportsOwn(c: Config, s: State, steps: seq<Step>, p: Port, id: nat)
    requires s.Valid() && ValidSteps(steps) && s.queue == [] && Exclusive(c, s, steps) && p.Valid()
    requires var s1 := Run(c, s, steps); s1.enabled && s1.queue != [] && s1.queue[0] == ErrorProcess(id)
    ensures var s1, failed := Run(c, s, steps), LastFailed(c, s, steps);
            && failed.Some? && failed.value.0 == id
            && Poll(c, s1, p).log == s1.log + [Failed(id, failed.value.1), Released(id)]
  {
    hide Run, LastFailed, DispatchOf;
    ExclusiveIsSingle(c, s, steps);
  }

  /** A response is executed after the events that wait already; it is then still in
      the frame buffer, whatever the port does, if and only if none of these events
      takes a new frame. */
  lemma OwnFrameIff(c: Config, s: State, p: Port)
    requires s.Valid() && p.Valid() && s.enabled && s.queue != [] && s.queue[0].Received?
    ensures (forall ports :: |ports| == |s.queue| - 1 && ValidPorts(ports)
                         ==> Polls(c, Poll(c, s, p), ports).frame == p.rcvFrame)
            <==> forall i :: 0 < i < |s.queue| ==> !SetsFrame(s.queue[i])
  {
    hide Polls, SetsFrame;
    var s1, n := Poll(c, s, p), |s.queue| - 1;
    assert s1.queue[..n] == s.queue[1..];
    if i :| 0 < i < |s.queue| && SetsFrame(s.queue[i]) {
      var frame := [p.rcvFrame[0] + 1, 0];
      assert s1.queue[i - 1] == s.queue[i];
      FrameReplaced(c, s1, n, frame, i - 1);
      var port := Port(true, 0, frame, frame, false, (_, _) => 0);
      assert ValidPorts(seq(n, _ => port));
    } else {
      forall ports | |ports| == n && ValidPorts(ports)
        ensures Polls(c, s1, ports).frame == p.rcvFrame
      {
        assert forall i :: 0 <= i < n ==> s1.queue[i] == s.queue[i + 1];
        FrameStays(c, s1, ports);
      }
    }
  }

  lemma {:induction false} FrameReplaced(c: Config, s: State, n: nat, frame: seq<nat>, i: nat)
    requires s.Valid() && s.enabled && n <= |s.queue| && |frame| >= 2
    requires s.frame == frame || (i < n && SetsFrame(s.queue[i]))
    ensures var port := Port(true, 0, frame, frame, false, (_, _) => 0);
            ValidPorts(seq(n, _ => port)) && Polls(c, s, seq(n, _ => port)).frame == frame
    decreases n
  {
    hide DispatchOf;
    if n > 0 {
      var port := Port(true, 0, frame, frame, false, (_, _) => 0);
      var ports := seq(n, _ => port);
      var s1 := Poll(c, s, ports[0]);
      assert ports[1..] == seq(n - 1, _ => port);
      if 0 < i < n {
        assert s1.queue[i - 1] == s.queue[i];
      }
      FrameReplaced(c, s1, n - 1, frame, if i == 0 then 0 else i - 1);
    }
  }

  lemma {:induction false} FrameStays(c: Config, s: State, ports: seq<Port>)
    requires s.Valid() && s.enabled && ValidPorts(ports) && |ports| <= |s.queue|
    requires forall i :: 0 <= i < |ports| ==> !SetsFrame(s.queue[i])
    ensures Polls(c, s, ports).frame == s.frame
    decreases ports
  {
    hide DispatchOf;
    if ports != [] {
      var s1 := Poll(c, s, ports[0]);
      assert forall i :: 0 <= i < |ports| - 1 ==> s1.queue[i] == s.queue[i + 1];
      FrameStays(c, s1, ports[1..]);
    }
  }

  /** What becomes of the response at the head of any queue: when the events that wait
      have had their turn it is executed, and ends with its calls, one success callback
      and the release, or goes on as an error; a response that is broken or not from the
      slave addressed is an error at once. */
  lemma TransactionOutcome(c: Config, s: State, id: nat, p: Port, ports: seq<Port>, p': Port)
    requires s.Valid() && s.enabled && s.queue != [] && s.queue[0] == Received(id)
    requires p.Valid() && p'.Valid() && ValidPorts(ports) && |ports| == |s.queue| - 1
    ensures var mine := p.rcvOk && p.rcvAddress == s.dest;
            var s1 := Poll(c, s, p);
            var s2 := Polls(c, s1, ports);
            && s2.Valid() && s2.enabled && s2.queue != []
            && if !mine then s2.queue[0] == ErrorProcess(id) && s1.error == ReceiveData
               else
                 var d, s3 := DispatchOf(c, s2, p'), Poll(c, s2, p');
                 && s2.queue[0] == Execute(id)
                 && if d.exception == MB_EX_NONE
                    then s3.queue == s2.queue[1..] && s3.log == s2.log + d.calls + [Succeeded(id), Released(id)]
                    else s3.queue == s2.queue[1..] + [ErrorProcess(id)] && s3.log == s2.log + d.calls
                         && s3.error == ExecuteFunction
  {
    hide Poll, Polls, DispatchOf;
    var s1 := Poll(c, s, p);
    ReceiveOutcome(c, s, p, id);
    EventsInTurn(c, s1, ports);
    assert s1.queue[|ports|..] == [s1.queue[|ports|]];
    var s2 := Polls(c, s1, ports);
    assert s1.queue[|ports|..][0] == s2.queue[0];
    ExecuteOutcome(c, s2, p', id);
  }

  lemma ExecuteOutcome(c: Config, s: State, p: Port, id: nat)
    requires s.Valid() && p.Valid() && s.enabled && s.queue != []
    ensures s.queue[0] == Execute(id) ==>
              var d, s' := DispatchOf(c, s, p), Poll(c, s, p);
              if d.exception == MB_EX_NONE
              then s'.queue == s.queue[1..] && s'.log == s.log + d.calls + [Succeeded(id), Released(id)]
              else s'.queue == s.queue[1..] + [ErrorProcess(id)] && s'.log == s.log + d.calls && s'.error == ExecuteFunction
  {
    hide DispatchOf;
  }

  // ----- the poll loop as the code runs it -----

  datatype Status = MB_ENOERR | MB_EILLSTATE | MB_EINVAL | MB_EPORTERR

  datatype MasterState = Enabled | Disabled | NotInitialized

  class Master {
    const table: array<Slot>
    const slaves: nat
    var state: MasterState
    var dest: nat
    var runInMasterMode: bool
    var error: ErrorKind
    var frame: seq<nat>
    var queue: seq<Event>
    var log: seq<Action>

    constructor (handlers: seq<Slot>, slaves: nat, frame: seq<nat>)
      requires |frame| >= 2
      ensures fresh(table) && table[..] == handlers && this.slaves == slaves
      ensures View().Valid() && state == NotInitialized && !runInMasterMode && queue == [] && log == []
    {
      this.slaves, this.frame := slaves, frame;
      state, dest, runInMasterMode, error := NotInitialized, 0, false, RespondTimeout;
      queue, log := [], [];
      table := new Slot[|handlers|](i requires 0 <= i < |handlers| => handlers[i]);
      new;
      assert table[..] == handlers;
    }

    ghost function View(): State
      reads this
    {
      State(state == Enabled, dest, error, frame, queue, log)
    }

    ghost function Setup(): Config
      reads this, table
    {
      Config(table[..], slaves)
    }

    /** `initOk` and `portOk` are the answers of the frame and the event layer. */
    method InitMaster(initOk: bool, portOk: bool) returns (status: Status)
      modifies `state, `queue
      ensures status == if !initOk then MB_EINVAL else if !portOk then MB_EPORTERR else MB_ENOERR
      ensures if status == MB_ENOERR then state == Disabled && queue == [] else state == old(state) && queue == old(queue)
    {
      status := MB_ENOERR;
      if !initOk {
        status := MB_EINVAL;
      } else if !portOk {
        status := MB_EPORTERR;
      } else {
        queue := [];
        state := Disabled;
      }
    }

    method EnableMaster() returns (status: Status)
      modifies `state
      ensures state == (if old(state) == Disabled then Enabled else old(state))
      ensures status == if old(state) == Disabled then MB_ENOERR else MB_EILLSTATE
    {
      if state == Disabled {
        state := Enabled;
        status := MB_ENOERR;
      } else {
        status := MB_EILLSTATE;
      }
    }

    method DisableMaster() returns (status: Status)
      modifies `state
      ensures state == (if old(state) == Enabled then Disabled else old(state))
      ensures status == if old(state) == NotInitialized then MB_EILLSTATE else MB_ENOERR
    {
      if state == Enabled {
        state := Disabled;
        status := MB_ENOERR;
      } else if state == Disabled {
        status := MB_ENOERR;
      } else {
        status := MB_EILLSTATE;
      }
    }

    /** Looks the function code up and calls its handler, for a broadcast once for
        every slave. */
    method RunHandler(p: Port) returns (exception: nat)
      requires View().Valid()
      modifies `dest, `log, `runInMasterMode
      ensures var d := DispatchOf(Setup(), old(View()), p);
              exception == d.exception && dest == d.dest && log == old(log) + d.calls
      ensures old(!runInMasterMode) ==> !runInMasterMode
    {
      var code := frame[0];
      exception := MB_EX_ILLEGAL_FUNCTION;
      if code / 128 != 0 {
        exception := frame[1];
        return;
      }
      var i := 0;
      while i < table.Length
        invariant 0 <= i <= table.Length && dest == old(dest) && log == old(log)
        invariant Find(table[..], code, 0) == Find(table[..], code, i)
        invariant exception == MB_EX_ILLEGAL_FUNCTION && runInMasterMode == old(runInMasterMode)
      {
        if table[i].code == 0 {
          return;
        } else if table[i].code == code {
          var h := table[i].handler;
          runInMasterMode := true;
          if p.broadcast {
            for j := 1 to slaves + 1
              invariant log == old(log) + CallEach(h, j - 1)
              invariant if j == 1 then dest == old(dest) && exception == MB_EX_ILLEGAL_FUNCTION
                        else dest == j - 1 && exception == p.exception(h, j - 1)
            {
              dest := j;
              log := log + [Called(h, dest)];
              exception := p.exception(h, dest);
            }
          } else {
            log := log + [Called(h, dest)];
            exception := p.exception(h, dest);
          }
          runInMasterMode := false;
          return;
        }
        i := i + 1;
      }
    }

    method PollMaster(p: Port) returns (status: Status)
      requires View().Valid() && p.Valid()
      modifies this
      ensures View() == Poll(Setup(), old(View()), p) && state == old(state)
      ensures status == if state == Enabled then MB_ENOERR else MB_EILLSTATE
      ensures old(!runInMasterMode) ==> !runInMasterMode
    {
      hide Find, CallEach, DispatchOf;
      if state != Enabled {
        return MB_EILLSTATE;
      }
      status := MB_ENOERR;
      if queue != [] {
        var event := queue[0];
        queue := queue[1..];
        match event
        case Ready =>
        case Other =>
        case Received(id) =>
          frame := p.rcvFrame;
          if p.rcvOk && p.rcvAddress == dest {
            queue := queue + [Execute(id)];
          } else {
            error := ReceiveData;
            queue := queue + [ErrorProcess(id)];
          }
        case Execute(id) =>
          DispatchIgnoresQueue(Setup(), old(View()), View(), p);
          var exception := RunHandler(p);
          if exception != MB_EX_NONE {
            error := ExecuteFunction;
            queue := queue + [ErrorProcess(id)];
          } else {
            log := log + [Succeeded(id), Released(id)];
          }
        case FrameSent =>
          frame := p.sndFrame;
          log := log + [Send(dest)];
        case ErrorProcess(id) =>
          frame := p.sndFrame;
          log := log + [Failed(id, error), Released(id)];
      }
    }

    /** An event from the port goes to the end of the queue. */
    method PostEvent(event: Event, kind: ErrorKind)
      requires View().Valid()
      modifies `error, `queue
      ensures View() == old(View()).(error := if event.ErrorProcess? then kind else old(error), queue := old(queue) + [event])
    {
      if event.ErrorProcess? {
        error := kind;
      }
      queue := queue + [event];
    }

    method RunStep(step: Step)
      requires View().Valid() && state != NotInitialized && (step.DoPoll? ==> step.port.Valid())
      modifies this
      ensures state != NotInitialized && View() == Do(Setup(), old(View()), step)
    {
      hide Poll;
      match step
      case DoPoll(p) =>
        var _ := PollMaster(p);
      case Post(e, kind) =>
        PostEvent(e, kind);
      case Enable =>
        var _ := EnableMaster();
      case Disable =>
        var _ := DisableMaster();
    }

    /** Once initialized, the master goes through every sequence of steps as specified. */
    method RunSteps(steps: seq<Step>)
      requires View().Valid() && state != NotInitialized && ValidSteps(steps)
      modifies this
      ensures state != NotInitialized && View() == Run(Setup(), old(View()), steps)
    {
      hide Do;
      for n := 0 to |steps|
        invariant state != NotInitialized && View() == Run(Setup(), old(View()), steps[..n])
      {
        assert steps[..n + 1][..n] == steps[..n];
        RunStep(steps[n]);
      }
      assert steps[..|steps|] == steps;
    }
  }

  lemma DispatchIgnoresQueue(c: Config, s: State, s': State, p: Port)
    requires s.Valid() && s'.Valid() && s'.frame == s.frame && s'.dest == s.dest
    ensures DispatchOf(c, s, p) == DispatchOf(c, s', p)
  {
  }
}
