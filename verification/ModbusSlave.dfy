/** The Modbus slave: the table of function handlers and the poll loop. */
module ModbusSlave {
  import opened Common

  const MB_ADDRESS_BROADCAST := 0
  const MB_ADDRESS_MIN := 1
  const MB_ADDRESS_MAX := 247
  const MB_FUNC_ERROR := 128
  const MB_EX_NONE := 0
  const MB_EX_ILLEGAL_FUNCTION := 1

  datatype Status = MB_ENOERR | MB_EINVAL | MB_ENORES | MB_EPORTERR | MB_EILLSTATE

  /** A function code and its handler, `None` for the null pointer. */
  datatype Slot = Slot(code: nat, handler: Option<nat>)

  // ----- the handler table -----

  /** A slot is free in both fields or in neither, and codes have seven bits. */
  ghost predicate Consistent(t: seq<Slot>) {
    forall i :: 0 <= i < |t| ==> t[i].code <= 127 && (t[i].code == 0 <==> t[i].handler == None)
  }

  /** The first slot that is free or already has this handler. */
  function FreeFor(t: seq<Slot>, h: nat, i: nat): (r: nat)
    requires i <= |t|
    ensures i <= r <= |t|
    ensures r < |t| ==> t[r].handler == None || t[r].handler == Some(h)
    ensures forall j :: i <= j < r ==> t[j].handler != None && t[j].handler != Some(h)
    decreases |t| - i
  {
    if i == |t| || t[i].handler == None || t[i].handler == Some(h) then i else FreeFor(t, h, i + 1)
  }

  /** The first slot with this code. */
  function FirstOf(t: seq<Slot>, code: nat, i: nat): (r: nat)
    requires i <= |t|
    ensures i <= r <= |t| && (r < |t| ==> t[r].code == code)
    ensures forall j :: i <= j < r ==> t[j].code != code
    decreases |t| - i
  {
    if i == |t| || t[i].code == code then i else FirstOf(t, code, i + 1)
  }

  datatype Registered = Registered(table: seq<Slot>, status: Status)

  /** Registers a handler, or removes a code when the handler is null. */
  function Register(t: seq<Slot>, code: nat, handler: Option<nat>): (r: Registered)
    ensures |r.table| == |t|
  {
    if !(0 < code <= 127) then Registered(t, MB_EINVAL)
    else if handler.Some? then
      var i := FreeFor(t, handler.value, 0);
      if i < |t| then Registered(t[i := Slot(code, handler)], MB_ENOERR) else Registered(t, MB_ENORES)
    else
      var i := FirstOf(t, code, 0);
      Registered(if i < |t| then t[i := Slot(0, None)] else t, MB_ENOERR)
  }

  /** What a registration does, by what is in the table: a code outside 1 to 127 is
      refused; a handler goes to the first slot that is free or already has it, if there
      is one; a removal frees the first slot with the code; nothing else changes. */
  lemma RegisterIs(t: seq<Slot>, code: nat, handler: Option<nat>)
    ensures var r := Register(t, code, handler);
            && (code == 0 || code > 127 ==> r.status == MB_EINVAL && r.table == t)
            && (0 < code <= 127 && handler.Some? ==>
                  && (forall i :: 0 <= i < |t| && (t[i].handler == None || t[i].handler == handler)
                                  && (forall j :: 0 <= j < i ==> t[j].handler != None && t[j].handler != handler)
                        ==> r.status == MB_ENOERR && r.table == t[i := Slot(code, handler)])
                  && ((forall i :: 0 <= i < |t| ==> t[i].handler != None && t[i].handler != handler)
                        ==> r.status == MB_ENORES && r.table == t))
            && (0 < code <= 127 && handler == None ==>
                  && r.status == MB_ENOERR
                  && (forall i :: 0 <= i < |t| && t[i].code == code && (forall j :: 0 <= j < i ==> t[j].code != code)
                        ==> r.table == t[i := Slot(0, None)])
                  && ((forall i :: 0 <= i < |t| ==> t[i].code != code) ==> r.table == t))
  {
    hide FreeFor, FirstOf;
    if handler.Some? {
      var k := FreeFor(t, handler.value, 0);
      assert k < |t| ==> t[k].handler == None || t[k].handler == handler;
    } else {
      var k := FirstOf(t, code, 0);
      assert k < |t| ==> t[k].code == code;
    }
  }

  datatype Request = Request(code: nat, handler: Option<nat>)

  function RegisterAll(t: seq<Slot>, rs: seq<Request>): (r: seq<Slot>)
    ensures |r| == |t|
  {
    if rs == [] then t
    else
      var last := rs[|rs| - 1];
      Register(RegisterAll(t, rs[..|rs| - 1]), last.code, last.handler).table
  }

  lemma {:induction false} StaysConsistent(t: seq<Slot>, rs: seq<Request>)
    requires Consistent(t)
    ensures Consistent(RegisterAll(t, rs))
  {
    if rs != [] {
      StaysConsistent(t, rs[..|rs| - 1]);
    }
  }

  /** The used slots come first and no handler is in two of them. */
  ghost predicate Packed(t: seq<Slot>) {
    && Consistent(t)
    && (forall i, j :: 0 <= i < j < |t| && t[j].handler.Some? ==> t[i].handler.Some?)
    && (forall i, j :: 0 <= i < j < |t| && t[i].handler.Some? ==> t[i].handler != t[j].handler)
  }

  lemma {:induction false} StaysPacked(t: seq<Slot>, rs: seq<Request>)
    requires Packed(t) && forall k :: 0 <= k < |rs| ==> rs[k].handler.Some?
    ensures Packed(RegisterAll(t, rs))
  {
    if rs != [] {
      StaysPacked(t, rs[..|rs| - 1]);
    }
  }

  /** Removing a code keeps the table packed if and only if it was not in the table
      or nothing is registered after it. */
  lemma RemovalKeepsPackedIff(t: seq<Slot>, code: nat)
    requires Packed(t) && 0 < code <= 127
    ensures var i := FirstOf(t, code, 0);
            Packed(Register(t, code, None).table) <==> i >= |t| - 1 || t[i + 1].handler == None
  {
    var i := FirstOf(t, code, 0);
    var t' := Register(t, code, None).table;
    if i < |t| - 1 && t[i + 1].handler.Some? {
      assert t'[i + 1].handler.Some? && t'[i].handler == None;
    } else if i < |t| {
      forall j, k | 0 <= j < k < |t'| && t'[k].handler.Some?
        ensures t'[j].handler.Some?
      {
        assert k > i ==> i + 1 < |t|;
      }
    }
  }

  /** After a removal, registering the handler of a later slot again puts it in the
      table twice. */
  lemma {:induction false} RemovalAllowsTwice(t: seq<Slot>, code: nat, code': nat)
    requires Packed(t) && 0 < code <= 127 && 0 < code' <= 127
    requires var i := FirstOf(t, code, 0); i + 1 < |t| && t[i + 1].handler.Some?
    ensures var i := FirstOf(t, code, 0);
            var t' := RegisterAll(t, [Request(code, None), Request(code', t[i + 1].handler)]);
            t'[i].handler == t'[i + 1].handler == t[i + 1].handler
  {
    var i := FirstOf(t, code, 0);
    var h := t[i + 1].handler;
    var rs := [Request(code, None), Request(code', h)];
    assert rs[..1] == [Request(code, None)] && rs[..1][..0] == [];
    assert RegisterAll(t, []) == t;
    var t1 := RegisterAll(t, rs[..1]);
    assert t1 == t[i := Slot(0, None)];
    assert t1[i].handler == None;
    assert forall j :: 0 <= j < i ==> t1[j].handler == t[j].handler && t[j].handler.Some? && t[j].handler != h;
  }

  // ----- dispatch -----

  /** The slot that serves a code; the search ends at the first free slot. */
  function Find(t: seq<Slot>, code: nat, i: nat): (r: nat)
    requires i <= |t|
    ensures i <= r <= |t| && (r < |t| ==> t[r].code == code != 0)
    decreases |t| - i
  {
    if i == |t| || t[i].code == 0 then |t|
    else if t[i].code == code then i
    else Find(t, code, i + 1)
  }

  /** A code in the table is served if and only if no free slot is before it. */
  lemma {:induction false} ServedIff(t: seq<Slot>, code: nat, i: nat)
    requires code != 0 && i <= |t|
    ensures Find(t, code, i) < |t|
            <==> exists k :: i <= k < |t| && t[k].code == code && forall j :: i <= j < k ==> t[j].code != 0
    decreases |t| - i
  {
    if i < |t| && t[i].code != 0 && t[i].code != code {
      ServedIff(t, code, i + 1);
      if k :| i <= k < |t| && t[k].code == code && forall j :: i <= j < k ==> t[j].code != 0 {
        assert i + 1 <= k < |t| && t[k].code == code && forall j :: i + 1 <= j < k ==> t[j].code != 0;
      }
      if k :| i + 1 <= k < |t| && t[k].code == code && forall j :: i + 1 <= j < k ==> t[j].code != 0 {
        assert i <= k < |t| && t[k].code == code && forall j :: i <= j < k ==> t[j].code != 0;
      }
    } else if i < |t| && t[i].code == code {
      assert i <= i < |t| && t[i].code == code;
    }
  }

  /** A packed table serves every code that is in it. */
  lemma PackedServesAll(t: seq<Slot>, code: nat)
    requires Packed(t) && code != 0
    ensures Find(t, code, 0) < |t| <==> exists k :: 0 <= k < |t| && t[k].code == code
  {
    ServedIff(t, code, 0);
    if k :| 0 <= k < |t| && t[k].code == code {
      assert forall j :: 0 <= j < k ==> t[j].code != 0;
    }
  }

  // ----- the poll loop -----

  datatype Event = Ready | FrameReceived | Execute | FrameSent

  /** A request or a response: what the frame buffer holds. */
  datatype Pdu = Pdu(code: nat, data: seq<nat>)

  /** A response as it goes to the frame layer. */
  datatype Reply = Reply(address: nat, pdu: Pdu)

  /** What a handler makes of a request: an exception, and the response it leaves
      in the frame buffer. */
  datatype Handled = Handled(exception: nat, pdu: Pdu)

  datatype Port = Port(rcvOk: bool, rcvAddress: nat, rcvFrame: Pdu, handle: (nat, Pdu) -> Handled)

  datatype State = State(enabled: bool, address: nat, rcvAddress: nat, frame: Pdu, pending: Option<Event>, replies: seq<Reply>)
  {
    predicate Valid() {
      MB_ADDRESS_MIN <= address <= MB_ADDRESS_MAX
    }
  }

  /** The function code with the error bit set. */
  function ErrorCode(code: nat): nat {
    if code / MB_FUNC_ERROR % 2 == 1 then code else code + MB_FUNC_ERROR
  }

  function HandledOf(t: seq<Slot>, frame: Pdu, p: Port): Handled
    requires Consistent(t)
  {
    var i := Find(t, frame.code, 0);
    if i < |t| then p.handle(t[i].handler.value, frame) else Handled(MB_EX_ILLEGAL_FUNCTION, frame)
  }

  /** The frame is whole and for this slave, or for all. */
  predicate Accepts(s: State, p: Port) {
    p.rcvOk && (p.rcvAddress == s.address || p.rcvAddress == MB_ADDRESS_BROADCAST)
  }

  /** A frame overwrites the buffer even if it is broken, but gives its address only
      if it is whole. */
  function Poll(t: seq<Slot>, s: State, p: Port): State
    requires Consistent(t)
  {
    if !s.enabled || s.pending == None then s
    else
      var rest := s.(pending := None);
      match s.pending.value
      case FrameReceived =>
        rest.(rcvAddress := if p.rcvOk then p.rcvAddress else s.rcvAddress, frame := p.rcvFrame,
              pending := if Accepts(s, p) then Some(Execute) else None)
      case Execute =>
        var h := HandledOf(t, s.frame, p);
        if s.rcvAddress == MB_ADDRESS_BROADCAST then rest.(frame := h.pdu)
        else rest.(frame := Answer(t, s.frame, p), replies := s.replies + [Reply(s.address, Answer(t, s.frame, p))])
      case _ => rest
  }

  /** The response to a request: the handler's, or function code and exception. */
  function Answer(t: seq<Slot>, frame: Pdu, p: Port): Pdu
    requires Consistent(t)
  {
    var h := HandledOf(t, frame, p);
    if h.exception != MB_EX_NONE then Pdu(ErrorCode(frame.code), [h.exception]) else h.pdu
  }

  /** A frame that is polled twice in a row gets exactly one reply if it is whole and
      addressed to this slave, the handler's or an exception; a broadcast, a broken
      frame and a frame for another slave get none. */
  lemma FrameOutcome(t: seq<Slot>, s: State, p: Port, p': Port)
    requires Consistent(t) && s.Valid() && s.enabled && s.pending == Some(FrameReceived)
    ensures var s' := Poll(t, Poll(t, s, p), p');
            && s'.pending == None
            && s'.replies == s.replies + if p.rcvOk && p.rcvAddress == s.address
                                         then [Reply(s.address, Answer(t, p.rcvFrame, p'))] else []
  {
    hide Consistent, HandledOf;
  }

  /** What the reply says. The first slot with the code serves it, if no slot before
      it is free: without an exception the reply is the handler's response, with one it
      is the code with the error bit and the exception, and so it is with exception 1
      if there is no such slot. */
  lemma ReplyContent(t: seq<Slot>, s: State, p: Port, p': Port)
    requires Consistent(t) && s.Valid() && s.enabled && s.pending == Some(FrameReceived)
    requires p.rcvOk && p.rcvAddress == s.address
    ensures var replies, code := Poll(t, Poll(t, s, p), p').replies, p.rcvFrame.code;
            var errorCode := if code / 128 % 2 == 1 then code else code + 128;
            && |replies| == |s.replies| + 1 && replies[|s.replies|].address == s.address
            && (forall i :: 0 <= i < |t| && t[i].code == code != 0
                            && (forall j :: 0 <= j < i ==> t[j].code != 0 && t[j].code != code)
                  ==> t[i].handler.Some?
                      && var h := p'.handle(t[i].handler.value, p.rcvFrame);
                         replies[|s.replies|].pdu == if h.exception == 0 then h.pdu else Pdu(errorCode, [h.exception]))
            && ((forall i :: 0 <= i < |t| && t[i].code == code != 0 ==> exists j :: 0 <= j < i && t[j].code == 0)
                  ==> replies[|s.replies|].pdu == Pdu(errorCode, [1]))
  {
    hide Find, Consistent;
    var code := p.rcvFrame.code;
    forall i | 0 <= i < |t| && t[i].code == code != 0 && (forall j :: 0 <= j < i ==> t[j].code != 0 && t[j].code != code)
      ensures Find(t, code, 0) == i
    {
      FindIs(t, code, 0, i);
    }
    if forall i :: 0 <= i < |t| && t[i].code == code != 0 ==> exists j :: 0 <= j < i && t[j].code == 0 {
      FindNone(t, code);
    }
    UsedHasHandler(t);
    assert Poll(t, Poll(t, s, p), p').replies == s.replies + [Reply(s.address, Answer(t, p.rcvFrame, p'))];
  }

  /** The slot that `Find` gives, by what is in the table. */
  lemma {:induction false} FindIs(t: seq<Slot>, code: nat, i: nat, k: nat)
    requires i <= k < |t| && t[k].code == code != 0 && forall j :: i <= j < k ==> t[j].code != 0 && t[j].code != code
    ensures Find(t, code, i) == k
    decreases k - i
  {
    if i < k {
      FindIs(t, code, i + 1, k);
    }
  }

  lemma FindNone(t: seq<Slot>, code: nat)
    requires forall i :: 0 <= i < |t| && t[i].code == code != 0 ==> exists j :: 0 <= j < i && t[j].code == 0
    ensures Find(t, code, 0) == |t|
  {
    hide Find;
    if code != 0 {
      ServedIff(t, code, 0);
    }
  }

  /** A broadcast is executed all the same: the handler's response is what the buffer
      holds afterwards. Other events change nothing. */
  lemma SilentPolls(t: seq<Slot>, s: State, p: Port)
    requires Consistent(t) && s.enabled
    ensures s.pending == Some(Ready) || s.pending == Some(FrameSent) ==> Poll(t, s, p) == s.(pending := None)
    ensures s.pending == Some(Execute) && s.rcvAddress == 0 ==>
              var s' := Poll(t, s, p);
              && s'.replies == s.replies && s'.pending == None
              && (forall i :: 0 <= i < |t| && t[i].code == s.frame.code != 0
                              && (forall j :: 0 <= j < i ==> t[j].code != 0 && t[j].code != s.frame.code)
                    ==> t[i].handler.Some? && s'.frame == p.handle(t[i].handler.value, s.frame).pdu)
  {
    hide Find, Consistent;
    var code := s.frame.code;
    forall i | 0 <= i < |t| && t[i].code == code != 0 && (forall j :: 0 <= j < i ==> t[j].code != 0 && t[j].code != code)
      ensures Find(t, code, 0) == i
    {
      FindIs(t, code, 0, i);
    }
    UsedHasHandler(t);
  }

  lemma UsedHasHandler(t: seq<Slot>)
    requires Consistent(t)
    ensures forall i :: 0 <= i < |t| && t[i].code != 0 ==> t[i].handler.Some?
  {
  }

  /** An error reply can be told from the request it answers. */
  lemma ErrorCodeSetsBit(code: nat)
    requires code < 256
    ensures ErrorCode(code) / MB_FUNC_ERROR == 1 && ErrorCode(code) % MB_FUNC_ERROR == code % MB_FUNC_ERROR
  {
  }

  // ----- whole runs -----

  /** What happens to a slave: a registration, enabling or disabling, a poll, or an event
      from the port. The port holds one event, and a second one takes its place. */
  datatype Step = Registering(request: Request) | Switching(on: bool) | Polling(port: Port) | Posting(event: Event)

  datatype World = World(table: seq<Slot>, slave: State)

  function Do(w: World, step: Step): (r: World)
    requires Consistent(w.table)
    ensures Consistent(r.table)
  {
    match step
    case Registering(q) =>
      StaysConsistent(w.table, [q]);
      assert [q][..0] == [];
      w.(table := RegisterAll(w.table, [q]))
    case Switching(on) => w.(slave := w.slave.(enabled := on))
    case Polling(p) => w.(slave := Poll(w.table, w.slave, p))
    case Posting(e) => w.(slave := w.slave.(pending := Some(e)))
  }

  function Run(w: World, steps: seq<Step>): (r: World)
    requires Consistent(w.table)
    ensures Consistent(r.table)
  {
    if steps == [] then w else Do(Run(w, steps[..|steps| - 1]), steps[|steps| - 1])
  }

  /** The frames that are still to be answered. */
  function Waiting(s: State): nat {
    if s.pending == Some(FrameReceived) || s.pending == Some(Execute) then 1 else 0
  }

  /** The frames that have come in. */
  function Arrived(steps: seq<Step>): nat {
    if steps == [] then 0
    else Arrived(steps[..|steps| - 1]) + if steps[|steps| - 1] == Posting(FrameReceived) then 1 else 0
  }

  /** This poll ends a frame without a reply: it is broken, for another slave, or a
      broadcast that is now executed. */
  predicate Silences(s: State, p: Port) {
    && s.enabled
    && ((s.pending == Some(FrameReceived) && !Accepts(s, p))
        || (s.pending == Some(Execute) && s.rcvAddress == MB_ADDRESS_BROADCAST))
  }

  /** How many frames have ended without a reply. */
  function Silenced(w: World, steps: seq<Step>): nat
    requires Consistent(w.table)
  {
    if steps == [] then 0
    else
      var before, last := steps[..|steps| - 1], steps[|steps| - 1];
      Silenced(w, before) + if last.Polling? && Silences(Run(w, before).slave, last.port) then 1 else 0
  }

  /** How many frames were lost because another event took their place. */
  function Overwritten(w: World, steps: seq<Step>): nat
    requires Consistent(w.table)
  {
    if steps == [] then 0
    else
      var before, last := steps[..|steps| - 1], steps[|steps| - 1];
      Overwritten(w, before) + if last.Posting? then Waiting(Run(w, before).slave) else 0
  }

  /** A poll answers each frame it ends exactly once, as the slave itself, or ends it
      silently. */
  lemma PollAccounts(t: seq<Slot>, s: State, p: Port)
    requires Consistent(t)
    ensures var s' := Poll(t, s, p);
            && |s'.replies| + Waiting(s') + (if Silences(s, p) then 1 else 0) == |s.replies| + Waiting(s)
            && s.replies <= s'.replies && s'.address == s.address
            && forall i :: |s.replies| <= i < |s'.replies| ==> s'.replies[i].address == s.address
  {
    hide Answer, HandledOf, Consistent;
  }

  /** A new slave: nothing is pending and nothing has been sent. */
  ghost predicate Fresh(w: World) {
    Consistent(w.table) && w.slave.pending == None && w.slave.replies == []
  }

  /** Only the poll loop asks for an execution. */
  ghost predicate FromPort(steps: seq<Step>) {
    forall i :: 0 <= i < |steps| ==> steps[i] != Posting(Execute)
  }

  /** However registrations, removals, polls and events are interleaved, every frame
      that has come in has been answered once, has ended silently, is waiting, or was
      lost when another event took its place. */
  lemma {:induction false} EveryFrameAccounted(w: World, steps: seq<Step>)
    requires Fresh(w) && FromPort(steps)
    ensures var s := Run(w, steps).slave;
            && |s.replies| + Silenced(w, steps) + Waiting(s) + Overwritten(w, steps) == Arrived(steps)
            && s.address == w.slave.address
            && forall i :: 0 <= i < |s.replies| ==> s.replies[i].address == s.address
  {
    hide Poll, Consistent, RegisterAll;
    if steps != [] {
      var before, step := steps[..|steps| - 1], steps[|steps| - 1];
      EveryFrameAccounted(w, before);
      var w1 := Run(w, before);
      if step.Polling? {
        PollAccounts(w1.table, w1.slave, step.port);
      }
    }
  }

  /** The port posts only while no event is pending. */
  ghost predicate Patient(w: World, steps: seq<Step>)
    requires Consistent(w.table)
  {
    forall i :: 0 <= i < |steps| && steps[i].Posting? ==> Run(w, steps[..i]).slave.pending == None
  }

  /** Then no frame is lost. */
  lemma {:induction false} NothingLost(w: World, steps: seq<Step>)
    requires Consistent(w.table) && Patient(w, steps)
    ensures Overwritten(w, steps) == 0
  {
    hide Run, Consistent;
    if steps != [] {
      var n := |steps| - 1;
      forall i | 0 <= i < n && steps[..n][i].Posting?
        ensures Run(w, steps[..n][..i]).slave.pending == None
      {
        assert steps[..n][..i] == steps[..i];
      }
      NothingLost(w, steps[..n]);
    }
  }

  /** What was received by the last poll that accepted a frame. */
  function LastAccepted(w: World, steps: seq<Step>): Option<Port>
    requires Consistent(w.table)
  {
    if steps == [] then None
    else
      var before, last := steps[..|steps| - 1], steps[|steps| - 1];
      var s := Run(w, before).slave;
      if last.Polling? && s.enabled && s.pending == Some(FrameReceived) && Accepts(s, last.port) then Some(last.port)
      else LastAccepted(w, before)
  }

  /** In every run, when a request is about to be executed the buffer holds the frame
      that was accepted last, and its address is the slave's own or the broadcast
      address: no other slave's request is ever answered, and no old one. */
  lemma {:induction false} ExecutesAccepted(w: World, steps: seq<Step>)
    requires Fresh(w) && FromPort(steps)
    ensures var s, last := Run(w, steps).slave, LastAccepted(w, steps);
            && s.address == w.slave.address
            && (s.pending == Some(Execute) ==>
                  && last.Some? && s.frame == last.value.rcvFrame && s.rcvAddress == last.value.rcvAddress
                  && (s.rcvAddress == s.address || s.rcvAddress == MB_ADDRESS_BROADCAST))
  {
    hide Answer, HandledOf, Consistent, RegisterAll;
    if steps != [] {
      ExecutesAccepted(w, steps[..|steps| - 1]);
    }
  }

  /** So every reply that a run adds is the answer to the frame accepted last. */
  lemma RepliesAnswerAccepted(w: World, steps: seq<Step>, p: Port)
    requires Fresh(w) && FromPort(steps)
    ensures var w1, last := Run(w, steps), LastAccepted(w, steps);
            var s, s' := w1.slave, Poll(w1.table, w1.slave, p);
            if s.enabled && s.pending == Some(Execute) && s.rcvAddress != MB_ADDRESS_BROADCAST
            then last.Some? && last.value.rcvAddress == s.address
                 && s'.replies == s.replies + [Reply(s.address, Answer(w1.table, last.value.rcvFrame, p))]
            else s'.replies == s.replies
  {
    hide Answer, HandledOf, Consistent, Run, LastAccepted;
    ExecutesAccepted(w, steps);
  }

  // ----- the code -----

  datatype SlaveState = Enabled | Disabled | NotInitialized

  class Slave {
    const handlers: array<Slot>
    var state: SlaveState
    var address: nat
    var rcvAddress: nat
    var frame: Pdu
    var pending: Option<Event>
    var replies: seq<Reply>

    constructor (slots: nat, frame: Pdu)
      ensures fresh(handlers) && handlers.Length == slots && Packed(handlers[..]) && Valid() && state == NotInitialized
      ensures pending == None && replies == []
    {
      handlers := new Slot[slots](_ => Slot(0, None));
      state, address, rcvAddress, this.frame, pending, replies := NotInitialized, 0, 0, frame, None, [];
    }

    ghost predicate Valid()
      reads this
    {
      state != NotInitialized ==> MB_ADDRESS_MIN <= address <= MB_ADDRESS_MAX
    }

    ghost function View(): State
      reads this
    {
      State(state == Enabled, address, rcvAddress, frame, pending, replies)
    }

    /** `initOk` and `portOk` are the answers of the frame and the event layer. */
    method Init(slaveAddress: nat, initOk: bool, portOk: bool) returns (status: Status)
      requires Valid()
      modifies `address, `state, `pending
      ensures Valid()
      ensures status == if !(1 <= slaveAddress <= 247) || !initOk then MB_EINVAL else if !portOk then MB_EPORTERR else MB_ENOERR
      ensures state == if status == MB_ENOERR then Disabled else old(state)
      ensures pending == if status == MB_ENOERR then None else old(pending)
      ensures address == if 1 <= slaveAddress <= 247 then slaveAddress else old(address)
    {
      status := MB_ENOERR;
      if slaveAddress == MB_ADDRESS_BROADCAST || slaveAddress < MB_ADDRESS_MIN || slaveAddress > MB_ADDRESS_MAX {
        status := MB_EINVAL;
      } else {
        address := slaveAddress;
        if !initOk {
          status := MB_EINVAL;
        }
        if status == MB_ENOERR {
          if !portOk {
            status := MB_EPORTERR;
          } else {
            pending := None;
            state := Disabled;
          }
        }
      }
    }

    method Enable() returns (status: Status)
      requires Valid()
      modifies `state
      ensures Valid() && state == (if old(state) == Disabled then Enabled else old(state))
      ensures status == if old(state) == Disabled then MB_ENOERR else MB_EILLSTATE
    {
      status := MB_EILLSTATE;
      if state == Disabled {
        state := Enabled;
        status := MB_ENOERR;
      }
    }

    method Disable() returns (status: Status)
      requires Valid()
      modifies `state
      ensures Valid() && state == (if old(state) == Enabled then Disabled else old(state))
      ensures status == if old(state) == NotInitialized then MB_EILLSTATE else MB_ENOERR
    {
      if state == Enabled {
        state := Disabled;
        status := MB_ENOERR;
      } else if state == Disabled {
        status := MB_ENOERR;
      } else {
        status := MB_EILLSTATE;
      }
    }

    /** An event from the port takes the place of one that is still pending. */
    method PostEvent(event: Event)
      requires Valid()
      modifies `pending
      ensures Valid() && pending == Some(event)
    {
      pending := Some(event);
    }

    method PollSlave(p: Port) returns (status: Status)
      requires Valid() && Consistent(handlers[..])
      modifies this
      ensures Valid() && state == old(state)
      ensures View() == Poll(handlers[..], old(View()), p)
      ensures status == if state == Enabled then MB_ENOERR else MB_EILLSTATE
    {
      if state != Enabled {
        return MB_EILLSTATE;
      }
      status := MB_ENOERR;
      if pending.Some? {
        var event := pending.value;
        pending := None;
        match event
        case Ready =>
        case FrameSent =>
        case FrameReceived =>
          frame := p.rcvFrame;
          if p.rcvOk {
            rcvAddress := p.rcvAddress;
            if rcvAddress == address || rcvAddress == MB_ADDRESS_BROADCAST {
              pending := Some(Execute);
            }
          }
        case Execute =>
          var h := Serve(frame, p);
          var code := frame.code;
          frame := h.pdu;
          if rcvAddress != MB_ADDRESS_BROADCAST {
            if h.exception != MB_EX_NONE {
              frame := Pdu(ErrorCode(code), [h.exception]);
            }
            replies := replies + [Reply(address, frame)];
          }
      }
    }

    method RegisterCB(code: nat, handler: Option<nat>) returns (status: Status)
      modifies handlers
      ensures Register(old(handlers[..]), code, handler) == Registered(handlers[..], status)
    {
      if 0 < code <= 127 {
        var i := 0;
        if handler.Some? {
          while i < handlers.Length
            invariant 0 <= i <= handlers.Length && handlers[..] == old(handlers[..])
            invariant FreeFor(handlers[..], handler.value, 0) == FreeFor(handlers[..], handler.value, i)
          {
            if handlers[i].handler == None || handlers[i].handler == handler {
              handlers[i] := Slot(code, handler);
              break;
            }
            i := i + 1;
          }
          status := if i != handlers.Length then MB_ENOERR else MB_ENORES;
        } else {
          while i < handlers.Length
            invariant 0 <= i <= handlers.Length && handlers[..] == old(handlers[..])
            invariant FirstOf(handlers[..], code, 0) == FirstOf(handlers[..], code, i)
          {
            if handlers[i].code == code {
              handlers[i] := Slot(0, None);
              break;
            }
            i := i + 1;
          }
          status := MB_ENOERR;
        }
      } else {
        status := MB_EINVAL;
      }
    }

    ghost function Whole(): World
      reads this, handlers
    {
      World(handlers[..], View())
    }

    method RunStep(step: Step)
      requires Valid() && state != NotInitialized && Consistent(handlers[..])
      modifies this, handlers
      ensures Valid() && state != NotInitialized && Whole() == Do(old(Whole()), step)
    {
      hide Poll, Register, Consistent;
      match step
      case Registering(q) =>
        assert [q][..0] == [];
        assert RegisterAll(handlers[..], [q]) == Register(RegisterAll(handlers[..], []), q.code, q.handler).table;
        var _ := RegisterCB(q.code, q.handler);
      case Switching(on) =>
        if on {
          var _ := Enable();
        } else {
          var _ := Disable();
        }
      case Polling(p) =>
        var _ := PollSlave(p);
        assert handlers[..] == old(handlers[..]);
      case Posting(e) =>
        PostEvent(e);
        assert handlers[..] == old(handlers[..]);
    }

    /** Once initialized, the slave goes through every sequence of steps as specified. */
    method RunSteps(steps: seq<Step>)
      requires Valid() && state != NotInitialized && Consistent(handlers[..])
      modifies this, handlers
      ensures Valid() && state != NotInitialized && Whole() == Run(old(Whole()), steps)
    {
      hide Do, Consistent;
      for n := 0 to |steps|
        invariant Valid() && state != NotInitialized && Whole() == Run(old(Whole()), steps[..n])
      {
        assert steps[..n + 1][..n] == steps[..n];
        RunStep(steps[n]);
      }
      assert steps[..|steps|] == steps;
    }

    /** Serves the request in `frame`; a null handler is never called. */
    method Serve(frame: Pdu, p: Port) returns (h: Handled)
      requires Consistent(handlers[..])
      ensures h == HandledOf(handlers[..], frame, p)
    {
      var code := frame.code;
      var i := 0;
      while i < handlers.Length
        invariant 0 <= i <= handlers.Length
        invariant Find(handlers[..], code, 0) == Find(handlers[..], code, i)
      {
        if handlers[i].code == 0 {
          break;
        } else if handlers[i].code == code {
          return p.handle(handlers[i].handler.value, frame);
        }
        i := i + 1;
      }
      h := Handled(MB_EX_ILLEGAL_FUNCTION, frame);
    }
  }
}
