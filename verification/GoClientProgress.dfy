/**
  * What the Go client's calls come to when nothing fails: from any state of any run in which the lock is
  * free and nothing is owed, a call connects if it must, and ends with the answer to its own request.
  */
module GoClientProgress {
  import opened Lists
  import opened GoClient
  import opened GoClientSafety
  import GoClientStart

  // ---- Connecting ----

  /** Connect dials, the server greets, and the handshake is read. */
  function ConnectSteps(g: GoroutineId, c: ConnId): seq<Action> {
    [LockAndDial(g, true), ServerGreets(c, true), ReadHandshake(g, true)]
  }

  lemma RunThree(s: State, a: Action, b: Action, c: Action)
    ensures Run(s, [a, b, c]) == Step(Step(Step(s, a), b), c)
  {
    RunAppend(s, [], a);
    RunAppend(s, [a], b);
    RunAppend(s, [a, b], c);
    assert [] + [a] == [a] && [a] + [b] == [a, b] && [a, b] + [c] == [a, b, c];
  }

  /** With a good handshake the connection stays, the lock is free again, and a call that asked for it goes on. */
  lemma ConnectSucceeds(s: State, g: GoroutineId)
    requires Inv(s) && s.lock.None? && s.ws.None? && PcOf(s, g).Connecting?
    ensures var t := Run(s, ConnectSteps(g, |s.conns|));
            && t == s.(ws := Some(|s.conns|), conns := s.conns + [Conn(true, [], [])], pcs := t.pcs)
            && PcOf(t, g) == (if PcOf(s, g).thenSend then SendWaiting else Idle)
  {
    RunThree(s, LockAndDial(g, true), ServerGreets(|s.conns|, true), ReadHandshake(g, true));
    var t := Dialed(s, g);
    GreetedAndRead(t, g, |s.conns|);
  }

  lemma Dialed(s: State, g: GoroutineId) returns (t: State)
    requires s.lock.None? && s.ws.None? && PcOf(s, g).Connecting?
    ensures t == Step(s, LockAndDial(g, true))
    ensures t == s.(lock := Some(g), ws := Some(|s.conns|), conns := s.conns + [Conn(false, [], [])],
                    pcs := s.pcs[g := AwaitingHandshake(PcOf(s, g).thenSend)])
  {
    t := Step(s, LockAndDial(g, true));
  }

  lemma GreetedAndRead(s: State, g: GoroutineId, c: ConnId)
    requires s.lock == Some(g) && s.ws == Some(c) && c < |s.conns| && s.conns[c] == Conn(false, [], [])
    requires PcOf(s, g).AwaitingHandshake?
    ensures var t := Step(Step(s, ServerGreets(c, true)), ReadHandshake(g, true));
            t == s.(lock := None, conns := s.conns[c := Conn(true, [], [])],
                    pcs := s.pcs[g := if PcOf(s, g).thenSend then SendWaiting else Idle])
  {
    var greeted := Step(s, ServerGreets(c, true));
    assert [] + [Handshake(true)] == [Handshake(true)] && [Handshake(true)][1..] == [];
    assert greeted == s.(conns := s.conns[c := Conn(true, [], [Handshake(true)])]);
    assert s.conns[c := Conn(true, [], [Handshake(true)])][c := Conn(true, [], [])] == s.conns[c := Conn(true, [], [])];
  }

  // ---- Reading ----

  /** The steps of a call from its first read to its response: one for each message, two for an event it handles. */
  function Turns(g: GoroutineId, hasHandler: bool, inbox: seq<Message>): seq<Action> {
    if inbox == [] then []
    else if inbox[0].Response? then [Read(g, true)]
    else EventTurn(g, hasHandler, inbox[0]) + Turns(g, hasHandler, inbox[1..])
  }

  /** The call has returned the answer to its own request, and the connection is as good as before. */
  ghost predicate Succeeded(before: State, t: State, g: GoroutineId, c: ConnId, id: CallId) {
    && Inv(t) && t.log == before.log + [Success(id, Response(WireSeq(id), id))]
    && t.lock.None? && PcOf(t, g).Idle? && t.hasHandler == before.hasHandler
    && t.ws == Some(c) && c < |t.conns| && Outstanding(t.conns[c]) == []
  }

  lemma ReadsItsAnswer(s: State, g: GoroutineId, c: ConnId, id: CallId)
    requires Inv(s) && PcOf(s, g) == Reading(id, Some(c)) && c < |s.conns| && Outstanding(s.conns[c]) == [id]
    requires s.conns[c].inbox != [] && s.conns[c].inbox[0].Response?
    ensures Succeeded(s, Step(s, Read(g, true)), g, c, id)
  {
    StepKeepsInv(s, Read(g, true));
    HeadOfInbox(s, g, s.conns[c]);
    OutstandingRead(s.conns[c]);
  }

  /** The steps for one event. */
  function EventTurn(g: GoroutineId, hasHandler: bool, m: Message): seq<Action> {
    [Read(g, true)] + if hasHandler && m == Event(true) then [HandlerReturns(g)] else []
  }

  lemma ThroughEvent(s: State, g: GoroutineId, c: ConnId, id: CallId) returns (t: State)
    requires Inv(s) && PcOf(s, g) == Reading(id, Some(c)) && c < |s.conns|
    requires s.conns[c].inbox != [] && s.conns[c].inbox[0].Event?
    ensures t == Run(s, EventTurn(g, s.hasHandler, s.conns[c].inbox[0])) && Inv(t)
    ensures t.log == s.log && t.hasHandler == s.hasHandler && t.issued == s.issued
    ensures PcOf(t, g) == Reading(id, Some(c))
    ensures t.conns == s.conns[c := s.conns[c].(inbox := s.conns[c].inbox[1..])]
  {
    t := GoClientStart.ReadsEvent(s, g, c, id);
    if s.hasHandler && s.conns[c].inbox[0] == Event(true) {
      t := GoClientStart.HandlerEnds(t, g, c, id);
      RunTwo(s, Read(g, true), HandlerReturns(g));
      assert [Read(g, true)] + [HandlerReturns(g)] == [Read(g, true), HandlerReturns(g)];
    } else {
      RunOne(s, Read(g, true));
      assert [Read(g, true)] + [] == [Read(g, true)];
    }
  }

  lemma RunOne(s: State, a: Action)
    ensures Run(s, [a]) == Step(s, a)
  {
    RunAppend(s, [], a);
    assert [] + [a] == [a];
  }

  lemma {:induction false} TurnsSucceed(s: State, g: GoroutineId, c: ConnId, id: CallId)
    requires Inv(s) && PcOf(s, g) == Reading(id, Some(c)) && c < |s.conns|
    requires Outstanding(s.conns[c]) == [id] && Answered(s.conns[c].inbox) != []
    ensures var t := Run(s, Turns(g, s.hasHandler, s.conns[c].inbox));
            Succeeded(s, t, g, c, id) && t.issued == s.issued
    decreases |s.conns[c].inbox|
  {
    var conn := s.conns[c];
    HeadOfInbox(s, g, conn);
    if conn.inbox[0].Response? {
      ReadsItsAnswer(s, g, c, id);
      RunOne(s, Read(g, true));
    } else {
      OutstandingRead(conn);
      var t := ThroughEvent(s, g, c, id);
      TurnsSucceed(t, g, c, id);
      RunConcat(s, EventTurn(g, s.hasHandler, conn.inbox[0]), Turns(g, s.hasHandler, conn.inbox[1..]));
    }
  }

  // ---- The server's part ----

  function Pushes(c: ConnId, events: seq<bool>): seq<Action> {
    if events == [] then [] else [ServerPushes(c, events[0])] + Pushes(c, events[1..])
  }

  function EventsOf(events: seq<bool>): seq<Message> {
    if events == [] then [] else [Event(events[0])] + EventsOf(events[1..])
  }

  lemma {:induction false} PushesArrive(s: State, c: ConnId, events: seq<bool>)
    requires c < |s.conns| && s.conns[c].greeted
    ensures Run(s, Pushes(c, events)) ==
            s.(conns := s.conns[c := s.conns[c].(inbox := s.conns[c].inbox + EventsOf(events))])
    decreases |events|
  {
    var conn := s.conns[c];
    if events == [] {
      assert conn.inbox + [] == conn.inbox && s.conns[c := conn] == s.conns;
    } else {
      var t := Step(s, ServerPushes(c, events[0]));
      RunCons(s, ServerPushes(c, events[0]), Pushes(c, events[1..]));
      PushesArrive(t, c, events[1..]);
      Associative(conn.inbox, [Event(events[0])], EventsOf(events[1..]));
    }
  }

  lemma {:induction false} NoAnswerAmongEvents(events: seq<bool>)
    ensures Answered(EventsOf(events)) == []
  {
    if events != [] { NoAnswerAmongEvents(events[1..]); }
  }

  /** The server's events and then its answer to the call that waits for it. */
  lemma AnswerArrives(s: State, c: ConnId, id: CallId, events: seq<bool>)
    requires Inv(s) && c < |s.conns| && s.conns[c].greeted && Outstanding(s.conns[c]) == s.conns[c].owed == [id]
    ensures var t := Run(s, Pushes(c, events) + [ServerAnswers(c)]);
            var inbox := s.conns[c].inbox + EventsOf(events) + [Response(WireSeq(id), id)];
            && Inv(t) && t == s.(conns := s.conns[c := Conn(true, [], inbox)])
            && Outstanding(t.conns[c]) == [id] && Answered(inbox) != []
  {
    var conn := s.conns[c];
    var pushed := s.(conns := s.conns[c := conn.(inbox := conn.inbox + EventsOf(events))]);
    PushesArrive(s, c, events);
    RunAppend(s, Pushes(c, events), ServerAnswers(c));
    RunKeepsInv(s, Pushes(c, events) + [ServerAnswers(c)]);
    var t := Step(pushed, ServerAnswers(c));
    var inbox := conn.inbox + EventsOf(events) + [Response(WireSeq(id), id)];
    assert pushed.conns[c].owed[1..] == [];
    assert t.conns == s.conns[c := Conn(true, [], inbox)];
    AnsweredConcat(conn.inbox, EventsOf(events));
    NoAnswerAmongEvents(events);
    assert Answered(conn.inbox) == [];
    AnsweredConcat(conn.inbox + EventsOf(events), [Response(WireSeq(id), id)]);
    assert Answered([Response(WireSeq(id), id)]) == [id] + Answered([]);
  }

  // ---- A whole call ----

  /** The request goes out, events and the answer come in, and the call reads on until it has it. */
  function ExchangeSteps(s: State, g: GoroutineId, c: ConnId, delivered: bool, events: seq<bool>): seq<Action>
    requires c < |s.conns|
  {
    [LockAndIssue(g, true), Write(g, true, delivered)]
    + ((Pushes(c, events) + [ServerAnswers(c)])
       + Turns(g, s.hasHandler, s.conns[c].inbox + EventsOf(events) + [Response(WireSeq(s.issued), s.issued)]))
  }

  lemma Sent(s: State, g: GoroutineId, c: ConnId, delivered: bool) returns (t: State)
    requires Inv(s) && s.lock.None? && PcOf(s, g).SendWaiting? && s.ws == Some(c) && c < |s.conns|
    requires Outstanding(s.conns[c]) == []
    ensures t == Run(s, [LockAndIssue(g, true), Write(g, true, delivered)]) && Inv(t)
    ensures t.log == s.log && t.hasHandler == s.hasHandler && t.issued == s.issued + 1
    ensures PcOf(t, g) == Reading(s.issued, Some(c)) && t.conns == s.conns[c := s.conns[c].(owed := [s.issued])]
    ensures s.conns[c].greeted && Outstanding(t.conns[c]) == [s.issued]
  {
    var issued := GoClientStart.Issues(s, g);
    t := Written(issued, g, c, s.issued, delivered);
    RunTwo(s, LockAndIssue(g, true), Write(g, true, delivered));
  }

  lemma RunTwo(s: State, a: Action, b: Action)
    ensures Run(s, [a, b]) == Step(Step(s, a), b)
  {
    RunOne(s, a);
    RunAppend(s, [a], b);
    assert [a] + [b] == [a, b];
  }

  lemma Written(s: State, g: GoroutineId, c: ConnId, id: CallId, delivered: bool) returns (t: State)
    requires Inv(s) && PcOf(s, g) == Writing(id, c) && c < |s.conns| && Outstanding(s.conns[c]) == []
    ensures t == Step(s, Write(g, true, delivered)) && Inv(t)
    ensures t.log == s.log && t.hasHandler == s.hasHandler && t.issued == s.issued
    ensures PcOf(t, g) == Reading(id, Some(c)) && t.conns == s.conns[c := s.conns[c].(owed := [id])]
    ensures s.conns[c].greeted && Outstanding(t.conns[c]) == [id]
  {
    t := Step(s, Write(g, true, delivered));
    StepKeepsInv(s, Write(g, true, delivered));
    assert s.conns[c].owed == [] && [] + [id] == [id];
    assert HolderPc(s) == PcOf(s, g);
  }

  lemma ExchangeSucceeds(s: State, g: GoroutineId, c: ConnId, delivered: bool, events: seq<bool>)
    requires Inv(s) && s.lock.None? && PcOf(s, g).SendWaiting? && s.ws == Some(c) && c < |s.conns|
    requires Outstanding(s.conns[c]) == []
    ensures var t := Run(s, ExchangeSteps(s, g, c, delivered, events));
            Succeeded(s, t, g, c, s.issued) && t.issued == s.issued + 1
  {
    var send, serve := [LockAndIssue(g, true), Write(g, true, delivered)], Pushes(c, events) + [ServerAnswers(c)];
    var inbox := s.conns[c].inbox + EventsOf(events) + [Response(WireSeq(s.issued), s.issued)];
    var t := Sent(s, g, c, delivered);
    AnswerArrives(t, c, s.issued, events);
    var u := Run(t, serve);
    TurnsSucceed(u, g, c, s.issued);
    RunConcat(t, serve, Turns(g, s.hasHandler, inbox));
    RunConcat(s, send, serve + Turns(g, s.hasHandler, inbox));
  }

  /** A request from its start: the connection is checked, and made if there is none. */
  function CallSteps(s: State, g: GoroutineId, delivered: bool, events: seq<bool>): seq<Action>
    requires s.ws.Some? ==> s.ws.value < |s.conns|
  {
    var c := if s.ws.Some? then s.ws.value else |s.conns|;
    var connected := s.(conns := if s.ws.Some? then s.conns else s.conns + [Conn(true, [], [])]);
    [StartSend(g), CheckConnected(g)]
    + ((if s.ws.Some? then [] else ConnectSteps(g, c)) + ExchangeSteps(connected, g, c, delivered, events))
  }

  lemma Checked(s: State, g: GoroutineId) returns (t: State)
    requires Inv(s) && s.lock.None? && PcOf(s, g).Idle?
    ensures t == Run(s, [StartSend(g), CheckConnected(g)]) && Inv(t) && t == s.(pcs := t.pcs)
    ensures PcOf(t, g) == if s.ws.Some? then SendWaiting else Connecting(true)
  {
    RunAppend(s, [], StartSend(g));
    RunAppend(s, [StartSend(g)], CheckConnected(g));
    assert [] + [StartSend(g)] == [StartSend(g)];
    assert [StartSend(g)] + [CheckConnected(g)] == [StartSend(g), CheckConnected(g)];
    t := Run(s, [StartSend(g), CheckConnected(g)]);
    RunKeepsInv(s, [StartSend(g), CheckConnected(g)]);
  }

  /**
    * Progress. In any run, with or without a handler, from any moment at which the lock is free and the open
    * connection, if there is one, owes nothing: a goroutine that starts a request now, connecting first when
    * there is no connection, and past any number of events of any kind, gets the answer to its own request,
    * and leaves the client ready for the next.
    */
  lemma CallSucceeds(hasHandler: bool, earlier: seq<Action>, g: GoroutineId, delivered: bool, events: seq<bool>)
    requires var s := Run(Start(hasHandler), earlier);
             && s.lock.None? && PcOf(s, g).Idle?
             && (s.ws.Some? ==> s.ws.value < |s.conns| && Outstanding(s.conns[s.ws.value]) == [])
    ensures var s := Run(Start(hasHandler), earlier);
            var t := Run(s, CallSteps(s, g, delivered, events));
            Succeeded(s, t, g, if s.ws.Some? then s.ws.value else |s.conns|, s.issued) && t.issued == s.issued + 1
  {
    var s := Run(Start(hasHandler), earlier);
    StartInv(hasHandler);
    RunKeepsInv(Start(hasHandler), earlier);
    CallSucceedsFrom(s, g, delivered, events);
  }

  lemma CallSucceedsFrom(s: State, g: GoroutineId, delivered: bool, events: seq<bool>)
    requires Inv(s) && s.lock.None? && PcOf(s, g).Idle?
    requires s.ws.Some? ==> s.ws.value < |s.conns| && Outstanding(s.conns[s.ws.value]) == []
    ensures var t := Run(s, CallSteps(s, g, delivered, events));
            Succeeded(s, t, g, if s.ws.Some? then s.ws.value else |s.conns|, s.issued) && t.issued == s.issued + 1
  {
    var c := if s.ws.Some? then s.ws.value else |s.conns|;
    var connect := if s.ws.Some? then [] else ConnectSteps(g, c);
    var t := Checked(s, g);
    var u := Run(t, connect);
    RunKeepsInv(t, connect);
    if s.ws.None? {
      ConnectSucceeds(t, g);
    }
    var exchange := ExchangeSteps(u, g, c, delivered, events);
    ExchangeSucceeds(u, g, c, delivered, events);
    RunConcat(t, connect, exchange);
    RunConcat(s, [StartSend(g), CheckConnected(g)], connect + exchange);
  }

  /** Connect on its own, in any run from any moment at which the lock is free and there is no connection. */
  lemma ConnectCallSucceeds(hasHandler: bool, earlier: seq<Action>, g: GoroutineId)
    requires var s := Run(Start(hasHandler), earlier); s.lock.None? && PcOf(s, g).Idle? && s.ws.None?
    ensures var s := Run(Start(hasHandler), earlier);
            var t := Run(s, [StartConnect(g)] + ConnectSteps(g, |s.conns|));
            t == s.(ws := Some(|s.conns|), conns := s.conns + [Conn(true, [], [])], pcs := t.pcs) && PcOf(t, g) == Idle
  {
    var s := Run(Start(hasHandler), earlier);
    StartInv(hasHandler);
    RunKeepsInv(Start(hasHandler), earlier);
    StepKeepsInv(s, StartConnect(g));
    ConnectSucceeds(Step(s, StartConnect(g)), g);
    RunCons(s, StartConnect(g), ConnectSteps(g, |s.conns|));
  }

  // ---- When something fails ----

  /** One call has returned: the lock is free, its goroutine is done, and a broken connection is dropped. */
  ghost predicate Returned(s: State, t: State) {
    && |t.log| == |s.log| + 1 && t.log[..|s.log|] == s.log && t.lock.None?
    && s.lock.Some? && PcOf(t, s.lock.value).Idle?
    && HasNumber(PcOf(s, s.lock.value)) && t.log[|s.log|].id == PcOf(s, s.lock.value).id
    && (t.log[|s.log|].TransportFailure? ==> t.ws.None?)
    && (t.log[|s.log|].NilConnection? <==> s.ws.None?)
  }

  lemma WriteReturns(s: State, g: GoroutineId, ok: bool, delivered: bool)
    requires LockInv(s) && ConnInv(s)
    ensures var t := StepWrite(s, g, ok, delivered); t.log == s.log || Returned(s, t)
  {
  }

  lemma ReadReturns(s: State, g: GoroutineId, ok: bool)
    requires LockInv(s) && ConnInv(s)
    ensures var t := StepRead(s, g, ok); t.log == s.log || Returned(s, t)
  {
  }

  /**
    * However a call returns, the lock is free then and the call's goroutine is done; after a failure of the
    * transport the client has no connection either, so nobody reads what the call left behind.
    */
  lemma ReturnsFreeTheLock(s: State, a: Action)
    requires Inv(s) && Step(s, a).log != s.log
    ensures Returned(s, Step(s, a))
  {
    match a
    case Write(g, ok, delivered) => WriteReturns(s, g, ok, delivered);
    case Read(g, ok) => ReadReturns(s, g, ok);
    case _ =>
  }

  /** A write or a read that fails always ends the call like that. */
  lemma FailuresEndTheCall(s: State, g: GoroutineId, delivered: bool)
    requires Inv(s)
    ensures PcOf(s, g).Writing? ==> Step(s, Write(g, false, delivered)).log == s.log + [TransportFailure(PcOf(s, g).id)]
    ensures PcOf(s, g).Reading? && s.ws.Some? ==>
      Step(s, Read(g, false)).log == s.log + [TransportFailure(PcOf(s, g).id)]
  {
  }
}
