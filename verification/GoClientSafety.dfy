/** What every step of the Go client's protocol keeps, and what that gives over whole runs. */
module GoClientSafety {
  import opened Lists
  import opened GoClient

  // ---- The invariant ----

  predicate Holds(pc: Pc) { pc.AwaitingHandshake? || pc.Writing? || pc.Reading? }

  predicate HasNumber(pc: Pc) { pc.Writing? || pc.Reading? || pc.InHandler? }

  predicate Carries(pcs: map<GoroutineId, Pc>, g: GoroutineId, id: CallId) {
    g in pcs && HasNumber(pcs[g]) && pcs[g].id == id
  }

  ghost predicate Carried(pcs: map<GoroutineId, Pc>, id: CallId) {
    exists g :: Carries(pcs, g, id)
  }

  /** The lock belongs to exactly the goroutine that is at a step under the lock. */
  ghost predicate LockInv(s: State) {
    && (s.lock.Some? ==> s.lock.value in s.pcs && Holds(s.pcs[s.lock.value]))
    && forall g :: g in s.pcs && Holds(s.pcs[g]) ==> s.lock == Some(g)
  }

  /** A goroutine under the lock works on the connection the client holds now. */
  ghost predicate ConnInv(s: State) {
    && (s.ws.Some? ==> s.ws.value < |s.conns|)
    && forall g :: g in s.pcs ==>
         match s.pcs[g]
         case AwaitingHandshake(_) => s.ws.Some?
         case Writing(_, c) => s.ws == Some(c)
         case Reading(_, c) => s.ws == c
         case _ => true
  }

  /** `inflight` is in ascending order and lists exactly the numbers that goroutines carry, each carried once. */
  ghost predicate Flight(pcs: map<GoroutineId, Pc>, inflight: seq<CallId>, issued: nat) {
    && Ascending(inflight)
    && (forall id :: id in inflight ==> id < issued)
    && (forall g :: g in pcs && HasNumber(pcs[g]) ==> pcs[g].id in inflight)
    && (forall g, h :: g in pcs && h in pcs && HasNumber(pcs[g]) && HasNumber(pcs[h]) && g != h
                       ==> pcs[g].id != pcs[h].id)
    && (forall id :: id in inflight ==> Carried(pcs, id))
  }

  ghost predicate FlightInv(s: State) { Flight(s.pcs, s.inflight, s.issued) }

  function Answered(inbox: seq<Message>): seq<CallId> {
    if inbox == [] then []
    else (if inbox[0].Response? then [inbox[0].answers] else []) + Answered(inbox[1..])
  }

  /** The calls a connection still owes a response to the reader: answered but unread, then unanswered. */
  function Outstanding(conn: Conn): seq<CallId> { Answered(conn.inbox) + conn.owed }

  ghost predicate Honest(conn: Conn) {
    forall m :: m in conn.inbox && m.Response? ==> m.tag == WireSeq(m.answers)
  }

  ghost predicate NoHandshake(inbox: seq<Message>) {
    forall m :: m in inbox ==> !m.Handshake?
  }

  /** The step the lock's holder is at; `Idle` when the lock is free. */
  function HolderPc(s: State): Pc {
    if s.lock.Some? then PcOf(s, s.lock.value) else Idle
  }

  /** The handshake comes first on the open connection and is gone once Connect has returned. */
  ghost predicate GreetingInv(holder: Pc, conn: Conn) {
    if holder.AwaitingHandshake? then
      && Outstanding(conn) == []
      && if conn.greeted then conn.inbox != [] && conn.inbox[0].Handshake? && NoHandshake(conn.inbox[1..])
         else conn.inbox == []
    else conn.greeted && NoHandshake(conn.inbox)
  }

  /**
    * Responses owed on the open connection match calls in flight from the oldest up: the i-th of
    * them answers a call no older than the i-th call in flight. A call about to write is the newest.
    */
  ghost predicate DebtInv(holder: Pc, inflight: seq<CallId>, issued: nat, debt: seq<CallId>) {
    && Ascending(debt)
    && (forall id :: id in debt ==> id < issued)
    && if holder.Writing? then
         && holder.id == issued - 1 && inflight != [] && inflight[|inflight| - 1] == holder.id
         && (forall o :: o in debt ==> o < holder.id)
         && Below(inflight[..|inflight| - 1], debt)
       else Below(inflight, debt)
  }

  ghost predicate WireInv(s: State) {
    s.ws.Some? && s.ws.value < |s.conns| ==>
      var conn := s.conns[s.ws.value];
      && Honest(conn)
      && GreetingInv(HolderPc(s), conn)
      && DebtInv(HolderPc(s), s.inflight, s.issued, Outstanding(conn))
  }

  ghost predicate Inv(s: State) {
    LockInv(s) && ConnInv(s) && FlightInv(s) && WireInv(s)
  }

  // ---- Reading and extending the stream of messages ----

  lemma {:induction false} AnsweredConcat(a: seq<Message>, b: seq<Message>)
    ensures Answered(a + b) == Answered(a) + Answered(b)
  {
    if a == [] {
      assert a + b == b;
    } else {
      AnsweredConcat(a[1..], b);
      assert (a + b)[1..] == a[1..] + b;
      Associative<CallId>(if a[0].Response? then [a[0].answers] else [], Answered(a[1..]), Answered(b));
    }
  }

  lemma OutstandingAppend(conn: Conn, m: Message)
    ensures Outstanding(conn.(inbox := conn.inbox + [m])) ==
            Answered(conn.inbox) + (if m.Response? then [m.answers] else []) + conn.owed
  {
    AnsweredConcat(conn.inbox, [m]);
    assert Answered([m]) == (if m.Response? then [m.answers] else []) + Answered([]);
  }

  lemma OutstandingRead(conn: Conn)
    requires conn.inbox != []
    ensures var rest := Outstanding(conn.(inbox := conn.inbox[1..]));
            Outstanding(conn) == if conn.inbox[0].Response? then [conn.inbox[0].answers] + rest else rest
  {
    var rest := Outstanding(conn.(inbox := conn.inbox[1..]));
    if conn.inbox[0].Response? {
      assert Outstanding(conn) == [conn.inbox[0].answers] + rest;
    } else {
      assert Outstanding(conn) == rest;
    }
  }

  // ---- One lemma per step ----

  lemma FlightAfterReturn(pcs: map<GoroutineId, Pc>, inflight: seq<CallId>, issued: nat, g: GoroutineId)
    requires Flight(pcs, inflight, issued) && g in pcs && HasNumber(pcs[g])
    ensures Flight(pcs[g := Idle], Without(inflight, pcs[g].id), issued)
  {
    WithoutAscending(inflight, pcs[g].id);
    forall id | id in Without(inflight, pcs[g].id) ensures Carried(pcs[g := Idle], id) {
      var h :| Carries(pcs, h, id);
      assert Carries(pcs[g := Idle], h, id);
    }
  }

  lemma FlightAfterIssue(pcs: map<GoroutineId, Pc>, inflight: seq<CallId>, issued: nat, g: GoroutineId, pc: Pc)
    requires Flight(pcs, inflight, issued) && (g in pcs ==> !HasNumber(pcs[g])) && HasNumber(pc) && pc.id == issued
    ensures Flight(pcs[g := pc], inflight + [issued], issued + 1)
  {
    AscendingAppend(inflight, issued);
    forall id | id in inflight + [issued] ensures Carried(pcs[g := pc], id) {
      if id == issued {
        assert Carries(pcs[g := pc], g, id);
      } else {
        var h :| Carries(pcs, h, id);
        assert Carries(pcs[g := pc], h, id);
      }
    }
  }

  /** A goroutine that moves keeps the number it carries, or carries none before and after. */
  lemma FlightAfterMove(pcs: map<GoroutineId, Pc>, inflight: seq<CallId>, issued: nat, g: GoroutineId, pc: Pc)
    requires Flight(pcs, inflight, issued)
    requires HasNumber(pc) <==> g in pcs && HasNumber(pcs[g])
    requires HasNumber(pc) ==> pcs[g].id == pc.id
    ensures Flight(pcs[g := pc], inflight, issued)
  {
    forall id | id in inflight ensures Carried(pcs[g := pc], id) {
      var h :| Carries(pcs, h, id);
      assert Carries(pcs[g := pc], h, id);
    }
  }

  lemma CloseAndFailKeeps(s: State, g: GoroutineId, id: CallId)
    requires LockInv(s) && ConnInv(s) && FlightInv(s)
    requires g in s.pcs && (s.pcs[g].Writing? || s.pcs[g].Reading?) && s.pcs[g].id == id
    ensures Inv(CloseAndFail(s, g, id))
  {
    FlightAfterReturn(s.pcs, s.inflight, s.issued, g);
  }

  lemma StartKeeps(s: State, g: GoroutineId, pc: Pc)
    requires Inv(s) && PcOf(s, g).Idle? && (pc.Checking? || pc.Connecting?)
    ensures Inv(Move(s, g, pc))
  {
    FlightAfterMove(s.pcs, s.inflight, s.issued, g, pc);
  }

  lemma TakeNumberKeeps(s: State, g: GoroutineId)
    requires Inv(s)
    ensures Inv(StepTakeNumber(s, g))
  {
  }

  lemma CheckKeeps(s: State, g: GoroutineId)
    requires Inv(s)
    ensures Inv(StepCheck(s, g))
  {
    if PcOf(s, g).Checking? {
      FlightAfterMove(s.pcs, s.inflight, s.issued, g, SendWaiting);
      FlightAfterMove(s.pcs, s.inflight, s.issued, g, Connecting(true));
    }
  }

  lemma DialKeeps(s: State, g: GoroutineId, dialOk: bool)
    requires Inv(s)
    ensures Inv(StepDial(s, g, dialOk))
  {
    if PcOf(s, g).Connecting? {
      FlightAfterMove(s.pcs, s.inflight, s.issued, g, AwaitingHandshake(PcOf(s, g).thenSend));
      FlightAfterMove(s.pcs, s.inflight, s.issued, g, Idle);
    }
  }

  lemma HandshakeKeeps(s: State, g: GoroutineId, ok: bool)
    requires Inv(s)
    ensures Inv(StepHandshake(s, g, ok))
  {
    if PcOf(s, g).AwaitingHandshake? {
      FlightAfterMove(s.pcs, s.inflight, s.issued, g, Idle);
      FlightAfterMove(s.pcs, s.inflight, s.issued, g, SendWaiting);
      var conn := s.conns[s.ws.value];
      if conn.inbox != [] {
        OutstandingRead(conn);
      }
    }
  }

  lemma DebtAfterIssue(inflight: seq<CallId>, issued: nat, debt: seq<CallId>, c: ConnId)
    requires DebtInv(Idle, inflight, issued, debt)
    ensures DebtInv(Writing(issued, c), inflight + [issued], issued + 1, debt)
  {
    assert (inflight + [issued])[..|inflight|] == inflight;
  }

  lemma EncodedIssueKeeps(s: State, g: GoroutineId)
    requires Inv(s) && PcOf(s, g).SendWaiting? && s.lock.None? && s.ws.Some?
    ensures Inv(StepIssue(s, g, true))
  {
    var t := StepIssue(s, g, true);
    var pc := Writing(s.issued, s.ws.value);
    assert t.pcs == s.pcs[g := pc] && t.lock == Some(g) && t.ws == s.ws && t.conns == s.conns;
    FlightAfterIssue(s.pcs, s.inflight, s.issued, g, pc);
    assert FlightInv(t);
    DebtAfterIssue(s.inflight, s.issued, Outstanding(s.conns[s.ws.value]), s.ws.value);
    assert HolderPc(t) == pc;
  }

  lemma IssueKeeps(s: State, g: GoroutineId, encodes: bool)
    requires Inv(s)
    ensures Inv(StepIssue(s, g, encodes))
  {
    if PcOf(s, g).SendWaiting? {
      FlightAfterMove(s.pcs, s.inflight, s.issued, g, Idle);
      if encodes && s.lock.None? && s.ws.Some? {
        EncodedIssueKeeps(s, g);
      }
    }
  }

  lemma DebtAfterWrite(inflight: seq<CallId>, issued: nat, debt: seq<CallId>, id: CallId, c: ConnId)
    requires Ascending(inflight) && DebtInv(Writing(id, c), inflight, issued, debt)
    ensures DebtInv(Reading(id, Some(c)), inflight, issued, debt + [id])
  {
    AscendingAppend(debt, id);
  }

  lemma WrittenKeeps(s: State, g: GoroutineId, id: CallId, c: ConnId)
    requires Inv(s) && PcOf(s, g) == Writing(id, c)
    ensures Inv(StepWrite(s, g, true, true))
  {
    var t, conn := StepWrite(s, g, true, true), s.conns[c];
    var written := conn.(owed := conn.owed + [id]);
    assert t.lock == s.lock == Some(g) && t.ws == s.ws == Some(c) && t.conns == s.conns[c := written];
    assert t.pcs == s.pcs[g := Reading(id, Some(c))];
    FlightAfterMove(s.pcs, s.inflight, s.issued, g, Reading(id, Some(c)));
    DebtAfterWrite(s.inflight, s.issued, Outstanding(conn), id, c);
    assert Outstanding(written) == Outstanding(conn) + [id];
    assert WireInv(t);
  }

  lemma WriteKeeps(s: State, g: GoroutineId, ok: bool, delivered: bool)
    requires Inv(s)
    ensures Inv(StepWrite(s, g, ok, delivered))
  {
    var pc := PcOf(s, g);
    if pc.Writing? {
      if ok {
        WrittenKeeps(s, g, pc.id, pc.ws);
      } else {
        var conn := s.conns[pc.ws];
        CloseAndFailKeeps(if delivered then SetConn(s, pc.ws, conn.(owed := conn.owed + [pc.id])) else s, g, pc.id);
      }
    }
  }

  lemma DebtAfterAnswer(inflight: seq<CallId>, issued: nat, debt: seq<CallId>, id: CallId)
    requires Ascending(inflight) && id in inflight && debt != [] && DebtInv(Idle, inflight, issued, debt)
    ensures DebtInv(Idle, Without(inflight, id), issued, debt[1..])
  {
    BelowAfterAnswer(inflight, debt, id);
    forall x | x in debt[1..] ensures x in debt {
    }
  }

  lemma ReadResponseKeeps(s: State, g: GoroutineId, conn: Conn)
    requires Inv(s) && PcOf(s, g).Reading? && PcOf(s, g).conn.Some?
    requires conn == s.conns[PcOf(s, g).conn.value] && conn.inbox != [] && conn.inbox[0].Response?
    ensures Inv(StepRead(s, g, true))
  {
    var pc, c := PcOf(s, g), PcOf(s, g).conn.value;
    var t := StepRead(s, g, true);
    var rest := conn.(inbox := conn.inbox[1..]);
    assert t.lock == None && t.ws == s.ws == Some(c) && t.conns == s.conns[c := rest] && t.issued == s.issued;
    assert t.pcs == s.pcs[g := Idle] && t.inflight == Without(s.inflight, pc.id);
    FlightAfterReturn(s.pcs, s.inflight, s.issued, g);
    OutstandingRead(conn);
    assert Outstanding(conn)[1..] == Outstanding(rest);
    DebtAfterAnswer(s.inflight, s.issued, Outstanding(conn), pc.id);
    assert WireInv(t);
  }

  lemma ReadEventKeeps(s: State, g: GoroutineId, conn: Conn)
    requires Inv(s) && PcOf(s, g).Reading? && PcOf(s, g).conn.Some?
    requires conn == s.conns[PcOf(s, g).conn.value] && conn.inbox != [] && conn.inbox[0].Event?
    ensures Inv(StepRead(s, g, true))
  {
    OutstandingRead(conn);
    FlightAfterMove(s.pcs, s.inflight, s.issued, g, InHandler(PcOf(s, g).id));
  }

  lemma ReadKeeps(s: State, g: GoroutineId, ok: bool)
    requires Inv(s)
    ensures Inv(StepRead(s, g, ok))
  {
    var pc := PcOf(s, g);
    if pc.Reading? {
      if pc.conn.None? {
        FlightAfterReturn(s.pcs, s.inflight, s.issued, g);
      } else if !ok {
        CloseAndFailKeeps(s, g, pc.id);
      } else {
        var conn := s.conns[pc.conn.value];
        if conn.inbox != [] {
          assert conn.inbox[0] in conn.inbox;
          if conn.inbox[0].Response? {
            ReadResponseKeeps(s, g, conn);
          } else {
            ReadEventKeeps(s, g, conn);
          }
        }
      }
    }
  }

  lemma HandlerReturnsKeeps(s: State, g: GoroutineId)
    requires Inv(s)
    ensures Inv(StepHandlerReturns(s, g))
  {
    if PcOf(s, g).InHandler? {
      FlightAfterMove(s.pcs, s.inflight, s.issued, g, Reading(PcOf(s, g).id, s.ws));
    }
  }

  /** The server's side of a connection changes: what the reader is owed stays the same. */
  lemma ConnChangeKeeps(s: State, c: ConnId, conn: Conn)
    requires Inv(s) && c < |s.conns|
    requires Outstanding(conn) == Outstanding(s.conns[c])
    requires s.ws == Some(c) ==> Honest(conn) && GreetingInv(HolderPc(s), conn)
    ensures Inv(SetConn(s, c, conn))
  {
  }

  lemma GreetKeeps(s: State, c: ConnId, wellFormed: bool)
    requires Inv(s)
    ensures Inv(StepGreet(s, c, wellFormed))
  {
    if c < |s.conns| && !s.conns[c].greeted {
      OutstandingAppend(s.conns[c], Handshake(wellFormed));
      ConnChangeKeeps(s, c, StepGreet(s, c, wellFormed).conns[c]);
    }
  }

  lemma AnswerKeepsOutstanding(s: State, c: ConnId)
    requires c < |s.conns|
    ensures Outstanding(StepAnswer(s, c).conns[c]) == Outstanding(s.conns[c])
  {
    if s.conns[c].greeted && s.conns[c].owed != [] {
      var id := s.conns[c].owed[0];
      var conn := s.conns[c].(owed := s.conns[c].owed[1..]);
      OutstandingAppend(conn, Response(WireSeq(id), id));
      assert s.conns[c].owed == [id] + conn.owed;
    }
  }

  lemma AnswerKeeps(s: State, c: ConnId)
    requires Inv(s)
    ensures Inv(StepAnswer(s, c))
  {
    if c < |s.conns| && s.conns[c].greeted && s.conns[c].owed != [] {
      var id := s.conns[c].owed[0];
      AnswerKeepsOutstanding(s, c);
      assert id in Outstanding(s.conns[c]) by { assert Outstanding(s.conns[c])[|Answered(s.conns[c].inbox)|] == id; }
      ConnChangeKeeps(s, c, StepAnswer(s, c).conns[c]);
    }
  }

  lemma PushKeeps(s: State, c: ConnId, decodable: bool)
    requires Inv(s)
    ensures Inv(StepPush(s, c, decodable))
  {
    if c < |s.conns| && s.conns[c].greeted {
      OutstandingAppend(s.conns[c], Event(decodable));
      ConnChangeKeeps(s, c, StepPush(s, c, decodable).conns[c]);
    }
  }

  predicate OfServer(a: Action) { a.ServerGreets? || a.ServerAnswers? || a.ServerPushes? }

  /** The server's steps change connections only, and nothing that they owe. */
  lemma ServerKeepsOutstanding(s: State, a: Action)
    requires OfServer(a)
    ensures var t := Step(s, a);
            && t == s.(conns := t.conns) && |t.conns| == |s.conns|
            && forall c :: 0 <= c < |s.conns| ==> Outstanding(t.conns[c]) == Outstanding(s.conns[c])
  {
    if a.c < |s.conns| {
      match a
      case ServerGreets(c, wellFormed) => OutstandingAppend(s.conns[c], Handshake(wellFormed));
      case ServerPushes(c, decodable) => OutstandingAppend(s.conns[c], Event(decodable));
      case ServerAnswers(c) => AnswerKeepsOutstanding(s, c);
    }
  }

  lemma StepKeepsInv(s: State, a: Action)
    requires Inv(s)
    ensures Inv(Step(s, a))
  {
    match a
    case StartSend(g) => if PcOf(s, g).Idle? { StartKeeps(s, g, Checking); }
    case StartConnect(g) => if PcOf(s, g).Idle? { StartKeeps(s, g, Connecting(false)); }
    case CallClose(g) =>
    case TakeNumber(g) => TakeNumberKeeps(s, g);
    case CheckConnected(g) => CheckKeeps(s, g);
    case LockAndDial(g, dialOk) => DialKeeps(s, g, dialOk);
    case ReadHandshake(g, ok) => HandshakeKeeps(s, g, ok);
    case LockAndIssue(g, encodes) => IssueKeeps(s, g, encodes);
    case Write(g, ok, delivered) => WriteKeeps(s, g, ok, delivered);
    case Read(g, ok) => ReadKeeps(s, g, ok);
    case HandlerReturns(g) => HandlerReturnsKeeps(s, g);
    case ServerGreets(c, wellFormed) => GreetKeeps(s, c, wellFormed);
    case ServerAnswers(c) => AnswerKeeps(s, c);
    case ServerPushes(c, decodable) => PushKeeps(s, c, decodable);
  }

  lemma StartInv(hasHandler: bool)
    ensures Inv(Start(hasHandler))
  {
  }

  lemma {:induction false} RunKeepsInv(s: State, actions: seq<Action>)
    requires Inv(s)
    ensures Inv(Run(s, actions))
    decreases |actions|
  {
    if actions != [] {
      StepKeepsInv(s, actions[0]);
      RunKeepsInv(Step(s, actions[0]), actions[1..]);
    }
  }

  /**
    * Handler or not, whatever went wrong before: once no call is in flight, the open connection
    * owes no response, so the next call starts clean.
    */
  lemma NoCallInFlightMeansNothingOwed(hasHandler: bool, actions: seq<Action>)
    ensures var s := Run(Start(hasHandler), actions);
            s.ws.Some? && s.inflight == [] && !HolderPc(s).Writing? ==>
              s.ws.value < |s.conns| && Outstanding(s.conns[s.ws.value]) == []
  {
    StartInv(hasHandler);
    RunKeepsInv(Start(hasHandler), actions);
  }

  // ---- The next message ----

  /** The next message is the response to the oldest call that the connection owes. */
  ghost predicate ReadsOldest(conn: Conn) {
    && conn.inbox != [] && Outstanding(conn) != []
    && conn.inbox[0] == Response(WireSeq(Outstanding(conn)[0]), Outstanding(conn)[0])
  }

  lemma HeadOfInbox(s: State, g: GoroutineId, conn: Conn)
    requires Inv(s) && PcOf(s, g).Reading? && PcOf(s, g).conn.Some?
    requires conn == s.conns[PcOf(s, g).conn.value] && conn.inbox != []
    ensures s.ws == PcOf(s, g).conn && !conn.inbox[0].Handshake? && (conn.inbox[0].Response? ==> ReadsOldest(conn))
  {
    assert conn.inbox[0] in conn.inbox;
    OutstandingRead(conn);
  }

  // ---- Steps of other goroutines ----

  predicate ActsFor(a: Action, g: GoroutineId) {
    match a
    case ServerGreets(_, _) => false
    case ServerAnswers(_) => false
    case ServerPushes(_, _) => false
    case _ => a.g == g
  }

  predicate OfOthers(actions: seq<Action>, g: GoroutineId) {
    forall a :: a in actions ==> !ActsFor(a, g)
  }

  lemma OtherKeepsPc(s: State, a: Action, g: GoroutineId)
    requires !ActsFor(a, g)
    ensures PcOf(Step(s, a), g) == PcOf(s, g) && Step(s, a).hasHandler == s.hasHandler
  {
    if OfServer(a) {
      ServerKeepsOutstanding(s, a);
    } else {
      assert a.g != g;
    }
  }

  lemma {:induction false} OthersKeepPc(s: State, actions: seq<Action>, g: GoroutineId)
    requires OfOthers(actions, g)
    ensures PcOf(Run(s, actions), g) == PcOf(s, g) && Run(s, actions).hasHandler == s.hasHandler
    decreases |actions|
  {
    if actions != [] {
      OtherKeepsPc(s, actions[0], g);
      OthersKeepPc(Step(s, actions[0]), actions[1..], g);
    }
  }

  // ---- Without a message handler ----

  function Due(holder: Pc): seq<CallId> {
    if holder.Reading? then [holder.id] else []
  }

  ghost predicate OwnAnswersOnly(log: seq<Outcome>) {
    forall o :: o in log ==>
      o.TransportFailure? || (o.Success? && o.response == Response(WireSeq(o.id), o.id))
  }

  /** The open connection owes exactly the response that the lock's holder is waiting for. */
  ghost predicate LockStepInv(s: State) {
    && !s.hasHandler
    && (forall g :: g in s.pcs ==> !s.pcs[g].InHandler? && (s.pcs[g].Reading? ==> s.pcs[g].conn.Some?))
    && (s.ws.Some? && s.ws.value < |s.conns| ==> Outstanding(s.conns[s.ws.value]) == Due(HolderPc(s)))
    && OwnAnswersOnly(s.log)
  }

  lemma LockStepRead(s: State, g: GoroutineId, ok: bool)
    requires Inv(s) && LockStepInv(s)
    ensures LockStepInv(StepRead(s, g, ok))
  {
    var pc := PcOf(s, g);
    if pc.Reading? && pc.conn.Some? {
      if !ok {
        LockStepReadFails(s, g);
      } else if s.conns[pc.conn.value].inbox != [] {
        var conn := s.conns[pc.conn.value];
        HeadOfInbox(s, g, conn);
        LockStepReadMessage(s, g, pc.id, pc.conn.value, conn);
      }
    }
  }

  lemma LockStepReadFails(s: State, g: GoroutineId)
    requires LockStepInv(s) && PcOf(s, g).Reading?
    ensures LockStepInv(CloseAndFail(s, g, PcOf(s, g).id))
  {
  }

  lemma LockStepReadMessage(s: State, g: GoroutineId, id: CallId, c: ConnId, conn: Conn)
    requires LockStepInv(s) && s.lock == Some(g) && PcOf(s, g) == Reading(id, Some(c)) && s.ws == Some(c)
    requires c < |s.conns| && conn == s.conns[c]
    requires conn.inbox != [] && !conn.inbox[0].Handshake? && (conn.inbox[0].Response? ==> ReadsOldest(conn))
    ensures LockStepInv(StepRead(s, g, true))
  {
    var t, rest := StepRead(s, g, true), conn.(inbox := conn.inbox[1..]);
    OutstandingRead(conn);
    assert Outstanding(conn) == [id] && t.conns == s.conns[c := rest];
    if conn.inbox[0].Response? {
      assert Outstanding(rest) == [];
      assert t.log == s.log + [Success(id, Response(WireSeq(id), id))];
    } else {
      assert t.log == s.log && t.pcs == s.pcs && Outstanding(rest) == [id];
    }
  }

  lemma LockStepHandshake(s: State, g: GoroutineId, ok: bool)
    requires Inv(s) && LockStepInv(s)
    ensures LockStepInv(StepHandshake(s, g, ok))
  {
    if PcOf(s, g).AwaitingHandshake? {
      var conn := s.conns[s.ws.value];
      assert HolderPc(s) == PcOf(s, g) && Outstanding(conn) == [];
      if conn.inbox != [] {
        OutstandingRead(conn);
      }
    }
  }

  lemma LockStepServer(s: State, a: Action)
    requires Inv(s) && LockStepInv(s) && OfServer(a)
    ensures LockStepInv(Step(s, a))
  {
    ServerKeepsOutstanding(s, a);
  }

  lemma LockStepIssue(s: State, g: GoroutineId, encodes: bool)
    requires Inv(s) && LockStepInv(s)
    ensures LockStepInv(StepIssue(s, g, encodes))
  {
  }

  lemma LockStepWrite(s: State, g: GoroutineId, ok: bool, delivered: bool)
    requires Inv(s) && LockStepInv(s)
    ensures LockStepInv(StepWrite(s, g, ok, delivered))
  {
    if PcOf(s, g).Writing? {
      LockStepWritten(s, g, PcOf(s, g).id, PcOf(s, g).ws, ok, delivered);
    }
  }

  lemma LockStepWritten(s: State, g: GoroutineId, id: CallId, c: ConnId, ok: bool, delivered: bool)
    requires LockStepInv(s) && s.lock == Some(g) && PcOf(s, g) == Writing(id, c) && s.ws == Some(c) && c < |s.conns|
    ensures LockStepInv(StepWrite(s, g, ok, delivered))
  {
    var t, conn := StepWrite(s, g, ok, delivered), s.conns[c];
    assert Outstanding(conn) == [];
    if ok {
      assert Outstanding(conn.(owed := conn.owed + [id])) == Outstanding(conn) + [id];
      assert HolderPc(t) == Reading(id, Some(c)) && t.log == s.log;
    } else {
      assert t.log == s.log + [TransportFailure(id)] && t.ws == None;
    }
  }

  lemma LockStepConnect(s: State, g: GoroutineId, dialOk: bool)
    requires Inv(s) && LockStepInv(s)
    ensures LockStepInv(StepCheck(s, g)) && LockStepInv(StepDial(s, g, dialOk))
  {
    var t := StepDial(s, g, dialOk);
    if t.ws != s.ws {
      assert t.conns[t.ws.value] == Conn(false, [], []) && HolderPc(t).AwaitingHandshake?;
    }
  }

  /** The steps that leave connections and log alone. */
  lemma LockStepUnlocked(s: State, a: Action)
    requires Inv(s) && LockStepInv(s)
    requires a.StartSend? || a.StartConnect? || a.CallClose? || a.TakeNumber? || a.HandlerReturns?
    ensures LockStepInv(Step(s, a))
  {
    var t := Step(s, a);
    assert t.log == s.log && t.conns == s.conns && (t.ws == s.ws || t.ws == None);
    if t.ws.Some? {
      assert HolderPc(t) == HolderPc(s);
    }
  }

  lemma LockStepKept(s: State, a: Action)
    requires Inv(s) && LockStepInv(s)
    ensures LockStepInv(Step(s, a))
  {
    match a
    case Read(g, ok) => LockStepRead(s, g, ok);
    case ReadHandshake(g, ok) => LockStepHandshake(s, g, ok);
    case CheckConnected(g) => LockStepConnect(s, g, true);
    case LockAndDial(g, dialOk) => LockStepConnect(s, g, dialOk);
    case LockAndIssue(g, encodes) => LockStepIssue(s, g, encodes);
    case Write(g, ok, delivered) => LockStepWrite(s, g, ok, delivered);
    case ServerGreets(_, _) => LockStepServer(s, a);
    case ServerPushes(_, _) => LockStepServer(s, a);
    case ServerAnswers(_) => LockStepServer(s, a);
    case _ => LockStepUnlocked(s, a);
  }

  lemma {:induction false} LockStepRun(s: State, actions: seq<Action>)
    requires Inv(s) && LockStepInv(s)
    ensures Inv(Run(s, actions)) && LockStepInv(Run(s, actions))
    decreases |actions|
  {
    if actions != [] {
      StepKeepsInv(s, actions[0]);
      LockStepKept(s, actions[0]);
      LockStepRun(Step(s, actions[0]), actions[1..]);
    }
  }

  /**
    * Lock-step safety. Without a handler, after any interleaving of calls, closes, failures and
    * reconnects: a free lock means nothing is owed on the open connection, every call that succeeded
    * got the answer to its own request, and the only failures are of the transport, so neither the
    * sequence mismatch nor the decode error is ever returned.
    */
  lemma LockStepSafety(actions: seq<Action>)
    ensures var s := Run(Start(false), actions);
            && (s.lock.None? && s.ws.Some? ==>
                  s.ws.value < |s.conns| && Outstanding(s.conns[s.ws.value]) == [])
            && OwnAnswersOnly(s.log)
  {
    StartInv(false);
    LockStepRun(Start(false), actions);
  }

  // ---- With a message handler ----

  /** No call in flight was there while more than `k` numbers were issued, its own included. */
  ghost predicate Aged(s: State, k: nat) {
    forall id :: id in s.inflight ==> s.issued - id <= k
  }

  /** That holds in every state the run passes through. */
  ghost predicate AgedRun(s: State, actions: seq<Action>, k: nat)
    decreases |actions|
  {
    Aged(s, k) && (actions != [] ==> AgedRun(Step(s, actions[0]), actions[1..], k))
  }

  ghost predicate OwnAnswersOnSuccess(log: seq<Outcome>) {
    forall o :: o in log && o.Success? ==> o.response == Response(WireSeq(o.id), o.id)
  }

  predicate LessThanWrapApart(a: nat, b: nat) { a - b < SEQ_MODULUS && b - a < SEQ_MODULUS }

  lemma CongruentAndClose(a: nat, b: nat)
    requires WireSeq(a) == WireSeq(b) && LessThanWrapApart(a, b)
    ensures a == b
  {
    var m := SEQ_MODULUS;
    assert a == m * (a / m) + WireSeq(a) && b == m * (b / m) + WireSeq(b);
    assert a - b == m * (a / m - b / m);
  }

  /** What a call makes of a response: it is the oldest one owed, and it is accepted for its number on the wire. */
  lemma ResponseReadIsTheOldestOwed(s: State, g: GoroutineId)
    requires Inv(s) && PcOf(s, g).Reading? && PcOf(s, g).conn.Some?
    requires s.conns[PcOf(s, g).conn.value].inbox != [] && s.conns[PcOf(s, g).conn.value].inbox[0].Response?
    ensures var id, owed := PcOf(s, g).id, Outstanding(s.conns[PcOf(s, g).conn.value]);
            var r := Response(WireSeq(owed[0]), owed[0]);
            StepRead(s, g, true).log == s.log +
              [if WireSeq(owed[0]) == WireSeq(id) then Success(id, r) else SequenceMismatch(id, r)]
  {
    var conn := s.conns[PcOf(s, g).conn.value];
    assert conn.inbox[0] in conn.inbox;
    OutstandingRead(conn);
  }

  lemma AnswerWithinAgeIsOwn(s: State, g: GoroutineId, owed: CallId)
    requires Inv(s) && Aged(s, SEQ_MODULUS) && PcOf(s, g).Reading? && PcOf(s, g).conn.Some?
    requires Outstanding(s.conns[PcOf(s, g).conn.value]) != []
    requires owed == Outstanding(s.conns[PcOf(s, g).conn.value])[0] && WireSeq(owed) == WireSeq(PcOf(s, g).id)
    ensures owed == PcOf(s, g).id
  {
    assert owed in Outstanding(s.conns[PcOf(s, g).conn.value]);
    assert s.inflight[0] <= owed && s.inflight[0] <= PcOf(s, g).id && s.inflight[0] in s.inflight;
    CongruentAndClose(owed, PcOf(s, g).id);
  }

  lemma ReadWithinAge(s: State, g: GoroutineId, conn: Conn)
    requires Inv(s) && Aged(s, SEQ_MODULUS) && OwnAnswersOnSuccess(s.log)
    requires PcOf(s, g).Reading? && PcOf(s, g).conn.Some?
    requires conn == s.conns[PcOf(s, g).conn.value] && conn.inbox != [] && conn.inbox[0].Response?
    ensures OwnAnswersOnSuccess(StepRead(s, g, true).log)
  {
    ResponseReadIsTheOldestOwed(s, g);
    if WireSeq(Outstanding(conn)[0]) == WireSeq(PcOf(s, g).id) {
      AnswerWithinAgeIsOwn(s, g, Outstanding(conn)[0]);
    }
  }

  lemma StepWithinAgeSucceedsWithOwnAnswer(s: State, a: Action)
    requires Inv(s) && Aged(s, SEQ_MODULUS) && OwnAnswersOnSuccess(s.log)
    ensures OwnAnswersOnSuccess(Step(s, a).log)
  {
    if a.Read? && a.ok && PcOf(s, a.g).Reading? && PcOf(s, a.g).conn.Some? {
      var conn := s.conns[PcOf(s, a.g).conn.value];
      if conn.inbox != [] && conn.inbox[0].Response? {
        ReadWithinAge(s, a.g, conn);
      }
    }
  }

  lemma {:induction false} RunWithinAgeSucceeds(s: State, actions: seq<Action>)
    requires Inv(s) && OwnAnswersOnSuccess(s.log) && AgedRun(s, actions, SEQ_MODULUS)
    ensures OwnAnswersOnSuccess(Run(s, actions).log)
    decreases |actions|
  {
    if actions != [] {
      StepKeepsInv(s, actions[0]);
      StepWithinAgeSucceedsWithOwnAnswer(s, actions[0]);
      RunWithinAgeSucceeds(Step(s, actions[0]), actions[1..]);
    }
  }

  /**
    * Safety while the lock is released for handlers. With or without a handler, if no call stays in
    * flight while more than 2^32 numbers are issued, every call that succeeds got the answer to its own request.
    */
  lemma HandlerSafety(hasHandler: bool, actions: seq<Action>)
    requires AgedRun(Start(hasHandler), actions, SEQ_MODULUS)
    ensures OwnAnswersOnSuccess(Run(Start(hasHandler), actions).log)
  {
    StartInv(hasHandler);
    RunWithinAgeSucceeds(Start(hasHandler), actions);
  }

  // ---- What every success carries ----

  ghost predicate Echo(o: Outcome) {
    o.Success? ==> o.response.Response? && o.response.tag == WireSeq(o.response.answers) == WireSeq(o.id)
  }

  lemma {:induction false} RunEchoes(s: State, actions: seq<Action>)
    requires Inv(s) && forall o :: o in s.log ==> Echo(o)
    ensures forall o :: o in Run(s, actions).log ==> Echo(o)
    decreases |actions|
  {
    if actions != [] {
      var a := actions[0];
      StepKeepsInv(s, a);
      EchoKept(s, a);
      RunEchoes(Step(s, a), actions[1..]);
    }
  }

  lemma EchoAfterRead(s: State, g: GoroutineId, conn: Conn)
    requires PcOf(s, g).Reading? && PcOf(s, g).conn.Some? && PcOf(s, g).conn.value < |s.conns|
    requires conn == s.conns[PcOf(s, g).conn.value] && ReadsOldest(conn) && forall o :: o in s.log ==> Echo(o)
    ensures forall o :: o in StepRead(s, g, true).log ==> Echo(o)
  {
    var log := StepRead(s, g, true).log;
    assert log == s.log + [log[|s.log|]] && Echo(log[|s.log|]);
  }

  lemma EchoKept(s: State, a: Action)
    requires Inv(s) && forall o :: o in s.log ==> Echo(o)
    ensures forall o :: o in Step(s, a).log ==> Echo(o)
  {
    if a.Read? && a.ok && PcOf(s, a.g).Reading? && PcOf(s, a.g).conn.Some? {
      var conn := s.conns[PcOf(s, a.g).conn.value];
      if conn.inbox != [] && conn.inbox[0].Response? {
        HeadOfInbox(s, a.g, conn);
        EchoAfterRead(s, a.g, conn);
      }
    }
  }

  /** In any run, a success carries the call's number modulo 2^32, so a foreign one is at least 2^32 numbers away. */
  lemma SuccessIsOwnExactlyWhenClose(hasHandler: bool, actions: seq<Action>)
    ensures forall o :: o in Run(Start(hasHandler), actions).log && o.Success? ==>
      && o.response.Response?
      && (o.response.answers == o.id <==> LessThanWrapApart(o.response.answers, o.id))
  {
    StartInv(hasHandler);
    RunEchoes(Start(hasHandler), actions);
    forall o | o in Run(Start(hasHandler), actions).log && o.Success?
      ensures o.response.Response?
      ensures o.response.answers == o.id <==> LessThanWrapApart(o.response.answers, o.id)
    {
      assert Echo(o);
      if LessThanWrapApart(o.response.answers, o.id) {
        CongruentAndClose(o.response.answers, o.id);
      }
    }
  }

  // ---- A call that is alone in flight ----

  /** The open connection owes nothing, or just the response to this call. */
  ghost predicate OwesOnly(s: State, id: CallId) {
    s.ws.Some? && s.ws.value < |s.conns| ==>
      Outstanding(s.conns[s.ws.value]) == [] || Outstanding(s.conns[s.ws.value]) == [id]
  }

  predicate Harmless(o: Outcome, id: CallId) {
    o in {Success(id, Response(WireSeq(id), id)), TransportFailure(id), NilConnection(id)}
  }

  /** The call is under way, and it alone, or it has returned harmlessly and no call is in flight. */
  ghost predicate LoneInv(s: State, id: CallId, before: seq<Outcome>) {
    if s.inflight == [id] then OwesOnly(s, id) && s.log == before
    else s.inflight == [] && |s.log| == |before| + 1 && s.log[..|before|] == before && Harmless(s.log[|before|], id)
  }

  lemma LoneWriting(s: State, g: GoroutineId, ok: bool, delivered: bool, id: CallId, before: seq<Outcome>)
    requires Inv(s) && s.inflight == [id] && OwesOnly(s, id) && s.log == before
    requires PcOf(s, g).Writing? && PcOf(s, g).id == id
    ensures LoneInv(StepWrite(s, g, ok, delivered), id, before)
  {
    var c := PcOf(s, g).ws;
    var conn := s.conns[c];
    assert Outstanding(conn) == [id] ==> id in Outstanding(conn);
    var written := conn.(owed := conn.owed + [id]);
    assert Outstanding(written) == Outstanding(conn) + [id];
    var t := StepWrite(s, g, ok, delivered);
    if ok {
      assert t.inflight == [id] && t.log == before && t.ws == Some(c) && t.conns[c] == written;
    } else {
      assert Without([id], id) == [];
      assert t.log == before + [TransportFailure(id)];
    }
  }

  lemma LoneWrite(s: State, g: GoroutineId, ok: bool, delivered: bool, id: CallId, before: seq<Outcome>)
    requires Inv(s) && LoneInv(s, id, before)
    ensures LoneInv(StepWrite(s, g, ok, delivered), id, before)
  {
    if PcOf(s, g).Writing? {
      assert s.pcs[g].id in s.inflight;
      LoneWriting(s, g, ok, delivered, id, before);
    }
  }

  lemma LoneRead(s: State, g: GoroutineId, ok: bool, id: CallId, before: seq<Outcome>)
    requires Inv(s) && LoneInv(s, id, before)
    ensures LoneInv(StepRead(s, g, ok), id, before)
  {
    var pc := PcOf(s, g);
    if pc.Reading? {
      assert s.pcs[g].id in s.inflight;
      assert Without([id], id) == [];
      if pc.conn.Some? && ok && s.conns[pc.conn.value].inbox != [] {
        HeadOfInbox(s, g, s.conns[pc.conn.value]);
        LoneReadMessage(s, g, s.conns[pc.conn.value], id, before);
      }
    }
  }

  lemma LoneReadMessage(s: State, g: GoroutineId, conn: Conn, id: CallId, before: seq<Outcome>)
    requires PcOf(s, g) == Reading(id, s.ws) && s.ws.Some? && s.ws.value < |s.conns| && conn == s.conns[s.ws.value]
    requires s.inflight == [id] && OwesOnly(s, id) && s.log == before
    requires conn.inbox != [] && !conn.inbox[0].Handshake? && (conn.inbox[0].Response? ==> ReadsOldest(conn))
    ensures LoneInv(StepRead(s, g, true), id, before)
  {
    OutstandingRead(conn);
    var t, rest := StepRead(s, g, true), conn.(inbox := conn.inbox[1..]);
    assert t.ws == s.ws && t.conns == s.conns[s.ws.value := rest];
    if conn.inbox[0].Response? {
      assert Outstanding(conn)[0] == id;
      assert Without([id], id) == [];
      assert t.log == before + [Success(id, Response(WireSeq(id), id))];
    } else {
      assert Outstanding(rest) == Outstanding(conn);
    }
  }

  lemma LoneServer(s: State, a: Action, id: CallId, before: seq<Outcome>)
    requires Inv(s) && LoneInv(s, id, before) && OfServer(a)
    ensures LoneInv(Step(s, a), id, before)
  {
    ServerKeepsOutstanding(s, a);
  }

  lemma LoneDial(s: State, g: GoroutineId, dialOk: bool, id: CallId, before: seq<Outcome>)
    requires LoneInv(s, id, before)
    ensures LoneInv(StepDial(s, g, dialOk), id, before)
  {
    var t := StepDial(s, g, dialOk);
    if t.ws != s.ws {
      assert t.conns[t.ws.value] == Conn(false, [], []);
    }
  }

  lemma GreetingComesFirst(s: State, g: GoroutineId)
    requires Inv(s) && PcOf(s, g).AwaitingHandshake? && s.conns[s.ws.value].inbox != []
    ensures s.conns[s.ws.value].inbox[0].Handshake?
  {
    assert HolderPc(s) == PcOf(s, g);
  }

  lemma LoneGreeting(s: State, g: GoroutineId, id: CallId, before: seq<Outcome>)
    requires LoneInv(s, id, before) && PcOf(s, g).AwaitingHandshake? && s.ws.Some? && s.ws.value < |s.conns|
    requires s.conns[s.ws.value].inbox != [] && s.conns[s.ws.value].inbox[0].Handshake?
    ensures LoneInv(StepHandshake(s, g, true), id, before)
  {
    var t, conn := StepHandshake(s, g, true), s.conns[s.ws.value];
    OutstandingRead(conn);
    assert Outstanding(conn.(inbox := conn.inbox[1..])) == Outstanding(conn);
    assert t.log == s.log && t.inflight == s.inflight && (t.ws == s.ws || t.ws == None);
  }

  lemma LoneHandshake(s: State, g: GoroutineId, ok: bool, id: CallId, before: seq<Outcome>)
    requires Inv(s) && LoneInv(s, id, before)
    ensures LoneInv(StepHandshake(s, g, ok), id, before)
  {
    if PcOf(s, g).AwaitingHandshake? && s.conns[s.ws.value].inbox != [] && ok {
      GreetingComesFirst(s, g);
      LoneGreeting(s, g, id, before);
    }
  }

  lemma LoneKept(s: State, a: Action, id: CallId, before: seq<Outcome>)
    requires Inv(s) && LoneInv(s, id, before) && !(a.LockAndIssue? && a.encodes)
    ensures LoneInv(Step(s, a), id, before)
  {
    match a
    case Read(g, ok) => LoneRead(s, g, ok, id, before);
    case Write(g, ok, delivered) => LoneWrite(s, g, ok, delivered, id, before);
    case ReadHandshake(g, ok) => LoneHandshake(s, g, ok, id, before);
    case LockAndDial(g, dialOk) => LoneDial(s, g, dialOk, id, before);
    case ServerGreets(_, _) => LoneServer(s, a, id, before);
    case ServerPushes(_, _) => LoneServer(s, a, id, before);
    case ServerAnswers(_) => LoneServer(s, a, id, before);
    case _ =>
  }

  lemma {:induction false} LoneRun(s: State, actions: seq<Action>, id: CallId, before: seq<Outcome>)
    requires Inv(s) && LoneInv(s, id, before)
    requires forall a :: a in actions ==> !(a.LockAndIssue? && a.encodes)
    ensures LoneInv(Run(s, actions), id, before)
    decreases |actions|
  {
    if actions != [] {
      StepKeepsInv(s, actions[0]);
      LoneKept(s, actions[0], id, before);
      LoneRun(Step(s, actions[0]), actions[1..], id, before);
    }
  }

  lemma LoneStarts(s: State, g: GoroutineId)
    requires s.inflight == [] && s.lock.None? && PcOf(s, g).SendWaiting?
    requires s.ws.Some? && s.ws.value < |s.conns| && Outstanding(s.conns[s.ws.value]) == []
    ensures LoneInv(Step(s, LockAndIssue(g, true)), s.issued, s.log)
  {
    var t := Step(s, LockAndIssue(g, true));
    assert t.inflight == [s.issued] && t.log == s.log && t.ws == s.ws && t.conns == s.conns;
  }

  /**
    * A call that starts when no call is in flight, and during whose life no other call gets as far as
    * writing, ends with the answer to its own request, a transport error or a nil connection, handler
    * or not, whatever else is closed, connected or numbered meanwhile.
    */
  lemma LoneCallIsSafe(hasHandler: bool, earlier: seq<Action>, g: GoroutineId, later: seq<Action>)
    requires var s := Run(Start(hasHandler), earlier);
             s.inflight == [] && s.lock.None? && PcOf(s, g).SendWaiting? && s.ws.Some?
    requires forall a :: a in later ==> !(a.LockAndIssue? && a.encodes)
    ensures var s := Run(Start(hasHandler), earlier);
            LoneInv(Run(Step(s, LockAndIssue(g, true)), later), s.issued, s.log)
  {
    var s := Run(Start(hasHandler), earlier);
    StartInv(hasHandler);
    RunKeepsInv(Start(hasHandler), earlier);
    StepKeepsInv(s, LockAndIssue(g, true));
    NoCallInFlightMeansNothingOwed(hasHandler, earlier);
    LoneStarts(s, g);
    LoneRun(Step(s, LockAndIssue(g, true)), later, s.issued, s.log);
  }
}
