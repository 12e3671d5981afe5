/**
  * The Go client's lock-step request protocol as a state machine over its steps.
  *
  * Any number of goroutines share one client. A step is one goroutine moving from one lock operation
  * or socket operation to the next, or the server acting on a connection. `Step` is total: an action
  * that cannot happen in a state leaves the state as it is, so every sequence of actions is a run.
  */
module GoClient {
  import opened Lists

  type GoroutineId = nat
  type ConnId = nat

  /** The position of a call in the order in which numbers were issued; it never wraps. */
  type CallId = nat

  const SEQ_MODULUS: nat := 0x1_0000_0000

  /** The uint32 that goes on the wire for the n-th number issued. */
  function WireSeq(n: CallId): nat { n % SEQ_MODULUS }

  /** What the server sends. A response records the call it answers, which the client cannot see. */
  datatype Message =
    | Handshake(wellFormed: bool)
    | Event(decodable: bool)
    | Response(tag: nat, answers: CallId)

  /** One connection: requests the server holds unanswered, and messages the client has not read. */
  datatype Conn = Conn(greeted: bool, owed: seq<CallId>, inbox: seq<Message>)

  /** Where a goroutine stands. `AwaitingHandshake`, `Writing` and `Reading` hold the client's lock. */
  datatype Pc =
    | Idle
    | Checking
    | Connecting(thenSend: bool)
    | AwaitingHandshake(thenSend: bool)
    | SendWaiting
    | Writing(id: CallId, ws: ConnId)
    | Reading(id: CallId, conn: Option<ConnId>)
    | InHandler(id: CallId)

  datatype Outcome =
    | Success(id: CallId, response: Message)
    | SequenceMismatch(id: CallId, response: Message)
    | DecodeFailure(id: CallId)
    | NilConnection(id: CallId)
    | TransportFailure(id: CallId)

  /**
    * The client, its goroutines and the connections dialed so far. `inflight` lists the calls that
    * hold a number and have not returned, oldest first; `log` lists how the calls returned that got
    * as far as writing.
    */
  datatype State = State(
    hasHandler: bool,
    lock: Option<GoroutineId>,
    ws: Option<ConnId>,
    conns: seq<Conn>,
    issued: nat,
    pcs: map<GoroutineId, Pc>,
    inflight: seq<CallId>,
    log: seq<Outcome>)

  datatype Action =
    | StartSend(g: GoroutineId)
    | StartConnect(g: GoroutineId)
    | CallClose(g: GoroutineId)
    | TakeNumber(g: GoroutineId)
    | CheckConnected(g: GoroutineId)
    | LockAndDial(g: GoroutineId, dialOk: bool)
    | ReadHandshake(g: GoroutineId, ok: bool)
    | LockAndIssue(g: GoroutineId, encodes: bool)
    | Write(g: GoroutineId, ok: bool, delivered: bool)
    | Read(g: GoroutineId, ok: bool)
    | HandlerReturns(g: GoroutineId)
    | ServerGreets(c: ConnId, wellFormed: bool)
    | ServerAnswers(c: ConnId)
    | ServerPushes(c: ConnId, decodable: bool)

  function Start(hasHandler: bool): State {
    State(hasHandler, None, None, [], 0, map[], [], [])
  }

  function PcOf(s: State, g: GoroutineId): Pc {
    if g in s.pcs then s.pcs[g] else Idle
  }

  function Move(s: State, g: GoroutineId, pc: Pc): State {
    s.(pcs := s.pcs[g := pc])
  }

  function SetConn(s: State, c: ConnId, conn: Conn): State
    requires c < |s.conns|
  {
    s.(conns := s.conns[c := conn])
  }

  /** A call returns: it gives the lock back and leaves the list of calls in flight. */
  function Return(s: State, g: GoroutineId, outcome: Outcome): State {
    s.(lock := None, pcs := s.pcs[g := Idle], inflight := Without(s.inflight, outcome.id), log := s.log + [outcome])
  }

  /** closeUnlocked followed by the return of the error. */
  function CloseAndFail(s: State, g: GoroutineId, id: CallId): State {
    Return(s.(ws := None), g, TransportFailure(id))
  }

  function Step(s: State, a: Action): State {
    match a
    case StartSend(g) => if PcOf(s, g).Idle? then Move(s, g, Checking) else s
    case StartConnect(g) => if PcOf(s, g).Idle? then Move(s, g, Connecting(false)) else s
    case CallClose(g) => if PcOf(s, g).Idle? && s.lock.None? then s.(ws := None) else s
    case TakeNumber(g) => StepTakeNumber(s, g)
    case CheckConnected(g) => StepCheck(s, g)
    case LockAndDial(g, dialOk) => StepDial(s, g, dialOk)
    case ReadHandshake(g, ok) => StepHandshake(s, g, ok)
    case LockAndIssue(g, encodes) => StepIssue(s, g, encodes)
    case Write(g, ok, delivered) => StepWrite(s, g, ok, delivered)
    case Read(g, ok) => StepRead(s, g, ok)
    case HandlerReturns(g) => StepHandlerReturns(s, g)
    case ServerGreets(c, wellFormed) => StepGreet(s, c, wellFormed)
    case ServerAnswers(c) => StepAnswer(s, c)
    case ServerPushes(c, decodable) => StepPush(s, c, decodable)
  }

  /** Traverse takes a number of its own under the lock, connected or not, before it calls sendRequest. */
  function StepTakeNumber(s: State, g: GoroutineId): State {
    if PcOf(s, g).Idle? && s.lock.None? then s.(issued := s.issued + 1) else s
  }

  /** ensureConnected: look at the connection under the lock, then give the lock back. */
  function StepCheck(s: State, g: GoroutineId): State {
    if !PcOf(s, g).Checking? || s.lock.Some? then s
    else if s.ws.Some? then Move(s, g, SendWaiting)
    else Move(s, g, Connecting(true))
  }

  /** Connect up to the handshake: it refuses when another goroutine has connected meanwhile. */
  function StepDial(s: State, g: GoroutineId, dialOk: bool): State {
    if !PcOf(s, g).Connecting? || s.lock.Some? then s
    else if s.ws.Some? || !dialOk then Move(s, g, Idle)
    else Move(s.(lock := Some(g), ws := Some(|s.conns|), conns := s.conns + [Conn(false, [], [])]),
              g, AwaitingHandshake(PcOf(s, g).thenSend))
  }

  /** The rest of Connect: a read failure or a malformed handshake drops the connection. */
  function StepHandshake(s: State, g: GoroutineId, ok: bool): State {
    var pc := PcOf(s, g);
    if !pc.AwaitingHandshake? || s.ws.None? || s.ws.value >= |s.conns| then s
    else
      var conn := s.conns[s.ws.value];
      if !ok then Move(s.(lock := None, ws := None), g, Idle)
      else if conn.inbox == [] then s
      else
        var s' := SetConn(s, s.ws.value, conn.(inbox := conn.inbox[1..]));
        if conn.inbox[0].Handshake? && conn.inbox[0].wellFormed
        then Move(s'.(lock := None), g, if pc.thenSend then SendWaiting else Idle)
        else Move(s'.(lock := None, ws := None), g, Idle)
  }

  /** sendRequest takes the lock, issues the next number and encodes; a request that does not encode returns. */
  function StepIssue(s: State, g: GoroutineId, encodes: bool): State {
    if !PcOf(s, g).SendWaiting? || s.lock.Some? then s
    else if s.ws.None? then Move(s, g, Idle)
    else if !encodes then Move(s.(issued := s.issued + 1), g, Idle)
    else Move(s.(lock := Some(g), issued := s.issued + 1, inflight := s.inflight + [s.issued]),
              g, Writing(s.issued, s.ws.value))
  }

  /** Deadlines and the write. A failed write may or may not have reached the server. */
  function StepWrite(s: State, g: GoroutineId, ok: bool, delivered: bool): State {
    var pc := PcOf(s, g);
    if !pc.Writing? || pc.ws >= |s.conns| then s
    else
      var conn := s.conns[pc.ws];
      var s' := if ok || delivered then SetConn(s, pc.ws, conn.(owed := conn.owed + [pc.id])) else s;
      if ok then Move(s', g, Reading(pc.id, Some(pc.ws))) else CloseAndFail(s', g, pc.id)
  }

  /**
    * One turn of the read loop. A nil connection here is the crash of a read through a nil pointer;
    * the deferred unlock still runs. An event is skipped, or handed to the handler with the lock released.
    */
  function StepRead(s: State, g: GoroutineId, ok: bool): State {
    var pc := PcOf(s, g);
    if !pc.Reading? then s
    else if pc.conn.None? then Return(s, g, NilConnection(pc.id))
    else if pc.conn.value >= |s.conns| then s
    else if !ok then CloseAndFail(s, g, pc.id)
    else
      var conn := s.conns[pc.conn.value];
      if conn.inbox == [] then s
      else
        var s' := SetConn(s, pc.conn.value, conn.(inbox := conn.inbox[1..]));
        match conn.inbox[0]
        case Event(decodable) =>
          if decodable && s.hasHandler then Move(s'.(lock := None), g, InHandler(pc.id)) else s'
        case Response(tag, _) =>
          Return(s', g, if tag == WireSeq(pc.id) then Success(pc.id, conn.inbox[0])
                        else SequenceMismatch(pc.id, conn.inbox[0]))
        case Handshake(_) => Return(s', g, DecodeFailure(pc.id))
  }

  /** The handler has returned: retake the lock and reload the connection. */
  function StepHandlerReturns(s: State, g: GoroutineId): State {
    var pc := PcOf(s, g);
    if !pc.InHandler? || s.lock.Some? then s
    else Move(s.(lock := Some(g)), g, Reading(pc.id, s.ws))
  }

  function StepGreet(s: State, c: ConnId, wellFormed: bool): State {
    if c >= |s.conns| || s.conns[c].greeted then s
    else SetConn(s, c, s.conns[c].(greeted := true, inbox := s.conns[c].inbox + [Handshake(wellFormed)]))
  }

  /** The server answers the oldest request it holds, echoing the number on the wire. */
  function StepAnswer(s: State, c: ConnId): State {
    if c >= |s.conns| || !s.conns[c].greeted || s.conns[c].owed == [] then s
    else
      var conn := s.conns[c];
      var id := conn.owed[0];
      SetConn(s, c, conn.(owed := conn.owed[1..], inbox := conn.inbox + [Response(WireSeq(id), id)]))
  }

  function StepPush(s: State, c: ConnId, decodable: bool): State {
    if c >= |s.conns| || !s.conns[c].greeted then s
    else SetConn(s, c, s.conns[c].(inbox := s.conns[c].inbox + [Event(decodable)]))
  }

  function Run(s: State, actions: seq<Action>): State
    decreases |actions|
  {
    if actions == [] then s else Run(Step(s, actions[0]), actions[1..])
  }

  lemma {:induction false} RunConcat(s: State, before: seq<Action>, after: seq<Action>)
    ensures Run(s, before + after) == Run(Run(s, before), after)
    decreases |before|
  {
    if before == [] {
      assert before + after == after;
    } else {
      RunConcat(Step(s, before[0]), before[1..], after);
      assert (before + after)[1..] == before[1..] + after && (before + after)[0] == before[0];
    }
  }

  lemma RunAppend(s: State, actions: seq<Action>, a: Action)
    ensures Run(s, actions + [a]) == Step(Run(s, actions), a)
  {
    RunConcat(s, actions, [a]);
    var t := Run(s, actions);
    assert [a][1..] == [] && Run(t, [a]) == Run(Step(t, a), []);
  }

  lemma RunCons(s: State, a: Action, rest: seq<Action>)
    ensures Run(s, [a] + rest) == Run(Step(s, a), rest)
  {
    assert ([a] + rest)[1..] == rest;
  }
}
