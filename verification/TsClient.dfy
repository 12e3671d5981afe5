/**
  * The TypeScript client's table of pending requests, its timers and its message loop.
  *
  * The client runs on an event loop, so each handler runs to its end before the next starts. `State`
  * and `Step` specify the handlers.
  */
module TsClient {
  import opened Bytes
  import opened Lists
  import opened ResponseCodec

  /** Why the server sent a message, which the client cannot see. */
  datatype Origin = Answer(call: nat) | Greeting | Push

  /** How a promise was asked to settle. Only the first request counts; later ones do nothing. */
  datatype Settlement = Resolved(response: Response, origin: Origin) | TimedOut | ConnectionClosed | SendFailed

  /**
    * One call of sendAndWait past its connection check: the number it took, whether its timer is
    * still set, and every attempt to settle its promise.
    */
  datatype Call = Call(tag: nat, timerSet: bool, attempts: seq<Settlement>)

  /** A message from the socket. Whether it parses as a handshake or an event is left open. */
  datatype Incoming = Incoming(data: seq<byte>, parsesAsHandshake: bool, decodesAsEvent: bool, origin: Origin)

  /** What user code does from inside a listener: methods of this same client, in order. */
  datatype UserCall = UserClose | UserTakeNumber | UserSend(encodes: bool, sendOk: bool)
  type Reaction = seq<UserCall>

  datatype State = State(
    hasHandler: bool,
    hasSocket: bool,
    connected: bool,
    handshakeReceived: bool,
    seqCounter: nat,
    pending: map<nat, nat>,
    buffer: seq<Incoming>,
    isProcessing: bool,
    calls: seq<Call>)

  /**
    * The tasks of the event loop. `TakeNumber` is traverse, which puts a number of its own into its payload
    * before it calls sendAndWait. `Send` is sendAndWait once it is connected, at once or after its
    * connect; `Receive` carries the reactions of the listeners it ends up calling.
    */
  datatype Task =
    | Dial
    | Open
    | TakeNumber
    | Send(encodes: bool, sendOk: bool)
    | Receive(message: Incoming, script: seq<Reaction>)
    | TimerFires(call: nat)
    | Close(reaction: Reaction)
    | SocketClosed(reaction: Reaction)

  // ---- The tests on incoming bytes ----

  predicate IsPubSubEvent(data: seq<byte>) { |data| > 0 && data[0] == 0xFF }

  predicate LooksLikeText(data: seq<byte>) { |data| > 0 && 0x20 <= data[0] <= 0x7E }

  // ---- The handlers, as functions of the state ----

  function Attempt(calls: seq<Call>, c: nat, how: Settlement): seq<Call>
    requires c < |calls|
  {
    calls[c := calls[c].(attempts := calls[c].attempts + [how])]
  }

  /** The timer is cleared or spent, the entry under the number goes, and the promise is settled. */
  function Finish(s: State, tag: nat, c: nat, how: Settlement): State
    requires c < |s.calls|
  {
    s.(pending := s.pending - {tag},
       calls := Attempt(s.calls[c := s.calls[c].(timerSet := false)], c, how))
  }

  /** A number above 32 bits cannot be written into the request, so encoding throws. */
  function SendStep(s: State, encodes: bool, sendOk: bool): State {
    var tag := s.seqCounter;
    var c := |s.calls|;
    var s' := s.(seqCounter := tag + 1, pending := s.pending[tag := c], calls := s.calls + [Call(tag, true, [])]);
    if encodes && tag < TWO_32 && sendOk && s.hasSocket then s' else Finish(s', tag, c, SendFailed)
  }

  function TakeNumberStep(s: State): State { s.(seqCounter := s.seqCounter + 1) }

  /** Every pending promise is rejected; the timers stay set. */
  function RejectAll(s: State): State {
    s.(calls := seq(|s.calls|, c requires 0 <= c < |s.calls| =>
                      if c in s.pending.Values then s.calls[c].(attempts := s.calls[c].attempts + [ConnectionClosed])
                      else s.calls[c]),
       pending := map[])
  }

  function CloseStep(s: State): State {
    if s.hasSocket && s.connected
    then RejectAll(s).(hasSocket := false, connected := false, handshakeReceived := false,
                       buffer := [], isProcessing := false)
    else s
  }

  /** One call by a listener. A send that finds no connection registers later, as a task of its own. */
  function ReactOnce(s: State, call: UserCall): State {
    match call
    case UserClose => CloseStep(s)
    case UserTakeNumber => TakeNumberStep(s)
    case UserSend(encodes, sendOk) => if s.hasSocket && s.connected then SendStep(s, encodes, sendOk) else s
  }

  function React(s: State, reaction: Reaction): State
    decreases |reaction|
  {
    if reaction == [] then s else React(ReactOnce(s, reaction[0]), reaction[1..])
  }

  function Notify(s: State, script: seq<Reaction>): (State, seq<Reaction>) {
    if script == [] then (s, []) else (React(s, script[0]), script[1..])
  }

  function Dispatch(s: State, m: Incoming, script: seq<Reaction>): (State, seq<Reaction>) {
    if !s.handshakeReceived then
      if m.parsesAsHandshake then (s.(handshakeReceived := true), script) else Notify(s, script)
    else if IsPubSubEvent(m.data) then
      if !m.decodesAsEvent || !s.hasHandler then Notify(s, script)
      else var (s', script') := Notify(s, script); Notify(s', script')
    else if LooksLikeText(m.data) then (s, script)
    else match TsDecoded(m.data)
      case None => Notify(s, script)
      case Some(r) =>
        if r.tag in s.pending && s.pending[r.tag] < |s.calls|
        then (Finish(s, r.tag, s.pending[r.tag], Resolved(r, m.origin)), script)
        else Notify(s, script)
  }

  lemma {:induction false} ReactBuffer(s: State, reaction: Reaction)
    ensures |React(s, reaction).buffer| <= |s.buffer|
    decreases |reaction|
  {
    if reaction != [] {
      ReactBuffer(ReactOnce(s, reaction[0]), reaction[1..]);
    }
  }

  lemma DispatchBuffer(s: State, m: Incoming, script: seq<Reaction>)
    ensures |Dispatch(s, m, script).0.buffer| <= |s.buffer|
  {
    if script != [] {
      ReactBuffer(s, script[0]);
      if |script| > 1 { ReactBuffer(React(s, script[0]), script[1]); }
    }
  }

  /** The loop of processMessages. */
  function Drain(s: State, script: seq<Reaction>): State
    decreases |s.buffer|
  {
    if s.buffer == [] then s
    else
      var rest := s.(buffer := s.buffer[1..]);
      DispatchBuffer(rest, s.buffer[0], script);
      var (s', script') := Dispatch(rest, s.buffer[0], script);
      Drain(s', script')
  }

  function ReceiveStep(s: State, m: Incoming, script: seq<Reaction>): State {
    var s' := s.(buffer := s.buffer + [m]);
    if s'.isProcessing then s'
    else Drain(s'.(isProcessing := true), script).(isProcessing := false)
  }

  /** The timer's closure deletes by number, whatever is stored under that number now. */
  function TimerStep(s: State, c: nat): State {
    if c >= |s.calls| || !s.calls[c].timerSet then s
    else Finish(s, s.calls[c].tag, c, TimedOut)
  }

  function Step(s: State, task: Task): State {
    match task
    case Dial => s.(hasSocket := true)
    case Open => s.(connected := true)
    case TakeNumber => TakeNumberStep(s)
    case Send(encodes, sendOk) => SendStep(s, encodes, sendOk)
    case Receive(m, script) => ReceiveStep(s, m, script)
    case TimerFires(c) => TimerStep(s, c)
    case Close(reaction) => if s.hasSocket && s.connected then React(CloseStep(s), reaction) else s
    case SocketClosed(reaction) => React(RejectAll(s).(connected := false), reaction)
  }

  function Start(hasHandler: bool): State {
    State(hasHandler, false, false, false, 0, map[], [], false, [])
  }

  function Run(s: State, tasks: seq<Task>): State
    decreases |tasks|
  {
    if tasks == [] then s else Run(Step(s, tasks[0]), tasks[1..])
  }
}
