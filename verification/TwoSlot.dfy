/**
  * The C client's receive side on libwebsockets: one slot for the message being read, one slot for
  * the next message, filled by callbacks and emptied by a blocking reader.
  */
module TwoSlot {
  import opened Bytes
  import opened Lists

  /** What lws_service can report: part of a message, its last part or not, or the end of the connection. */
  datatype Callback = Chunk(data: seq<byte>, final: bool) | Closed

  /**
    * A chunk that arrived, with whether the connection was open at that moment, the complete messages
    * held, and the start of a next one.
    */
  datatype Arrival = Arrival(data: seq<byte>, final: bool, open: bool, held: seq<seq<byte>>, started: seq<byte>)

  /** The slots, with the history of chunks that arrived and messages the reader was given. */
  datatype State = State(
    connected: bool,
    recv: seq<byte>,
    recvComplete: bool,
    queue: seq<byte>,
    queueComplete: bool,
    arrived: seq<Arrival>,
    delivered: seq<seq<byte>>)

  /** `Arrive` is a callback outside a read; a read carries what each of its turns of lws_service reports. */
  datatype Op = Arrive(callback: Callback) | Read(schedule: seq<seq<Callback>>)

  function Start(): State { State(true, [], false, [], false, [], []) }

  /** The complete messages held, in the order the reader will get them. */
  function Held(s: State): seq<seq<byte>> {
    (if s.recvComplete then [s.recv] else []) + (if s.queueComplete then [s.queue] else [])
  }

  /** The bytes of the message after those, as far as they have arrived. */
  function Started(s: State): seq<byte> {
    if !s.recvComplete then s.recv else if !s.queueComplete then s.queue else []
  }

  // ---- The callback and the reader, as functions of the state ----

  function OnCallback(s: State, c: Callback): State {
    match c
    case Closed => s.(connected := false, recvComplete := true)
    case Chunk(data, final) =>
      var s' := s.(arrived := s.arrived + [Arrival(data, final, s.connected, Held(s), Started(s))]);
      if !s.recvComplete && !s.queueComplete then s'.(recv := s.recv + data, recvComplete := final)
      else if s.recvComplete && !s.queueComplete then s'.(queue := s.queue + data, queueComplete := final)
      else s'
  }

  function Service(s: State, callbacks: seq<Callback>): State
    decreases |callbacks|
  {
    if callbacks == [] then s else Service(OnCallback(s, callbacks[0]), callbacks[1..])
  }

  /** The waiting loop: until a message is complete, the connection is gone, or time is up. */
  function Wait(s: State, schedule: seq<seq<Callback>>): State
    decreases |schedule|
  {
    if s.recvComplete || schedule == [] then s
    else
      var s' := Service(s, schedule[0]);
      if s'.connected then Wait(s', schedule[1..]) else s'
  }

  /** Hand out the message and move a queued one up. */
  function Take(s: State): State {
    var s' := s.(delivered := s.delivered + [s.recv]);
    if s.queueComplete && |s.queue| > 0
    then s'.(recv := s.queue, recvComplete := true, queue := [], queueComplete := false)
    else s'.(recv := [], recvComplete := false)
  }

  /** The state in which a read that finds no message starts to wait. */
  function Reset(s: State): State {
    if s.recvComplete then s.(recv := [], recvComplete := false, queue := [], queueComplete := false)
    else s.(recv := [])
  }

  predicate Ready(s: State) { s.recvComplete && |s.recv| > 0 }

  function ReadStep(s: State, schedule: seq<seq<Callback>>): State {
    if !s.connected then s
    else if Ready(s) then Take(s)
    else
      var s' := Wait(Reset(s), schedule);
      if s'.connected && Ready(s') then Take(s') else s'
  }

  function Step(s: State, op: Op): State {
    match op
    case Arrive(c) => OnCallback(s, c)
    case Read(schedule) => ReadStep(s, schedule)
  }

  function Run(s: State, ops: seq<Op>): State
    decreases |ops|
  {
    if ops == [] then s else Run(Step(s, ops[0]), ops[1..])
  }

  // ---- Runs of whole messages, empty ones included ----

  predicate Whole(c: Callback) { c.Chunk? ==> c.final }

  ghost predicate WholeMessages(op: Op) {
    match op
    case Arrive(c) => Whole(c)
    case Read(schedule) => forall cs, c :: cs in schedule && c in cs ==> Whole(c)
  }

  /** A message finds room if it has bytes and nothing is held, or just one message that has bytes. */
  predicate FindsRoom(a: Arrival) {
    a.data != [] && (a.held == [] || (|a.held| == 1 && a.held[0] != []))
  }

  /** The messages that found room. */
  function Kept(arrived: seq<Arrival>): seq<seq<byte>> {
    if arrived == [] then []
    else
      var last := arrived[|arrived| - 1];
      Kept(arrived[..|arrived| - 1]) + if FindsRoom(last) then [last.data] else []
  }

  /** The held messages that reads will hand out: behind an empty one, none. */
  function Coming(s: State): seq<seq<byte>> {
    if s.recvComplete && s.recv != [] then [s.recv] + (if s.queueComplete && s.queue != [] then [s.queue] else [])
    else []
  }

  /** On an open connection, what was handed out and what is coming is exactly what found room. */
  ghost predicate QueueInv(s: State) {
    if s.connected then
      && (!s.recvComplete ==> s.recv == []) && (!s.queueComplete ==> s.queue == [])
      && (s.queueComplete ==> s.recvComplete || s.queue == [])
      && s.delivered + Coming(s) == Kept(s.arrived)
    else s.delivered <= Kept(s.arrived)
  }

  lemma KeptOneMore(arrived: seq<Arrival>, last: Arrival)
    ensures Kept(arrived + [last]) == Kept(arrived) + if FindsRoom(last) then [last.data] else []
  {
    assert (arrived + [last])[..|arrived|] == arrived;
  }

  lemma MessageComes(s: State, data: seq<byte>)
    requires QueueInv(s) && s.connected
    ensures var last := Arrival(data, true, true, Held(s), Started(s));
            Coming(OnCallback(s, Chunk(data, true))) == Coming(s) + if FindsRoom(last) then [data] else []
  {
    assert [] + data == data;
  }

  lemma CallbackKeepsQueue(s: State, c: Callback)
    requires QueueInv(s) && Whole(c)
    ensures QueueInv(OnCallback(s, c))
  {
    if c.Chunk? {
      var last := Arrival(c.data, c.final, s.connected, Held(s), Started(s));
      KeptOneMore(s.arrived, last);
      if s.connected {
        MessageComes(s, c.data);
        assert [] + c.data == c.data;
      }
    }
  }

  lemma {:induction false} ServiceKeepsQueue(s: State, callbacks: seq<Callback>)
    requires QueueInv(s) && forall c :: c in callbacks ==> Whole(c)
    ensures QueueInv(Service(s, callbacks))
    decreases |callbacks|
  {
    if callbacks != [] {
      CallbackKeepsQueue(s, callbacks[0]);
      ServiceKeepsQueue(OnCallback(s, callbacks[0]), callbacks[1..]);
    }
  }

  lemma {:induction false} WaitKeepsQueue(s: State, schedule: seq<seq<Callback>>)
    requires QueueInv(s) && WholeMessages(Read(schedule))
    ensures QueueInv(Wait(s, schedule))
    decreases |schedule|
  {
    if !s.recvComplete && schedule != [] {
      forall c | c in schedule[0] ensures Whole(c) {
        assert schedule[0] in schedule && c in schedule[0];
      }
      ServiceKeepsQueue(s, schedule[0]);
      forall cs, c | cs in schedule[1..] && c in cs ensures Whole(c) {
        assert cs in schedule && c in cs;
      }
      if Service(s, schedule[0]).connected {
        WaitKeepsQueue(Service(s, schedule[0]), schedule[1..]);
      }
    }
  }

  lemma TakeKeepsQueue(s: State)
    requires QueueInv(s) && s.connected && Ready(s)
    ensures QueueInv(Take(s))
  {
    assert Coming(s) == [s.recv] + Coming(Take(s));
    assert Take(s).delivered + Coming(Take(s)) == s.delivered + Coming(s);
  }

  lemma StepKeepsQueue(s: State, op: Op)
    requires QueueInv(s) && WholeMessages(op)
    ensures QueueInv(Step(s, op))
  {
    match op
    case Arrive(c) => CallbackKeepsQueue(s, c);
    case Read(schedule) =>
      if s.connected {
        if Ready(s) {
          TakeKeepsQueue(s);
        } else {
          assert Coming(Reset(s)) == Coming(s) == [];
          WaitKeepsQueue(Reset(s), schedule);
          var t := Wait(Reset(s), schedule);
          if t.connected && Ready(t) { TakeKeepsQueue(t); }
        }
      }
  }

  lemma {:induction false} RunKeepsQueue(s: State, ops: seq<Op>)
    requires QueueInv(s) && forall op :: op in ops ==> WholeMessages(op)
    ensures QueueInv(Run(s, ops))
    decreases |ops|
  {
    if ops != [] {
      StepKeepsQueue(s, ops[0]);
      RunKeepsQueue(Step(s, ops[0]), ops[1..]);
    }
  }

  /**
    * For any mix of callbacks, reads and timeouts on one connection, and whole messages, empty or not: the
    * reader is given, in order and byte for byte, the messages that found room, and the held ones that
    * are not yet given are at most two.
    */
  lemma DeliveredInOrder(ops: seq<Op>)
    requires forall op :: op in ops ==> WholeMessages(op)
    ensures var s := Run(Start(), ops);
      && s.delivered <= Kept(s.arrived)
      && (s.connected ==> s.delivered + Coming(s) == Kept(s.arrived) && |Coming(s)| <= 2)
  {
    RunKeepsQueue(Start(), ops);
  }

  // ---- Runs in which every chunk is non-empty, whole or not ----

  predicate NonEmpty(c: Callback) { c.Chunk? ==> c.data != [] }

  ghost predicate NonEmptyChunks(op: Op) {
    match op
    case Arrive(c) => NonEmpty(c)
    case Read(schedule) => forall cs, c :: cs in schedule && c in cs ==> NonEmpty(c)
  }

  /** The next message is never complete while the current one is not, and never empty. */
  predicate Flows(s: State) {
    s.queueComplete ==> s.recvComplete && s.queue != []
  }

  lemma {:induction false} ServiceFlows(s: State, callbacks: seq<Callback>)
    requires Flows(s) && forall c :: c in callbacks ==> NonEmpty(c)
    ensures Flows(Service(s, callbacks))
    decreases |callbacks|
  {
    if callbacks != [] {
      assert NonEmpty(callbacks[0]);
      ServiceFlows(OnCallback(s, callbacks[0]), callbacks[1..]);
    }
  }

  lemma {:induction false} WaitFlows(s: State, schedule: seq<seq<Callback>>)
    requires Flows(s) && NonEmptyChunks(Read(schedule))
    ensures Flows(Wait(s, schedule))
    decreases |schedule|
  {
    if !s.recvComplete && schedule != [] {
      forall c | c in schedule[0] ensures NonEmpty(c) {
        assert schedule[0] in schedule && c in schedule[0];
      }
      ServiceFlows(s, schedule[0]);
      forall cs, c | cs in schedule[1..] && c in cs ensures NonEmpty(c) {
        assert cs in schedule && c in cs;
      }
      if Service(s, schedule[0]).connected {
        WaitFlows(Service(s, schedule[0]), schedule[1..]);
      }
    }
  }

  /**
    * No wedge: with non-empty chunks, fragmented or not, no reachable state holds a complete next
    * message without a complete current one, so a waiting reader's slot takes whatever arrives next.
    */
  lemma {:induction false} NeverWedges(s: State, ops: seq<Op>)
    requires Flows(s) && forall op :: op in ops ==> NonEmptyChunks(op)
    ensures Flows(Run(s, ops))
    ensures var t := Run(s, ops);
            !t.recvComplete ==> forall c :: OnCallback(t, c).recv == if c.Chunk? then t.recv + c.data else t.recv
    decreases |ops|
  {
    if ops != [] {
      match ops[0] {
        case Arrive(c) => assert NonEmptyChunks(ops[0]);
        case Read(schedule) =>
          assert NonEmptyChunks(ops[0]);
          WaitFlows(Reset(s), schedule);
      }
      NeverWedges(Step(s, ops[0]), ops[1..]);
    }
  }

  // ---- Runs in which every message is whole and non-empty ----

  /** While the connection is open, no empty message is held; none was held when anything arrived. */
  ghost predicate NothingEmpty(s: State) {
    && (s.connected ==> Flows(s) && (s.recvComplete ==> s.recv != []))
    && forall a :: a in s.arrived && a.open ==> a.data != [] && forall m :: m in a.held ==> m != []
  }

  predicate Full(c: Callback) { Whole(c) && NonEmpty(c) }

  lemma CallbackLeavesNothingEmpty(s: State, c: Callback)
    requires NothingEmpty(s) && Full(c)
    ensures NothingEmpty(OnCallback(s, c))
  {
  }

  lemma {:induction false} ServiceLeavesNothingEmpty(s: State, callbacks: seq<Callback>)
    requires NothingEmpty(s) && forall c :: c in callbacks ==> Full(c)
    ensures NothingEmpty(Service(s, callbacks))
    decreases |callbacks|
  {
    if callbacks != [] {
      CallbackLeavesNothingEmpty(s, callbacks[0]);
      ServiceLeavesNothingEmpty(OnCallback(s, callbacks[0]), callbacks[1..]);
    }
  }

  lemma {:induction false} WaitLeavesNothingEmpty(s: State, schedule: seq<seq<Callback>>)
    requires NothingEmpty(s) && WholeMessages(Read(schedule)) && NonEmptyChunks(Read(schedule))
    ensures NothingEmpty(Wait(s, schedule))
    decreases |schedule|
  {
    if !s.recvComplete && schedule != [] {
      forall c | c in schedule[0] ensures Full(c) {
        assert schedule[0] in schedule && c in schedule[0];
      }
      ServiceLeavesNothingEmpty(s, schedule[0]);
      forall cs, c | cs in schedule[1..] && c in cs ensures Full(c) {
        assert cs in schedule && c in cs;
      }
      if Service(s, schedule[0]).connected { WaitLeavesNothingEmpty(Service(s, schedule[0]), schedule[1..]); }
    }
  }

  lemma {:induction false} RunLeavesNothingEmpty(s: State, ops: seq<Op>)
    requires NothingEmpty(s) && forall op :: op in ops ==> WholeMessages(op) && NonEmptyChunks(op)
    ensures NothingEmpty(Run(s, ops))
    decreases |ops|
  {
    if ops != [] {
      assert WholeMessages(ops[0]) && NonEmptyChunks(ops[0]);
      match ops[0] {
        case Arrive(c) => CallbackLeavesNothingEmpty(s, c);
        case Read(schedule) => if s.connected && !Ready(s) { WaitLeavesNothingEmpty(Reset(s), schedule); }
      }
      RunLeavesNothingEmpty(Step(s, ops[0]), ops[1..]);
    }
  }

  /** Among whole, non-empty messages, one is lost only if two undelivered ones were held when it arrived. */
  lemma LostOnlyWhenTwoAreHeld(ops: seq<Op>)
    requires forall op :: op in ops ==> WholeMessages(op) && NonEmptyChunks(op)
    ensures forall a :: a in Run(Start(), ops).arrived && a.open ==> (FindsRoom(a) <==> |a.held| < 2)
  {
    RunLeavesNothingEmpty(Start(), ops);
    forall a | a in Run(Start(), ops).arrived && a.open ensures FindsRoom(a) <==> |a.held| < 2 {
      if |a.held| == 1 { assert a.held[0] in a.held; }
    }
  }

  // ---- An empty message jams the buffer for good ----

  /** The next slot holds a complete, empty message, which is never moved up and keeps the slot taken. */
  predicate Jammed(s: State) {
    s.queueComplete && s.queue == [] && (s.recvComplete ==> s.recv != [])
  }

  /** A message with no bytes at all ended while exactly one message was held, and that one has bytes. */
  predicate Jams(a: Arrival) {
    a.final && a.data == [] && a.started == [] && |a.held| == 1 && a.held[0] != []
  }

  ghost predicate JamArrived(arrived: seq<Arrival>) {
    exists i :: 0 <= i < |arrived| && Jams(arrived[i])
  }

  /** On an open connection the buffer is jammed exactly when such a message has arrived. */
  ghost predicate JamInv(s: State) {
    s.connected ==>
      && (s.queueComplete ==> s.recvComplete || s.queue == [])
      && (Jammed(s) <==> JamArrived(s.arrived))
  }

  lemma CallbackKeepsJam(s: State, c: Callback)
    requires JamInv(s)
    ensures JamInv(OnCallback(s, c))
  {
    if c.Chunk? && s.connected {
      var t := OnCallback(s, c);
      var last := t.arrived[|s.arrived|];
      assert Jams(last) ==> s.recvComplete && !s.queueComplete;
      if JamArrived(s.arrived) {
        var i :| 0 <= i < |s.arrived| && Jams(s.arrived[i]);
        assert Jams(t.arrived[i]);
      }
    }
  }

  lemma {:induction false} ServiceKeepsJam(s: State, callbacks: seq<Callback>)
    requires JamInv(s)
    ensures JamInv(Service(s, callbacks))
    decreases |callbacks|
  {
    if callbacks != [] {
      CallbackKeepsJam(s, callbacks[0]);
      ServiceKeepsJam(OnCallback(s, callbacks[0]), callbacks[1..]);
    }
  }

  lemma {:induction false} WaitKeepsJam(s: State, schedule: seq<seq<Callback>>)
    requires JamInv(s)
    ensures JamInv(Wait(s, schedule))
    decreases |schedule|
  {
    if !s.recvComplete && schedule != [] {
      ServiceKeepsJam(s, schedule[0]);
      if Service(s, schedule[0]).connected { WaitKeepsJam(Service(s, schedule[0]), schedule[1..]); }
    }
  }

  lemma {:induction false} RunKeepsJam(s: State, ops: seq<Op>)
    requires JamInv(s)
    ensures JamInv(Run(s, ops))
    decreases |ops|
  {
    if ops != [] {
      match ops[0] {
        case Arrive(c) => CallbackKeepsJam(s, c);
        case Read(schedule) => if s.connected && !Ready(s) { WaitKeepsJam(Reset(s), schedule); }
      }
      RunKeepsJam(Step(s, ops[0]), ops[1..]);
    }
  }

  /**
    * For any mix of callbacks, reads and timeouts, with messages whole or fragmented, empty or not, inside
    * a read or between reads: the buffer of an open connection is jammed if and only if an empty message
    * arrived while exactly one message was held, a non-empty one.
    */
  lemma JammedExactly(ops: seq<Op>)
    requires Run(Start(), ops).connected
    ensures Jammed(Run(Start(), ops)) <==> JamArrived(Run(Start(), ops).arrived)
  {
    RunKeepsJam(Start(), ops);
  }

  /** One read is enough: a message and an empty one in the same turn of lws_service. */
  lemma JammedInOneRead(message: seq<byte>)
    requires message != []
    ensures var t := Step(Start(), Read([[Chunk(message, true), Chunk([], true)]]));
            t.connected && Jammed(t) && t.delivered == [message]
  {
    var first, second := Chunk(message, true), Chunk([], true);
    var s := OnCallback(Start(), first);
    assert [] + message == message && s.recv == message;
    assert [first, second][1..] == [second] && [second][1..] == [];
    var t := OnCallback(s, second);
    assert Service(Start(), [first, second]) == Service(s, [second]) == Service(t, []) == t;
    assert Reset(Start()) == Start() && Wait(Start(), [[first, second]]) == Wait(t, [[first, second]][1..]) == t;
  }

  // ---- What is left to a reader ----

  /** Jammed, or no longer connected; either way nothing beyond the current message is ever handed out. */
  predicate Stuck(s: State) { s.connected ==> Jammed(s) }

  /** What a stuck buffer can still hand out: the message that was held when the empty one came. */
  function LastOne(s: State): seq<seq<byte>> {
    if s.connected && s.recvComplete then [s.recv] else []
  }

  lemma {:induction false} ServiceStaysStuck(s: State, callbacks: seq<Callback>)
    requires Stuck(s)
    ensures var t := Service(s, callbacks);
            Stuck(t) && t.delivered == s.delivered && (t.connected ==> s.connected && LastOne(t) == LastOne(s))
    decreases |callbacks|
  {
    if callbacks != [] { ServiceStaysStuck(OnCallback(s, callbacks[0]), callbacks[1..]); }
  }

  lemma {:induction false} WaitStaysStuck(s: State, schedule: seq<seq<Callback>>)
    requires Stuck(s) && !s.recvComplete
    ensures var t := Wait(s, schedule);
            Stuck(t) && t.delivered == s.delivered && (t.connected ==> s.connected && !t.recvComplete)
    decreases |schedule|
  {
    if schedule != [] {
      ServiceStaysStuck(s, schedule[0]);
      var t := Service(s, schedule[0]);
      if t.connected {
        assert LastOne(t) == LastOne(s) == [];
        WaitStaysStuck(t, schedule[1..]);
      }
    }
  }

  lemma StepStaysStuck(s: State, op: Op)
    requires Stuck(s)
    ensures var t := Step(s, op);
            && Stuck(t) && (t.connected ==> s.connected)
            && (t.delivered + LastOne(t) == s.delivered + LastOne(s)
                || (!t.connected && t.delivered == s.delivered))
  {
    match op
    case Arrive(c) => ServiceStaysStuck(s, [c]);
      assert Service(s, [c]) == Service(OnCallback(s, c), [c][1..]) == OnCallback(s, c);
    case Read(schedule) =>
      if s.connected && !Ready(s) {
        WaitStaysStuck(Reset(s), schedule);
      }
  }

  /**
    * Once jammed, whatever arrives and however often it is read, a reader gets at most the one message
    * that was held, and no other message is handed out on this connection again.
    */
  lemma {:induction false} JammedForever(s: State, ops: seq<Op>)
    requires Stuck(s)
    ensures var t := Run(s, ops);
            Stuck(t) && s.delivered <= t.delivered <= s.delivered + LastOne(s)
    decreases |ops|
  {
    if ops != [] {
      StepStaysStuck(s, ops[0]);
      JammedForever(Step(s, ops[0]), ops[1..]);
    }
  }
}
