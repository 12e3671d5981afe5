/**
  * The Go client as the object it is. One goroutine executes sendRequest statement by statement while
  * others act between its steps; every such execution is shown to be a run of the protocol.
  */
module GoClientObject {
  import opened Lists
  import opened GoClient
  import opened GoClientSafety

  /** How a watched call stands: it gave up before it wrote, it returned, or it was watched no longer. */
  datatype Watched = NotSent | Returned(outcome: Outcome) | StillWaiting

  class Client {
    const hasHandler: bool
    var ws: Option<ConnId>

    /** The uint32 that the next request gets. */
    var seqCounter: nat

    /** The mutex, the connections, and where every goroutine stands. */
    var lock: Option<GoroutineId>
    var conns: seq<Conn>
    var pcs: map<GoroutineId, Pc>

    /** The history that the protocol's state keeps. */
    var issued: nat
    var inflight: seq<CallId>
    var log: seq<Outcome>

    function View(): State
      reads this
    {
      State(hasHandler, lock, ws, conns, issued, pcs, inflight, log)
    }

    ghost predicate Valid()
      reads this
    {
      seqCounter == WireSeq(issued)
    }

    constructor (hasHandler: bool)
      ensures Valid() && View() == Start(hasHandler)
    {
      this.hasHandler := hasHandler;
      ws, seqCounter, lock, conns, pcs := None, 0, None, [], map[];
      issued, inflight, log := 0, [], [];
    }

    /** The server and the other goroutines act. */
    method Others(actions: seq<Action>, g: GoroutineId)
      requires Valid() && OfOthers(actions, g)
      modifies this
      ensures Valid() && View() == Run(old(View()), actions) && PcOf(View(), g) == PcOf(old(View()), g)
    {
      OthersKeepPc(View(), actions, g);
      var s := Run(View(), actions);
      ws, seqCounter, lock, conns, pcs := s.ws, WireSeq(s.issued), s.lock, s.conns, s.pcs;
      issued, inflight, log := s.issued, s.inflight, s.log;
    }

    /** closeUnlocked. */
    method CloseUnlocked()
      modifies this`ws
      ensures ws == None
    {
      ws := None;
    }

    /** Close, by a goroutine that finds the lock free. */
    method Close(g: GoroutineId)
      requires Valid() && PcOf(View(), g).Idle? && lock.None?
      modifies this`ws
      ensures Valid() && View() == Step(old(View()), CallClose(g)) && ws == None
    {
      CloseUnlocked();
    }

    /** The number that Traverse takes for its own payload. */
    method TakeNumber(g: GoroutineId) returns (tag: nat)
      requires Valid() && PcOf(View(), g).Idle? && lock.None?
      modifies this`seqCounter, this`issued
      ensures Valid() && View() == Step(old(View()), Action.TakeNumber(g)) && tag == WireSeq(old(issued))
      ensures issued == old(issued) + 1
    {
      tag := seqCounter;
      seqCounter := (seqCounter + 1) % SEQ_MODULUS;
      issued := issued + 1;
    }

    /** ensureConnected up to the decision to connect. */
    method EnsureConnected(g: GoroutineId) returns (connected: bool)
      requires Valid() && PcOf(View(), g).Checking? && lock.None?
      modifies this`pcs
      ensures Valid() && View() == Step(old(View()), CheckConnected(g)) && connected == ws.Some?
      ensures PcOf(View(), g) == if connected then SendWaiting else Connecting(true)
    {
      connected := ws.Some?;
      pcs := pcs[g := if connected then SendWaiting else Connecting(true)];
    }

    /** Connect up to the handshake; false is an error. */
    method Dial(g: GoroutineId, dialOk: bool) returns (ok: bool)
      requires Valid() && PcOf(View(), g).Connecting? && lock.None?
      modifies this`ws, this`lock, this`conns, this`pcs
      ensures Valid() && View() == Step(old(View()), LockAndDial(g, dialOk))
      ensures ok == (old(ws).None? && dialOk)
      ensures ok ==> lock == Some(g) && ws == Some(|old(conns)|) && conns == old(conns) + [Conn(false, [], [])]
      ensures !ok ==> lock == None && ws == old(ws) && conns == old(conns) && PcOf(View(), g) == Idle
    {
      var thenSend := pcs[g].thenSend;
      if ws.Some? || !dialOk {
        pcs := pcs[g := Idle];
        return false;
      }
      lock, ws := Some(g), Some(|conns|);
      conns := conns + [Conn(false, [], [])];
      pcs := pcs[g := AwaitingHandshake(thenSend)];
      return true;
    }

    /** The rest of Connect: it succeeds, and keeps the connection, exactly when a well-formed handshake is read. */
    method FinishConnect(g: GoroutineId, readOk: bool) returns (connected: Option<bool>)
      requires Valid() && PcOf(View(), g).AwaitingHandshake? && ws.Some? && ws.value < |conns|
      modifies this`ws, this`lock, this`conns, this`pcs
      ensures Valid() && View() == Step(old(View()), ReadHandshake(g, readOk))
      ensures connected.None? ==> View() == old(View())
      ensures connected ==
        if !readOk then Some(false)
        else if old(conns)[old(ws).value].inbox == [] then None
        else Some(old(conns)[old(ws).value].inbox[0] == Handshake(true))
      ensures connected.Some? ==> lock == None && ws == if connected.value then old(ws) else None
      ensures connected == Some(true) ==>
        PcOf(View(), g) == if PcOf(old(View()), g).thenSend then SendWaiting else Idle
    {
      var thenSend := pcs[g].thenSend;
      if !readOk {
        CloseUnlocked();
        lock, pcs := None, pcs[g := Idle];
        return Some(false);
      }
      var from := conns[ws.value];
      if from.inbox == [] {
        return None;
      }
      conns := conns[ws.value := from.(inbox := from.inbox[1..])];
      if !from.inbox[0].Handshake? || !from.inbox[0].wellFormed {
        CloseUnlocked();
        lock, pcs := None, pcs[g := Idle];
        return Some(false);
      }
      lock, pcs := None, pcs[g := if thenSend then SendWaiting else Idle];
      return Some(true);
    }

    /** The deferred unlock, and the call's entry in the history. */
    method Leave(g: GoroutineId, outcome: Outcome)
      modifies this`lock, this`pcs, this`inflight, this`log
      ensures View() == Return(old(View()), g, outcome)
    {
      lock, pcs, inflight, log := None, pcs[g := Idle], Without(inflight, outcome.id), log + [outcome];
    }

    /** sendRequest from taking the lock to the encoding of the request. */
    method Issue(g: GoroutineId, encodes: bool) returns (tag: nat, sent: Option<ConnId>)
      requires Valid() && PcOf(View(), g).SendWaiting? && lock.None?
      modifies this
      ensures Valid() && View() == Step(old(View()), LockAndIssue(g, encodes))
      ensures sent == if encodes then old(ws) else None
      ensures sent.Some? ==> tag == WireSeq(old(issued)) && PcOf(View(), g) == Writing(old(issued), sent.value)
      ensures sent.None? ==> lock == None && PcOf(View(), g) == Idle && inflight == old(inflight) && log == old(log)
      ensures issued == old(issued) + if old(ws).Some? then 1 else 0
    {
      tag, sent := 0, None;
      if ws.None? {
        pcs := pcs[g := Idle];
        return;
      }
      tag := seqCounter;
      seqCounter := (seqCounter + 1) % SEQ_MODULUS;
      issued := issued + 1;
      if !encodes {
        pcs := pcs[g := Idle];
        return;
      }
      sent := ws;
      lock, inflight, pcs := Some(g), inflight + [issued - 1], pcs[g := Writing(issued - 1, ws.value)];
    }

    /** The write; a failure closes the connection. */
    method WriteRequest(g: GoroutineId, ok: bool, delivered: bool) returns (failure: Option<Outcome>)
      requires Valid() && PcOf(View(), g).Writing? && PcOf(View(), g).ws < |conns|
      modifies this
      ensures Valid() && View() == Step(old(View()), Write(g, ok, delivered))
      ensures var pc := PcOf(old(View()), g);
        if ok then failure == None && PcOf(View(), g) == Reading(pc.id, Some(pc.ws))
        else failure == Some(TransportFailure(pc.id)) && log == old(log) + [failure.value] && ws.None? && lock.None?
    {
      var id, conn := pcs[g].id, pcs[g].ws;
      if ok || delivered {
        conns := conns[conn := conns[conn].(owed := conns[conn].owed + [id])];
      }
      if !ok {
        CloseUnlocked();
        Leave(g, TransportFailure(id));
        return Some(TransportFailure(id));
      }
      pcs := pcs[g := Reading(id, Some(conn))];
      return None;
    }

    /** One turn of the read loop under the lock: a verdict, an event for the handler, or another turn. */
    method ReadMessage(g: GoroutineId, tag: nat, conn: Option<ConnId>, ok: bool) returns (outcome: Option<Outcome>)
      requires Valid() && PcOf(View(), g).Reading? && PcOf(View(), g).conn == conn && tag == WireSeq(PcOf(View(), g).id)
      requires conn.Some? ==> conn.value < |conns|
      modifies this
      ensures Valid() && View() == Step(old(View()), Read(g, ok))
      ensures if outcome.Some? then log == old(log) + [outcome.value] && outcome.value.id == PcOf(old(View()), g).id
              else PcOf(View(), g) in {PcOf(old(View()), g), InHandler(PcOf(old(View()), g).id)}
      ensures outcome.Some? ==> lock == None && PcOf(View(), g) == Idle
      ensures outcome == Some(NilConnection(old(PcOf(View(), g)).id)) <==> conn.None?
      ensures outcome == Some(TransportFailure(old(PcOf(View(), g)).id)) <==> conn.Some? && !ok
      ensures conn.Some? && !ok ==> ws == None
      ensures conn.Some? && ok && old(conns)[conn.value].inbox != [] ==>
        var m := old(conns)[conn.value].inbox[0];
        && (outcome.None? <==> m.Event?)
        && (PcOf(View(), g).InHandler? <==> m == Event(true) && hasHandler)
        && (m.Response? && m.tag == tag ==> outcome == Some(Success(old(PcOf(View(), g)).id, m)))
    {
      var id := pcs[g].id;
      if conn.None? {
        Leave(g, NilConnection(id));
        return Some(NilConnection(id));
      }
      if !ok {
        CloseUnlocked();
        Leave(g, TransportFailure(id));
        return Some(TransportFailure(id));
      }
      var from := conns[conn.value];
      if from.inbox == [] {
        return None;
      }
      var data := from.inbox[0];
      conns := conns[conn.value := from.(inbox := from.inbox[1..])];
      if data.Event? {
        if data.decodable && hasHandler {
          lock := None;
          pcs := pcs[g := InHandler(id)];
        }
        return None;
      }
      outcome := Some(if data.Handshake? then DecodeFailure(id)
                      else if data.tag != tag then SequenceMismatch(id, data)
                      else Success(id, data));
      Leave(g, outcome.value);
    }

    /** The handler has returned and the lock is free: retake it and reload the connection. */
    method Relock(g: GoroutineId)
      requires Valid() && PcOf(View(), g).InHandler? && lock.None?
      modifies this`lock, this`pcs
      ensures Valid() && View() == Step(old(View()), HandlerReturns(g))
      ensures PcOf(View(), g) == Reading(PcOf(old(View()), g).id, ws)
    {
      lock := Some(g);
      pcs := pcs[g := Reading(pcs[g].id, ws)];
    }

    /** One turn of the read loop, or of the wait for the handler and the lock, after others have acted. */
    method Turn(g: GoroutineId, tag: nat, conn: Option<ConnId>, reading: bool, ok: bool)
      returns (outcome: Option<Outcome>, conn': Option<ConnId>, reading': bool)
      requires Valid() && Inv(View()) && At(g, tag, conn, reading)
      modifies this
      ensures Valid() && View() == Run(old(View()), TurnOf(old(View()), g, ok))
      ensures if outcome.Some? then Ended(old(View()), g, outcome.value)
              else At(g, tag, conn', reading') && PcOf(View(), g).id == PcOf(old(View()), g).id
    {
      outcome, conn', reading' := None, conn, reading;
      if reading {
        RunAppend(View(), [], Read(g, ok));
        assert [] + [Read(g, ok)] == [Read(g, ok)];
        outcome := ReadMessage(g, tag, conn, ok);
        reading' := outcome.None? && pcs[g].Reading?;
      } else if lock.None? {
        RunAppend(View(), [], HandlerReturns(g));
        assert [] + [HandlerReturns(g)] == [HandlerReturns(g)];
        Relock(g);
        conn', reading' := ws, true;
      }
    }

    /** The call stands at a read from `conn`, or in its handler. */
    ghost predicate At(g: GoroutineId, tag: nat, conn: Option<ConnId>, reading: bool)
      reads this
    {
      var pc := PcOf(View(), g);
      && (if reading then pc.Reading? && pc.conn == conn else pc.InHandler?)
      && tag == WireSeq(pc.id)
    }

    /** The call that was under way has returned with this outcome. */
    ghost predicate Ended(before: State, g: GoroutineId, outcome: Outcome)
      reads this
    {
      PcOf(View(), g).Idle? && UnderWay(before, g) && LastReturned(outcome, PcOf(before, g).id)
    }

    /** The last call that returned is this one, with this outcome. */
    ghost predicate LastReturned(outcome: Outcome, id: CallId)
      reads this
    {
      log != [] && log[|log| - 1] == outcome && outcome.id == id
    }

    /** A turn after others have acted. */
    method TurnAmongOthers(g: GoroutineId, tag: nat, conn: Option<ConnId>, reading: bool,
                           others: seq<Action>, readOk: bool)
      returns (outcome: Option<Outcome>, conn': Option<ConnId>, reading': bool)
      requires Valid() && Inv(View()) && At(g, tag, conn, reading) && OfOthers(others, g)
      modifies this
      ensures Valid() && View() == Run(old(View()), AmongOthers(old(View()), g, others, readOk)) && Inv(View())
      ensures if outcome.Some? then Ended(old(View()), g, outcome.value)
              else At(g, tag, conn', reading') && PcOf(View(), g).id == PcOf(old(View()), g).id
    {
      ghost var start := View();
      Others(others, g);
      RunKeepsInv(start, others);
      ghost var own := TurnOf(View(), g, readOk);
      RunKeepsInv(View(), own);
      RunConcat(start, others, own);
      outcome, conn', reading' := Turn(g, tag, conn, reading, readOk);
    }

    /** What the state will be when the schedule is over. */
    ghost function Outlook(g: GoroutineId, schedule: seq<(seq<Action>, bool)>): State
      reads this
    {
      Run(View(), TurnsOf(View(), g, schedule))
    }

    /** The first turn of a schedule. */
    method FirstTurn(g: GoroutineId, tag: nat, conn: Option<ConnId>, reading: bool, schedule: seq<(seq<Action>, bool)>)
      returns (outcome: Option<Outcome>, conn': Option<ConnId>, reading': bool)
      requires Valid() && Inv(View()) && At(g, tag, conn, reading) && schedule != [] && OfOthers(schedule[0].0, g)
      modifies this
      ensures Valid() && Inv(View()) && Outlook(g, schedule[1..]) == old(Outlook(g, schedule))
      ensures if outcome.Some? then Ended(old(View()), g, outcome.value) && View() == Outlook(g, schedule[1..])
              else At(g, tag, conn', reading') && PcOf(View(), g).id == PcOf(old(View()), g).id
    {
      TurnsStep(View(), g, schedule);
      outcome, conn', reading' := TurnAmongOthers(g, tag, conn, reading, schedule[0].0, schedule[0].1);
      if outcome.Some? {
        TurnsEnd(View(), g, schedule[1..]);
      }
    }

    /** The read loop, among the steps of the others, until there is a verdict or nobody watches any more. */
    method AwaitVerdict(g: GoroutineId, tag: nat, first: Option<ConnId>, schedule: seq<(seq<Action>, bool)>)
      returns (outcome: Option<Outcome>)
      requires Valid() && Inv(View()) && At(g, tag, first, true)
      requires forall t :: t in schedule ==> OfOthers(t.0, g)
      modifies this
      ensures Valid() && View() == old(Outlook(g, schedule))
      ensures if outcome.Some? then Ended(old(View()), g, outcome.value) else UnderWay(View(), g)
    {
      var conn, reading, turn := first, true, 0;
      assert schedule[0..] == schedule;
      while turn < |schedule|
        invariant turn <= |schedule| && Valid() && Inv(View())
        invariant Outlook(g, schedule[turn..]) == old(Outlook(g, schedule))
        invariant At(g, tag, conn, reading) && PcOf(View(), g).id == PcOf(old(View()), g).id
      {
        assert schedule[turn] in schedule && schedule[turn..][1..] == schedule[turn + 1..];
        outcome, conn, reading := FirstTurn(g, tag, conn, reading, schedule[turn..]);
        if outcome.Some? {
          return;
        }
        turn := turn + 1;
      }
      TurnsEnd(View(), g, []);
      outcome := None;
    }

    /** sendRequest up to its read loop. */
    method Send(g: GoroutineId, encodes: bool, ok: bool, delivered: bool)
      returns (tag: nat, conn: Option<ConnId>, failure: Option<Outcome>)
      requires Valid() && Inv(View()) && PcOf(View(), g).SendWaiting? && lock.None?
      modifies this
      ensures Valid() && Inv(View())
      ensures View() == SentBy(old(View()), g, encodes, ok, delivered)
      ensures conn.Some? <==> old(ws).Some? && encodes
      ensures failure.Some? ==> conn.Some? && LastReturned(failure.value, old(issued))
      ensures if conn.Some? && failure.None? then At(g, tag, conn, true) && PcOf(View(), g).id == old(issued)
              else PcOf(View(), g).Idle?
    {
      failure := None;
      SentKeepsInv(View(), g, encodes, ok, delivered);
      tag, conn := Issue(g, encodes);
      if conn.Some? {
        failure := WriteRequest(g, ok, delivered);
      }
    }

    /** Both parts together. */
    method SendAndAwait(g: GoroutineId, encodes: bool, ok: bool, delivered: bool, schedule: seq<(seq<Action>, bool)>)
      returns (connected: bool, verdict: Option<Outcome>)
      requires Valid() && Inv(View()) && PcOf(View(), g).SendWaiting? && lock.None?
      requires forall t :: t in schedule ==> OfOthers(t.0, g)
      modifies this
      ensures Valid() && View() == Run(old(View()), CallOf(old(View()), g, encodes, ok, delivered, schedule))
      ensures connected <==> old(ws).Some? && encodes
      ensures verdict.None? && connected <==> UnderWay(View(), g)
      ensures verdict.Some? ==> connected && LastReturned(verdict.value, old(issued))
    {
      CallSplits(View(), g, encodes, ok, delivered, schedule);
      var tag, conn;
      tag, conn, verdict := Send(g, encodes, ok, delivered);
      connected := conn.Some?;
      if connected && verdict.None? {
        verdict := AwaitVerdict(g, tag, conn, schedule);
      } else {
        TurnsEnd(View(), g, schedule);
      }
    }

    /**
      * sendRequest from its second lock on, on a schedule that says what the others do before each turn
      * and whether a read fails. Each execution is exactly the run of the protocol that this schedule gives,
      * so without a handler a call that returns has the answer to its own request or an error of the
      * transport; and it has returned, unless it is still at a read or in its handler when the watch ends.
      */
    method SendRequest(g: GoroutineId, encodes: bool, ok: bool, delivered: bool, schedule: seq<(seq<Action>, bool)>)
      returns (result: Watched)
      requires Valid() && Inv(View()) && PcOf(View(), g).SendWaiting? && lock.None?
      requires forall t :: t in schedule ==> OfOthers(t.0, g)
      modifies this
      ensures Valid() && View() == Run(old(View()), CallOf(old(View()), g, encodes, ok, delivered, schedule))
      ensures result.NotSent? <==> old(ws).None? || !encodes
      ensures result.StillWaiting? <==> UnderWay(View(), g)
      ensures result.Returned? ==> LastReturned(result.outcome, old(issued))
      ensures result.Returned? && LockStepInv(old(View())) ==> OwnOrTransport(result.outcome)
    {
      ghost var start := View();
      var connected, verdict := SendAndAwait(g, encodes, ok, delivered, schedule);
      if verdict.None? {
        return if connected then StillWaiting else NotSent;
      }
      SafeReturn(start, CallOf(start, g, encodes, ok, delivered, schedule));
      return Returned(verdict.value);
    }
  }

  // ---- The run that a schedule gives ----

  predicate UnderWay(s: State, g: GoroutineId) { PcOf(s, g).Reading? || PcOf(s, g).InHandler? }

  /** A call at a read reads; one in its handler goes on as soon as the lock is free. */
  function TurnOf(s: State, g: GoroutineId, readOk: bool): seq<Action> {
    if PcOf(s, g).Reading? then [Read(g, readOk)]
    else if PcOf(s, g).InHandler? && s.lock.None? then [HandlerReturns(g)]
    else []
  }

  function AmongOthers(s: State, g: GoroutineId, others: seq<Action>, readOk: bool): seq<Action> {
    others + TurnOf(Run(s, others), g, readOk)
  }

  /** One turn after the other, as long as the call is under way. */
  function TurnsOf(s: State, g: GoroutineId, schedule: seq<(seq<Action>, bool)>): seq<Action>
    decreases |schedule|
  {
    if schedule == [] || !UnderWay(s, g) then []
    else
      var turn := AmongOthers(s, g, schedule[0].0, schedule[0].1);
      turn + TurnsOf(Run(s, turn), g, schedule[1..])
  }

  /** The request is written if it gets that far. */
  function SentBy(s: State, g: GoroutineId, encodes: bool, ok: bool, delivered: bool): State {
    var t := Step(s, LockAndIssue(g, encodes));
    if PcOf(t, g).Writing? then Step(t, Write(g, ok, delivered)) else t
  }

  lemma SentKeepsInv(s: State, g: GoroutineId, encodes: bool, ok: bool, delivered: bool)
    requires Inv(s)
    ensures Inv(SentBy(s, g, encodes, ok, delivered))
  {
    StepKeepsInv(s, LockAndIssue(g, encodes));
    StepKeepsInv(Step(s, LockAndIssue(g, encodes)), Write(g, ok, delivered));
  }

  function CallOf(s: State, g: GoroutineId, encodes: bool, ok: bool, delivered: bool,
                  schedule: seq<(seq<Action>, bool)>): seq<Action> {
    [LockAndIssue(g, encodes)]
    + ((if PcOf(Step(s, LockAndIssue(g, encodes)), g).Writing? then [Write(g, ok, delivered)] else [])
       + TurnsOf(SentBy(s, g, encodes, ok, delivered), g, schedule))
  }

  lemma CallSplits(s: State, g: GoroutineId, encodes: bool, ok: bool, delivered: bool,
                   schedule: seq<(seq<Action>, bool)>)
    ensures var t := SentBy(s, g, encodes, ok, delivered);
            Run(s, CallOf(s, g, encodes, ok, delivered, schedule)) == Run(t, TurnsOf(t, g, schedule))
  {
    var issued := Step(s, LockAndIssue(g, encodes));
    var write := if PcOf(issued, g).Writing? then [Write(g, ok, delivered)] else [];
    var turns := TurnsOf(SentBy(s, g, encodes, ok, delivered), g, schedule);
    RunCons(s, LockAndIssue(g, encodes), write + turns);
    RunConcat(issued, write, turns);
    RunAppend(issued, [], Write(g, ok, delivered));
    assert [] + [Write(g, ok, delivered)] == [Write(g, ok, delivered)];
  }

  lemma TurnsStep(s: State, g: GoroutineId, schedule: seq<(seq<Action>, bool)>)
    requires schedule != [] && UnderWay(s, g)
    ensures var t := Run(s, AmongOthers(s, g, schedule[0].0, schedule[0].1));
            Run(s, TurnsOf(s, g, schedule)) == Run(t, TurnsOf(t, g, schedule[1..]))
  {
    var turn := AmongOthers(s, g, schedule[0].0, schedule[0].1);
    RunConcat(s, turn, TurnsOf(Run(s, turn), g, schedule[1..]));
  }

  lemma TurnsEnd(s: State, g: GoroutineId, schedule: seq<(seq<Action>, bool)>)
    requires schedule == [] || !UnderWay(s, g)
    ensures Run(s, TurnsOf(s, g, schedule)) == s
  {
  }

  /** The answer to the call's own request, or a failure of the transport. */
  predicate OwnOrTransport(o: Outcome) {
    o == TransportFailure(o.id) || o == Success(o.id, Response(WireSeq(o.id), o.id))
  }

  /** What lock-step safety says about the last call that returned. */
  lemma SafeReturn(start: State, actions: seq<Action>)
    requires Inv(start) && Run(start, actions).log != []
    ensures var log := Run(start, actions).log; LockStepInv(start) ==> OwnOrTransport(log[|log| - 1])
  {
    if LockStepInv(start) {
      LockStepRun(start, actions);
    }
  }
}
