/** Whose answer a promise of the TypeScript client resolves with, when the server is honest. */
module TsClientEndToEnd {
  import opened Bytes
  import opened Lists
  import opened ResponseCodec
  import opened TsClient
  import opened TsClientSafety

  // ---- The server ----

  /** An answer echoes the number of its call, and a push is an event. A handshake may be any bytes at all. */
  predicate Honest(s: State, m: Incoming) {
    match m.origin
    case Answer(c) =>
      c < |s.calls| && (TsDecoded(m.data).Some? ==> TsDecoded(m.data).value.tag == s.calls[c].tag)
    case Push => IsPubSubEvent(m.data)
    case Greeting => true
  }

  predicate HonestTask(s: State, task: Task) { task.Receive? ==> Honest(s, task.message) }

  predicate HonestRun(s: State, tasks: seq<Task>)
    decreases |tasks|
  {
    tasks != [] ==> HonestTask(s, tasks[0]) && HonestRun(Step(s, tasks[0]), tasks[1..])
  }

  // ---- How the settlements grow ----

  predicate ResolvedFirst(call: Call) { call.attempts != [] && call.attempts[0].Resolved? }

  /** Calls are added and attempts are added; no promise is newly resolved. */
  ghost predicate Grows(a: seq<Call>, b: seq<Call>) {
    && |a| <= |b|
    && (forall c :: 0 <= c < |a| ==> a[c].tag == b[c].tag && a[c].attempts <= b[c].attempts)
    && (forall c :: 0 <= c < |b| && ResolvedFirst(b[c]) ==> c < |a| && ResolvedFirst(a[c]))
  }

  lemma GrowsTransitive(a: seq<Call>, b: seq<Call>, c: seq<Call>)
    requires Grows(a, b) && Grows(b, c)
    ensures Grows(a, c)
  {
  }

  lemma AttemptGrows(calls: seq<Call>, c: nat, timerSet: bool, how: Settlement)
    requires c < |calls| && !how.Resolved?
    ensures Grows(calls, Attempt(calls[c := calls[c].(timerSet := timerSet)], c, how))
  {
  }

  lemma SendGrows(s: State, encodes: bool, sendOk: bool)
    ensures Grows(s.calls, SendStep(s, encodes, sendOk).calls)
  {
    var c := |s.calls|;
    var calls := s.calls + [Call(s.seqCounter, true, [])];
    AttemptGrows(calls, c, false, SendFailed);
    GrowsTransitive(s.calls, calls, Attempt(calls[c := calls[c].(timerSet := false)], c, SendFailed));
  }

  lemma RejectAllGrows(s: State)
    ensures Grows(s.calls, RejectAll(s).calls)
  {
  }

  lemma ReactOnceGrows(s: State, call: UserCall)
    ensures Grows(s.calls, ReactOnce(s, call).calls)
  {
    match call
    case UserClose => RejectAllGrows(s);
    case UserTakeNumber =>
    case UserSend(encodes, sendOk) => SendGrows(s, encodes, sendOk);
  }

  lemma {:induction false} ReactGrows(s: State, reaction: Reaction)
    ensures Grows(s.calls, React(s, reaction).calls)
    decreases |reaction|
  {
    if reaction != [] {
      var t := ReactOnce(s, reaction[0]);
      ReactOnceGrows(s, reaction[0]);
      ReactGrows(t, reaction[1..]);
      GrowsTransitive(s.calls, t.calls, React(t, reaction[1..]).calls);
    }
  }

  lemma DispatchGrows(s: State, m: Incoming, script: seq<Reaction>)
    requires TakenForReply(s, m) ==> TsDecoded(m.data).value.tag !in s.pending
    ensures Grows(s.calls, Dispatch(s, m, script).0.calls)
  {
    if script != [] {
      ReactGrows(s, script[0]);
      if |script| > 1 {
        var t := React(s, script[0]);
        ReactGrows(t, script[1]);
        GrowsTransitive(s.calls, t.calls, React(t, script[1]).calls);
      }
    }
  }

  /** The message is decoded as a response to a call that waits for one. */
  predicate Resolves(s: State, m: Incoming) {
    TakenForReply(s, m) && TsDecoded(m.data).value.tag in s.pending
  }

  lemma ReceiveGrows(s: State, m: Incoming, script: seq<Reaction>)
    requires Inv(s) && !Resolves(s, m)
    ensures Grows(s.calls, ReceiveStep(s, m, script).calls)
  {
    assert s.buffer + [m] == [m] && [m][1..] == [];
    var loaded := s.(buffer := [m], isProcessing := true);
    var rest := loaded.(buffer := []);
    DispatchBuffer(rest, m, script);
    DispatchGrows(rest, m, script);
    var (s', script') := Dispatch(rest, m, script);
    assert Drain(loaded, script) == Drain(s', script') == s';
  }

  lemma StepGrows(s: State, task: Task)
    requires Inv(s) && !(task.Receive? && Resolves(s, task.message))
    ensures Grows(s.calls, Step(s, task).calls)
  {
    match task
    case Send(encodes, sendOk) => SendGrows(s, encodes, sendOk);
    case Receive(m, script) => ReceiveGrows(s, m, script);
    case TimerFires(c) => if c < |s.calls| { AttemptGrows(s.calls, c, false, TimedOut); }
    case Close(reaction) =>
      RejectAllGrows(s);
      ReactGrows(CloseStep(s), reaction);
      GrowsTransitive(s.calls, CloseStep(s).calls, React(CloseStep(s), reaction).calls);
    case SocketClosed(reaction) =>
      var closed := RejectAll(s).(connected := false);
      RejectAllGrows(s);
      ReactGrows(closed, reaction);
      GrowsTransitive(s.calls, closed.calls, React(closed, reaction).calls);
    case _ =>
  }

  // ---- Whose answer ----

  /** Every promise that resolved did so with the server's answer to its own call. */
  ghost predicate OwnAnswers(calls: seq<Call>) {
    forall c :: 0 <= c < |calls| && ResolvedFirst(calls[c]) ==> calls[c].attempts[0].origin == Answer(c)
  }

  /** Each one that did not was resolved by a handshake. */
  ghost predicate OwnAnswersOrGreetings(calls: seq<Call>) {
    forall c :: 0 <= c < |calls| && ResolvedFirst(calls[c]) ==> calls[c].attempts[0].origin in {Answer(c), Greeting}
  }

  predicate GreetingResolves(s: State, task: Task) {
    task.Receive? && task.message.origin.Greeting? && Resolves(s, task.message)
  }

  /** Somewhere in the run a handshake is decoded as a response to a call that waits for one. */
  predicate GreetingResolvesIn(s: State, tasks: seq<Task>)
    decreases |tasks|
  {
    tasks != [] && (GreetingResolves(s, tasks[0]) || GreetingResolvesIn(Step(s, tasks[0]), tasks[1..]))
  }

  lemma ResolvingStep(s: State, m: Incoming, script: seq<Reaction>)
    requires Inv(s) && Honest(s, m) && Resolves(s, m) && OwnAnswersOrGreetings(s.calls)
    ensures var calls := Step(s, Receive(m, script)).calls;
            && OwnAnswersOrGreetings(calls)
            && (OwnAnswers(calls) <==> OwnAnswers(s.calls) && !m.origin.Greeting?)
  {
    var r := TsDecoded(m.data).value;
    var c := s.pending[r.tag];
    ReplyStep(s, m, r, script);
    PendingExactly(s, c);
    var calls := Step(s, Receive(m, script)).calls;
    assert calls == s.calls[c := Call(r.tag, false, [] + [Resolved(r, m.origin)])];
    assert ResolvedFirst(calls[c]) && calls[c].attempts[0].origin == m.origin;
    if m.origin.Answer? {
      NumbersDiffer(s, c, m.origin.call);
    }
    forall d | 0 <= d < |calls| && d != c ensures calls[d] == s.calls[d] {
    }
    if OwnAnswers(calls) {
      forall d | 0 <= d < |s.calls| && ResolvedFirst(s.calls[d]) ensures s.calls[d].attempts[0].origin == Answer(d) {
        assert d != c && calls[d] == s.calls[d];
      }
    }
  }

  lemma GrownAnswers(a: seq<Call>, b: seq<Call>)
    requires Grows(a, b)
    ensures OwnAnswersOrGreetings(a) ==> OwnAnswersOrGreetings(b)
    ensures OwnAnswers(a) <==> OwnAnswers(b)
  {
    forall c | 0 <= c < |a| && ResolvedFirst(a[c]) ensures ResolvedFirst(b[c]) && b[c].attempts[0] == a[c].attempts[0] {
    }
  }

  lemma {:induction false} RunAnswers(s: State, tasks: seq<Task>)
    requires Inv(s) && HonestRun(s, tasks) && OwnAnswersOrGreetings(s.calls)
    ensures OwnAnswersOrGreetings(Run(s, tasks).calls)
    ensures OwnAnswers(Run(s, tasks).calls) <==> OwnAnswers(s.calls) && !GreetingResolvesIn(s, tasks)
    decreases |tasks|
  {
    if tasks != [] {
      var t := Step(s, tasks[0]);
      StepKeepsInv(s, tasks[0]);
      if tasks[0].Receive? && Resolves(s, tasks[0].message) {
        ResolvingStep(s, tasks[0].message, tasks[0].script);
      } else {
        StepGrows(s, tasks[0]);
        GrownAnswers(s.calls, t.calls);
      }
      RunAnswers(t, tasks[1..]);
    }
  }

  /**
    * End to end, over a server that answers honestly: whatever is closed, lost, late, repeated or out of
    * order, every promise that resolves does so with the server's answer to its own call, if and only
    * if no handshake arrives while the client believes that it has had one and happens to spell
    * a response to a waiting call. Nothing but such a handshake ever takes an answer's place.
    */
  lemma AnswersAreOwnExactly(hasHandler: bool, tasks: seq<Task>)
    requires HonestRun(Start(hasHandler), tasks)
    ensures OwnAnswersOrGreetings(Run(Start(hasHandler), tasks).calls)
    ensures OwnAnswers(Run(Start(hasHandler), tasks).calls) <==> !GreetingResolvesIn(Start(hasHandler), tasks)
  {
    RunAnswers(Start(hasHandler), tasks);
  }

  /** Each handshake arrives while the client still waits for one. */
  predicate GreetedOnTime(s: State, tasks: seq<Task>)
    decreases |tasks|
  {
    tasks != [] ==>
      && (tasks[0].Receive? && tasks[0].message.origin.Greeting? ==> !s.handshakeReceived)
      && GreetedOnTime(Step(s, tasks[0]), tasks[1..])
  }

  lemma {:induction false} OnTimeResolvesNothing(s: State, tasks: seq<Task>)
    requires GreetedOnTime(s, tasks)
    ensures !GreetingResolvesIn(s, tasks)
    decreases |tasks|
  {
    if tasks != [] {
      OnTimeResolvesNothing(Step(s, tasks[0]), tasks[1..]);
    }
  }

  /** What an application can watch: as long as each handshake arrives on time, every answer is a call's own. */
  lemma AnswersAreOwnWhenGreetedOnTime(hasHandler: bool, tasks: seq<Task>)
    requires HonestRun(Start(hasHandler), tasks) && GreetedOnTime(Start(hasHandler), tasks)
    ensures OwnAnswers(Run(Start(hasHandler), tasks).calls)
  {
    OnTimeResolvesNothing(Start(hasHandler), tasks);
    AnswersAreOwnExactly(hasHandler, tasks);
  }

  // ---- How a handshake gets there ----

  ghost predicate LeadsTo(tasks: seq<Task>, s: State) {
    HonestRun(Start(false), tasks) && s == Run(Start(false), tasks)
  }

  ghost predicate Reachable(s: State) {
    exists tasks :: LeadsTo(tasks, s)
  }

  lemma {:induction false} RunAppend(s: State, tasks: seq<Task>, task: Task)
    requires HonestRun(s, tasks) && HonestTask(Run(s, tasks), task)
    ensures HonestRun(s, tasks + [task]) && Run(s, tasks + [task]) == Step(Run(s, tasks), task)
    decreases |tasks|
  {
    if tasks == [] {
      assert [] + [task] == [task] && [task][1..] == [];
    } else {
      RunAppend(Step(s, tasks[0]), tasks[1..], task);
      assert (tasks + [task])[1..] == tasks[1..] + [task] && (tasks + [task])[0] == tasks[0];
    }
  }

  lemma Take(s: State, task: Task, t: State)
    requires Reachable(s) && HonestTask(s, task) && t == Step(s, task)
    ensures Reachable(t)
  {
    var tasks :| LeadsTo(tasks, s);
    RunAppend(Start(false), tasks, task);
    assert LeadsTo(tasks + [task], t);
  }

  /** The handshake of a version 1.0 server with an empty name and two plugins with empty names. */
  const HELLO: Incoming := Incoming([1, 0, 0, 0, 2, 0, 0, 0, 0], true, false, Greeting)

  /** The client has lost its socket and connected again; onClose did not reset handshakeReceived. */
  function Reconnected(): State { State(false, true, true, true, 0, map[], [], false, []) }

  lemma ReconnectedIsReachable()
    ensures Reachable(Reconnected())
  {
    var s0 := Start(false);
    assert LeadsTo([], s0);
    var s1 := s0.(hasSocket := true);
    Take(s0, Dial, s1);
    var s2 := s1.(connected := true);
    Take(s1, Open, s2);
    var s3 := s2.(handshakeReceived := true);
    GreetedOnce(s2);
    Take(s2, Receive(HELLO, []), s3);
    var s4 := s3.(connected := false);
    assert RejectAll(s3).calls == [];
    Take(s3, SocketClosed([]), s4);
    Take(s4, Open, Reconnected());
  }

  lemma GreetedOnce(s: State)
    requires s.buffer == [] && !s.isProcessing && !s.handshakeReceived
    ensures Step(s, Receive(HELLO, [])) == s.(handshakeReceived := true)
  {
    var loaded := s.(buffer := [HELLO], isProcessing := true);
    var rest := loaded.(buffer := []);
    assert s.buffer + [HELLO] == [HELLO] && [HELLO][1..] == [];
    assert Dispatch(rest, HELLO, []) == (rest.(handshakeReceived := true), []);
    assert loaded.buffer[0] == HELLO && loaded.(buffer := loaded.buffer[1..]) == rest;
    var t := rest.(handshakeReceived := true);
    assert Drain(t, []) == t;
    assert Drain(loaded, []) == t;
  }

  /** A request that does not encode uses up its number and leaves the table as it was. */
  lemma FailedSend(s: State)
    requires s.seqCounter !in s.pending
    ensures Step(s, Send(false, true)) ==
            s.(seqCounter := s.seqCounter + 1, calls := s.calls + [Call(s.seqCounter, false, [SendFailed])])
  {
    var c := |s.calls|;
    var calls := s.calls + [Call(s.seqCounter, true, [])];
    assert s.pending[s.seqCounter := c] - {s.seqCounter} == s.pending;
    assert [] + [SendFailed] == [SendFailed];
    assert Attempt(calls[c := calls[c].(timerSet := false)], c, SendFailed)
        == s.calls + [Call(s.seqCounter, false, [SendFailed])];
  }

  /** Two requests were too long to encode, and the third, number 2, waits. */
  function Waiting(): State {
    Reconnected().(
      seqCounter := 3,
      pending := map[2 := 2],
      calls := [Call(0, false, [SendFailed]), Call(1, false, [SendFailed]), Call(2, true, [])])
  }

  lemma WaitingIsReachable()
    ensures Reachable(Waiting())
  {
    ReconnectedIsReachable();
    var failed0, failed1 := Call(0, false, [SendFailed]), Call(1, false, [SendFailed]);
    var s1 := Reconnected().(seqCounter := 1, calls := [failed0]);
    FailedSend(Reconnected());
    Take(Reconnected(), Send(false, true), s1);
    var s2 := s1.(seqCounter := 2, calls := [failed0, failed1]);
    FailedSend(s1);
    Take(s1, Send(false, true), s2);
    Take(s2, Send(true, true), Waiting());
  }

  lemma HelloIsAResponse()
    ensures TsDecoded(HELLO.data) == Some(Response(1, 2, []))
  {
    assert HELLO.data[9..9] == [] && Read32(HELLO.data, 1) == 2 && Read32(HELLO.data, 5) == 0;
  }

  /** The next handshake then resolves request number 2. */
  lemma HandshakeResolvesACall() returns (s: State)
    ensures Reachable(s) && !OwnAnswers(s.calls)
  {
    WaitingIsReachable();
    HelloIsAResponse();
    ReplyStep(Waiting(), HELLO, Response(1, 2, []), []);
    s := Step(Waiting(), Receive(HELLO, []));
    Take(Waiting(), Receive(HELLO, []), s);
    assert ResolvedFirst(s.calls[2]);
  }
}
