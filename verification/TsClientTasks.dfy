/**
  * What each task of the TypeScript client does, in any run: what closing rejects, what a request
  * registers, what a message changes and which listeners hear of it, and what a listener's own calls do.
  */
module TsClientTasks {
  import opened Bytes
  import opened Lists
  import opened ResponseCodec
  import opened TsClient
  import opened TsClientSafety

  // ---- Closing ----

  /** Every unsettled promise has been rejected, once, and nothing has happened to the other calls. */
  ghost predicate RejectedTheUnsettled(before: seq<Call>, after: seq<Call>) {
    && |after| == |before|
    && forall c :: 0 <= c < |before| ==>
         after[c] == before[c].(attempts := if before[c].attempts == [] then [ConnectionClosed] else before[c].attempts)
  }

  lemma RejectAllRejects(s: State)
    requires TableInv(s)
    ensures RejectedTheUnsettled(s.calls, RejectAll(s).calls)
  {
    forall c | 0 <= c < |s.calls|
      ensures RejectAll(s).calls[c] ==
        s.calls[c].(attempts := if s.calls[c].attempts == [] then [ConnectionClosed] else s.calls[c].attempts)
    {
      PendingExactly(s, c);
      assert [] + [ConnectionClosed] == [ConnectionClosed];
    }
  }

  /** close on an open connection empties the table and resets the client, but for the counter. */
  lemma CloseRejectsAll(hasHandler: bool, tasks: seq<Task>)
    requires var s := Run(Start(hasHandler), tasks); s.hasSocket && s.connected
    ensures var s := Run(Start(hasHandler), tasks);
            var t := Step(s, Close([]));
            && t == State(s.hasHandler, false, false, false, s.seqCounter, map[], [], false, t.calls)
            && RejectedTheUnsettled(s.calls, t.calls)
  {
    var s := Run(Start(hasHandler), tasks);
    RunKeepsInv(Start(hasHandler), tasks);
    RejectAllRejects(s);
  }

  /** A lost socket empties the table as well, but leaves handshakeReceived as it was. */
  lemma SocketClosedRejectsAll(hasHandler: bool, tasks: seq<Task>)
    ensures var s := Run(Start(hasHandler), tasks);
            var t := Step(s, SocketClosed([]));
            && t == s.(connected := false, pending := map[], calls := t.calls)
            && RejectedTheUnsettled(s.calls, t.calls)
  {
    var s := Run(Start(hasHandler), tasks);
    RunKeepsInv(Start(hasHandler), tasks);
    RejectAllRejects(s);
  }

  // ---- Sending ----

  /**
    * A request takes the next number and joins the calls. It waits in the table, with its timer set, exactly
    * when it was encoded and sent; its number has to fit 32 bits for that. Otherwise its promise is rejected.
    */
  lemma SendRegistersExactly(hasHandler: bool, tasks: seq<Task>, encodes: bool, sendOk: bool)
    ensures var s := Run(Start(hasHandler), tasks);
            var t := Step(s, Send(encodes, sendOk));
            var tag := s.seqCounter;
            if encodes && sendOk && s.hasSocket && tag < 0x1_0000_0000
            then t == s.(seqCounter := tag + 1, pending := s.pending[tag := |s.calls|],
                         calls := s.calls + [Call(tag, true, [])])
            else t == s.(seqCounter := tag + 1, calls := s.calls + [Call(tag, false, [SendFailed])])
  {
    var s := Run(Start(hasHandler), tasks);
    RunKeepsInv(Start(hasHandler), tasks);
    var tag, c := s.seqCounter, |s.calls|;
    assert tag !in s.pending;
    var calls := s.calls + [Call(tag, true, [])];
    assert s.pending[tag := c] - {tag} == s.pending;
    assert [] + [SendFailed] == [SendFailed];
    assert Attempt(calls[c := calls[c].(timerSet := false)], c, SendFailed)
        == s.calls + [Call(tag, false, [SendFailed])];
  }

  // ---- What listeners do ----

  /** The same call as a task of its own. */
  function TaskOf(call: UserCall): Task {
    match call
    case UserClose => Close([])
    case UserTakeNumber => TakeNumber
    case UserSend(encodes, sendOk) => Send(encodes, sendOk)
  }

  /** The calls one after the other; a request that finds no connection is not registered yet. */
  function AsTasks(s: State, reaction: Reaction): State
    decreases |reaction|
  {
    if reaction == [] then s
    else if reaction[0].UserSend? && !(s.hasSocket && s.connected) then AsTasks(s, reaction[1..])
    else AsTasks(Step(s, TaskOf(reaction[0])), reaction[1..])
  }

  /** What a listener calls has the effect of as many tasks. */
  lemma {:induction false} ReactionIsTasks(s: State, reaction: Reaction)
    ensures React(s, reaction) == AsTasks(s, reaction)
    decreases |reaction|
  {
    if reaction != [] {
      ReactionIsTasks(ReactOnce(s, reaction[0]), reaction[1..]);
      assert reaction[0].UserClose? ==> Step(s, Close([])) == CloseStep(s);
    }
  }

  lemma OnceMakesNoDifference(s: State, call: UserCall)
    ensures ReactOnce(s.(isProcessing := false), call) == ReactOnce(s, call).(isProcessing := false)
  {
  }

  /** The guard against re-entrance makes no difference to them. */
  lemma {:induction false} GuardMakesNoDifference(s: State, reaction: Reaction)
    requires s.isProcessing
    ensures React(s.(isProcessing := false), reaction) == React(s, reaction).(isProcessing := false)
    ensures !React(s.(isProcessing := false), reaction).isProcessing
    decreases |reaction|
  {
    if reaction != [] {
      var t := ReactOnce(s, reaction[0]);
      OnceMakesNoDifference(s, reaction[0]);
      if t.isProcessing {
        GuardMakesNoDifference(t, reaction[1..]);
      } else {
        assert t == t.(isProcessing := false);
        StaysUnguarded(t, reaction[1..]);
      }
    }
  }

  lemma {:induction false} StaysUnguarded(s: State, reaction: Reaction)
    requires !s.isProcessing
    ensures !React(s, reaction).isProcessing
    decreases |reaction|
  {
    if reaction != [] { StaysUnguarded(ReactOnce(s, reaction[0]), reaction[1..]); }
  }

  // ---- Receiving ----

  /** What a message changes by itself: it is the handshake, or the reply to a call that waits, or nothing. */
  function Taken(s: State, m: Incoming): State {
    if !s.handshakeReceived && m.parsesAsHandshake then s.(handshakeReceived := true)
    else if Replies(s, m) then
      var r := TsDecoded(m.data).value;
      s.(pending := s.pending - {r.tag},
         calls := s.calls[s.pending[r.tag] := Call(r.tag, false, [Resolved(r, m.origin)])])
    else s
  }

  /** A response, behind the handshake, that is neither an event nor taken for text, to a call that waits. */
  predicate Replies(s: State, m: Incoming) {
    && s.handshakeReceived && |m.data| > 0 && m.data[0] != 0xFF && !(0x20 <= m.data[0] <= 0x7E)
    && TsDecoded(m.data).Some? && TsDecoded(m.data).value.tag in s.pending
    && s.pending[TsDecoded(m.data).value.tag] < |s.calls|
  }

  /**
    * How many listeners hear of it: the handler and the listeners of an event that decodes if there is a
    * handler, nobody of the handshake, a reply or text, and the error listeners of anything else. The
    * listeners of an event are told whether or not there is a handler.
    */
  function Heard(s: State, m: Incoming): nat {
    if !s.handshakeReceived then if m.parsesAsHandshake then 0 else 1
    else if |m.data| > 0 && m.data[0] == 0xFF then if s.hasHandler && m.decodesAsEvent then 2 else 1
    else if (|m.data| > 0 && 0x20 <= m.data[0] <= 0x7E) || Replies(s, m) then 0
    else 1
  }

  function ReactAll(s: State, script: seq<Reaction>): State
    decreases |script|
  {
    if script == [] then s else ReactAll(React(s, script[0]), script[1..])
  }

  /** In any run, that is all: the message's own change, and then the calls of those who hear of it. */
  lemma ReceiveExactly(hasHandler: bool, tasks: seq<Task>, m: Incoming, script: seq<Reaction>)
    ensures var s := Run(Start(hasHandler), tasks);
            var n := Heard(s, m);
            Step(s, Receive(m, script)) == ReactAll(Taken(s, m), if n <= |script| then script[..n] else script)
  {
    var s := Run(Start(hasHandler), tasks);
    RunKeepsInv(Start(hasHandler), tasks);
    var rest := s.(isProcessing := true);
    OneMessage(s, m, script);
    DispatchExactly(s, m, script);
  }

  lemma OneMessage(s: State, m: Incoming, script: seq<Reaction>)
    requires Inv(s)
    ensures Step(s, Receive(m, script)) == Dispatch(s.(isProcessing := true), m, script).0.(isProcessing := false)
  {
    var loaded := s.(buffer := [m], isProcessing := true);
    var rest := loaded.(buffer := []);
    assert s.buffer + [m] == [m] && [m][1..] == [];
    assert rest == s.(isProcessing := true);
    DispatchBuffer(rest, m, script);
    var (s', script') := Dispatch(rest, m, script);
    assert Drain(loaded, script) == Drain(s', script') == s';
  }

  /** Under the guard or not, a listener's calls come to the same. */
  lemma OneListener(s: State, t: State, reaction: Reaction)
    requires !s.isProcessing && s == t.(isProcessing := false)
    ensures React(s, reaction) == React(t, reaction).(isProcessing := false) && !React(s, reaction).isProcessing
  {
    if t.isProcessing {
      GuardMakesNoDifference(t, reaction);
    } else {
      assert s == t;
      StaysUnguarded(s, reaction);
    }
  }

  /** The listeners of a script after their part of it has been notified, while messages are processed. */
  lemma Listeners(s: State, script: seq<Reaction>, n: nat)
    requires !s.isProcessing && n <= 2
    ensures ReactAll(s, if n <= |script| then script[..n] else script) ==
            (if n == 0 then s
             else if n == 1 then Notify(s.(isProcessing := true), script).0.(isProcessing := false)
             else var (t, rest) := Notify(s.(isProcessing := true), script); Notify(t, rest).0.(isProcessing := false))
  {
    var guarded := s.(isProcessing := true);
    var heard := if n <= |script| then script[..n] else script;
    assert guarded.(isProcessing := false) == s;
    if heard != [] {
      OneListener(s, guarded, script[0]);
      var u := React(s, script[0]);
      assert heard == [script[0]] + heard[1..] && ReactAll(s, heard) == ReactAll(u, heard[1..]);
      if heard[1..] != [] {
        OneListener(u, React(guarded, script[0]), script[1]);
        assert heard[1..][0] == script[1] && heard[1..][1..] == [];
        assert ReactAll(u, heard[1..]) == ReactAll(React(u, script[1]), []);
      }
    }
  }

  lemma DispatchOfReply(s: State, m: Incoming, script: seq<Reaction>)
    requires Inv(s) && Replies(s, m)
    ensures Dispatch(s.(isProcessing := true), m, script).0.(isProcessing := false) == Taken(s, m)
  {
    var r := TsDecoded(m.data).value;
    PendingExactly(s, s.pending[r.tag]);
    assert s.calls[s.pending[r.tag]].tag == r.tag;
    assert [] + [Resolved(r, m.origin)] == [Resolved(r, m.origin)];
    assert Finish(s, r.tag, s.pending[r.tag], Resolved(r, m.origin)) == Taken(s, m);
  }

  /** Nothing but listeners hear of a message that is neither the handshake nor a reply. */
  lemma DispatchOfOther(s: State, m: Incoming, script: seq<Reaction>)
    requires Inv(s) && !Replies(s, m) && (s.handshakeReceived || !m.parsesAsHandshake)
    ensures var (n, guarded) := (Heard(s, m), s.(isProcessing := true));
            Dispatch(guarded, m, script).0 ==
            if n == 0 then guarded
            else if n == 1 then Notify(guarded, script).0
            else var (t, rest) := Notify(guarded, script); Notify(t, rest).0
  {
  }

  lemma DispatchExactly(s: State, m: Incoming, script: seq<Reaction>)
    requires Inv(s)
    ensures var n := Heard(s, m);
            Dispatch(s.(isProcessing := true), m, script).0.(isProcessing := false) ==
            ReactAll(Taken(s, m), if n <= |script| then script[..n] else script)
  {
    Listeners(Taken(s, m), script, Heard(s, m));
    if Replies(s, m) {
      DispatchOfReply(s, m, script);
    } else if s.handshakeReceived || !m.parsesAsHandshake {
      DispatchOfOther(s, m, script);
    }
  }

  // ---- A whole call ----

  /** The handshake, in any form that parses, and a response that is encoded, with anything behind it. */
  predicate GoodReply(m: Incoming, r: Response) {
    && Fits(r) && |r.value| <= MAX_VALUE_SIZE && r.status < 0x20
    && |Encoding(r)| <= |m.data| && m.data[..|Encoding(r)|] == Encoding(r)
  }

  /**
    * Progress. In any run in which the client is connected and has had its handshake: a request that is
    * encoded and sent is resolved by the response that carries its number, and the table is then as it was.
    */
  lemma CallResolves(hasHandler: bool, tasks: seq<Task>, m: Incoming, r: Response)
    requires var s := Run(Start(hasHandler), tasks);
             s.hasSocket && s.connected && s.handshakeReceived && r.tag == s.seqCounter && GoodReply(m, r)
    ensures var s := Run(Start(hasHandler), tasks);
            Run(s, [Send(true, true), Receive(m, [])]) ==
            s.(seqCounter := s.seqCounter + 1, calls := s.calls + [Call(s.seqCounter, false, [Resolved(r, m.origin)])])
  {
    var s := Run(Start(hasHandler), tasks);
    RunKeepsInv(Start(hasHandler), tasks);
    SendRegistersExactly(hasHandler, tasks, true, true);
    var t := Step(s, Send(true, true));
    StepKeepsInv(s, Send(true, true));
    AcceptsExactly(m.data, r);
    assert m.data == Encoding(r) + m.data[|Encoding(r)|..];
    assert m.data[0] == Encoding(r)[0] == r.status;
    OneMessage(t, m, []);
    DispatchExactly(t, m, []);
    RunTwo(s, Send(true, true), Receive(m, []));
    ReplyTaken(s, t, m, r);
  }

  lemma ReplyTaken(s: State, t: State, m: Incoming, r: Response)
    requires Inv(s) && t.handshakeReceived && r.tag == s.seqCounter && TsDecoded(m.data) == Some(r)
    requires |m.data| > 0 && m.data[0] < 0x20
    requires t == s.(seqCounter := r.tag + 1, pending := s.pending[r.tag := |s.calls|],
                     calls := s.calls + [Call(r.tag, true, [])])
    ensures ReactAll(Taken(t, m), []) ==
            s.(seqCounter := r.tag + 1, calls := s.calls + [Call(r.tag, false, [Resolved(r, m.origin)])])
  {
    assert r.tag !in s.pending;
    assert t.pending - {r.tag} == s.pending;
    var c := |s.calls|;
    assert t.calls[c := Call(r.tag, false, [Resolved(r, m.origin)])]
        == s.calls + [Call(r.tag, false, [Resolved(r, m.origin)])];
  }

  lemma RunTwo(s: State, a: Task, b: Task)
    ensures Run(s, [a, b]) == Step(Step(s, a), b)
  {
    assert [a, b][1..] == [b] && [b][1..] == [];
    assert Run(s, [a, b]) == Run(Step(s, a), [b]) == Run(Step(Step(s, a), b), []);
  }

  /** Connecting: the socket is dialed and opens, and the handshake comes. */
  lemma ConnectSucceeds(hasHandler: bool, tasks: seq<Task>, m: Incoming)
    requires m.parsesAsHandshake && !Run(Start(hasHandler), tasks).handshakeReceived
    ensures var s := Run(Start(hasHandler), tasks);
            Run(s, [Dial, Open] + [Receive(m, [])]) ==
            s.(hasSocket := true, connected := true, handshakeReceived := true)
  {
    var s := Run(Start(hasHandler), tasks);
    RunKeepsInv(Start(hasHandler), tasks);
    var t := s.(hasSocket := true, connected := true);
    RunTwo(s, Dial, Open);
    OneMessage(t, m, []);
    DispatchExactly(t, m, []);
    assert [Dial, Open] + [Receive(m, [])] == [Dial, Open, Receive(m, [])];
    assert [Dial, Open, Receive(m, [])][1..] == [Open, Receive(m, [])];
    RunTwo(Step(s, Dial), Open, Receive(m, []));
  }
}
