/** What every task of the TypeScript client keeps, and what that gives over whole runs. */
module TsClientSafety {
  import opened Bytes
  import opened Lists
  import opened ResponseCodec
  import opened TsClient

  // ---- The invariant ----

  /**
    * The attempts that can have been made on one promise, and whether its timer is still set. A second
    * attempt is only ever the timer of a call that the closing connection had already rejected.
    */
  predicate HistoryOk(call: Call) {
    var a := call.attempts;
    if a == [] then call.timerSet
    else if |a| == 1 then
      && (a[0].Resolved? ==> a[0].response.tag == call.tag)
      && (call.timerSet <==> a[0].ConnectionClosed?)
    else a == [ConnectionClosed, TimedOut] && !call.timerSet
  }

  /** A call is in the table, under its number, exactly while unsettled, and has a possible history. */
  predicate CallOk(calls: seq<Call>, pending: map<nat, nat>, c: nat)
    requires c < |calls|
  {
    && (calls[c].attempts == [] <==> calls[c].tag in pending && pending[calls[c].tag] == c)
    && HistoryOk(calls[c])
  }

  /** Later calls have higher numbers, and all of them are below the counter. */
  ghost predicate Numbers(counter: nat, calls: seq<Call>) {
    && (forall c :: 0 <= c < |calls| ==> calls[c].tag < counter)
    && (forall c, d :: 0 <= c < d < |calls| ==> calls[c].tag < calls[d].tag)
  }

  ghost predicate Table(calls: seq<Call>, pending: map<nat, nat>) {
    && (forall c :: 0 <= c < |calls| ==> CallOk(calls, pending, c))
    && (forall k :: k in pending ==> pending[k] < |calls| && calls[pending[k]].tag == k)
  }

  ghost predicate TableInv(s: State) { Numbers(s.seqCounter, s.calls) && Table(s.calls, s.pending) }

  /** Between tasks the message buffer is empty and the re-entrancy guard is down. */
  predicate LoopIdle(s: State) { s.buffer == [] && !s.isProcessing }

  ghost predicate Inv(s: State) { TableInv(s) && LoopIdle(s) }

  // ---- Each handler keeps the table ----

  lemma FinishKeeps(s: State, c: nat, how: Settlement)
    requires TableInv(s) && c < |s.calls|
    requires s.calls[c].attempts == [] || (how.TimedOut? && s.calls[c].timerSet)
    requires !how.ConnectionClosed? && (how.Resolved? ==> how.response.tag == s.calls[c].tag)
    ensures TableInv(Finish(s, s.calls[c].tag, c, how))
  {
    var s' := Finish(s, s.calls[c].tag, c, how);
    assert CallOk(s.calls, s.pending, c);
    forall d | 0 <= d < |s'.calls| ensures CallOk(s'.calls, s'.pending, d) {
      assert CallOk(s.calls, s.pending, d);
      assert d < c ==> s.calls[d].tag < s.calls[c].tag;
      assert c < d ==> s.calls[c].tag < s.calls[d].tag;
    }
  }

  lemma RegisterKeeps(s: State)
    requires TableInv(s)
    ensures var c := |s.calls|;
            TableInv(s.(seqCounter := s.seqCounter + 1, pending := s.pending[s.seqCounter := c],
                        calls := s.calls + [Call(s.seqCounter, true, [])]))
  {
    var c := |s.calls|;
    var calls, pending := s.calls + [Call(s.seqCounter, true, [])], s.pending[s.seqCounter := c];
    forall d | 0 <= d < |calls| ensures CallOk(calls, pending, d) {
      if d < c { assert CallOk(s.calls, s.pending, d); }
    }
  }

  lemma SendKeeps(s: State, encodes: bool, sendOk: bool)
    requires TableInv(s)
    ensures TableInv(SendStep(s, encodes, sendOk))
  {
    var c := |s.calls|;
    var s' := s.(seqCounter := s.seqCounter + 1, pending := s.pending[s.seqCounter := c],
                 calls := s.calls + [Call(s.seqCounter, true, [])]);
    RegisterKeeps(s);
    FinishKeeps(s', c, SendFailed);
  }

  lemma RejectAllKeeps(s: State)
    requires TableInv(s)
    ensures TableInv(RejectAll(s))
  {
    var s' := RejectAll(s);
    forall d | 0 <= d < |s'.calls| ensures CallOk(s'.calls, s'.pending, d) {
      PendingExactly(s, d);
    }
  }

  lemma PendingExactly(s: State, c: nat)
    requires TableInv(s) && c < |s.calls|
    ensures c in s.pending.Values <==> s.calls[c].attempts == []
    ensures HistoryOk(s.calls[c])
  {
    assert CallOk(s.calls, s.pending, c);
  }

  lemma ReactOnceKeeps(s: State, call: UserCall)
    requires TableInv(s)
    ensures var t := ReactOnce(s, call);
            TableInv(t) && (t.isProcessing ==> s.isProcessing) && (s.buffer == [] ==> t.buffer == [])
  {
    match call
    case UserClose => RejectAllKeeps(s);
    case UserTakeNumber =>
    case UserSend(encodes, sendOk) => SendKeeps(s, encodes, sendOk);
  }

  lemma {:induction false} ReactKeeps(s: State, reaction: Reaction)
    requires TableInv(s)
    ensures var t := React(s, reaction);
            TableInv(t) && (t.isProcessing ==> s.isProcessing) && (s.buffer == [] ==> t.buffer == [])
    decreases |reaction|
  {
    if reaction != [] {
      ReactOnceKeeps(s, reaction[0]);
      ReactKeeps(ReactOnce(s, reaction[0]), reaction[1..]);
    }
  }

  lemma DispatchKeeps(s: State, m: Incoming, script: seq<Reaction>)
    requires TableInv(s)
    ensures TableInv(Dispatch(s, m, script).0)
  {
    if script != [] {
      ReactKeeps(s, script[0]);
      if |script| > 1 { ReactKeeps(React(s, script[0]), script[1]); }
    }
    match TsDecoded(m.data)
    case None =>
    case Some(r) =>
      if r.tag in s.pending {
        PendingExactly(s, s.pending[r.tag]);
        FinishKeeps(s, s.pending[r.tag], Resolved(r, m.origin));
      }
  }

  lemma {:induction false} DrainKeeps(s: State, script: seq<Reaction>)
    requires TableInv(s)
    ensures TableInv(Drain(s, script)) && Drain(s, script).buffer == []
    decreases |s.buffer|
  {
    if s.buffer != [] {
      var rest := s.(buffer := s.buffer[1..]);
      DispatchBuffer(rest, s.buffer[0], script);
      DispatchKeeps(rest, s.buffer[0], script);
      var (s', script') := Dispatch(rest, s.buffer[0], script);
      DrainKeeps(s', script');
    }
  }

  lemma ReceiveKeeps(s: State, m: Incoming, script: seq<Reaction>)
    requires Inv(s)
    ensures Inv(ReceiveStep(s, m, script))
  {
    DrainKeeps(s.(buffer := s.buffer + [m], isProcessing := true), script);
  }

  lemma TimerKeeps(s: State, c: nat)
    requires Inv(s)
    ensures Inv(TimerStep(s, c))
  {
    if c < |s.calls| && s.calls[c].timerSet {
      FinishKeeps(s, c, TimedOut);
    }
  }

  lemma CloseKeeps(s: State, reaction: Reaction)
    requires Inv(s)
    ensures Inv(React(CloseStep(s), reaction))
  {
    RejectAllKeeps(s);
    ReactKeeps(CloseStep(s), reaction);
  }

  lemma SocketClosedKeeps(s: State, reaction: Reaction)
    requires Inv(s)
    ensures Inv(React(RejectAll(s).(connected := false), reaction))
  {
    RejectAllKeeps(s);
    ReactKeeps(RejectAll(s).(connected := false), reaction);
  }

  lemma StepKeepsInv(s: State, task: Task)
    requires Inv(s)
    ensures Inv(Step(s, task))
  {
    match task
    case Dial =>
    case Open =>
    case TakeNumber =>
    case Send(encodes, sendOk) => SendKeeps(s, encodes, sendOk);
    case Receive(m, script) => ReceiveKeeps(s, m, script);
    case TimerFires(c) => TimerKeeps(s, c);
    case Close(reaction) => CloseKeeps(s, reaction);
    case SocketClosed(reaction) => SocketClosedKeeps(s, reaction);
  }

  lemma {:induction false} RunKeepsInv(s: State, tasks: seq<Task>)
    requires Inv(s)
    ensures Inv(Run(s, tasks))
    decreases |tasks|
  {
    if tasks != [] {
      StepKeepsInv(s, tasks[0]);
      RunKeepsInv(Step(s, tasks[0]), tasks[1..]);
    }
  }

  // ---- What the invariant says to a caller ----

  /**
    * After any run: numbers are never used twice and lie below the counter, a call is in the table exactly
    * while its promise is unsettled, every entry belongs to the call that took its number and still has
    * its timer, and a promise that resolved did so with a response that carries its own number.
    */
  lemma PendingTable(hasHandler: bool, tasks: seq<Task>)
    ensures var s := Run(Start(hasHandler), tasks);
      && Numbers(s.seqCounter, s.calls)
      && (forall c :: 0 <= c < |s.calls| ==>
            (s.calls[c].attempts == [] <==> exists k :: k in s.pending && s.pending[k] == c))
      && (forall k :: k in s.pending ==>
            && k < s.seqCounter && s.pending[k] < |s.calls|
            && s.calls[s.pending[k]].tag == k && s.calls[s.pending[k]].timerSet)
      && (forall c :: 0 <= c < |s.calls| && s.calls[c].attempts != [] && s.calls[c].attempts[0].Resolved? ==>
            s.calls[c].attempts[0].response.tag == s.calls[c].tag)
  {
    var s := Run(Start(hasHandler), tasks);
    RunKeepsInv(Start(hasHandler), tasks);
    forall c | 0 <= c < |s.calls|
      ensures CallOk(s.calls, s.pending, c)
      ensures s.calls[c].attempts == [] <==> exists k :: k in s.pending && s.pending[k] == c
    {
      assert CallOk(s.calls, s.pending, c);
      if s.calls[c].attempts == [] { assert s.calls[c].tag in s.pending && s.pending[s.calls[c].tag] == c; }
    }
    forall k | k in s.pending ensures s.calls[s.pending[k]].timerSet {
      PendingExactly(s, s.pending[k]);
    }
  }

  /** A settled promise is asked to settle again at most once, by the stale timer of a closed connection. */
  lemma SettledAtMostOnce(hasHandler: bool, tasks: seq<Task>, c: nat)
    requires c < |Run(Start(hasHandler), tasks).calls|
    ensures var a := Run(Start(hasHandler), tasks).calls[c].attempts;
            |a| <= 1 || a == [ConnectionClosed, TimedOut]
  {
    RunKeepsInv(Start(hasHandler), tasks);
    PendingExactly(Run(Start(hasHandler), tasks), c);
  }

  /**
    * A timer left over from a closed connection finds nothing to do: across any closes and reconnects
    * it leaves the table and every other call as they are.
    */
  lemma StaleTimerIsHarmless(hasHandler: bool, tasks: seq<Task>, c: nat)
    requires var s := Run(Start(hasHandler), tasks);
             c < |s.calls| && s.calls[c].timerSet && s.calls[c].attempts != []
    ensures var s := Run(Start(hasHandler), tasks);
            var s' := Step(s, TimerFires(c));
            && s'.pending == s.pending
            && s' == s.(calls := s.calls[c := Call(s.calls[c].tag, false, s.calls[c].attempts + [TimedOut])])
  {
    var s := Run(Start(hasHandler), tasks);
    RunKeepsInv(Start(hasHandler), tasks);
    var tag := s.calls[c].tag;
    NotPending(s, c);
    assert s.pending - {tag} == s.pending;
    assert Step(s, TimerFires(c)).calls == s.calls[c := Call(tag, false, s.calls[c].attempts + [TimedOut])];
  }

  /** No entry of the table goes by the number of a call that has been settled. */
  lemma NotPending(s: State, c: nat)
    requires TableInv(s) && c < |s.calls| && s.calls[c].attempts != []
    ensures s.calls[c].tag !in s.pending
  {
    assert CallOk(s.calls, s.pending, c);
    if s.calls[c].tag in s.pending {
      NumbersDiffer(s, c, s.pending[s.calls[c].tag]);
    }
  }

  lemma NumbersDiffer(s: State, c: nat, d: nat)
    requires TableInv(s) && c < |s.calls| && d < |s.calls|
    ensures s.calls[c].tag == s.calls[d].tag <==> c == d
  {
    assert d < c ==> s.calls[d].tag < s.calls[c].tag;
    assert c < d ==> s.calls[c].tag < s.calls[d].tag;
  }

  /** No promise can hang: an unsettled call has a timer that settles it, and it alone, when it fires. */
  lemma TimerSettlesItsOwnCall(hasHandler: bool, tasks: seq<Task>, c: nat)
    requires c < |Run(Start(hasHandler), tasks).calls| && Run(Start(hasHandler), tasks).calls[c].attempts == []
    ensures var s := Run(Start(hasHandler), tasks);
            var s' := Step(s, TimerFires(c));
            && s'.calls == s.calls[c := Call(s.calls[c].tag, false, [TimedOut])]
            && s'.pending == s.pending - {s.calls[c].tag}
  {
    var s := Run(Start(hasHandler), tasks);
    RunKeepsInv(Start(hasHandler), tasks);
    PendingExactly(s, c);
    assert s.calls[c].attempts + [TimedOut] == [TimedOut];
    assert Step(s, TimerFires(c)).calls == s.calls[c := Call(s.calls[c].tag, false, [TimedOut])];
  }

  /** The unsettled call with this number, if there is one. */
  ghost predicate Awaits(s: State, c: nat, tag: nat) {
    c < |s.calls| && s.calls[c].tag == tag && s.calls[c].attempts == []
  }

  /** A message that gets as far as being decoded as a response. */
  predicate TakenForReply(s: State, m: Incoming) {
    s.handshakeReceived && !IsPubSubEvent(m.data) && !LooksLikeText(m.data) && TsDecoded(m.data).Some?
  }

  lemma ReplyStep(s: State, m: Incoming, r: Response, script: seq<Reaction>)
    requires Inv(s) && TakenForReply(s, m) && TsDecoded(m.data) == Some(r) && r.tag in s.pending
    ensures Step(s, Receive(m, script)) == Finish(s, r.tag, s.pending[r.tag], Resolved(r, m.origin))
  {
    var loaded := s.(buffer := [m], isProcessing := true);
    var rest := loaded.(buffer := []);
    assert s.buffer + [m] == [m] && [m][1..] == [];
    var (s', script') := Dispatch(rest, m, script);
    assert Drain(loaded, script) == Drain(s', script') == s';
  }

  /**
    * Replies may come in any order, late or twice. A reply that is not taken for an event or for text
    * resolves exactly the unsettled call whose number it carries, and touches nothing else; when there
    * is no such call, only the listeners hear of it.
    */
  lemma ReplyResolvesExactlyItsCall(hasHandler: bool, tasks: seq<Task>, m: Incoming, r: Response)
    requires TakenForReply(Run(Start(hasHandler), tasks), m) && TsDecoded(m.data) == Some(r)
    ensures var s := Run(Start(hasHandler), tasks);
            var s' := Step(s, Receive(m, []));
            if r.tag in s.pending then
              && Awaits(s, s.pending[r.tag], r.tag)
              && s' == s.(calls := s.calls[s.pending[r.tag] := Call(r.tag, false, [Resolved(r, m.origin)])],
                          pending := s.pending - {r.tag})
            else s' == s && forall c: nat :: !Awaits(s, c, r.tag)
  {
    var s := Run(Start(hasHandler), tasks);
    RunKeepsInv(Start(hasHandler), tasks);
    if r.tag in s.pending {
      var c := s.pending[r.tag];
      PendingExactly(s, c);
      ReplyStep(s, m, r, []);
      assert s.calls[c].attempts + [Resolved(r, m.origin)] == [Resolved(r, m.origin)];
      assert Step(s, Receive(m, [])).calls == s.calls[c := Call(r.tag, false, [Resolved(r, m.origin)])];
    } else {
      var loaded := s.(buffer := [m], isProcessing := true);
      assert s.buffer + [m] == [m] && [m][1..] == [];
      assert Drain(loaded, []) == Drain(loaded.(buffer := []), []) == loaded.(buffer := []);
      forall c: nat ensures !Awaits(s, c, r.tag) {
        if c < |s.calls| { assert CallOk(s.calls, s.pending, c); }
      }
    }
  }
}
