/** The TypeScript client as the object it is, each method proved against the handler it implements. */
module TsClientObject {
  import opened Bytes
  import opened Lists
  import opened ResponseCodec
  import opened TsClient
  import opened TsClientSafety
  import opened TsClientTasks

  /** The calls after those in `done` have been told that the connection closed. */
  function Rejected(calls: seq<Call>, done: set<nat>): (r: seq<Call>)
    ensures |r| == |calls|
  {
    seq(|calls|, c requires 0 <= c < |calls| =>
      if c in done then calls[c].(attempts := calls[c].attempts + [ConnectionClosed]) else calls[c])
  }

  lemma RejectedNone(calls: seq<Call>)
    ensures Rejected(calls, {}) == calls
  {
  }

  lemma RejectedOneMore(calls: seq<Call>, done: set<nat>, k: nat)
    requires k < |calls| && k !in done
    ensures Attempt(Rejected(calls, done), k, ConnectionClosed) == Rejected(calls, done + {k})
  {
  }

  /** The calls under some of the numbers in the table. */
  ghost function CallsUnder(pending: map<nat, nat>, numbers: set<nat>): set<nat> {
    set k | k in numbers && k in pending :: pending[k]
  }

  lemma CallsUnderOneMore(s: State, numbers: set<nat>, k: nat)
    requires TableInv(s) && k in s.pending && k !in numbers
    ensures s.pending[k] !in CallsUnder(s.pending, numbers)
    ensures CallsUnder(s.pending, numbers + {k}) == CallsUnder(s.pending, numbers) + {s.pending[k]}
  {
  }

  lemma RejectAllIsRejected(s: State)
    requires TableInv(s)
    ensures RejectAll(s).calls == Rejected(s.calls, CallsUnder(s.pending, s.pending.Keys))
  {
    assert forall c :: c in s.pending.Values <==> c in CallsUnder(s.pending, s.pending.Keys);
  }

  class BitBarrelClient {
    const hasHandler: bool
    var hasSocket: bool
    var connected: bool
    var handshakeReceived: bool
    var seqCounter: nat
    var pendingRequests: map<nat, nat>
    var messageBuffer: seq<Incoming>
    var isProcessing: bool

    /** The promises and timers that the JavaScript runtime keeps for this client's calls. */
    var calls: seq<Call>

    function View(): State
      reads this
    {
      State(hasHandler, hasSocket, connected, handshakeReceived, seqCounter, pendingRequests, messageBuffer,
            isProcessing, calls)
    }

    constructor (hasHandler: bool)
      ensures View() == Start(hasHandler) && Inv(View())
    {
      this.hasHandler := hasHandler;
      hasSocket, connected, handshakeReceived, seqCounter := false, false, false, 0;
      pendingRequests, messageBuffer, isProcessing, calls := map[], [], false, [];
    }

    /** A promise is asked to settle. */
    method Settle(c: nat, how: Settlement)
      requires c < |calls|
      modifies this`calls
      ensures calls == Attempt(old(calls), c, how)
    {
      calls := calls[c := calls[c].(attempts := calls[c].attempts + [how])];
    }

    method ClearTimer(c: nat)
      requires c < |calls|
      modifies this`calls
      ensures calls == old(calls)[c := old(calls)[c].(timerSet := false)]
    {
      calls := calls[c := calls[c].(timerSet := false)];
    }

    /** The number that traverse takes for its own payload. */
    method TakeNumber() returns (tag: nat)
      requires Inv(View())
      modifies this`seqCounter
      ensures View() == Step(old(View()), Task.TakeNumber) && Inv(View()) && tag == old(seqCounter)
      ensures seqCounter == old(seqCounter) + 1
    {
      StepKeepsInv(View(), Task.TakeNumber);
      tag := seqCounter;
      seqCounter := seqCounter + 1;
    }

    /** sendAndWait after its connection check. */
    method SendAndWait(encodes: bool, sendOk: bool)
      modifies this
      ensures View() == SendStep(old(View()), encodes, sendOk)
    {
      var tag := seqCounter;
      seqCounter := seqCounter + 1;
      var c := |calls|;
      calls := calls + [Call(tag, true, [])];
      pendingRequests := pendingRequests[tag := c];
      var written := encodes && tag < TWO_32 && hasSocket && sendOk;
      if !written {
        ClearTimer(c);
        pendingRequests := pendingRequests - {tag};
        Settle(c, SendFailed);
      }
    }

    /** The loop over the table in close and in the socket's close handler, in any order. */
    method RejectEach()
      requires TableInv(View())
      modifies this`calls
      ensures calls == Rejected(old(calls), CallsUnder(pendingRequests, pendingRequests.Keys))
    {
      ghost var before, start := View(), calls;
      var todo := pendingRequests.Keys;
      ghost var done: set<nat> := {};
      assert CallsUnder(pendingRequests, done) == {};
      RejectedNone(calls);
      while todo != {}
        invariant todo !! done && todo + done == pendingRequests.Keys
        invariant calls == Rejected(start, CallsUnder(pendingRequests, done))
        decreases todo
      {
        var k :| k in todo;
        CallsUnderOneMore(before, done, k);
        RejectedOneMore(start, CallsUnder(pendingRequests, done), pendingRequests[k]);
        Settle(pendingRequests[k], ConnectionClosed);
        todo, done := todo - {k}, done + {k};
      }
      assert done == pendingRequests.Keys;
    }

    method RejectPending()
      requires TableInv(View())
      modifies this
      ensures View() == RejectAll(old(View())) && TableInv(View())
      ensures pendingRequests == map[] && RejectedTheUnsettled(old(calls), calls)
    {
      RejectAllRejects(View());
      RejectAllIsRejected(View());
      RejectAllKeeps(View());
      RejectEach();
      pendingRequests := map[];
    }

    method CloseSelf()
      requires TableInv(View())
      modifies this
      ensures View() == CloseStep(old(View())) && TableInv(View())
      ensures old(hasSocket && connected) ==>
        && !hasSocket && !connected && !handshakeReceived && messageBuffer == [] && !isProcessing
        && pendingRequests == map[] && RejectedTheUnsettled(old(calls), calls)
    {
      if hasSocket && connected {
        hasSocket, connected := false, false;
        handshakeReceived := false;
        RejectPending();
        messageBuffer, isProcessing := [], false;
      }
    }

    /** The calls that a listener makes on this client. */
    method RunReaction(reaction: Reaction)
      requires TableInv(View())
      modifies this
      ensures View() == React(old(View()), reaction) && TableInv(View())
    {
      var i := 0;
      while i < |reaction|
        invariant i <= |reaction|
        invariant TableInv(View())
        invariant React(View(), reaction[i..]) == React(old(View()), reaction)
      {
        label before:
        assert reaction[i..][1..] == reaction[i + 1..];
        match reaction[i] {
          case UserClose => CloseSelf();
          case UserTakeNumber => seqCounter := seqCounter + 1;
          case UserSend(encodes, sendOk) =>
            if hasSocket && connected {
              SendKeeps(View(), encodes, sendOk);
              SendAndWait(encodes, sendOk);
            }
        }
        i := i + 1;
      }
    }

    /** One listener is called, with the next reaction of the script. */
    method Emit(script: seq<Reaction>) returns (rest: seq<Reaction>)
      requires TableInv(View())
      modifies this
      ensures (View(), rest) == Notify(old(View()), script) && TableInv(View())
    {
      rest := script;
      if script != [] {
        RunReaction(script[0]);
        rest := script[1..];
      }
    }

    /** One turn of the loop in processMessages, after the shift. */
    method DispatchMessage(m: Incoming, script: seq<Reaction>) returns (rest: seq<Reaction>)
      requires TableInv(View())
      modifies this
      ensures (View(), rest) == Dispatch(old(View()), m, script) && TableInv(View())
    {
      rest := script;
      if !handshakeReceived {
        if m.parsesAsHandshake {
          handshakeReceived := true;
        } else {
          rest := Emit(rest);
        }
      } else if IsPubSubEvent(m.data) {
        if m.decodesAsEvent && hasHandler {
          rest := Emit(rest);
        }
        rest := Emit(rest);
      } else if !LooksLikeText(m.data) {
        var decoded := TsDecodeResponse(m.data);
        if decoded.Some? && decoded.value.tag in pendingRequests {
          ResolveCall(decoded.value, m.origin);
        } else {
          rest := Emit(rest);
        }
      }
    }

    method ResolveCall(r: Response, origin: Origin)
      requires TableInv(View()) && r.tag in pendingRequests
      modifies this
      ensures View() == Finish(old(View()), r.tag, old(pendingRequests)[r.tag], Resolved(r, origin)) && TableInv(View())
    {
      var c := pendingRequests[r.tag];
      PendingExactly(View(), c);
      FinishKeeps(View(), c, Resolved(r, origin));
      ClearTimer(c);
      pendingRequests := pendingRequests - {r.tag};
      Settle(c, Resolved(r, origin));
    }

    method ProcessMessages(script: seq<Reaction>)
      requires TableInv(View()) && !isProcessing
      modifies this
      ensures View() == Drain(old(View()).(isProcessing := true), script).(isProcessing := false)
      ensures TableInv(View())
    {
      isProcessing := true;
      ghost var begun := View();
      var rest := script;
      while |messageBuffer| > 0
        invariant TableInv(View())
        invariant Drain(View(), rest) == Drain(begun, script)
        decreases |messageBuffer|
      {
        var m := messageBuffer[0];
        messageBuffer := messageBuffer[1..];
        DispatchBuffer(View(), m, rest);
        rest := DispatchMessage(m, rest);
      }
      isProcessing := false;
    }

    method HandleMessage(m: Incoming, script: seq<Reaction>)
      requires Inv(View())
      modifies this
      ensures View() == Step(old(View()), Receive(m, script)) && Inv(View())
    {
      StepKeepsInv(View(), Receive(m, script));
      messageBuffer := messageBuffer + [m];
      if !isProcessing {
        ProcessMessages(script);
      }
    }

    /** The body of the setTimeout in sendAndWait for call `c`. */
    method OnTimeout(c: nat)
      requires Inv(View())
      modifies this
      ensures View() == Step(old(View()), TimerFires(c)) && Inv(View())
    {
      StepKeepsInv(View(), TimerFires(c));
      if c < |calls| && calls[c].timerSet {
        ClearTimer(c);
        pendingRequests := pendingRequests - {calls[c].tag};
        Settle(c, TimedOut);
      }
    }

    method Close(reaction: Reaction)
      requires Inv(View())
      modifies this
      ensures View() == Step(old(View()), Task.Close(reaction)) && Inv(View())
    {
      StepKeepsInv(View(), Task.Close(reaction));
      if hasSocket && connected {
        CloseSelf();
        RunReaction(reaction);
      }
    }

    /** onClose in connect. */
    method OnSocketClose(reaction: Reaction)
      requires Inv(View())
      modifies this
      ensures View() == Step(old(View()), SocketClosed(reaction)) && Inv(View())
    {
      StepKeepsInv(View(), SocketClosed(reaction));
      connected := false;
      RejectPending();
      RunReaction(reaction);
    }
  }
}
