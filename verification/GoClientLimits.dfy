/** Runs of the Go client that show where its guarantees with a message handler end. */
module GoClientLimits {
  import opened Lists
  import opened GoClient
  import opened GoClientSafety

  ghost predicate LeadsTo(actions: seq<Action>, s: State) {
    s == Run(Start(true), actions)
  }

  ghost predicate Reachable(s: State) {
    exists actions :: LeadsTo(actions, s)
  }

  lemma Take(s: State, a: Action, t: State)
    requires Reachable(s) && t == Step(s, a)
    ensures Reachable(t)
  {
    var actions :| LeadsTo(actions, s);
    RunAppend(Start(true), actions, a);
    assert LeadsTo(actions + [a], t);
  }

  /** Goroutine 0 has dialed on behalf of a request and waits for the handshake. */
  function Dialed(): State {
    State(true, Some(0), Some(0), [Conn(false, [], [])], 0, map[0 := AwaitingHandshake(true)], [], [])
  }

  lemma DialedIsReachable()
    ensures Reachable(Dialed())
  {
    var s := Start(true);
    assert LeadsTo([], s);
    Take(s, StartSend(0), Move(s, 0, Checking));
    Take(Move(s, 0, Checking), CheckConnected(0), Move(s, 0, Connecting(true)));
    Take(Move(s, 0, Connecting(true)), LockAndDial(0, true), Dialed());
  }

  /** Goroutine 0 has connected. */
  function Connected(): State {
    State(true, None, Some(0), [Conn(true, [], [])], 0, map[0 := SendWaiting], [], [])
  }

  lemma ConnectedIsReachable()
    ensures Reachable(Connected())
  {
    DialedIsReachable();
    var greeted := Dialed().(conns := [Conn(true, [], [Handshake(true)])]);
    assert Dialed().conns[0].inbox + [Handshake(true)] == [Handshake(true)];
    Take(Dialed(), ServerGreets(0, true), greeted);
    assert greeted.conns[0].inbox[1..] == [];
    Take(greeted, ReadHandshake(0, true), Connected());
  }

  /** Goroutine 0 has sent request number 0 and is inside the handler for an event that came first. */
  function FirstCallInHandler(): State {
    State(true, None, Some(0), [Conn(true, [0], [])], 1, map[0 := InHandler(0)], [0], [])
  }

  /** Goroutine 0 has sent request number 0 and reads. */
  function FirstCallReading(): State {
    State(true, Some(0), Some(0), [Conn(true, [0], [])], 1, map[0 := Reading(0, Some(0))], [0], [])
  }

  lemma FirstCallReadingIsReachable()
    ensures Reachable(FirstCallReading())
  {
    ConnectedIsReachable();
    var writing := Connected().(lock := Some(0), issued := 1, pcs := map[0 := Writing(0, 0)], inflight := [0]);
    Take(Connected(), LockAndIssue(0, true), writing);
    Take(writing, Write(0, true, true), FirstCallReading());
  }

  lemma FirstCallInHandlerIsReachable()
    ensures Reachable(FirstCallInHandler())
  {
    FirstCallReadingIsReachable();
    var reading := FirstCallReading();
    var pushed := reading.(conns := [Conn(true, [0], [Event(true)])]);
    assert reading.conns[0].inbox + [Event(true)] == [Event(true)];
    Take(reading, ServerPushes(0, true), pushed);
    assert pushed.conns[0].inbox[1..] == [];
    Take(pushed, Read(0, true), FirstCallInHandler());
  }

  /** While the lock is free, numbers can be used up in any quantity. */
  lemma {:induction false} BurnNumbers(s: State, g: GoroutineId, k: nat)
    requires Reachable(s) && s.lock.None? && PcOf(s, g).Idle?
    ensures Reachable(s.(issued := s.issued + k))
    decreases k
  {
    if k > 0 {
      BurnNumbers(s, g, k - 1);
      Take(s.(issued := s.issued + k - 1), TakeNumber(g), s.(issued := s.issued + k));
    }
  }

  // ---- A call that overtakes one in its handler ----

  /** Goroutine 0 is in its handler, and goroutine 1 is about to send request number n. */
  function AboutToSend(n: nat): State {
    Move(FirstCallInHandler(), 1, SendWaiting).(issued := n)
  }

  /** Goroutine 1 has sent request number n behind the unanswered request number 0. */
  function SecondCallReading(n: nat): State {
    State(true, Some(1), Some(0), [Conn(true, [0, n], [])], n + 1,
          map[0 := InHandler(0), 1 := Reading(n, Some(0))], [0, n], [])
  }

  lemma AboutToSendIsReachable(n: nat)
    requires n >= 1
    ensures Reachable(AboutToSend(n))
  {
    FirstCallInHandlerIsReachable();
    BurnNumbers(FirstCallInHandler(), 1, n - 1);
    var s := FirstCallInHandler().(issued := n);
    Take(s, StartSend(1), Move(s, 1, Checking));
    Take(Move(s, 1, Checking), CheckConnected(1), AboutToSend(n));
  }

  lemma SecondCallReadingIsReachable(n: nat)
    requires n >= 1
    ensures Reachable(SecondCallReading(n))
  {
    AboutToSendIsReachable(n);
    var pcs := map[0 := InHandler(0), 1 := Writing(n, 0)];
    var writing := SecondCallReading(n).(conns := AboutToSend(n).conns, pcs := pcs);
    Take(AboutToSend(n), LockAndIssue(1, true), writing);
    Take(writing, Write(1, true, true), SecondCallReading(n));
  }

  /**
    * Two overlapping calls are enough. While call 0 sits in its handler, the next call on the connection
    * can read the response to call 0: with any number that is no multiple of 2^32 it reports a
    * sequence mismatch, and otherwise it succeeds with the other call's response.
    */
  lemma OvertakingCallReadsTheOlderAnswer(n: nat) returns (after: State)
    requires n >= 1
    ensures Reachable(AboutToSend(n)) && Reachable(after)
    ensures AboutToSend(n).log == [] && AboutToSend(n).issued == n && after.issued == n + 1
    ensures after.log ==
      [if n % SEQ_MODULUS == 0 then Success(n, Response(0, 0)) else SequenceMismatch(n, Response(0, 0))]
  {
    AboutToSendIsReachable(n);
    SecondCallReadingIsReachable(n);
    var answered := SecondCallReading(n).(conns := [Conn(true, [n], [Response(0, 0)])]);
    assert SecondCallReading(n).conns[0].owed[1..] == [n];
    assert SecondCallReading(n).conns[0].inbox + [Response(0, 0)] == [Response(0, 0)];
    Take(SecondCallReading(n), ServerAnswers(0), answered);
    after := Step(answered, Read(1, true));
    Take(answered, Read(1, true), after);
  }

  /**
    * The age that matters is not the succeeding call's own: with 2^32 - 1 numbers used up while another
    * call sits in its handler, a call that saw only its own number issued succeeds with that other
    * call's response.
    */
  lemma WrongAnswerAfterWrapAround() returns (after: State)
    ensures Reachable(AboutToSend(SEQ_MODULUS)) && Reachable(after)
    ensures AboutToSend(SEQ_MODULUS).issued == SEQ_MODULUS && after.issued == SEQ_MODULUS + 1
    ensures AboutToSend(SEQ_MODULUS).log == [] && after.log == [Success(SEQ_MODULUS, Response(0, 0))]
  {
    after := OvertakingCallReadsTheOlderAnswer(SEQ_MODULUS);
  }

  // ---- The exact age ----

  lemma {:induction false} AgedRunWeakens(s: State, actions: seq<Action>, k: nat, m: nat)
    requires AgedRun(s, actions, k) && k <= m
    ensures AgedRun(s, actions, m)
    decreases |actions|
  {
    if actions != [] { AgedRunWeakens(Step(s, actions[0]), actions[1..], k, m); }
  }

  lemma IssuedOnlyGrows(s: State, a: Action)
    ensures s.issued <= Step(s, a).issued
  {
  }

  /** No call is older than all the numbers there are. */
  lemma {:induction false} AgedByIssued(s: State, actions: seq<Action>, k: nat)
    requires Run(s, actions).issued <= k
    ensures s.issued <= k && AgedRun(s, actions, k)
    decreases |actions|
  {
    if actions != [] {
      IssuedOnlyGrows(s, actions[0]);
      AgedByIssued(Step(s, actions[0]), actions[1..], k);
    }
  }

  /** In every run in which no call in flight gets older than k numbers, successes are the calls' own answers. */
  ghost predicate AgeIsEnough(k: nat) {
    forall hasHandler, actions :: AgedRun(Start(hasHandler), actions, k) ==>
      OwnAnswersOnSuccess(Run(Start(hasHandler), actions).log)
  }

  /** The age of calls in flight that rules out wrong answers is exactly 2^32 numbers. */
  lemma AgeBoundIsTight(k: nat)
    ensures AgeIsEnough(k) <==> k <= 0x1_0000_0000
  {
    if k <= SEQ_MODULUS {
      forall hasHandler, actions | AgedRun(Start(hasHandler), actions, k)
        ensures OwnAnswersOnSuccess(Run(Start(hasHandler), actions).log)
      {
        AgedRunWeakens(Start(hasHandler), actions, k, SEQ_MODULUS);
        HandlerSafety(hasHandler, actions);
      }
    } else {
      var after := WrongAnswerAfterWrapAround();
      var actions :| LeadsTo(actions, after);
      AgedByIssued(Start(true), actions, k);
      assert after.log[0] in after.log && !OwnAnswersOnSuccess(after.log);
    }
  }

  // ---- The nil connection ----

  lemma OtherLeavesLockedState(s: State, a: Action, g: GoroutineId)
    requires LockInv(s) && s.lock == Some(g) && !ActsFor(a, g)
    ensures Step(s, a).lock == Some(g) && Step(s, a).ws == s.ws
  {
  }

  lemma {:induction false} OthersLeaveLockedState(s: State, others: seq<Action>, g: GoroutineId)
    requires Inv(s) && s.lock == Some(g) && OfOthers(others, g)
    ensures Run(s, others).lock == Some(g) && Run(s, others).ws == s.ws
    ensures Inv(Run(s, others)) && PcOf(Run(s, others), g) == PcOf(s, g)
    decreases |others|
  {
    if others != [] {
      OtherLeavesLockedState(s, others[0], g);
      OtherKeepsPc(s, others[0], g);
      StepKeepsInv(s, others[0]);
      OthersLeaveLockedState(Step(s, others[0]), others[1..], g);
    }
  }

  lemma NilReadExactly(t: State, g: GoroutineId, id: CallId, conn: Option<ConnId>, ok: bool)
    requires PcOf(t, g) == Reading(id, conn)
    ensures Step(t, Read(g, ok)).log == t.log + [NilConnection(id)] <==> conn.None?
  {
    var after := StepRead(t, g, ok).log;
    if conn.Some? && after != t.log {
      assert |after| == |t.log| + 1 && !after[|t.log|].NilConnection?;
    }
  }

  /**
    * A call that comes back from its handler reads through a nil connection if and only if the client
    * has no connection at the moment it retakes the lock, whatever the others do before the read and
    * whatever becomes of the read. It does not matter who dropped the connection, or why.
    */
  lemma NilConnectionExactly(hasHandler: bool, actions: seq<Action>, g: GoroutineId, others: seq<Action>, ok: bool)
    requires var s := Run(Start(hasHandler), actions);
             PcOf(s, g).InHandler? && s.lock.None? && OfOthers(others, g)
    ensures var s := Run(Start(hasHandler), actions);
            var t := Run(Step(s, HandlerReturns(g)), others);
            Step(t, Read(g, ok)).log == t.log + [NilConnection(PcOf(s, g).id)] <==> s.ws.None?
  {
    var s := Run(Start(hasHandler), actions);
    StartInv(hasHandler);
    RunKeepsInv(Start(hasHandler), actions);
    StepKeepsInv(s, HandlerReturns(g));
    var r := Step(s, HandlerReturns(g));
    OthersLeaveLockedState(r, others, g);
    NilReadExactly(Run(r, others), g, PcOf(s, g).id, s.ws, ok);
  }

  /** A Close during the handler is one way to get there. */
  lemma CloseDuringHandlerCrashesTheCall() returns (s: State)
    ensures Reachable(s) && s.log == [NilConnection(0)]
  {
    FirstCallInHandlerIsReachable();
    var closed := FirstCallInHandler().(ws := None);
    Take(FirstCallInHandler(), CallClose(1), closed);
    var reading := closed.(lock := Some(0), pcs := map[0 := Reading(0, None)]);
    Take(closed, HandlerReturns(0), reading);
    s := Step(reading, Read(0, true));
    Take(reading, Read(0, true), s);
  }

  /** Call 0 is in its handler when call 1 has failed to write and closed the connection. */
  function SecondCallFailed(): State {
    State(true, None, None, [Conn(true, [0], [])], 2, map[0 := InHandler(0), 1 := Idle], [0], [TransportFailure(1)])
  }

  lemma SecondCallFailedIsReachable()
    ensures Reachable(SecondCallFailed())
  {
    AboutToSendIsReachable(1);
    var writing := AboutToSend(1).(lock := Some(1), issued := 2, inflight := [0, 1],
                                   pcs := map[0 := InHandler(0), 1 := Writing(1, 0)]);
    Take(AboutToSend(1), LockAndIssue(1, true), writing);
    assert Without([0, 1], 1) == [0] by { assert IndexOf([0, 1], 1) == 1; }
    Take(writing, Write(1, false, false), SecondCallFailed());
  }

  /** A failed write of another call is another. */
  lemma FailedWriteCrashesTheCall() returns (s: State)
    ensures Reachable(s) && s.log == [TransportFailure(1), NilConnection(0)]
  {
    SecondCallFailedIsReachable();
    var failed := SecondCallFailed();
    var reading := failed.(lock := Some(0), pcs := failed.pcs[0 := Reading(0, None)]);
    Take(failed, HandlerReturns(0), reading);
    s := Step(reading, Read(0, true));
    Take(reading, Read(0, true), s);
  }
}
