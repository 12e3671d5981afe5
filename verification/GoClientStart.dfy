/** Exactly when a call of the Go client is safe from the moment it starts. */
module GoClientStart {
  import opened Lists
  import opened GoClient
  import opened GoClientSafety

  /** No further call gets as far as writing. */
  predicate NoOtherWrites(later: seq<Action>) {
    forall a :: a in later ==> !(a.LockAndIssue? && a.encodes)
  }

  /** Among the outcomes from position n on, those of the call are harmless. */
  ghost predicate HarmlessSince(log: seq<Outcome>, n: nat, id: CallId) {
    forall i :: n <= i < |log| && log[i].id == id ==> Harmless(log[i], id)
  }

  // ---- A connection that owes nothing ----

  /** The open connection owes nothing but the call's response, and no other call is about to write. */
  ghost predicate StartInv(s: State, id: CallId, n: nat) {
    && OwesOnly(s, id)
    && (forall h :: h in s.pcs && s.pcs[h].Writing? ==> s.pcs[h].id == id)
    && n <= |s.log| && HarmlessSince(s.log, n, id)
  }

  /** A call about to write is the newest, so its own response cannot be owed yet. */
  lemma NothingOwedToWriter(s: State, g: GoroutineId)
    requires Inv(s) && PcOf(s, g).Writing?
    ensures s.ws == Some(PcOf(s, g).ws) && PcOf(s, g).ws < |s.conns|
    ensures PcOf(s, g).id !in Outstanding(s.conns[PcOf(s, g).ws])
  {
  }

  lemma StartWrite(s: State, g: GoroutineId, ok: bool, delivered: bool, id: CallId, n: nat)
    requires Inv(s) && StartInv(s, id, n)
    ensures StartInv(StepWrite(s, g, ok, delivered), id, n)
  {
    if PcOf(s, g).Writing? {
      NothingOwedToWriter(s, g);
      if ok {
        StartWritten(s, g, PcOf(s, g).ws, id, n);
      } else {
        assert StepWrite(s, g, ok, delivered).log == s.log + [TransportFailure(id)];
      }
    }
  }

  lemma StartWritten(s: State, g: GoroutineId, c: ConnId, id: CallId, n: nat)
    requires StartInv(s, id, n) && PcOf(s, g) == Writing(id, c) && s.ws == Some(c) && c < |s.conns|
    requires id !in Outstanding(s.conns[c])
    ensures StartInv(StepWrite(s, g, true, true), id, n) && StepWrite(s, g, true, false) == StepWrite(s, g, true, true)
  {
    var conn := s.conns[c];
    assert Outstanding(conn) == [];
    assert Outstanding(conn.(owed := conn.owed + [id])) == Outstanding(conn) + [id] == [id];
  }

  lemma StartReadMessage(s: State, g: GoroutineId, conn: Conn, id: CallId, n: nat)
    requires StartInv(s, id, n) && PcOf(s, g).Reading? && PcOf(s, g).conn == s.ws
    requires s.ws.Some? && s.ws.value < |s.conns| && conn == s.conns[s.ws.value]
    requires conn.inbox != [] && !conn.inbox[0].Handshake? && (conn.inbox[0].Response? ==> ReadsOldest(conn))
    ensures StartInv(StepRead(s, g, true), id, n)
  {
    OutstandingRead(conn);
    var t, rest := StepRead(s, g, true), conn.(inbox := conn.inbox[1..]);
    assert t.ws == s.ws && t.conns == s.conns[s.ws.value := rest];
    if conn.inbox[0].Response? {
      assert Outstanding(conn)[0] == id && Outstanding(rest) == [];
      assert |t.log| == |s.log| + 1 && t.log[..|s.log|] == s.log;
    } else {
      assert Outstanding(rest) == Outstanding(conn) && t.log == s.log;
    }
  }

  lemma StartReadFails(s: State, g: GoroutineId, ok: bool, id: CallId, n: nat)
    requires StartInv(s, id, n) && PcOf(s, g).Reading? && (PcOf(s, g).conn.None? || !ok)
    requires PcOf(s, g).conn.Some? ==> PcOf(s, g).conn.value < |s.conns|
    ensures StartInv(StepRead(s, g, ok), id, n)
  {
    var pc := PcOf(s, g);
    assert StepRead(s, g, ok).log ==
      s.log + [if pc.conn.None? then NilConnection(pc.id) else TransportFailure(pc.id)];
  }

  lemma StartRead(s: State, g: GoroutineId, ok: bool, id: CallId, n: nat)
    requires Inv(s) && StartInv(s, id, n)
    ensures StartInv(StepRead(s, g, ok), id, n)
  {
    var pc := PcOf(s, g);
    if pc.Reading? {
      if pc.conn.None? || !ok {
        StartReadFails(s, g, ok, id, n);
      } else if s.conns[pc.conn.value].inbox != [] {
        HeadOfInbox(s, g, s.conns[pc.conn.value]);
        StartReadMessage(s, g, s.conns[pc.conn.value], id, n);
      }
    }
  }

  lemma StartServer(s: State, a: Action, id: CallId, n: nat)
    requires StartInv(s, id, n) && OfServer(a)
    ensures StartInv(Step(s, a), id, n)
  {
    ServerKeepsOutstanding(s, a);
  }

  lemma StartDial(s: State, g: GoroutineId, dialOk: bool, id: CallId, n: nat)
    requires StartInv(s, id, n)
    ensures StartInv(StepDial(s, g, dialOk), id, n)
  {
    var t := StepDial(s, g, dialOk);
    if t.ws != s.ws {
      assert t.conns[t.ws.value] == Conn(false, [], []);
    }
  }

  lemma StartHandshake(s: State, g: GoroutineId, ok: bool, id: CallId, n: nat)
    requires Inv(s) && StartInv(s, id, n)
    ensures StartInv(StepHandshake(s, g, ok), id, n)
  {
    if PcOf(s, g).AwaitingHandshake? && s.conns[s.ws.value].inbox != [] {
      OutstandingRead(s.conns[s.ws.value]);
    }
  }

  lemma StartKept(s: State, a: Action, id: CallId, n: nat)
    requires Inv(s) && StartInv(s, id, n) && !(a.LockAndIssue? && a.encodes)
    ensures StartInv(Step(s, a), id, n)
  {
    match a
    case Read(g, ok) => StartRead(s, g, ok, id, n);
    case Write(g, ok, delivered) => StartWrite(s, g, ok, delivered, id, n);
    case ReadHandshake(g, ok) => StartHandshake(s, g, ok, id, n);
    case LockAndDial(g, dialOk) => StartDial(s, g, dialOk, id, n);
    case ServerGreets(_, _) => StartServer(s, a, id, n);
    case ServerPushes(_, _) => StartServer(s, a, id, n);
    case ServerAnswers(_) => StartServer(s, a, id, n);
    case _ =>
  }

  lemma {:induction false} StartRun(s: State, later: seq<Action>, id: CallId, n: nat)
    requires Inv(s) && StartInv(s, id, n) && NoOtherWrites(later)
    ensures StartInv(Run(s, later), id, n)
    decreases |later|
  {
    if later != [] {
      StepKeepsInv(s, later[0]);
      StartKept(s, later[0], id, n);
      StartRun(Step(s, later[0]), later[1..], id, n);
    }
  }

  // ---- A connection that owes an older response ----

  /** The read of a response to an older call ends the call with that response or a mismatch. */
  lemma StaleVerdict(s: State, g: GoroutineId, c: ConnId, id: CallId)
    requires PcOf(s, g) == Reading(id, Some(c)) && c < |s.conns| && ReadsOldest(s.conns[c])
    requires Outstanding(s.conns[c])[0] != id
    ensures EndsBadly(s, [Read(g, true)], id)
  {
    RunCons(s, Read(g, true), []);
    assert [Read(g, true)] + [] == [Read(g, true)];
    var r := s.conns[c].inbox[0];
    var o := if r.tag == WireSeq(id) then Success(id, r) else SequenceMismatch(id, r);
    assert Step(s, Read(g, true)).log == s.log + [o];
    assert r == Response(WireSeq(r.answers), r.answers) && r.answers != id;
  }

  /** After these actions the call has returned, and not harmlessly; nobody else has written or returned. */
  ghost predicate EndsBadly(s: State, later: seq<Action>, id: CallId) {
    var log := Run(s, later).log;
    NoOtherWrites(later) && |log| == |s.log| + 1 && log[|s.log|].id == id && !Harmless(log[|s.log|], id)
  }

  lemma EndsBadlyLater(s: State, a: Action, t: State, later: seq<Action>, id: CallId)
    requires t == Step(s, a) && t.log == s.log && !a.LockAndIssue? && EndsBadly(t, later, id)
    ensures EndsBadly(s, [a] + later, id)
  {
    RunCons(s, a, later);
  }

  /** The state when an event has been passed over, or is in the handler. */
  lemma ReadsEvent(s: State, g: GoroutineId, c: ConnId, id: CallId) returns (t: State)
    requires Inv(s) && PcOf(s, g) == Reading(id, Some(c)) && c < |s.conns|
    requires s.conns[c].inbox != [] && s.conns[c].inbox[0].Event?
    ensures t == Step(s, Read(g, true)) && Inv(t) && t.log == s.log && t.ws == Some(c)
    ensures t.conns == s.conns[c := s.conns[c].(inbox := s.conns[c].inbox[1..])]
    ensures t.hasHandler == s.hasHandler && t.issued == s.issued
    ensures if s.hasHandler && s.conns[c].inbox[0] == Event(true) then PcOf(t, g) == InHandler(id) && t.lock == None
            else PcOf(t, g) == Reading(id, Some(c))
  {
    t := Step(s, Read(g, true));
    StepKeepsInv(s, Read(g, true));
  }

  lemma HandlerEnds(s: State, g: GoroutineId, c: ConnId, id: CallId) returns (t: State)
    requires Inv(s) && PcOf(s, g) == InHandler(id) && s.lock == None && s.ws == Some(c)
    ensures t == Step(s, HandlerReturns(g)) && Inv(t) && t.log == s.log && t.conns == s.conns
    ensures t.hasHandler == s.hasHandler && t.issued == s.issued
    ensures PcOf(t, g) == Reading(id, Some(c))
  {
    t := Step(s, HandlerReturns(g));
    StepKeepsInv(s, HandlerReturns(g));
  }

  /** The call reads on past events until it comes to the older call's response. */
  lemma {:induction false} ReadsStaleResponse(s: State, g: GoroutineId, c: ConnId, id: CallId)
      returns (later: seq<Action>)
    requires Inv(s) && PcOf(s, g) == Reading(id, Some(c)) && c < |s.conns|
    requires Answered(s.conns[c].inbox) != [] && Outstanding(s.conns[c])[0] != id
    ensures EndsBadly(s, later, id)
    decreases |s.conns[c].inbox|
  {
    var conn := s.conns[c];
    HeadOfInbox(s, g, conn);
    if conn.inbox[0].Response? {
      later := [Read(g, true)];
      StaleVerdict(s, g, c, id);
    } else {
      OutstandingRead(conn);
      var t := ReadsEvent(s, g, c, id);
      if PcOf(t, g).InHandler? {
        var u := HandlerEnds(t, g, c, id);
        var rest := ReadsStaleResponse(u, g, c, id);
        EndsBadlyLater(t, HandlerReturns(g), u, rest, id);
        later := [HandlerReturns(g)] + rest;
      } else {
        later := ReadsStaleResponse(t, g, c, id);
      }
      EndsBadlyLater(s, Read(g, true), t, later, id);
      later := [Read(g, true)] + later;
    }
  }

  lemma ServerAnswersOldest(s: State, g: GoroutineId, c: ConnId, id: CallId) returns (t: State)
    requires Inv(s) && PcOf(s, g) == Reading(id, Some(c)) && c < |s.conns|
    requires Outstanding(s.conns[c]) != [] && Answered(s.conns[c].inbox) == []
    ensures t == Step(s, ServerAnswers(c)) && Inv(t) && t.log == s.log && PcOf(t, g) == PcOf(s, g) && c < |t.conns|
    ensures Outstanding(t.conns[c]) == Outstanding(s.conns[c]) && Answered(t.conns[c].inbox) != []
  {
    var conn := s.conns[c];
    StepKeepsInv(s, ServerAnswers(c));
    AnswerKeepsOutstanding(s, c);
    t := Step(s, ServerAnswers(c));
    var r := Response(WireSeq(conn.owed[0]), conn.owed[0]);
    AnsweredConcat(conn.inbox, [r]);
    assert Answered([r]) == [r.answers] + Answered([]);
  }

  /** The server answers the oldest call it has not answered, if it has answered none yet, and the call reads. */
  lemma WrittenBehindDebt(s: State, g: GoroutineId, c: ConnId, id: CallId) returns (later: seq<Action>)
    requires Inv(s) && PcOf(s, g) == Reading(id, Some(c)) && c < |s.conns|
    requires Outstanding(s.conns[c]) != [] && Outstanding(s.conns[c])[0] != id
    ensures EndsBadly(s, later, id)
  {
    if Answered(s.conns[c].inbox) != [] {
      later := ReadsStaleResponse(s, g, c, id);
    } else {
      var t := ServerAnswersOldest(s, g, c, id);
      var rest := ReadsStaleResponse(t, g, c, id);
      EndsBadlyLater(s, ServerAnswers(c), t, rest, id);
      later := [ServerAnswers(c)] + rest;
    }
  }

  /** The state when the call has taken its number. */
  lemma Issues(s: State, g: GoroutineId) returns (t: State)
    requires Inv(s) && s.lock.None? && PcOf(s, g).SendWaiting? && s.ws.Some?
    ensures t == Step(s, LockAndIssue(g, true)) && Inv(t) && t.log == s.log && t.ws == s.ws && t.conns == s.conns
    ensures t.pcs == s.pcs[g := Writing(s.issued, s.ws.value)] && s.ws.value < |s.conns|
    ensures t.hasHandler == s.hasHandler && t.issued == s.issued + 1
  {
    t := Step(s, LockAndIssue(g, true));
    StepKeepsInv(s, LockAndIssue(g, true));
  }

  lemma Writes(s: State, g: GoroutineId, c: ConnId, id: CallId) returns (t: State)
    requires Inv(s) && PcOf(s, g) == Writing(id, c) && c < |s.conns|
    ensures t == Step(s, Write(g, true, true)) && Inv(t) && t.log == s.log
    ensures PcOf(t, g) == Reading(id, Some(c)) && c < |t.conns|
    ensures Outstanding(t.conns[c]) == Outstanding(s.conns[c]) + [id]
  {
    t := Step(s, Write(g, true, true));
    StepKeepsInv(s, Write(g, true, true));
    assert t.conns[c] == s.conns[c].(owed := s.conns[c].owed + [id]);
  }

  // ---- Exactly ----

  /** Whatever happens later, short of another call that writes, the call ends harmlessly if it ends. */
  ghost predicate SafeFrom(t: State, n: nat, id: CallId) {
    forall later :: NoOtherWrites(later) ==> HarmlessSince(Run(t, later).log, n, id)
  }

  lemma DebtSpoilsTheStart(s: State, g: GoroutineId)
    requires Inv(s) && s.lock.None? && PcOf(s, g).SendWaiting? && s.ws.Some? && s.ws.value < |s.conns|
    requires Outstanding(s.conns[s.ws.value]) != []
    ensures !SafeFrom(Step(s, LockAndIssue(g, true)), |s.log|, s.issued)
  {
    var c, id := s.ws.value, s.issued;
    assert Outstanding(s.conns[c])[0] in Outstanding(s.conns[c]);
    var t := Issues(s, g);
    var w := Writes(t, g, c, id);
    var rest := WrittenBehindDebt(w, g, c, id);
    EndsBadlyLater(t, Write(g, true, true), w, rest, id);
    var later := [Write(g, true, true)] + rest;
    assert NoOtherWrites(later) && !HarmlessSince(Run(t, later).log, |s.log|, id);
  }

  /**
    * In any run, handler or not: a call that starts now ends with the answer to its own request, a
    * transport error or a nil connection in every continuation in which no other call writes, if and
    * only if the open connection owes nothing at this moment.
    */
  lemma StartIsSafeExactly(hasHandler: bool, earlier: seq<Action>, g: GoroutineId)
    requires var s := Run(Start(hasHandler), earlier);
             s.lock.None? && PcOf(s, g).SendWaiting? && s.ws.Some? && s.ws.value < |s.conns|
    ensures var s := Run(Start(hasHandler), earlier);
            SafeFrom(Step(s, LockAndIssue(g, true)), |s.log|, s.issued) <==> Outstanding(s.conns[s.ws.value]) == []
  {
    var s := Run(Start(hasHandler), earlier);
    GoClientSafety.StartInv(hasHandler);
    RunKeepsInv(Start(hasHandler), earlier);
    if Outstanding(s.conns[s.ws.value]) == [] {
      var t := Issues(s, g);
      assert StartInv(t, s.issued, |s.log|);
      forall later | NoOtherWrites(later) ensures HarmlessSince(Run(t, later).log, |s.log|, s.issued) {
        StartRun(t, later, s.issued, |s.log|);
      }
    } else {
      DebtSpoilsTheStart(s, g);
    }
  }
}
