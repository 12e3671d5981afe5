/** What one read of the two-slot buffer gives, and what becomes of a message that comes in fragments. */
module TwoSlotReads {
  import opened Bytes
  import opened Lists
  import opened TwoSlot

  // ---- A message is there ----

  /** A read on an open connection hands out the first message that is coming, whatever else goes on. */
  lemma ReadHandsOutTheFirst(s: State, schedule: seq<seq<Callback>>)
    requires s.connected && Coming(s) != []
    ensures var t := Step(s, Read(schedule));
            && t.delivered == s.delivered + [Coming(s)[0]] && Coming(t) == Coming(s)[1..]
            && t.connected && t.arrived == s.arrived
  {
  }

  function Reads(schedules: seq<seq<seq<Callback>>>): seq<Op> {
    if schedules == [] then [] else [Read(schedules[0])] + Reads(schedules[1..])
  }

  /** As many reads as there are messages coming hand out all of them, in order. */
  lemma {:induction false} ReadsEmptyTheBuffer(s: State, schedules: seq<seq<seq<Callback>>>)
    requires s.connected && |schedules| == |Coming(s)|
    ensures var t := Run(s, Reads(schedules)); t.delivered == s.delivered + Coming(s) && Coming(t) == []
    decreases |schedules|
  {
    if schedules != [] {
      var t := Step(s, Read(schedules[0]));
      ReadHandsOutTheFirst(s, schedules[0]);
      ReadsEmptyTheBuffer(t, schedules[1..]);
      assert Reads(schedules)[1..] == Reads(schedules[1..]);
      assert s.delivered + Coming(s) == (s.delivered + [Coming(s)[0]]) + Coming(s)[1..];
    }
  }

  // ---- No message is there ----

  /**
    * The message that ends the wait: the first of the first turn that reports anything at all, if it has
    * bytes and the connection does not close in that turn.
    */
  function FirstArriving(schedule: seq<seq<Callback>>): seq<seq<byte>>
    decreases |schedule|
  {
    if schedule == [] then []
    else if schedule[0] == [] then FirstArriving(schedule[1..])
    else if Closed in schedule[0] || schedule[0][0].data == [] then []
    else [schedule[0][0].data]
  }

  /** Both slots are empty and open to what comes. */
  predicate Clear(s: State) { s.connected && s.recv == s.queue == [] && !s.recvComplete && !s.queueComplete }

  lemma {:induction false} ServiceCloses(s: State, callbacks: seq<Callback>)
    ensures Service(s, callbacks).connected <==> s.connected && Closed !in callbacks
    ensures Service(s, callbacks).delivered == s.delivered
    decreases |callbacks|
  {
    if callbacks != [] {
      ServiceCloses(OnCallback(s, callbacks[0]), callbacks[1..]);
      assert callbacks == [callbacks[0]] + callbacks[1..];
    }
  }

  lemma {:induction false} ServiceKeepsCurrent(s: State, callbacks: seq<Callback>)
    requires s.recvComplete
    ensures Service(s, callbacks).recvComplete && Service(s, callbacks).recv == s.recv
    decreases |callbacks|
  {
    if callbacks != [] { ServiceKeepsCurrent(OnCallback(s, callbacks[0]), callbacks[1..]); }
  }

  lemma FirstOfTurn(s: State, callbacks: seq<Callback>)
    requires Clear(s) && callbacks != [] && Closed !in callbacks && forall c :: c in callbacks ==> Whole(c)
    ensures var t := Service(s, callbacks);
            t.connected && t.recvComplete && t.recv == callbacks[0].data && t.delivered == s.delivered
  {
    var first := callbacks[0];
    assert first in callbacks && first.Chunk? && first.final;
    assert [] + first.data == first.data;
    ServiceCloses(s, callbacks);
    ServiceKeepsCurrent(OnCallback(s, first), callbacks[1..]);
  }

  lemma {:induction false} WaitFromClear(s: State, schedule: seq<seq<Callback>>)
    requires Clear(s) && WholeMessages(Read(schedule))
    ensures var t := Wait(s, schedule);
            && t.delivered == s.delivered
            && (t.connected && Ready(t) <==> FirstArriving(schedule) != [])
            && (t.connected && Ready(t) ==> [t.recv] == FirstArriving(schedule))
    decreases |schedule|
  {
    if schedule != [] {
      var turn := schedule[0];
      forall c | c in turn ensures Whole(c) { assert turn in schedule && c in turn; }
      if turn == [] {
        forall cs, c | cs in schedule[1..] && c in cs ensures Whole(c) { assert cs in schedule && c in cs; }
        WaitFromClear(s, schedule[1..]);
      } else if Closed in turn {
        ServiceCloses(s, turn);
      } else {
        FirstOfTurn(s, turn);
        var t := Service(s, turn);
        assert Wait(s, schedule) == Wait(t, schedule[1..]) == t;
      }
    }
  }

  lemma {:induction false} JammedWaitsInVain(s: State, schedule: seq<seq<Callback>>)
    requires s.connected && Jammed(s) && !s.recvComplete
    ensures var t := Wait(s, schedule); t.delivered == s.delivered && !(t.connected && Ready(t))
    decreases |schedule|
  {
    WaitStaysStuck(s, schedule);
  }

  /**
    * With nothing coming, a read of whole messages gives exactly the first one that arrives while it waits,
    * and nothing if that one is empty, if the connection closes in the same turn, or if the buffer is jammed.
    */
  lemma ReadGivesTheFirstArriving(ops: seq<Op>, schedule: seq<seq<Callback>>)
    requires (forall op :: op in ops ==> WholeMessages(op)) && WholeMessages(Read(schedule))
    requires Run(Start(), ops).connected && Coming(Run(Start(), ops)) == []
    ensures var s := Run(Start(), ops);
            Step(s, Read(schedule)).delivered == s.delivered + if Jammed(s) then [] else FirstArriving(schedule)
  {
    var s := Run(Start(), ops);
    RunKeepsQueue(Start(), ops);
    var r := Reset(s);
    assert s.delivered + [] == s.delivered;
    if Jammed(s) {
      JammedWaitsInVain(r, schedule);
    } else {
      assert Clear(r);
      WaitFromClear(r, schedule);
      assert FirstArriving(schedule) == [] || |FirstArriving(schedule)| == 1;
    }
  }

  // ---- No connection is there ----

  lemma {:induction false} NothingAfterClose(s: State, ops: seq<Op>)
    requires !s.connected
    ensures !Run(s, ops).connected && Run(s, ops).delivered == s.delivered
    decreases |ops|
  {
    if ops != [] { NothingAfterClose(Step(s, ops[0]), ops[1..]); }
  }

  /** Once the connection has closed, between reads or during one, nothing is handed out any more. */
  lemma CloseIsFinal(s: State, ops: seq<Op>)
    ensures Run(Step(s, Arrive(Closed)), ops).delivered == s.delivered
  {
    NothingAfterClose(OnCallback(s, Closed), ops);
  }

  // ---- Fragments ----

  function Fragments(parts: seq<seq<byte>>): seq<Callback> {
    if parts == [] then [] else [Chunk(parts[0], |parts| == 1)] + Fragments(parts[1..])
  }

  function Joined(parts: seq<seq<byte>>): seq<byte> {
    if parts == [] then [] else parts[0] + Joined(parts[1..])
  }

  /** The same but for the record of arrivals. */
  predicate SameSlots(s: State, t: State) { s.(arrived := []) == t.(arrived := []) }

  /** Two parts one after the other are taken as one, whether both find room or neither does. */
  lemma TwoPartsAreOne(s: State, p: seq<byte>, q: seq<byte>)
    ensures SameSlots(OnCallback(OnCallback(s, Chunk(p, false)), Chunk(q, true)), OnCallback(s, Chunk(p + q, true)))
  {
    Associative(s.recv, p, q);
    Associative(s.queue, p, q);
  }

  /** Fragments that arrive with no read between them leave the slots as the whole message does. */
  lemma {:induction false} FragmentsAreOneMessage(s: State, parts: seq<seq<byte>>)
    requires parts != []
    ensures SameSlots(Service(s, Fragments(parts)), OnCallback(s, Chunk(Joined(parts), true)))
    decreases |parts|
  {
    var first, rest := Fragments(parts)[0], parts[1..];
    assert Fragments(parts)[1..] == Fragments(rest);
    if rest == [] {
      assert Joined(parts) == parts[0] + [] == parts[0];
      assert Service(s, Fragments(parts)) == Service(OnCallback(s, first), []);
    } else {
      FragmentsAreOneMessage(OnCallback(s, first), rest);
      TwoPartsAreOne(s, parts[0], Joined(rest));
    }
  }

  /** Reads during which nothing arrives. */
  function QuietReads(k: nat): seq<Op> {
    if k == 0 then [] else [Read([])] + QuietReads(k - 1)
  }

  lemma {:induction false} RunConcat(s: State, a: seq<Op>, b: seq<Op>)
    ensures Run(s, a + b) == Run(Run(s, a), b)
    decreases |a|
  {
    if a == [] {
      assert a + b == b;
    } else {
      RunConcat(Step(s, a[0]), a[1..], b);
      assert (a + b)[1..] == a[1..] + b && (a + b)[0] == a[0];
    }
  }

  /** A read has started since part of a message came: whatever comes next is taken for the start of a message. */
  predicate Restarted(s: State) {
    s.connected && !s.queueComplete && (if s.recvComplete then s.recv != [] && s.queue == [] else s.recv == [])
  }

  lemma {:induction false} QuietReadsRestart(s: State, k: nat)
    requires Restarted(s)
    ensures var t := Run(s, QuietReads(k)); Restarted(t) && t.delivered + Coming(t) == s.delivered + Coming(s)
    decreases k
  {
    if k > 0 {
      var t := Step(s, Read([]));
      assert QuietReads(k)[1..] == QuietReads(k - 1);
      assert t.delivered + Coming(t) == s.delivered + Coming(s) by {
        if s.recvComplete { ReadHandsOutTheFirst(s, []); }
      }
      QuietReadsRestart(t, k - 1);
    }
  }

  lemma FirstReadRestarts(s: State, p: seq<byte>)
    requires s.connected && NothingEmpty(s) && Started(s) == []
    ensures var t := OnCallback(s, Chunk(p, false));
            var u := Step(t, Read([]));
            Restarted(u) && u.delivered + Coming(u) == s.delivered + Coming(s)
  {
    var t := OnCallback(s, Chunk(p, false));
    assert [] + p == p;
    if s.recvComplete {
      ReadHandsOutTheFirst(t, []);
      assert Coming(t) == Coming(s) && s.delivered + Coming(s) == (s.delivered + [Coming(s)[0]]) + Coming(s)[1..];
    }
  }

  /**
    * A message in two parts, with k quiet reads between them: it comes whole exactly when there is no read
    * between its parts and fewer than two messages are held. After a read its second part is handed out as a
    * message of its own.
    */
  lemma ReadBetweenFragmentsExactly(s: State, p: seq<byte>, k: nat, q: seq<byte>)
    requires s.connected && NothingEmpty(s) && Started(s) == [] && p != [] && q != []
    ensures var t := Run(s, [Arrive(Chunk(p, false))] + (QuietReads(k) + [Arrive(Chunk(q, true))]));
            t.delivered + Coming(t) ==
              s.delivered + Coming(s) + (if k > 0 then [q] else if |Held(s)| < 2 then [p + q] else [])
  {
    var first, last := Arrive(Chunk(p, false)), Arrive(Chunk(q, true));
    var s1 := Step(s, first);
    RunConcat(s1, QuietReads(k), [last]);
    RunConcat(s, [first], QuietReads(k) + [last]);
    RunOne(s, first);
    var s2 := Run(s1, QuietReads(k));
    RunOne(s2, last);
    if k == 0 {
      TwoPartsAreOne(s, p, q);
      WholeMessageComes(s, p + q);
    } else {
      assert QuietReads(k)[1..] == QuietReads(k - 1);
      FirstReadRestarts(s, p);
      QuietReadsRestart(Step(s1, Read([])), k - 1);
      RestartedTakesTheRest(s2, q);
    }
  }

  lemma RunOne(s: State, op: Op)
    ensures Run(s, [op]) == Step(s, op)
  {
    assert [op][1..] == [] && Run(s, [op]) == Run(Step(s, op), []);
  }

  lemma WholeMessageComes(s: State, m: seq<byte>)
    requires s.connected && NothingEmpty(s) && Started(s) == [] && m != []
    ensures var t := OnCallback(s, Chunk(m, true));
            t.delivered + Coming(t) == s.delivered + Coming(s) + if |Held(s)| < 2 then [m] else []
  {
    assert [] + m == m;
  }

  lemma RestartedTakesTheRest(s: State, q: seq<byte>)
    requires Restarted(s) && q != []
    ensures var t := OnCallback(s, Chunk(q, true));
            t.delivered + Coming(t) == s.delivered + Coming(s) + [q]
  {
    assert [] + q == q;
  }

  /** The part in front of such a read may stay in the next slot, and is then glued to the message after. */
  lemma StalePartIsGlued(s: State, p: seq<byte>, q: seq<byte>, m: seq<byte>)
    requires s.connected && NothingEmpty(s) && Started(s) == [] && |Held(s)| == 1 && q != [] && m != []
    ensures var t := Run(s, [Arrive(Chunk(p, false)), Read([]), Arrive(Chunk(q, true)), Arrive(Chunk(m, true))]);
            t.delivered == s.delivered + Held(s) && Coming(t) == [q, p + m]
  {
    var a, b, c, d := Arrive(Chunk(p, false)), Read([]), Arrive(Chunk(q, true)), Arrive(Chunk(m, true));
    assert [a, b, c, d][1..] == [b, c, d] && [b, c, d][1..] == [c, d] && [c, d][1..] == [d];
    var s1 := Step(s, a);
    assert [] + p == p && Coming(s1) == [s.recv];
    ReadHandsOutTheFirst(s1, []);
    var s2 := Step(s1, b);
    assert s2.queue == p && !s2.queueComplete && !s2.recvComplete && s2.recv == [];
    assert [] + q == q;
    RunOne(Step(s2, c), d);
    assert Run(s, [a, b, c, d]) == Run(s1, [b, c, d]) == Run(s2, [c, d]) == Run(Step(s2, c), [d]);
  }
}
