/**
  * The receive loop of send_request in the C client: it passes over at most ten messages that are
  * pub/sub events, handing the decodable ones to the queue or to the callback.
  */
module SendRequest {
  import opened Bytes
  import opened Lists
  import opened ResponseCodec
  import EventCodec
  import Unicode
  import opened MessageQueue

  const MAX_ATTEMPTS: nat := 10

  /** What one receive brings: a message, which is never empty, or a timeout or failure. */
  datatype Arrival = Arrived(data: seq<byte>) | ReceiveFailed

  datatype Outcome = Decoded(response: Response) | ProtocolError | ConnectionError | TooManyEvents

  /** What the loop leaves behind: the bytes of a response, a failed receive, or no attempts. */
  datatype Found = Responded(data: seq<byte>) | Failure | Exhausted

  /** How the loop ends: what it found, the arrivals left, and the events it passed over, in order. */
  datatype Ending = Ending(found: Found, rest: seq<Arrival>, skipped: seq<Arrival>)

  predicate IsEvent(a: Arrival) {
    a.Arrived? && |a.data| >= 1 && a.data[0] == EventCodec.PUBSUB_EVENT
  }

  predicate IsReply(a: Arrival) {
    a.Arrived? && |a.data| >= 1 && a.data[0] != EventCodec.PUBSUB_EVENT
  }

  /** A response is taken for a reply unless its status is 255; an event is passed over, and decodes. */
  lemma KindsOfArrival(r: Response, rest: seq<byte>, lead: nat, e: EventCodec.Event)
    requires Fits(r) && lead < TWO_32 && EventCodec.Fits(e)
    ensures if r.status == 0xFF then IsEvent(Arrived(Encoding(r) + rest)) else IsReply(Arrived(Encoding(r) + rest))
    ensures var event := Arrived(EventCodec.Encoding([0xFF] + Be32(lead), e));
            IsEvent(event) && EventOf(event) == [(e.topic, e.payload)]
  {
    var head := [0xFF] + Be32(lead);
    var d := EventCodec.Encoding(head, e);
    assert d + [] == d && d[0] == 0xFF;
    EventCodec.GoEventOfEncoding(head, e, []);
    EventCodec.DecodersAgree(d);
  }

  /** The result of the call, once the loop is over. */
  function Conclusion(found: Found): Outcome {
    match found
    case Responded(data) => if CDecoded(data).Some? then Decoded(CDecoded(data).value) else ProtocolError
    case Failure => ConnectionError
    case Exhausted => TooManyEvents
  }

  function EventOf(a: Arrival): seq<Message> {
    if a.Arrived? && EventCodec.CEvent(a.data).Some? then [EventCodec.CEvent(a.data).value] else []
  }

  /** The decodable events among some arrivals, in order. */
  function Events(arrivals: seq<Arrival>): seq<Message> {
    if arrivals == [] then [] else EventOf(arrivals[0]) + Events(arrivals[1..])
  }

  function Prepend(before: seq<Arrival>, e: Ending): Ending {
    e.(skipped := before + e.skipped)
  }

  function Loop(stream: seq<Arrival>, attempts: nat): Ending {
    if attempts == 0 then Ending(Exhausted, stream, [])
    else if stream == [] then Ending(Failure, [], [])
    else if IsEvent(stream[0]) then Prepend([stream[0]], Loop(stream[1..], attempts - 1))
    else Ending(if IsReply(stream[0]) then Responded(stream[0].data) else Failure, stream[1..], [])
  }

  // ---- What the loop does ----

  /** The position of the first arrival that is not an event. */
  function Leading(stream: seq<Arrival>): (n: nat)
    ensures n <= |stream| && (n < |stream| ==> !IsEvent(stream[n]))
    ensures forall i :: 0 <= i < n ==> IsEvent(stream[i])
  {
    if stream != [] && IsEvent(stream[0]) then 1 + Leading(stream[1..]) else 0
  }

  lemma CutBehindFirst(stream: seq<Arrival>, n: nat)
    requires 0 < n <= |stream|
    ensures stream[..n] == [stream[0]] + stream[1..][..n - 1] && stream[n..] == stream[1..][n - 1..]
  {
  }

  /** A non-event behind fewer events than there are attempts ends the loop. */
  lemma {:induction false} LoopReaches(stream: seq<Arrival>, attempts: nat)
    requires Leading(stream) < attempts && Leading(stream) < |stream|
    ensures var n := Leading(stream);
            Loop(stream, attempts) == Prepend(stream[..n], Loop(stream[n..], attempts - n))
  {
    var n := Leading(stream);
    if n == 0 {
      assert stream[..0] == [] && stream[0..] == stream;
      PrependNothing(Loop(stream, attempts));
    } else {
      var tail := stream[1..];
      LoopReaches(tail, attempts - 1);
      CutBehindFirst(stream, n);
      PrependTwice([stream[0]], tail[..n - 1], Loop(stream[n..], attempts - n));
    }
  }

  lemma PrependTwice(a: seq<Arrival>, b: seq<Arrival>, e: Ending)
    ensures Prepend(a, Prepend(b, e)) == Prepend(a + b, e)
  {
    assert a + (b + e.skipped) == (a + b) + e.skipped;
  }

  lemma PrependNothing(e: Ending)
    ensures Prepend([], e) == e
  {
    assert [] + e.skipped == e.skipped;
  }

  /** With nothing but events for all its attempts, the loop gives up and leaves the rest unread. */
  lemma {:induction false} LoopGivesUp(stream: seq<Arrival>, attempts: nat)
    requires Leading(stream) >= attempts
    ensures Loop(stream, attempts) == Ending(Exhausted, stream[attempts..], stream[..attempts])
  {
    if attempts > 0 {
      var tail := stream[1..];
      LoopGivesUp(tail, attempts - 1);
      CutBehindFirst(stream, attempts);
    }
  }

  /** Nothing but events, and fewer than there are attempts: the loop waits in vain for more. */
  lemma {:induction false} LoopSkipsAll(stream: seq<Arrival>, attempts: nat)
    requires Leading(stream) == |stream| < attempts
    ensures Loop(stream, attempts) == Ending(Failure, [], stream)
  {
    if stream != [] {
      LoopSkipsAll(stream[1..], attempts - 1);
      assert stream == [stream[0]] + stream[1..];
    }
  }

  /** A reply stands behind fewer events than there are attempts. */
  predicate ReplyInTime(stream: seq<Arrival>, attempts: nat) {
    Leading(stream) < attempts && Leading(stream) < |stream| && IsReply(stream[Leading(stream)])
  }

  /**
    * Bounded event skipping: the loop reaches decoding exactly when a reply stands behind fewer events
    * than it has attempts; it then goes on with that reply, leaves every later arrival unread, and has
    * passed over exactly the events before it, in order of arrival.
    */
  lemma {:induction false} LoopReachesReply(stream: seq<Arrival>, attempts: nat)
    ensures Loop(stream, attempts).found.Responded? <==> ReplyInTime(stream, attempts)
    ensures ReplyInTime(stream, attempts) ==>
      var n := Leading(stream);
      Loop(stream, attempts) == Ending(Responded(stream[n].data), stream[n + 1..], stream[..n])
  {
    var n := Leading(stream);
    if n >= attempts {
      LoopGivesUp(stream, attempts);
    } else if n == |stream| {
      LoopSkipsAll(stream, attempts);
    } else {
      LoopReaches(stream, attempts);
      var e := Loop(stream[n..], attempts - n);
      assert stream[n..][0] == stream[n] && stream[n..][1..] == stream[n + 1..];
      assert stream[..n] + [] == stream[..n];
    }
  }

  /**
    * send_request from end to end. It gives up exactly on ten leading events; it fails exactly if there are
    * fewer and nothing, an empty message or a failed receive comes next; it returns a response exactly if the
    * message behind those events begins with its encoding; and it refuses any other message there.
    */
  lemma ConcludesExactly(stream: seq<Arrival>, r: Response)
    ensures var n, outcome := Leading(stream), Conclusion(Loop(stream, MAX_ATTEMPTS).found);
            && (outcome == TooManyEvents <==> n >= 10)
            && (outcome == ConnectionError <==> n < 10 && (n < |stream| ==> !IsReply(stream[n])))
            && (outcome == Decoded(r) <==> ReplyInTime(stream, 10) && BeginsWith(stream[n].data, r))
            && (outcome == ProtocolError <==> ReplyInTime(stream, 10) && CDecoded(stream[n].data).None?)
  {
    LoopReachesReply(stream, MAX_ATTEMPTS);
    if Leading(stream) >= MAX_ATTEMPTS {
      LoopGivesUp(stream, MAX_ATTEMPTS);
    } else {
      ExhaustedExactly(stream, MAX_ATTEMPTS);
    }
    if ReplyInTime(stream, MAX_ATTEMPTS) {
      AcceptsExactly(stream[Leading(stream)].data, r);
    }
  }

  lemma {:induction false} ExhaustedExactly(stream: seq<Arrival>, attempts: nat)
    ensures Loop(stream, attempts).found.Exhausted? <==> Leading(stream) >= attempts
  {
    if attempts > 0 && stream != [] && IsEvent(stream[0]) {
      ExhaustedExactly(stream[1..], attempts - 1);
    }
  }

  lemma {:induction false} LeadingOfEvents(events: seq<Arrival>, rest: seq<Arrival>)
    requires forall i :: 0 <= i < |events| ==> IsEvent(events[i])
    ensures Leading(events + rest) == |events| + Leading(rest)
  {
    if events == [] {
      assert events + rest == rest;
    } else {
      assert IsEvent(events[0]);
      LeadingOfEvents(events[1..], rest);
      assert (events + rest)[1..] == events[1..] + rest;
    }
  }

  predicate AllEvents(arrivals: seq<Arrival>) { forall i :: 0 <= i < |arrivals| ==> IsEvent(arrivals[i]) }

  /** The loop stops behind the events in `passed`, for lack of attempts or with the next arrival, and leaves `rest`. */
  predicate Stops(stream: seq<Arrival>, passed: seq<Arrival>, found: Found, rest: seq<Arrival>) {
    && AllEvents(passed)
    && if found.Exhausted? then |passed| == MAX_ATTEMPTS && stream == passed + rest
       else if stream == passed then |passed| < MAX_ATTEMPTS && found.Failure? && rest == []
       else
         && |passed| < MAX_ATTEMPTS && |passed| < |stream| && !IsEvent(stream[|passed|])
         && stream == passed + ([stream[|passed|]] + rest)
         && found == if IsReply(stream[|passed|]) then Responded(stream[|passed|].data) else Failure
  }

  /** That is how the loop ends. */
  lemma StopsAsLoop(stream: seq<Arrival>, passed: seq<Arrival>, found: Found, rest: seq<Arrival>)
    requires Stops(stream, passed, found, rest)
    ensures Loop(stream, MAX_ATTEMPTS) == Ending(found, rest, passed)
  {
    if found.Exhausted? {
      LeadingOfEvents(passed, rest);
      LoopGivesUp(stream, MAX_ATTEMPTS);
      assert stream[MAX_ATTEMPTS..] == rest && stream[..MAX_ATTEMPTS] == passed;
    } else if stream == passed {
      assert passed + [] == passed;
      LeadingOfEvents(passed, []);
      LoopSkipsAll(stream, MAX_ATTEMPTS);
    } else {
      var next := [stream[|passed|]] + rest;
      LeadingOfEvents(passed, next);
      LoopReaches(stream, MAX_ATTEMPTS);
      assert stream[|passed|..] == next && stream[..|passed|] == passed && next[1..] == rest;
      assert passed + [] == passed;
    }
  }

  /** One turn of the loop, behind the events that were passed over before. */
  lemma LoopStep(stream: seq<Arrival>, attempts: nat, passed: seq<Arrival>)
    requires attempts > 0
    ensures var e := Prepend(passed, Loop(stream, attempts));
            if stream == [] then e == Ending(Failure, [], passed)
            else if IsEvent(stream[0]) then
              e == Prepend(passed + [stream[0]], Loop(stream[1..], attempts - 1))
            else e == Ending(if IsReply(stream[0]) then Responded(stream[0].data) else Failure, stream[1..], passed)
  {
    assert passed + [] == passed;
    if stream != [] && IsEvent(stream[0]) {
      PrependTwice(passed, [stream[0]], Loop(stream[1..], attempts - 1));
    }
  }

  lemma {:induction false} EventsAppend(a: seq<Arrival>, x: Arrival)
    ensures Events(a + [x]) == Events(a) + EventOf(x)
  {
    if a == [] {
      assert [] + [x] == [x] && [x][1..] == [] && Events([x]) == EventOf(x) + Events([]);
    } else {
      EventsAppend(a[1..], x);
      assert (a + [x])[1..] == a[1..] + [x] && (a + [x])[0] == a[0];
      Associative(EventOf(a[0]), Events(a[1..]), EventOf(x));
    }
  }

  // ---- Python, which does compare the number ----

  const PY_OK: byte := 0

  /** The value as a string, given as the one UTF-8 that spells it, or an exception. */
  datatype PyOutcome = Returned(value: seq<byte>) | Raised

  /** What the call makes of its own response: every status but OK maps to an exception. */
  function PyResult(r: Response): PyOutcome {
    if r.status == PY_OK then Returned(r.value) else Raised
  }

  /** What _send_request makes of the end of its loop. */
  function PyConclusion(found: Found, tag: nat): PyOutcome {
    if found.Responded? && PyDecoded(found.data).Some? && PyDecoded(found.data).value.tag == tag
    then PyResult(PyDecoded(found.data).value)
    else Raised
  }

  /**
    * _send_request returns a value exactly if the first message behind fewer than ten events begins with the
    * encoding of a response with status 0, the request's own number, and that value, in UTF-8 and within the
    * limit. In every other case it raises.
    */
  lemma PyReturnsExactly(stream: seq<Arrival>, tag: nat, value: seq<byte>)
    ensures PyConclusion(Loop(stream, MAX_ATTEMPTS).found, tag) == Returned(value) <==>
            && ReplyInTime(stream, 10) && BeginsWith(stream[Leading(stream)].data, Response(0, tag, value))
            && |value| <= MAX_VALUE_SIZE && exists t: Unicode.Text :: value == Unicode.Utf8(t)
  {
    LoopReachesReply(stream, MAX_ATTEMPTS);
    if ReplyInTime(stream, MAX_ATTEMPTS) {
      AcceptsExactly(stream[Leading(stream)].data, Response(0, tag, value));
    }
  }

  /** The receiving loop of _send_request; the handler is called, or not, without effect on the loop. */
  method PyReceive(incoming: seq<Arrival>, tag: nat) returns (outcome: PyOutcome, rest: seq<Arrival>)
    ensures var e := Loop(incoming, MAX_ATTEMPTS); outcome == PyConclusion(e.found, tag) && rest == e.rest
  {
    rest := incoming;
    ghost var passed: seq<Arrival> := [];
    PrependNothing(Loop(incoming, MAX_ATTEMPTS));
    for i := 0 to MAX_ATTEMPTS
      invariant Loop(incoming, MAX_ATTEMPTS) == Prepend(passed, Loop(rest, MAX_ATTEMPTS - i))
    {
      LoopStep(rest, MAX_ATTEMPTS - i, passed);
      if rest == [] {
        return Raised, [];
      }
      var arrival := rest[0];
      rest := rest[1..];
      if IsEvent(arrival) {
        passed := passed + [arrival];
      } else {
        outcome := Raised;
        if arrival.Arrived? && |arrival.data| > 0 {
          outcome := PyVerify(arrival.data, tag);
        }
        return;
      }
    }
    outcome := Raised;
  }

  /** decode_response, the comparison of the numbers, and the status. */
  method PyVerify(data: seq<byte>, tag: nat) returns (outcome: PyOutcome)
    ensures outcome == PyConclusion(Responded(data), tag)
  {
    var decoded := PyDecodeResponse(data);
    if decoded.None? || decoded.value.tag != tag {
      return Raised;
    }
    // status_to_error has an exception for every other status, so the special case for EXISTS is never reached.
    if decoded.value.status != PY_OK {
      return Raised;
    }
    return Returned(decoded.value.value);
  }

  // ---- The client ----

  class BBClient {
    const hasCallback: bool
    const queue: Queue

    /** Messages the socket will still deliver, and messages handed to the callback. */
    var incoming: seq<Arrival>
    var calledBack: seq<Message>

    ghost predicate Valid()
      reads this, queue, queue.Repr
    {
      queue.Valid() && this !in queue.Repr
    }

    constructor (hasCallback: bool, queue: Queue, incoming: seq<Arrival>)
      requires queue.Valid()
      ensures Valid() && this.hasCallback == hasCallback && this.queue == queue
      ensures this.incoming == incoming && calledBack == []
    {
      this.hasCallback, this.queue, this.incoming, this.calledBack := hasCallback, queue, incoming, [];
    }

    /** The decodable among the events passed over went to the callback if there is one, and to the queue if not. */
    ghost predicate Holds(queued: seq<Message>, called: seq<Message>, passed: seq<Arrival>)
      reads `calledBack, queue`Contents
    {
      && queue.Contents == queued + (if hasCallback then [] else Events(passed))
      && calledBack == called + (if hasCallback then Events(passed) else [])
    }

    /** process_pubsub_event on a message that is an event. */
    method ProcessEvent(data: seq<byte>)
      requires Valid()
      modifies this`calledBack, queue.Repr
      ensures Valid() && fresh(queue.Repr - old(queue.Repr))
      ensures queue.Contents == old(queue.Contents) + if hasCallback then [] else EventOf(Arrived(data))
      ensures calledBack == old(calledBack) + if hasCallback then EventOf(Arrived(data)) else []
    {
      var decoded := EventCodec.CDecodePubSubEvent(data);
      if decoded.Some? {
        if hasCallback {
          calledBack := calledBack + [decoded.value];
        } else {
          queue.Enqueue(decoded.value);
        }
      }
    }

    /** Processing one more event, when some went before it. */
    method PassOver(data: seq<byte>, ghost queued: seq<Message>, ghost called: seq<Message>, ghost passed: seq<Arrival>)
      requires Valid() && Holds(queued, called, passed)
      modifies this`calledBack, queue.Repr
      ensures Valid() && Holds(queued, called, passed + [Arrived(data)])
      ensures fresh(queue.Repr - old(queue.Repr))
    {
      EventsAppend(passed, Arrived(data));
      ProcessEvent(data);
    }

    /** The next message, or the failure of the receive. */
    method Receive() returns (arrival: Arrival)
      modifies this`incoming
      ensures old(incoming) == [] ==> arrival == ReceiveFailed && incoming == []
      ensures old(incoming) != [] ==> [arrival] + incoming == old(incoming)
    {
      if incoming == [] {
        return ReceiveFailed;
      }
      arrival := incoming[0];
      incoming := incoming[1..];
    }

    /** The loop has passed over some events at the front of `stream`, one attempt for each. */
    ghost predicate UnderWay(stream: seq<Arrival>, passed: seq<Arrival>, attempts: nat,
                             queued: seq<Message>, called: seq<Message>)
      reads `incoming, `calledBack, queue`Contents
    {
      && |passed| + attempts == MAX_ATTEMPTS && AllEvents(passed) && stream == passed + incoming
      && Holds(queued, called, passed)
    }

    /** One turn of the loop in send_request; it ends the loop when it finds something. */
    method Turn(attempts: nat, ghost stream: seq<Arrival>, ghost passed: seq<Arrival>,
                ghost queued: seq<Message>, ghost called: seq<Message>)
      returns (found: Option<Found>, ghost passed': seq<Arrival>)
      requires Valid() && attempts > 0 && UnderWay(stream, passed, attempts, queued, called)
      modifies this`incoming, this`calledBack, queue.Repr
      ensures Valid() && fresh(queue.Repr - old(queue.Repr))
      ensures if found.Some? then Stops(stream, passed', found.value, incoming) && Holds(queued, called, passed')
              else UnderWay(stream, passed', attempts - 1, queued, called)
    {
      passed' := passed;
      var arrival := Receive();
      if !arrival.Arrived? || |arrival.data| == 0 {
        return Some(Failure), passed';
      }
      assert stream == passed + ([arrival] + incoming);
      if !IsEvent(arrival) {
        return Some(Responded(arrival.data)), passed';
      }
      PassOver(arrival.data, queued, called, passed);
      Associative(passed, [arrival], incoming);
      return None, passed + [arrival];
    }

    /** The loop of send_request. */
    method AwaitReply() returns (found: Found, ghost passed: seq<Arrival>)
      requires Valid()
      modifies this`incoming, this`calledBack, queue.Repr
      ensures Valid() && fresh(queue.Repr - old(queue.Repr))
      ensures Stops(old(incoming), passed, found, incoming) && Holds(old(queue.Contents), old(calledBack), passed)
    {
      ghost var stream, queued, called := incoming, queue.Contents, calledBack;
      passed := [];
      var attempts: nat := MAX_ATTEMPTS;
      while attempts > 0
        invariant attempts <= MAX_ATTEMPTS && Valid() && fresh(queue.Repr - old(queue.Repr))
        invariant UnderWay(stream, passed, attempts, queued, called)
        decreases attempts
      {
        var end;
        end, passed := Turn(attempts, stream, passed, queued, called);
        if end.Some? {
          return end.value, passed;
        }
        attempts := attempts - 1;
      }
      return Exhausted, passed;
    }

    /** send_request, once the request has been encoded and sent. */
    method ReceiveReply() returns (outcome: Outcome)
      requires Valid()
      modifies this`incoming, this`calledBack, queue.Repr
      ensures Valid() && fresh(queue.Repr - old(queue.Repr))
      ensures var e := Loop(old(incoming), MAX_ATTEMPTS);
        && outcome == Conclusion(e.found) && incoming == e.rest
        && Holds(old(queue.Contents), old(calledBack), e.skipped)
    {
      ghost var stream := incoming;
      var found, passed := AwaitReply();
      StopsAsLoop(stream, passed, found, incoming);
      match found
      case Exhausted => return TooManyEvents;
      case Failure => return ConnectionError;
      case Responded(data) =>
        var decoded := CDecodeResponse(data);
        return if decoded.Some? then Decoded(decoded.value) else ProtocolError;
    }
  }
}
