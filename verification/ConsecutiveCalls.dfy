/**
  * Calls in a row on one open connection of the C and Python clients: exactly which of them get the reply
  * to their own request.
  */
module ConsecutiveCalls {
  import opened Bytes
  import opened Lists
  import opened ResponseCodec
  import opened SendRequest

  /**
    * What arrives for one call: first anything but a reply, that is events, failed receives and empty
    * messages, and then the reply. A receive that times out leaves the connection open.
    */
  datatype Exchange = Exchange(front: seq<Arrival>, reply: seq<byte>)

  predicate Answered(x: Exchange) {
    (forall i :: 0 <= i < |x.front| ==> !IsReply(x.front[i])) && IsReply(Arrived(x.reply))
  }

  /** Nothing but events comes first, and fewer of them than a call has attempts. */
  predicate InTime(x: Exchange) {
    |x.front| < MAX_ATTEMPTS && forall i :: 0 <= i < |x.front| ==> IsEvent(x.front[i])
  }

  function Traffic(xs: seq<Exchange>): seq<Arrival> {
    if xs == [] then [] else xs[0].front + ([Arrived(xs[0].reply)] + Traffic(xs[1..]))
  }

  /** What successive calls find when the server answers each, behind what is still unread. */
  function Calls(unread: seq<Arrival>, turns: seq<Exchange>): (found: seq<Found>)
    ensures |found| == |turns|
    decreases |turns|
  {
    if turns == [] then []
    else
      var e := Loop(unread + Traffic([turns[0]]), MAX_ATTEMPTS);
      [e.found] + Calls(e.rest, turns[1..])
  }

  lemma {:induction false} TrafficAppend(xs: seq<Exchange>, x: Exchange)
    ensures Traffic(xs + [x]) == Traffic(xs) + Traffic([x])
  {
    if xs == [] {
      assert [] + [x] == [x] && [] + Traffic([x]) == Traffic([x]);
    } else {
      TrafficAppend(xs[1..], x);
      assert (xs + [x])[1..] == xs[1..] + [x] && (xs + [x])[0] == xs[0];
      Associative([Arrived(xs[0].reply)], Traffic(xs[1..]), Traffic([x]));
      Associative(xs[0].front, [Arrived(xs[0].reply)] + Traffic(xs[1..]), Traffic([x]));
    }
  }

  lemma TrafficOfOne(x: Exchange)
    ensures Traffic([x]) == x.front + [Arrived(x.reply)]
  {
    assert [x][1..] == [] && [Arrived(x.reply)] + [] == [Arrived(x.reply)];
  }

  // ---- One call ----

  lemma OneReplyTaken(x: Exchange, rest: seq<Arrival>)
    requires Answered(x) && InTime(x)
    ensures Loop(x.front + ([Arrived(x.reply)] + rest), MAX_ATTEMPTS) == Ending(Responded(x.reply), rest, x.front)
  {
    var behind := [Arrived(x.reply)] + rest;
    var stream := x.front + behind;
    assert behind[0] == Arrived(x.reply) && behind[1..] == rest;
    LeadingOfEvents(x.front, behind);
    assert stream[|x.front|] == behind[0] && stream[|x.front| + 1..] == rest && stream[..|x.front|] == x.front;
    LoopReachesReply(stream, MAX_ATTEMPTS);
  }

  /** A call whose reply is not in time ends without one. */
  lemma NoReplyTaken(x: Exchange)
    requires Answered(x) && !InTime(x)
    ensures !Loop(Traffic([x]), MAX_ATTEMPTS).found.Responded?
  {
    TrafficOfOne(x);
    var stream := Traffic([x]);
    var n := Leading(stream);
    if n < MAX_ATTEMPTS && n < |stream| {
      if n >= |x.front| {
        forall i | 0 <= i < |x.front| ensures IsEvent(x.front[i]) {
          assert stream[i] == x.front[i];
        }
      }
      assert stream[n] == x.front[n];
    }
    LoopReachesReply(stream, MAX_ATTEMPTS);
  }

  // ---- The replies in a stream ----

  function Replies(stream: seq<Arrival>): seq<seq<byte>> {
    if stream == [] then []
    else (if IsReply(stream[0]) then [stream[0].data] else []) + Replies(stream[1..])
  }

  lemma {:induction false} RepliesConcat(a: seq<Arrival>, b: seq<Arrival>)
    ensures Replies(a + b) == Replies(a) + Replies(b)
  {
    if a == [] {
      assert a + b == b;
    } else {
      RepliesConcat(a[1..], b);
      assert (a + b)[1..] == a[1..] + b && (a + b)[0] == a[0];
      Associative(if IsReply(a[0]) then [a[0].data] else [], Replies(a[1..]), Replies(b));
    }
  }

  lemma {:induction false} NoReplies(a: seq<Arrival>)
    requires forall i :: 0 <= i < |a| ==> !IsReply(a[i])
    ensures Replies(a) == []
  {
    if a != [] { NoReplies(a[1..]); }
  }

  lemma RepliesOfOne(x: Exchange)
    requires Answered(x)
    ensures Replies(Traffic([x])) == [x.reply]
  {
    TrafficOfOne(x);
    RepliesConcat(x.front, [Arrived(x.reply)]);
    NoReplies(x.front);
    assert [Arrived(x.reply)][1..] == [];
  }

  /** The loop takes the first reply in the stream or none at all, and leaves the others. */
  lemma {:induction false} LoopTakesFirstReply(stream: seq<Arrival>, attempts: nat)
    ensures var e := Loop(stream, attempts);
            Replies(stream) == (if e.found.Responded? then [e.found.data] else []) + Replies(e.rest)
  {
    if attempts > 0 && stream != [] && IsEvent(stream[0]) {
      LoopTakesFirstReply(stream[1..], attempts - 1);
      assert [] + Replies(stream[1..]) == Replies(stream[1..]);
    } else {
      assert [] + Replies(stream) == Replies(stream);
    }
  }

  /** The replies to the first k turns. */
  function OlderReplies(turns: seq<Exchange>, k: nat): seq<seq<byte>>
    requires k <= |turns|
  {
    seq(k, i requires 0 <= i < k => turns[i].reply)
  }

  /** Once a reply is unread one always is, and whatever a call finds then is older than its own reply. */
  lemma {:induction false} FindsOlderReplies(unread: seq<Arrival>, turns: seq<Exchange>, k: nat)
    requires k < |turns| && Replies(unread) != [] && forall x :: x in turns ==> Answered(x)
    ensures var f := Calls(unread, turns)[k];
            f.Responded? ==> f.data in Replies(unread) + OlderReplies(turns, k)
    decreases |turns|
  {
    var stream := unread + Traffic([turns[0]]);
    var e := Loop(stream, MAX_ATTEMPTS);
    RepliesConcat(unread, Traffic([turns[0]]));
    RepliesOfOne(turns[0]);
    LoopTakesFirstReply(stream, MAX_ATTEMPTS);
    assert Replies(stream) == Replies(unread) + [turns[0].reply];
    if k == 0 {
      assert e.found.Responded? ==> e.found.data == Replies(stream)[0] == Replies(unread)[0];
    } else {
      assert |Replies(e.rest)| >= 1;
      FindsOlderReplies(e.rest, turns[1..], k - 1);
      var f := Calls(unread, turns)[k];
      assert f == Calls(e.rest, turns[1..])[k - 1];
      if f.Responded? {
        OlderOneTurnLater(unread, turns, k, Replies(e.rest), f.data);
      }
    }
  }

  lemma OlderOneTurnLater(unread: seq<Arrival>, turns: seq<Exchange>, k: nat, left: seq<seq<byte>>, d: seq<byte>)
    requires 0 < k <= |turns| && (forall r :: r in left ==> r in Replies(unread) + [turns[0].reply])
    requires d in left + OlderReplies(turns[1..], k - 1)
    ensures d in Replies(unread) + OlderReplies(turns, k)
  {
    OlderSplits(turns, k);
  }

  lemma OlderSplits(turns: seq<Exchange>, k: nat)
    requires 0 < k <= |turns|
    ensures OlderReplies(turns, k) == [turns[0].reply] + OlderReplies(turns[1..], k - 1)
  {
  }

  // ---- Whole runs ----

  /** No two replies are the same, as replies with different numbers are not. */
  ghost predicate Distinct(turns: seq<Exchange>) {
    forall i, j :: 0 <= i < j < |turns| ==> turns[i].reply != turns[j].reply
  }

  ghost predicate AllInTime(turns: seq<Exchange>, k: nat)
    requires k < |turns|
  {
    forall j :: 0 <= j <= k ==> InTime(turns[j])
  }

  /** Up to the first reply that is late every call gets its own; from then on none does. */
  lemma {:induction false} FindsOwnOrOlder(turns: seq<Exchange>, k: nat)
    requires k < |turns| && forall x :: x in turns ==> Answered(x)
    ensures var f := Calls([], turns)[k];
            if AllInTime(turns, k) then f == Responded(turns[k].reply)
            else f.Responded? ==> f.data in OlderReplies(turns, k)
    decreases |turns|
  {
    var x, stream := turns[0], Traffic([turns[0]]);
    assert [] + stream == stream;
    var e := Loop(stream, MAX_ATTEMPTS);
    assert Calls([], turns) == [e.found] + Calls(e.rest, turns[1..]);
    if InTime(x) {
      OneReplyTaken(x, []);
      TrafficOfOne(x);
      assert [Arrived(x.reply)] + [] == [Arrived(x.reply)];
      if k > 0 {
        FindsOwnOrOlder(turns[1..], k - 1);
        InTimeOneTurnLater(turns, k);
      }
    } else {
      NoReplyTaken(x);
      RepliesOfOne(x);
      LoopTakesFirstReply(stream, MAX_ATTEMPTS);
      if k > 0 {
        FindsOlderReplies(e.rest, turns[1..], k - 1);
        InTimeOneTurnLater(turns, k);
        OlderSplits(turns, k);
      }
    }
  }

  lemma InTimeOneTurnLater(turns: seq<Exchange>, k: nat)
    requires 0 < k < |turns|
    ensures AllInTime(turns, k) <==> InTime(turns[0]) && AllInTime(turns[1..], k - 1)
    ensures forall r :: r in OlderReplies(turns[1..], k - 1) ==> r in OlderReplies(turns, k)
  {
    if InTime(turns[0]) && AllInTime(turns[1..], k - 1) {
      forall j | 0 <= j <= k ensures InTime(turns[j]) {
        if j > 0 { assert turns[1..][j - 1] == turns[j]; }
      }
    }
    if AllInTime(turns, k) {
      forall j | 0 <= j <= k - 1 ensures InTime(turns[1..][j]) {
        assert turns[1..][j] == turns[j + 1];
      }
    }
    OlderSplits(turns, k);
  }

  /**
    * The C client, whatever arrives in front of the replies: a call gets the reply to its own request if
    * and only if its own reply and that of every call before it came in time. One call that meets ten
    * events, a timeout or an empty message first is enough for no later call to get its own reply.
    */
  lemma {:induction false} OwnReplyExactly(turns: seq<Exchange>, k: nat)
    requires k < |turns| && Distinct(turns) && forall x :: x in turns ==> Answered(x)
    ensures Calls([], turns)[k] == Responded(turns[k].reply) <==> AllInTime(turns, k)
  {
    FindsOwnOrOlder(turns, k);
    OlderAreOther(turns, k);
  }

  lemma OlderAreOther(turns: seq<Exchange>, k: nat)
    requires k < |turns| && Distinct(turns)
    ensures turns[k].reply !in OlderReplies(turns, k)
  {
    forall r | r in OlderReplies(turns, k) ensures r != turns[k].reply {
      var i :| 0 <= i < k && OlderReplies(turns, k)[i] == r;
      assert turns[i].reply != turns[k].reply;
    }
  }

  /** Replies that decode and carry consecutive numbers, which is what a server sends to calls in a row. */
  ghost predicate Numbered(turns: seq<Exchange>, first: nat) {
    forall k :: 0 <= k < |turns| ==>
      PyDecoded(turns[k].reply).Some? && PyDecoded(turns[k].reply).value.tag == first + k
  }

  /**
    * The Python client compares the numbers: under the same condition a call ends by the reply to its own
    * request, and every other call raises. It never uses another call's reply.
    */
  lemma {:induction false} PyOwnReplyExactly(turns: seq<Exchange>, first: nat, k: nat)
    requires k < |turns| && Numbered(turns, first) && forall x :: x in turns ==> Answered(x)
    ensures PyConclusion(Calls([], turns)[k], first + k) ==
            if AllInTime(turns, k) then PyResult(PyDecoded(turns[k].reply).value) else Raised
  {
    FindsOwnOrOlder(turns, k);
    var f := Calls([], turns)[k];
    if AllInTime(turns, k) {
      assert PyDecoded(turns[k].reply).value.tag == first + k;
    } else if f.Responded? {
      var i :| 0 <= i < k && f.data == turns[i].reply;
      assert PyDecoded(turns[i].reply).value.tag == first + i;
    }
  }

  // ---- How far behind ----

  /**
    * With replies to some earlier calls still unread, and in time from here on, every call takes the reply
    * that many calls older than its own: no call catches up.
    */
  lemma {:induction false} CallsStayBehind(behind: seq<Exchange>, turns: seq<Exchange>)
    requires forall x :: x in behind + turns ==> Answered(x) && InTime(x)
    ensures forall k :: 0 <= k < |turns| ==> Calls(Traffic(behind), turns)[k] == Responded((behind + turns)[k].reply)
    decreases |turns|
  {
    if turns != [] {
      var all := behind + [turns[0]];
      var first, later := all[0], all[1..];
      TrafficAppend(behind, turns[0]);
      assert first == (behind + turns)[0] && first in behind + turns;
      OneReplyTaken(first, Traffic(later));
      assert later + turns[1..] == (behind + turns)[1..];
      CallsStayBehind(later, turns[1..]);
      assert Calls(Traffic(behind), turns) == [Responded(first.reply)] + Calls(Traffic(later), turns[1..]);
    }
  }

  /** What a call that is not in time leaves unread: ten arrivals fewer, or those behind the failed receive. */
  function LeftBy(x: Exchange): Exchange
    requires Answered(x) && !InTime(x)
  {
    var n := Leading(x.front);
    Exchange(if n >= MAX_ATTEMPTS then x.front[MAX_ATTEMPTS..] else x.front[n + 1..], x.reply)
  }

  lemma MissedReplyIsLeft(x: Exchange)
    requires Answered(x) && !InTime(x)
    ensures Loop(Traffic([x]), MAX_ATTEMPTS).rest == Traffic([LeftBy(x)])
  {
    TrafficOfOne(x);
    TrafficOfOne(LeftBy(x));
    var n, stream := Leading(x.front), Traffic([x]);
    if n >= MAX_ATTEMPTS {
      LeadingStays(x.front, [Arrived(x.reply)]);
      LoopGivesUp(stream, MAX_ATTEMPTS);
      assert stream[MAX_ATTEMPTS..] == x.front[MAX_ATTEMPTS..] + [Arrived(x.reply)];
    } else {
      assert n < |x.front|;
      LeadingStays(x.front, [Arrived(x.reply)]);
      LoopReaches(stream, MAX_ATTEMPTS);
      assert stream[n] == x.front[n] && stream[n..][0] == stream[n] && stream[n..][1..] == stream[n + 1..];
      assert stream[n + 1..] == x.front[n + 1..] + [Arrived(x.reply)];
    }
  }

  lemma {:induction false} LeadingStays(front: seq<Arrival>, rest: seq<Arrival>)
    requires rest != [] && !IsEvent(rest[0])
    ensures Leading(front + rest) == Leading(front)
  {
    if front == [] {
      assert front + rest == rest;
    } else {
      assert (front + rest)[0] == front[0] && (front + rest)[1..] == front[1..] + rest;
      LeadingStays(front[1..], rest);
    }
  }

  /**
    * One call that is not in time, whether it gave up on events or its receive failed: if what it leaves is
    * in time for the next call, and so is everything after, every later call gets the reply to the call
    * before it.
    */
  lemma {:induction false} MissShiftsAllReplies(missed: Exchange, turns: seq<Exchange>, k: nat)
    requires Answered(missed) && !InTime(missed) && InTime(LeftBy(missed))
    requires (forall x :: x in turns ==> Answered(x) && InTime(x)) && k < |turns|
    ensures Calls([], [missed] + turns)[k + 1] == Responded(([missed] + turns)[k].reply)
  {
    MissedReplyIsLeft(missed);
    assert [] + Traffic([missed]) == Traffic([missed]);
    assert ([missed] + turns)[0] == missed && ([missed] + turns)[1..] == turns;
    CallsStayBehind([LeftBy(missed)], turns);
    assert ([LeftBy(missed)] + turns)[k].reply == ([missed] + turns)[k].reply;
  }
}
