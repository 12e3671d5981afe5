/**
  * Pub/sub events on the wire and the decoders of the four clients. Topics, headers and payloads are
  * bytes, which Python requires to be UTF-8; what Go does with the JSON in the headers is not modelled.
  * [0xFF][seq:4][topicLen:2][topic][msgType:1][seq:8][ts:8][headersLen:4][headers][payloadLen:4][payload]
  */
module EventCodec {
  import opened Bytes
  import opened Lists
  import opened Unicode

  const PUBSUB_EVENT: byte := 0xFF

  datatype Event = Event(topic: seq<byte>, messageType: byte, sequence: nat, timestamp: nat,
                         headers: seq<byte>, payload: seq<byte>)

  // ---- The grammar ----

  predicate Fits(e: Event) {
    && |e.topic| < 0x1_0000 && e.sequence < TWO_32 * TWO_32 && e.timestamp < TWO_32 * TWO_32
    && |e.headers| < TWO_32 && |e.payload| < TWO_32
  }

  function Middle(e: Event): seq<byte>
    requires Fits(e)
  {
    [e.messageType] + Be64(e.sequence) + Be64(e.timestamp)
  }

  function Front(lead: seq<byte>, e: Event): seq<byte>
    requires Fits(e)
  {
    lead + Be16(|e.topic|) + e.topic + Middle(e)
  }

  function Back(e: Event): seq<byte>
    requires Fits(e)
  {
    Be32(|e.headers|) + e.headers + Be32(|e.payload|) + e.payload
  }

  /** An event behind its five leading bytes. */
  function Encoding(lead: seq<byte>, e: Event): seq<byte>
    requires |lead| == 5 && Fits(e)
  {
    Front(lead, e) + Back(e)
  }

  // ---- Where the fields are ----

  /** The length fields lie inside the buffer. */
  predicate LengthsInside(d: seq<byte>) {
    && |d| >= 7
    && |d| >= 28 + TopicLen(d)
    && |d| >= 32 + TopicLen(d) + HeadersLen(d)
  }

  function TopicLen(d: seq<byte>): nat
    requires |d| >= 7
  {
    Read16(d, 5)
  }

  function HeadersLen(d: seq<byte>): nat
    requires |d| >= 7 && |d| >= 28 + TopicLen(d)
  {
    Read32(d, 24 + TopicLen(d))
  }

  function PayloadStart(d: seq<byte>): nat
    requires LengthsInside(d)
    ensures PayloadStart(d) <= |d|
  {
    32 + TopicLen(d) + HeadersLen(d)
  }

  function PayloadLen(d: seq<byte>): nat
    requires LengthsInside(d)
  {
    Read32(d, PayloadStart(d) - 4)
  }

  /** The event whose lengths lie inside the buffer, with this payload. */
  function EventWith(d: seq<byte>, payload: seq<byte>): Event
    requires LengthsInside(d)
  {
    var t := TopicLen(d);
    Event(d[7..7 + t], d[7 + t], Read64(d, 8 + t), Read64(d, 16 + t), d[28 + t..PayloadStart(d) - 4], payload)
  }

  // ---- The four decoders as functions of the bytes ----

  /** Go, which leaves the first byte to its caller: the whole payload must be there. */
  function GoEvent(d: seq<byte>): Option<Event> {
    if LengthsInside(d) && PayloadStart(d) + PayloadLen(d) <= |d|
    then Some(EventWith(d, d[PayloadStart(d)..PayloadStart(d) + PayloadLen(d)]))
    else None
  }

  /** TypeScript: as Go, for event buffers of at least 36 bytes. */
  function TsEvent(d: seq<byte>): Option<Event> {
    if |d| >= 36 && d[0] == PUBSUB_EVENT then GoEvent(d) else None
  }

  /** The payload as far as it goes. */
  function PayloadThere(d: seq<byte>): seq<byte>
    requires LengthsInside(d)
  {
    d[PayloadStart(d)..][..Min(PayloadLen(d), |d| - PayloadStart(d))]
  }

  /** Topic, headers and payload that can be decoded; a string stands for the one UTF-8 that spells it. */
  predicate AllText(e: Event) { IsText(e.topic) && IsText(e.headers) && IsText(e.payload) }

  /** Python: a payload that is cut short is taken as far as it goes, and strings have to be UTF-8. */
  function PyEvent(d: seq<byte>): Option<Event> {
    if LengthsInside(d) && d[0] == PUBSUB_EVENT && AllText(EventWith(d, PayloadThere(d)))
    then Some(EventWith(d, PayloadThere(d)))
    else None
  }

  /** C keeps topic and payload; a payload that is cut short counts as empty. */
  function CEvent(d: seq<byte>): Option<(seq<byte>, seq<byte>)> {
    if LengthsInside(d) && d[0] == PUBSUB_EVENT
    then Some((d[7..7 + TopicLen(d)],
               if PayloadStart(d) + PayloadLen(d) <= |d|
               then d[PayloadStart(d)..PayloadStart(d) + PayloadLen(d)] else []))
    else None
  }

  function Min(a: nat, b: nat): nat { if a <= b then a else b }

  // ---- Exact acceptance ----

  lemma FrontOfEncoding(d: seq<byte>, lead: seq<byte>, e: Event, rest: seq<byte>)
    requires |lead| == 5 && Fits(e) && d == Encoding(lead, e) + rest
    ensures TopicLen(d) == |e.topic| && |d| >= 24 + |e.topic|
    ensures d[7..7 + |e.topic|] == e.topic && d[7 + |e.topic|..24 + |e.topic|] == Middle(e)
  {
    assert d[5..7] == Be16(|e.topic|);
    Read16Of(d, 5, |e.topic|);
  }

  lemma MiddleOfEncoding(d: seq<byte>, at: nat, e: Event)
    requires Fits(e) && |d| >= at + 17 && d[at..at + 17] == Middle(e)
    ensures d[at] == Middle(e)[0] && Read64(d, at + 1) == e.sequence && Read64(d, at + 9) == e.timestamp
  {
    var sequence, timestamp := Be64(e.sequence), Be64(e.timestamp);
    assert d[at..at + 17] == [e.messageType] + sequence + timestamp;
    assert d[at] == d[at..at + 17][0];
    SliceOfSlice(d, at, 17, 1, 9);
    SliceOfSlice(d, at, 17, 9, 17);
    assert d[at + 1..at + 9] == sequence && d[at + 9..at + 17] == timestamp;
    Read64Of(d, at + 1, e.sequence);
    Read64Of(d, at + 9, e.timestamp);
  }

  lemma GoEventOfEncoding(lead: seq<byte>, e: Event, rest: seq<byte>)
    requires |lead| == 5 && Fits(e)
    ensures GoEvent(Encoding(lead, e) + rest) == Some(e)
  {
    var d := Encoding(lead, e) + rest;
    FrontOfEncoding(d, lead, e, rest);
    MiddleOfEncoding(d, 7 + |e.topic|, e);
    LengthsOfEncoding(d, lead, e, rest);
  }

  lemma FieldsOfBack(d: seq<byte>, at: nat, e: Event, rest: seq<byte>)
    requires Fits(e) && at <= |d| && d[at..] == Back(e) + rest
    ensures var h, n := |e.headers|, |e.payload|;
            && |d| >= at + 8 + h + n && Read32(d, at) == h && Read32(d, at + 4 + h) == n
            && d[at + 4..at + 4 + h] == e.headers && d[at + 8 + h..at + 8 + h + n] == e.payload
  {
    var h, n := |e.headers|, |e.payload|;
    assert |d| == at + 8 + h + n + |rest|;
    assert d[at..at + 4] == Be32(h);
    Read32Of(d, at, h);
    assert d[at + 4 + h..at + 8 + h] == Be32(n);
    Read32Of(d, at + 4 + h, n);
  }

  lemma LengthsOfEncoding(d: seq<byte>, lead: seq<byte>, e: Event, rest: seq<byte>)
    requires |lead| == 5 && Fits(e) && d == Encoding(lead, e) + rest && TopicLen(d) == |e.topic|
    ensures LengthsInside(d) && HeadersLen(d) == |e.headers| && PayloadLen(d) == |e.payload|
    ensures d[28 + TopicLen(d)..PayloadStart(d) - 4] == e.headers
    ensures PayloadStart(d) + PayloadLen(d) <= |d| && d[PayloadStart(d)..PayloadStart(d) + PayloadLen(d)] == e.payload
  {
    var at := 24 + |e.topic|;
    assert |Front(lead, e)| == at && d[at..] == Back(e) + rest;
    FieldsOfBack(d, at, e, rest);
  }

  lemma MiddleOfGoEvent(d: seq<byte>)
    requires GoEvent(d).Some?
    ensures var e := GoEvent(d).value; Fits(e) && d[7 + TopicLen(d)..24 + TopicLen(d)] == Middle(e)
  {
    var t := TopicLen(d);
    Be64Of(d, 8 + t);
    Be64Of(d, 16 + t);
    assert d[7 + t..24 + t] == [d[7 + t]] + d[8 + t..16 + t] + d[16 + t..24 + t];
  }

  lemma FrontOfGoEvent(d: seq<byte>)
    requires GoEvent(d).Some?
    ensures var e := GoEvent(d).value; Fits(e) && d[..24 + TopicLen(d)] == Front(d[..5], e)
  {
    var t := TopicLen(d);
    Be16Of(d, 5);
    MiddleOfGoEvent(d);
    assert d[..24 + t] == d[..5] + d[5..7] + d[7..7 + t] + d[7 + t..24 + t];
  }

  /** Two length-prefixed fields at the front of `b`. */
  lemma TwoFields(b: seq<byte>, h: nat, n: nat)
    requires |b| >= 8 + h + n && Read32(b, 0) == h && Read32(b, 4 + h) == n
    ensures b == Be32(h) + b[4..4 + h] + Be32(n) + b[8 + h..8 + h + n] + b[8 + h + n..]
  {
    Be32Of(b, 0);
    Be32Of(b, 4 + h);
    assert b[4 + h..] == b[4 + h..8 + h] + b[8 + h..8 + h + n] + b[8 + h + n..];
    assert b == b[0..4] + b[4..4 + h] + b[4 + h..];
  }

  lemma BackOfGoEvent(d: seq<byte>) returns (rest: seq<byte>)
    requires GoEvent(d).Some?
    ensures var e := GoEvent(d).value; Fits(e) && d[24 + TopicLen(d)..] == Back(e) + rest
  {
    var t, h, n := TopicLen(d), HeadersLen(d), PayloadLen(d);
    var b := d[24 + t..];
    rest := b[8 + h + n..];
    TwoFields(b, h, n);
    assert b[4..4 + h] == GoEvent(d).value.headers;
    assert b[8 + h..8 + h + n] == GoEvent(d).value.payload;
  }

  lemma EncodingOfGoEvent(d: seq<byte>) returns (rest: seq<byte>)
    requires GoEvent(d).Some?
    ensures Fits(GoEvent(d).value) && d == Encoding(d[..5], GoEvent(d).value) + rest
  {
    FrontOfGoEvent(d);
    rest := BackOfGoEvent(d);
    var at := 24 + TopicLen(d);
    assert d == d[..at] + d[at..];
    Associative(d[..at], Back(GoEvent(d).value), rest);
  }

  /** Go accepts exactly the byte strings that begin with an encoded event, and yields that event. */
  lemma GoAcceptsExactly(d: seq<byte>, e: Event)
    ensures GoEvent(d) == Some(e) <==>
            Fits(e) && exists lead, rest :: |lead| == 5 && d == Encoding(lead, e) + rest
  {
    if GoEvent(d) == Some(e) {
      var rest := EncodingOfGoEvent(d);
      assert |d[..5]| == 5;
    }
    if Fits(e) {
      forall lead, rest | |lead| == 5 && d == Encoding(lead, e) + rest ensures GoEvent(d) == Some(e) {
        GoEventOfEncoding(lead, e, rest);
      }
    }
  }

  /**
    * On every event buffer that Go accepts, all four extract the same topic and payload, except that
    * TypeScript refuses those under 36 bytes, and Python those with strings that are not UTF-8.
    */
  lemma DecodersAgree(d: seq<byte>)
    requires d != [] && d[0] == PUBSUB_EVENT && GoEvent(d).Some?
    ensures var e := GoEvent(d).value;
            && PyEvent(d) == (if AllText(e) then Some(e) else None) && CEvent(d) == Some((e.topic, e.payload))
            && TsEvent(d) == if |d| >= 36 then Some(e) else None
  {
    var p, n := PayloadStart(d), PayloadLen(d);
    assert d[p..][..n] == d[p..p + n];
  }

  /**
    * They part company exactly on a payload that is cut short: Go and TypeScript refuse it, Python
    * delivers what is there and C delivers an empty payload. Python accepts what C accepts if its
    * strings are UTF-8.
    */
  lemma DecodersDifferOnCutPayload(d: seq<byte>)
    requires d != [] && d[0] == PUBSUB_EVENT
    ensures PyEvent(d).Some? <==> CEvent(d).Some? && AllText(EventWith(d, PayloadThere(d)))
    ensures CEvent(d).Some? && GoEvent(d).None? <==> LengthsInside(d) && PayloadStart(d) + PayloadLen(d) > |d|
    ensures CEvent(d).Some? && GoEvent(d).None? ==>
      TsEvent(d).None? && CEvent(d).value.1 == [] && PayloadThere(d) == d[PayloadStart(d)..]
  {
  }

  lemma SameInFront(d: seq<byte>, n: nat, i: nat)
    requires n <= |d|
    ensures i + 2 <= n ==> Read16(d[..n], i) == Read16(d, i)
    ensures i + 4 <= n ==> Read32(d[..n], i) == Read32(d, i)
    ensures i + 8 <= n ==> Read64(d[..n], i) == Read64(d, i)
  {
  }

  /** Cut behind its lengths, an encoded event keeps everything but the end of its payload. */
  lemma CutPayload(d: seq<byte>, e: Event, n: nat)
    requires GoEvent(d) == Some(e) && PayloadStart(d) <= n < PayloadStart(d) + |e.payload| == |d|
    ensures var c, kept := d[..n], n - PayloadStart(d);
            && LengthsInside(c) && PayloadStart(c) == PayloadStart(d) && PayloadLen(c) == |e.payload|
            && PayloadThere(c) == e.payload[..kept] && TopicLen(c) == |e.topic| && c[7..7 + TopicLen(c)] == e.topic
            && forall p :: EventWith(c, p) == e.(payload := p)
  {
    var c, t := d[..n], TopicLen(d);
    SameInFront(d, n, 5);
    SameInFront(d, n, 24 + t);
    SameInFront(d, n, 8 + t);
    SameInFront(d, n, 16 + t);
    SameInFront(d, n, PayloadStart(d) - 4);
    assert c[7..7 + t] == d[7..7 + t] && c[28 + t..PayloadStart(d) - 4] == d[28 + t..PayloadStart(d) - 4];
    assert c[PayloadStart(d)..] == e.payload[..n - PayloadStart(d)];
  }

  /** Cut anywhere before, its lengths do not lie inside. */
  lemma CutLengths(d: seq<byte>, n: nat)
    requires LengthsInside(d) && n < PayloadStart(d)
    ensures !LengthsInside(d[..n])
  {
    SameInFront(d, n, 5);
    SameInFront(d, n, 24 + TopicLen(d));
  }

  /**
    * What the four make of an encoded event that lost its end: cut within the payload, Go and TypeScript refuse
    * it, C delivers its topic with an empty payload, and Python delivers the event with what is left of its
    * payload, if its strings are then UTF-8; cut anywhere before, all four refuse it.
    */
  lemma CutEventExactly(lead: seq<byte>, e: Event, n: nat)
    requires |lead| == 5 && lead[0] == PUBSUB_EVENT && Fits(e) && n < |Encoding(lead, e)|
    ensures var d, kept := Encoding(lead, e)[..n], n - (|Encoding(lead, e)| - |e.payload|);
            && GoEvent(d).None? && TsEvent(d).None?
            && if kept < 0 then CEvent(d).None? && PyEvent(d).None?
               else
                 var cut := e.(payload := e.payload[..kept]);
                 CEvent(d) == Some((e.topic, [])) && PyEvent(d) == if AllText(cut) then Some(cut) else None
  {
    var d := Encoding(lead, e);
    GoEventOfEncoding(lead, e, []);
    assert d + [] == d;
    WholeLength(lead, e);
    DecodersOfCutBytes(d, e, n);
  }

  lemma DecodersOfCutBytes(d: seq<byte>, e: Event, n: nat)
    requires GoEvent(d) == Some(e) && d[0] == PUBSUB_EVENT && n < |d| == PayloadStart(d) + |e.payload|
    ensures var c := d[..n];
            && GoEvent(c).None? && TsEvent(c).None?
            && if n < PayloadStart(d) then CEvent(c).None? && PyEvent(c).None?
               else
                 var cut := e.(payload := e.payload[..n - PayloadStart(d)]);
                 CEvent(c) == Some((e.topic, [])) && PyEvent(c) == if AllText(cut) then Some(cut) else None
  {
    if n < PayloadStart(d) {
      CutLengths(d, n);
    } else {
      CutPayload(d, e, n);
      DecodersOfCut(d[..n], e, n - PayloadStart(d));
    }
  }

  lemma DecodersOfCut(c: seq<byte>, e: Event, kept: nat)
    requires LengthsInside(c) && c[0] == PUBSUB_EVENT && PayloadLen(c) == |e.payload| > kept
    requires |c| == PayloadStart(c) + kept && PayloadThere(c) == e.payload[..kept]
    requires c[7..7 + TopicLen(c)] == e.topic && EventWith(c, e.payload[..kept]) == e.(payload := e.payload[..kept])
    ensures GoEvent(c).None? && TsEvent(c).None? && CEvent(c) == Some((e.topic, []))
    ensures var cut := e.(payload := e.payload[..kept]); PyEvent(c) == if AllText(cut) then Some(cut) else None
  {
  }

  lemma WholeLength(lead: seq<byte>, e: Event)
    requires |lead| == 5 && Fits(e)
    ensures var d := Encoding(lead, e); LengthsInside(d) && PayloadStart(d) + |e.payload| == |d|
  {
    var d := Encoding(lead, e);
    assert d + [] == d;
    FrontOfEncoding(d, lead, e, []);
    LengthsOfEncoding(d, lead, e, []);
    assert |d| == 24 + |e.topic| + |Back(e)|;
  }

  // ---- The decoders themselves ----

  /** DecodePubSubEvent in Go. */
  method GoDecodePubSubEvent(data: seq<byte>) returns (result: Option<Event>)
    ensures result == GoEvent(data)
  {
    if |data| < 30 {
      return None;
    }
    var offset: nat := 5;
    if offset + 2 > |data| {
      return None;
    }
    var topicLen := Read16(data, offset);
    assert topicLen == TopicLen(data);
    offset := offset + 2;
    if offset + topicLen > |data| {
      return None;
    }
    var topic := data[offset..offset + topicLen];
    offset := offset + topicLen;
    if offset >= |data| {
      return None;
    }
    var messageType := data[offset];
    offset := offset + 1;
    if offset + 8 > |data| {
      return None;
    }
    var sequence := Read64(data, offset);
    offset := offset + 8;
    if offset + 8 > |data| {
      return None;
    }
    var timestamp := Read64(data, offset);
    offset := offset + 8;
    if offset + 4 > |data| {
      return None;
    }
    var headersLen := Read32(data, offset);
    offset := offset + 4;
    var headers: seq<byte> := [];
    if headersLen > 0 {
      if offset + headersLen > |data| {
        return None;
      }
      headers := data[offset..offset + headersLen];
      offset := offset + headersLen;
    }
    if offset + 4 > |data| {
      return None;
    }
    var payloadLen := Read32(data, offset);
    offset := offset + 4;
    assert headersLen == HeadersLen(data) && offset == PayloadStart(data) && payloadLen == PayloadLen(data);
    var payload: seq<byte> := [];
    if payloadLen > 0 {
      if offset + payloadLen > |data| {
        return None;
      }
      payload := data[offset..offset + payloadLen];
    }
    assert headers == data[offset - 4 - headersLen..offset - 4] && payload == data[offset..offset + payloadLen];
    return Some(Event(topic, messageType, sequence, timestamp, headers, payload));
  }

  /** decodePubSubEvent in TypeScript. A read outside the buffer throws. */
  method TsDecodePubSubEvent(data: seq<byte>) returns (result: Option<Event>)
    ensures result == TsEvent(data)
  {
    if |data| < 36 {
      return None;
    }
    if data[0] != PUBSUB_EVENT {
      return None;
    }
    var offset: nat := 5;
    var topicLen := Read16(data, offset);
    assert topicLen == TopicLen(data);
    offset := offset + 2;
    if offset + topicLen > |data| {
      return None;
    }
    var topic := data[offset..offset + topicLen];
    offset := offset + topicLen;
    if offset + 1 + 8 + 8 + 4 > |data| {
      return None;
    }
    var messageType := data[offset];
    var sequence := Read64(data, offset + 1);
    var timestamp := Read64(data, offset + 9);
    var headersLen := Read32(data, offset + 17);
    offset := offset + 21;
    var headers: seq<byte> := [];
    if headersLen > 0 {
      if offset + headersLen > |data| {
        return None;
      }
      headers := data[offset..offset + headersLen];
      offset := offset + headersLen;
    }
    if offset + 4 > |data| {
      return None;
    }
    var payloadLen := Read32(data, offset);
    offset := offset + 4;
    assert headersLen == HeadersLen(data) && offset == PayloadStart(data) && payloadLen == PayloadLen(data);
    var payload: seq<byte> := [];
    if payloadLen > 0 {
      if offset + payloadLen > |data| {
        return None;
      }
      payload := data[offset..offset + payloadLen];
    }
    assert headers == data[offset - 4 - headersLen..offset - 4] && payload == data[offset..offset + payloadLen];
    return Some(Event(topic, messageType, sequence, timestamp, headers, payload));
  }

  /** A Python slice: bounds past the end are cut back to it. */
  function Slice(data: seq<byte>, lo: nat, hi: nat): seq<byte>
    requires lo <= hi
  {
    data[Min(lo, |data|)..Min(hi, |data|)]
  }

  /** A slice decoded as text: its bytes, and whether decoding raises. */
  method PyText(data: seq<byte>, offset: nat, len: nat) returns (text: seq<byte>, ok: bool)
    requires offset <= |data|
    ensures ok ==> IsText(text)
    ensures offset + len <= |data| ==> text == data[offset..offset + len] && ok == IsText(text)
  {
    text := Slice(data, offset, offset + len);
    ok := IsText(text);
  }

  /** The part of decode_pubsub_event up to the payload length; None stands for an exception. */
  method PyDecodeFront(data: seq<byte>) returns (result: Option<Event>, offset: nat)
    requires |data| >= 32
    ensures result.Some? <==> LengthsInside(data) && AllText(EventWith(data, []))
    ensures result.Some? ==> result.value == EventWith(data, []) && offset == PayloadStart(data)
  {
    offset := 5;
    var topicLen := Read16(data, offset);
    assert topicLen == TopicLen(data);
    offset := offset + 2;
    var topic, topicOk := PyText(data, offset, topicLen);
    offset := offset + topicLen;
    if !topicOk || offset + 1 + 8 + 8 + 4 > |data| {
      return None, offset;
    }
    var msgType := data[offset];
    var sequence := Read64(data, offset + 1);
    var timestamp := Read64(data, offset + 9);
    var headersLen := Read32(data, offset + 17);
    assert headersLen == HeadersLen(data);
    offset := offset + 21;
    var headers, headersOk := PyText(data, offset, headersLen);
    offset := offset + headersLen;
    if !headersOk || offset + 4 > |data| {
      return None, offset;
    }
    offset := offset + 4;
    return Some(Event(topic, msgType, sequence, timestamp, headers, [])), offset;
  }

  lemma SliceToTheEnd(data: seq<byte>, offset: nat, len: nat)
    requires offset <= |data|
    ensures Slice(data, offset, offset + len) == data[offset..][..Min(len, |data| - offset)]
  {
  }

  /** The payload as far as it goes. */
  method PyPayload(data: seq<byte>, offset: nat) returns (payload: seq<byte>)
    requires LengthsInside(data) && offset == PayloadStart(data)
    ensures payload == PayloadThere(data)
  {
    var payloadLen := Read32(data, offset - 4);
    payload := if payloadLen > 0 then Slice(data, offset, offset + payloadLen) else [];
    SliceToTheEnd(data, offset, payloadLen);
  }

  /** decode_pubsub_event in Python. Indexing or unpacking outside the buffer raises. */
  method PyDecodePubSubEvent(data: seq<byte>) returns (result: Option<Event>)
    ensures result == PyEvent(data)
  {
    if |data| < 32 {
      return None;
    }
    if data[0] != PUBSUB_EVENT {
      return None;
    }
    var front, offset := PyDecodeFront(data);
    if front.None? {
      return None;
    }
    var payload := PyPayload(data, offset);
    if !IsText(payload) {
      return None;
    }
    return Some(front.value.(payload := payload));
  }

  /** The parsing in process_pubsub_event in C. */
  method CDecodePubSubEvent(buffer: seq<byte>) returns (result: Option<(seq<byte>, seq<byte>)>)
    ensures result == CEvent(buffer)
  {
    var len := |buffer|;
    if len < 1 {
      return None;
    }
    if buffer[0] != PUBSUB_EVENT {
      return None;
    }
    var offset: nat := 1;
    offset := offset + 4;
    if offset + 2 > len {
      return None;
    }
    var topicLen := Read16(buffer, offset);
    assert topicLen == TopicLen(buffer);
    offset := offset + 2;
    if offset + topicLen > len {
      return None;
    }
    var topic := buffer[offset..offset + topicLen];
    offset := offset + topicLen;
    offset := offset + 1 + 8 + 8;
    if offset + 4 > len {
      return None;
    }
    var headersLen := Read32(buffer, offset);
    offset := offset + 4;
    offset := offset + headersLen;
    if offset + 4 > len {
      return None;
    }
    var payloadLen := Read32(buffer, offset);
    offset := offset + 4;
    assert headersLen == HeadersLen(buffer) && offset == PayloadStart(buffer) && payloadLen == PayloadLen(buffer);
    var payload: seq<byte> := [];
    if offset + payloadLen <= len && payloadLen > 0 {
      payload := buffer[offset..offset + payloadLen];
    }
    assert payloadLen == 0 ==> buffer[offset..offset + payloadLen] == [];
    return Some((topic, payload));
  }
}
