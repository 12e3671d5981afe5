/**
  * The C client's own WebSocket framing, used without libwebsockets: unmasked frames out, and a
  * receiver that answers pings and skips pongs until data comes. Socket reads are taken to be full.
  */
module CWebSocket {
  import opened Bytes
  import opened Lists
  import opened WireFrame

  const WS_MAX_FRAME_SIZE: nat := 16 * 1024 * 1024
  const CLOSE_FRAME: seq<byte> := [0x88, 0x00]
  const PONG_FRAME: seq<byte> := [0x8A, 0x00]

  datatype Outcome = Data(payload: seq<byte>) | TimedOut | Failed

  /** How a receive ends: its result, the bytes it left, the bytes it sent, and whether it hung up. */
  datatype Received = Received(outcome: Outcome, rest: seq<byte>, sent: seq<byte>, connected: bool)

  // ---- The receiver as a function of the incoming bytes ----

  /** The length field: the first byte after it and its value, or nothing when it is cut short. */
  function LengthField(s: seq<byte>): Option<(nat, nat)>
    requires |s| >= 2
    ensures var r := LengthField(s); r.Some? ==> 2 <= r.value.0 <= |s|
  {
    var len7 := s[1] % 0x80;
    if len7 == 126 then if |s| < 4 then None else Some((4, Read16(s, 2)))
    else if len7 == 127 then if |s| < 10 then None else Some((10, Read64(s, 2)))
    else Some((2, len7))
  }

  /**
    * The mask is read behind the payload it is applied to; `stale` is what the mask buffer holds when
    * fewer than four bytes are left.
    */
  function Unmask(payload: seq<byte>, s: seq<byte>, stale: MaskKey): seq<byte> {
    Mask(payload, if |s| >= 4 then s[..4] else s + stale[|s|..])
  }

  /** The payload, and behind it the mask when there is one. */
  function ReceivePayload(s: seq<byte>, len: nat, masked: bool, stale: MaskKey): Received {
    if |s| < len then Received(Failed, [], [], false)
    else if masked then
      Received(Data(Unmask(s[..len], s[len..], stale)), if |s| < len + 4 then [] else s[len + 4..], [], true)
    else Received(Data(s[..len]), s[len..], [], true)
  }

  function ReceiveData(s: seq<byte>, len: nat, masked: bool, stale: MaskKey): Received {
    if len > WS_MAX_FRAME_SIZE then Received(Failed, s, [], true) else ReceivePayload(s, len, masked, stale)
  }

  function Receive(s: seq<byte>, stale: MaskKey): Received
    decreases |s|
  {
    if |s| < 2 then Received(TimedOut, s, [], true)
    else
      match LengthField(s)
      case None => Received(Failed, [], [], true)
      case Some((at, len)) =>
        var opcode := s[0] % 16;
        if opcode == 0x08 then Received(Failed, s[at..], CLOSE_FRAME, false)
        else if opcode == 0x09 then var r := Receive(s[at..], stale); r.(sent := PONG_FRAME + r.sent)
        else if opcode == 0x0A then Receive(s[at..], stale)
        else ReceiveData(s[at..], len, s[1] >= 0x80, stale)
  }

  // ---- The sender ----

  /** The long header takes only the low 32 bits of the length. */
  function Written(len: nat): nat { if len < 0x1_0000 then len else len % TWO_32 }

  function Header(len: nat): seq<byte> { [0x82] + LengthBytes(MinimalForm(len), 0, Written(len)) }

  /** What ws_send_binary puts on the wire. */
  function Sent(payload: seq<byte>): seq<byte> { Header(|payload|) + payload }

  /** That is a WebSocket frame with the payload's own length exactly when the length fits 32 bits. */
  lemma SentIsAFrame(payload: seq<byte>)
    requires Fits(Long, |payload|)
    ensures Sent(payload) == Frame(0x82, MinimalForm(|payload|), None, payload) <==> |payload| < TWO_32
    ensures |payload| >= TWO_32 ==> Sent(payload) == [0x82] + ([127] + Be64(|payload| % TWO_32)) + payload
  {
    var n := |payload|;
    if n >= TWO_32 {
      LongLengthIsCut(n, payload);
    } else {
      assert Written(n) == n && Header(n) == [0x82] + LengthBytes(MinimalForm(n), 0, n);
    }
  }

  lemma LongLengthIsCut(n: nat, payload: seq<byte>)
    requires Fits(Long, n) && n >= TWO_32
    ensures [0x82] + ([127] + Be64(n % TWO_32)) + payload != [0x82] + ([127] + Be64(n)) + payload
  {
    var s, frame := [0x82] + ([127] + Be64(n % TWO_32)) + payload, [0x82] + ([127] + Be64(n)) + payload;
    assert s[2..10] == Be64(n % TWO_32) && frame[2..10] == Be64(n);
    Read64Of(s, 2, n % TWO_32);
    Read64Of(frame, 2, n);
  }

  // ---- Round trip past control frames ----

  datatype Control = Ping | Pong

  function ControlFrame(c: Control, payload: seq<byte>): seq<byte>
    requires |payload| < 126
  {
    Frame(if c.Ping? then 0x89 else 0x8A, Short, None, payload)
  }

  type ControlMessage = (Control, seq<byte>)

  function Controls(cs: seq<ControlMessage>): seq<byte>
    requires forall c :: c in cs ==> |c.1| < 126
  {
    if cs == [] then [] else ControlFrame(cs[0].0, cs[0].1) + Controls(cs[1..])
  }

  function PongFor(c: Control): seq<byte> { if c.Ping? then PONG_FRAME else [] }

  /** One pong for each ping. */
  function Pongs(cs: seq<ControlMessage>): seq<byte> {
    if cs == [] then [] else PongFor(cs[0].0) + Pongs(cs[1..])
  }

  lemma LengthFieldOf(first: byte, form: LengthForm, mask: byte, len: nat, s: seq<byte>)
    requires Fits(form, len) && (mask == 0 || mask == 0x80)
    ensures var header := [first] + LengthBytes(form, mask, len);
            && LengthField(header + s) == Some((|header|, len))
            && ((header + s)[1] >= 0x80 <==> mask == 0x80) && (header + s)[|header|..] == s
  {
    var header := [first] + LengthBytes(form, mask, len);
    var stream := header + s;
    match form
    case Short =>
    case Medium =>
      assert stream[2..4] == Be16(len);
      Read16Of(stream, 2, len);
    case Long =>
      assert stream[2..10] == Be64(len);
      Read64Of(stream, 2, len);
  }

  /**
    * A data frame, which is any that is not a close, ping or pong, of any length form is handed out whole up to
    * 16 MB; a larger one is refused, which leaves its payload to be read as frames.
    */
  lemma ReceiveOfFrame(first: byte, form: LengthForm, payload: seq<byte>, rest: seq<byte>, stale: MaskKey)
    requires Fits(form, |payload|) && first % 16 != 0x8 && first % 16 != 0x9 && first % 16 != 0xA
    ensures Receive(Frame(first, form, None, payload) + rest, stale) ==
            if |payload| <= 0x100_0000 then Received(Data(payload), rest, [], true)
            else Received(Failed, payload + rest, [], true)
  {
    var header := [first] + LengthBytes(form, 0, |payload|);
    var stream := header + (payload + rest);
    assert Frame(first, form, None, payload) + rest == stream;
    LengthFieldOf(first, form, 0, |payload|, payload + rest);
    assert stream[|header|..] == payload + rest;
    assert (payload + rest)[..|payload|] == payload && (payload + rest)[|payload|..] == rest;
  }

  lemma ShortField(first: byte, len: byte, t: seq<byte>)
    requires len < 126
    ensures var s := [first, len] + t; s[0] == first && LengthField(s) == Some((2, len)) && s[2..] == t
  {
  }

  lemma ReceiveControl(c: Control, len: nat, t: seq<byte>, stale: MaskKey)
    requires len < 126
    ensures var first := if c.Ping? then 0x89 else 0x8A;
            var r := Receive(t, stale);
            Receive([first, len] + t, stale) == r.(sent := PongFor(c) + r.sent)
  {
    var first := if c.Ping? then 0x89 else 0x8A;
    var stream := [first, len] + t;
    ShortField(first, len, t);
    var r := Receive(t, stale);
    assert [] + r.sent == r.sent;
  }

  /** A control frame is skipped up to its payload, which is then read as if it were frames. */
  lemma ControlPayloadIsReadAsFrames(c: Control, payload: seq<byte>, s: seq<byte>, stale: MaskKey)
    requires |payload| < 126
    ensures var r := Receive(payload + s, stale);
            Receive(ControlFrame(c, payload) + s, stale) == r.(sent := PongFor(c) + r.sent)
  {
    var first := if c.Ping? then 0x89 else 0x8A;
    assert ControlFrame(c, payload) + s == [first, |payload|] + (payload + s);
    ReceiveControl(c, |payload|, payload + s, stale);
  }

  /** The constants are an empty pong and an empty close frame; the ping is the example of RFC 6455, section 5.7. */
  lemma ConstantFrames()
    ensures PONG_FRAME == ControlFrame(Pong, [])
    ensures CLOSE_FRAME == Frame(0x88, Short, None, [])
    ensures ControlFrame(Ping, [0x48, 0x65, 0x6C, 0x6C, 0x6F]) == [0x89, 0x05, 0x48, 0x65, 0x6C, 0x6C, 0x6F]
  {
  }

  /** A close frame ends the connection, and is answered with one; its reason is left unread. */
  lemma ReceiveOfClose(reason: seq<byte>, rest: seq<byte>, stale: MaskKey)
    requires |reason| < 126
    ensures Receive(Frame(0x88, Short, None, reason) + rest, stale) ==
            Received(Failed, reason + rest, Frame(0x88, Short, None, []), false)
  {
    ConstantFrames();
    assert Frame(0x88, Short, None, reason) + rest == [0x88, |reason|] + (reason + rest);
    ShortField(0x88, |reason|, reason + rest);
  }

  /** A header cut short fails and is lost; fewer than two bytes are left for the next call. */
  lemma ReceiveOfCutHeader(first: byte, form: LengthForm, mask: byte, len: nat, n: nat, stale: MaskKey)
    requires Fits(form, len) && (mask == 0 || mask == 0x80) && n <= |LengthBytes(form, mask, len)|
    ensures var cut := ([first] + LengthBytes(form, mask, len))[..n];
            Receive(cut, stale) == if n < 2 then Received(TimedOut, cut, [], true) else Received(Failed, [], [], true)
  {
  }

  /** A data frame cut short within its payload ends the connection. */
  lemma ReceiveOfCutFrame(form: LengthForm, payload: seq<byte>, n: nat, stale: MaskKey)
    requires Fits(form, |payload|) && n < |payload| <= WS_MAX_FRAME_SIZE
    ensures Receive([0x82] + LengthBytes(form, 0, |payload|) + payload[..n], stale) == Received(Failed, [], [], false)
  {
    LengthFieldOf(0x82, form, 0, |payload|, payload[..n]);
  }

  /**
    * A masked data frame of the form that section 5.2 of RFC 6455 asks for, key before payload, is consumed to
    * its last byte but comes out wrong: the key is taken for the start of the payload, and the last four
    * bytes for the key.
    */
  lemma ReceiveOfMaskedFrame(form: LengthForm, key: MaskKey, payload: seq<byte>, rest: seq<byte>, stale: MaskKey)
    requires Fits(form, |payload|) && |payload| <= WS_MAX_FRAME_SIZE
    ensures var n, body := |payload|, key + Mask(payload, key);
            Receive(Frame(0x82, form, Some(key), payload) + rest, stale) ==
            Received(Data(Mask(body[..n], body[n..])), rest, [], true)
  {
    var n, body := |payload|, key + Mask(payload, key);
    var header := [0x82] + LengthBytes(form, 0x80, n);
    var stream := header + (body + rest);
    assert Frame(0x82, form, Some(key), payload) + rest == stream;
    LengthFieldOf(0x82, form, 0x80, n, body + rest);
    assert Receive(stream, stale) == ReceivePayload(body + rest, n, true, stale);
    MaskedPayload(body, n, rest, stale);
  }

  /** With fewer than four bytes left for the key, its end is what the mask buffer held before. */
  lemma ReceiveOfCutMask(form: LengthForm, n: nat, body: seq<byte>, stale: MaskKey)
    requires Fits(form, n) && n <= WS_MAX_FRAME_SIZE && n <= |body| < n + 4
    ensures Receive([0x82] + LengthBytes(form, 0x80, n) + body, stale) ==
            Received(Data(Mask(body[..n], body[n..] + stale[|body| - n..])), [], [], true)
  {
    LengthFieldOf(0x82, form, 0x80, n, body);
  }

  lemma MaskedPayload(body: seq<byte>, n: nat, rest: seq<byte>, stale: MaskKey)
    requires |body| == n + 4
    ensures ReceivePayload(body + rest, n, true, stale) == Received(Data(Mask(body[..n], body[n..])), rest, [], true)
  {
    var s := body + rest;
    assert s[..n] == body[..n] && s[n..][..4] == body[n..] && s[n + 4..] == rest;
  }

  // ---- Exactly what the receiver passes over ----

  /**
    * The receiver steps over headers of pings and pongs alone. If `b` is made up of complete such headers,
    * these are the pongs it sends on the way; otherwise nothing.
    */
  function ControlHeaders(b: seq<byte>): Option<seq<byte>>
    decreases |b|
  {
    if b == [] then Some([])
    else if |b| < 2 || LengthField(b).None? || (b[0] % 16 != 0x09 && b[0] % 16 != 0x0A) then None
    else
      match ControlHeaders(b[LengthField(b).value.0..])
      case None => None
      case Some(sent) => Some((if b[0] % 16 == 0x09 then PONG_FRAME else []) + sent)
  }

  /** Bytes in front of a message that change nothing but that the client sends `sent`. */
  ghost predicate PassedOver(b: seq<byte>, sent: seq<byte>) {
    forall payload: seq<byte>, rest: seq<byte>, stale: MaskKey :: |payload| <= WS_MAX_FRAME_SIZE ==>
      Receive(b + (Sent(payload) + rest), stale) == Received(Data(payload), rest, sent, true)
  }

  lemma LengthFieldInFront(b: seq<byte>, t: seq<byte>)
    requires |b| >= 2 && LengthField(b).Some?
    ensures LengthField(b + t) == LengthField(b) && (b + t)[LengthField(b).value.0..] == b[LengthField(b).value.0..] + t
  {
  }

  lemma {:induction false} HeadersAreSkipped(b: seq<byte>, t: seq<byte>, stale: MaskKey)
    requires ControlHeaders(b).Some?
    ensures var r := Receive(t, stale); Receive(b + t, stale) == r.(sent := ControlHeaders(b).value + r.sent)
    decreases |b|
  {
    var r := Receive(t, stale);
    if b == [] {
      assert b + t == t && [] + r.sent == r.sent;
    } else {
      var at := LengthField(b).value.0;
      LengthFieldInFront(b, t);
      HeadersAreSkipped(b[at..], t, stale);
      var later := ControlHeaders(b[at..]).value;
      Associative(PONG_FRAME, later, r.sent);
      assert [] + later == later;
    }
  }

  /** A header that is cut short takes in the first byte of the message behind it, so its length is not 0. */
  lemma CutHeader(b: seq<byte>)
    requires b != [] && (|b| < 2 || LengthField(b).None?)
    ensures var s := b + [0x82, 0x00];
            LengthField(s).Some? ==> LengthField(s).value.0 > |b| && LengthField(s).value.1 != 0
  {
    var s := b + [0x82, 0x00];
    assert s[|b|] == 0x82;
    if |b| >= 2 && s[1] % 0x80 == 127 && |s| >= 10 {
      CutLength(s, |b|);
    }
  }

  lemma CutLength(s: seq<byte>, i: nat)
    requires 2 <= i < 10 <= |s| && s[i] != 0
    ensures Read64(s, 2) != 0
  {
    assert i < 4 ==> Read16(s, 2) != 0;
    assert 4 <= i < 6 ==> Read16(s, 4) != 0;
    assert 6 <= i < 8 ==> Read16(s, 6) != 0;
    assert 8 <= i ==> Read16(s, 8) != 0;
    assert i < 6 ==> Read32(s, 2) != 0;
    assert 6 <= i ==> Read32(s, 6) != 0;
  }

  /** Behind any other bytes some message is lost: it comes out wrong, or bytes are left that are not the rest. */
  lemma {:induction false} OthersSpoilAMessage(b: seq<byte>, stale: MaskKey) returns (message: seq<byte>)
    requires ControlHeaders(b).None?
    ensures |message| <= 1
    ensures var r := Receive(b + Sent(message), stale); r.outcome != Data(message) || r.rest != []
    decreases |b|
  {
    message := [];
    if |b| < 2 || LengthField(b).None? {
      assert Sent([]) == [0x82, 0x00];
      CutHeader(b);
    } else {
      var (at, len) := LengthField(b).value;
      if b[0] % 16 == 0x09 || b[0] % 16 == 0x0A {
        message := OthersSpoilAMessage(b[at..], stale);
      } else if len == 0 {
        message := [0];
      }
      LengthFieldInFront(b, Sent(message));
    }
  }

  lemma SpoilsAMessage(b: seq<byte>, sent: seq<byte>)
    requires ControlHeaders(b) != Some(sent)
    ensures !PassedOver(b, sent)
  {
    var stale: MaskKey := [0, 0, 0, 0];
    var message := [];
    if ControlHeaders(b).None? {
      message := OthersSpoilAMessage(b, stale);
    } else {
      HeadersAreSkipped(b, Sent([]), stale);
      SentIsAFrame([]);
      ReceiveOfFrame(0x82, Short, [], [], stale);
      assert Sent([]) + [] == Sent([]) && ControlHeaders(b).value + [] == ControlHeaders(b).value;
    }
    assert Sent(message) + [] == Sent(message);
    assert Receive(b + (Sent(message) + []), stale) != Received(Data(message), [], sent, true);
  }

  /**
    * The receiver passes over some bytes, whatever message and bytes follow, if and only if they are made
    * up of complete ping and pong headers; it then sends one pong for each ping among them.
    */
  lemma PassedOverExactly(b: seq<byte>, sent: seq<byte>)
    ensures PassedOver(b, sent) <==> ControlHeaders(b) == Some(sent)
  {
    if ControlHeaders(b) == Some(sent) {
      forall payload: seq<byte>, rest: seq<byte>, stale: MaskKey | |payload| <= WS_MAX_FRAME_SIZE
        ensures Receive(b + (Sent(payload) + rest), stale) == Received(Data(payload), rest, sent, true)
      {
        HeadersAreSkipped(b, Sent(payload) + rest, stale);
        SentIsAFrame(payload);
        ReceiveOfFrame(0x82, MinimalForm(|payload|), payload, rest, stale);
        assert sent + [] == sent;
      }
    } else {
      SpoilsAMessage(b, sent);
    }
  }

  /** A payload that is made up of complete pong headers; the empty one is. */
  predicate PongHeaders(payload: seq<byte>) { ControlHeaders(payload) == Some([]) }

  lemma HeadersOfFrame(c: Control, payload: seq<byte>, t: seq<byte>)
    requires |payload| < 126
    ensures var first := if c.Ping? then 0x89 else 0x8A;
            ControlFrame(c, payload) + t == [first, |payload|] + (payload + t)
    ensures ControlHeaders(ControlFrame(c, payload) + t) ==
            match ControlHeaders(payload + t) case None => None case Some(sent) => Some(PongFor(c) + sent)
  {
    var first := if c.Ping? then 0x89 else 0x8A;
    assert ControlFrame(c, payload) + t == [first, |payload|] + (payload + t);
    ShortField(first, |payload|, payload + t);
  }

  /** One ping or pong is passed over, with just its own pong, if and only if its payload is pong headers. */
  lemma ControlFramePassedOverExactly(c: Control, payload: seq<byte>)
    requires |payload| < 126
    ensures PassedOver(ControlFrame(c, payload), PongFor(c)) <==> PongHeaders(payload)
  {
    PassedOverExactly(ControlFrame(c, payload), PongFor(c));
    HeadersOfFrame(c, payload, []);
    assert ControlFrame(c, payload) + [] == ControlFrame(c, payload) && payload + [] == payload;
    assert PongFor(c) + [] == PongFor(c);
    if ControlHeaders(payload).Some? {
      assert |PongFor(c) + ControlHeaders(payload).value| == |PongFor(c)| + |ControlHeaders(payload).value|;
    }
  }

  lemma {:induction false} HeadersConcat(b: seq<byte>, t: seq<byte>)
    requires ControlHeaders(b).Some? && ControlHeaders(t).Some?
    ensures ControlHeaders(b + t) == Some(ControlHeaders(b).value + ControlHeaders(t).value)
    decreases |b|
  {
    if b == [] {
      assert b + t == t && [] + ControlHeaders(t).value == ControlHeaders(t).value;
    } else {
      var at := LengthField(b).value.0;
      LengthFieldInFront(b, t);
      HeadersConcat(b[at..], t);
      Associative(if b[0] % 16 == 0x09 then PONG_FRAME else [], ControlHeaders(b[at..]).value, ControlHeaders(t).value);
    }
  }

  lemma {:induction false} HeadersOfControls(cs: seq<ControlMessage>)
    requires forall c :: c in cs ==> |c.1| < 126 && PongHeaders(c.1)
    ensures ControlHeaders(Controls(cs)) == Some(Pongs(cs))
  {
    if cs != [] {
      var (c, payload) := cs[0];
      assert cs[0] in cs;
      HeadersOfControls(cs[1..]);
      FrameInFront(c, payload, Controls(cs[1..]), Pongs(cs[1..]));
    }
  }

  lemma FrameInFront(c: Control, payload: seq<byte>, t: seq<byte>, sent: seq<byte>)
    requires |payload| < 126 && PongHeaders(payload) && ControlHeaders(t) == Some(sent)
    ensures ControlHeaders(ControlFrame(c, payload) + t) == Some(PongFor(c) + sent)
  {
    HeadersConcat(payload, t);
    HeadersOfFrame(c, payload, t);
    assert [] + sent == sent;
  }

  /**
    * Whatever number of pings and pongs comes first: every message behind them is returned whole, with
    * one pong for each ping and the bytes after it left, if and only if all their bytes are headers with
    * just those pings. That is so when each payload is empty or made up of pong headers.
    */
  lemma RoundTripPastControls(cs: seq<ControlMessage>)
    requires forall c :: c in cs ==> |c.1| < 126
    ensures PassedOver(Controls(cs), Pongs(cs)) <==> ControlHeaders(Controls(cs)) == Some(Pongs(cs))
    ensures (forall c :: c in cs ==> PongHeaders(c.1)) ==> PassedOver(Controls(cs), Pongs(cs))
  {
    PassedOverExactly(Controls(cs), Pongs(cs));
    if forall c :: c in cs ==> PongHeaders(c.1) {
      HeadersOfControls(cs);
    }
  }

  /**
    * RFC 6455 lets a ping carry a payload (section 5.5.2), and this receiver loses the frame boundary
    * there: a ping that carries the bytes of a frame makes the receiver return that frame's payload
    * and leave the real message unread.
    */
  lemma PingPayloadIsTakenForMessage(inner: seq<byte>, message: seq<byte>, rest: seq<byte>, stale: MaskKey)
    requires |inner| < 124 && |message| <= WS_MAX_FRAME_SIZE
    ensures Receive(ControlFrame(Ping, Sent(inner)) + (Sent(message) + rest), stale) ==
            Received(Data(inner), Sent(message) + rest, PONG_FRAME, true)
  {
    ControlPayloadIsReadAsFrames(Ping, Sent(inner), Sent(message) + rest, stale);
    SentIsAFrame(inner);
    ReceiveOfFrame(0x82, MinimalForm(|inner|), inner, Sent(message) + rest, stale);
    assert PONG_FRAME + [] == PONG_FRAME;
  }

  // ---- The object ----

  class BBWebSocket {
    var connected: bool
    var incoming: seq<byte>
    var outgoing: seq<byte>

    constructor (incoming: seq<byte>)
      ensures connected && this.incoming == incoming && outgoing == []
    {
      connected, this.incoming, outgoing := true, incoming, [];
    }

    /** ws_send_binary. */
    method SendBinary(data: seq<byte>) returns (ok: bool)
      modifies this`outgoing
      ensures ok == connected
      ensures outgoing == if ok then old(outgoing) + Sent(data) else old(outgoing)
    {
      if !connected {
        return false;
      }
      var header := BuildHeader(|data|);
      outgoing := outgoing + header;
      outgoing := outgoing + data;
      return true;
    }

    /** recv with MSG_WAITALL. */
    method RecvAll(n: nat) returns (bytes: seq<byte>)
      modifies this`incoming
      ensures bytes == if n <= |old(incoming)| then old(incoming)[..n] else old(incoming)
      ensures incoming == old(incoming)[|bytes|..]
    {
      bytes := if n <= |incoming| then incoming[..n] else incoming;
      incoming := incoming[|bytes|..];
    }

    /** The two header bytes and the length that may follow them. */
    method RecvHeader() returns (header: seq<byte>, payloadLen: nat, ok: bool)
      requires |incoming| >= 2
      modifies this`incoming
      ensures header == old(incoming)[..2]
      ensures ok == LengthField(old(incoming)).Some?
      ensures ok ==> LengthField(old(incoming)).value == (|old(incoming)| - |incoming|, payloadLen)
      ensures ok ==> |incoming| <= |old(incoming)| - 2 && incoming == old(incoming)[|old(incoming)| - |incoming|..]
      ensures !ok ==> incoming == []
    {
      ghost var s := incoming;
      header := RecvAll(2);
      payloadLen, ok := header[1] % 0x80, true;
      if payloadLen == 126 {
        var more := RecvAll(2);
        ok := |more| == 2;
        if ok {
          payloadLen := Read16(more, 0);
        }
      } else if payloadLen == 127 {
        var more := RecvAll(8);
        ok := |more| == 8;
        if ok {
          payloadLen := Read64(more, 0);
          assert more == s[2..10];
        }
      }
    }

    method RecvPayload(payloadLen: nat, masked: bool, stale: MaskKey) returns (outcome: Outcome)
      requires connected
      modifies this`incoming, this`connected
      ensures Received(outcome, incoming, [], connected) == ReceivePayload(old(incoming), payloadLen, masked, stale)
    {
      var data := RecvAll(payloadLen);
      if |data| < payloadLen {
        connected := false;
        return Failed;
      }
      ghost var behind := incoming;
      if masked {
        var mask := RecvAll(4);
        assert mask + stale[|mask|..] == if |behind| >= 4 then behind[..4] else behind + stale[|behind|..];
        data := ApplyMask(data, mask + stale[|mask|..]);
      }
      return Data(data);
    }

    /** ws_recv_binary. */
    method RecvBinary(stale: MaskKey) returns (outcome: Outcome)
      modifies this
      ensures old(connected) ==>
        var r := Receive(old(incoming), stale);
        outcome == r.outcome && incoming == r.rest && outgoing == old(outgoing) + r.sent && connected == r.connected
      ensures !old(connected) ==> outcome == Failed && unchanged(this)
      decreases |incoming|
    {
      if !connected {
        return Failed;
      }
      assert outgoing == outgoing + [];
      if |incoming| < 2 {
        return TimedOut;
      }
      var header, payloadLen, ok := RecvHeader();
      if !ok {
        return Failed;
      }
      var opcode := header[0] % 16;
      if opcode == 0x08 {
        outgoing := outgoing + CLOSE_FRAME;
        connected := false;
        return Failed;
      }
      if opcode == 0x09 {
        outgoing := outgoing + PONG_FRAME;
        outcome := RecvBinary(stale);
        return;
      }
      if opcode == 0x0A {
        outcome := RecvBinary(stale);
        return;
      }
      outcome := RecvData(payloadLen, header[1] >= 0x80, stale);
    }

    /** The rest of a data frame. */
    method RecvData(payloadLen: nat, masked: bool, stale: MaskKey) returns (outcome: Outcome)
      requires connected
      modifies this`incoming, this`connected
      ensures Received(outcome, incoming, [], connected) == ReceiveData(old(incoming), payloadLen, masked, stale)
    {
      if payloadLen > WS_MAX_FRAME_SIZE {
        return Failed;
      }
      outcome := RecvPayload(payloadLen, masked, stale);
    }
  }

  /** The header that ws_send_binary fills in byte by byte. */
  method BuildHeader(len: nat) returns (bytes: seq<byte>)
    ensures bytes == Header(len)
  {
    var header := new byte[14](_ => 0);
    header[0] := 0x82;
    if len < 126 {
      header[1] := len;
      return header[..2];
    } else if len < 65536 {
      header[1] := 126;
      header[2] := len / 0x100 % 0x100;
      header[3] := len % 0x100;
      return header[..4];
    }
    header[1] := 127;
    header[2], header[3], header[4], header[5] := 0, 0, 0, 0;
    LongHeader(len);
    ghost var wanted := Be64(len % TWO_32);
    header[6] := len / 0x100_0000 % 0x100;
    header[7] := len / 0x1_0000 % 0x100;
    header[8] := len / 0x100 % 0x100;
    header[9] := len % 0x100;
    assert forall i :: 0 <= i < 8 ==> header[2 + i] == wanted[i];
    bytes := header[..10];
    assert bytes == [0x82, 127] + wanted;
  }

  lemma LongHeader(len: nat)
    ensures Be64(len % TWO_32) ==
      [0, 0, 0, 0, len / 0x100_0000 % 0x100, len / 0x1_0000 % 0x100, len / 0x100 % 0x100, len % 0x100]
  {
    var n, q := len % TWO_32, len / TWO_32;
    assert n / TWO_32 == 0 && n % TWO_32 == n;
    assert Be32(0) == [0, 0, 0, 0];
    HighBytes(n);
    LowBytes(n);
    assert len == TWO_32 * q + n;
    ByteOf(q, n);
  }

  lemma ModShift(k: nat, m: nat)
    ensures (0x100 * k + m) % 0x100 == m % 0x100
  {
  }

  lemma Shift8(q: nat, n: nat)
    ensures (TWO_32 * q + n) / 0x100 == 0x100 * (0x1_0000 * q) + n / 0x100
  {
  }

  lemma Shift16(q: nat, n: nat)
    ensures (TWO_32 * q + n) / 0x1_0000 == 0x100 * (0x100 * q) + n / 0x1_0000
  {
  }

  lemma Shift24(q: nat, n: nat)
    ensures (TWO_32 * q + n) / 0x100_0000 == 0x100 * q + n / 0x100_0000
  {
  }

  /** The low four bytes do not depend on what is above them. */
  lemma ByteOf(q: nat, n: nat)
    ensures (TWO_32 * q + n) % 0x100 == n % 0x100
    ensures (TWO_32 * q + n) / 0x100 % 0x100 == n / 0x100 % 0x100
    ensures (TWO_32 * q + n) / 0x1_0000 % 0x100 == n / 0x1_0000 % 0x100
    ensures (TWO_32 * q + n) / 0x100_0000 % 0x100 == n / 0x100_0000 % 0x100
  {
    ModShift(0x100_0000 * q, n);
    Shift8(q, n);
    ModShift(0x1_0000 * q, n / 0x100);
    Shift16(q, n);
    ModShift(0x100 * q, n / 0x1_0000);
    Shift24(q, n);
    ModShift(q, n / 0x100_0000);
  }

  lemma HighBytes(n: nat)
    requires n < TWO_32
    ensures Be16(n / 0x1_0000) == [n / 0x100_0000 % 0x100, n / 0x1_0000 % 0x100]
  {
    var high := n / 0x1_0000;
    assert high / 0x100 == n / 0x100_0000;
  }

  lemma LowBytes(n: nat)
    ensures Be16(n % 0x1_0000) == [n / 0x100 % 0x100, n % 0x100]
  {
    var q, low := n / 0x1_0000, n % 0x1_0000;
    assert n == 0x1_0000 * q + low;
    LowShift(q, low);
    ModShift(0x100 * q, low);
    ModShift(q, low / 0x100);
  }

  lemma LowShift(q: nat, low: nat)
    requires low < 0x1_0000
    ensures (0x1_0000 * q + low) / 0x100 == 0x100 * q + low / 0x100 && low / 0x100 < 0x100
    ensures low / 0x100 % 0x100 == low / 0x100
  {
  }

  /** The unmasking loop. */
  method ApplyMask(data: seq<byte>, key: MaskKey) returns (masked: seq<byte>)
    ensures masked == Mask(data, key)
  {
    var buffer := new byte[|data|](i requires 0 <= i < |data| => data[i]);
    var i := 0;
    while i < |data|
      invariant i <= |data|
      invariant forall j :: 0 <= j < |data| ==> buffer[j] == if j < i then Xor(data[j], key[j % 4]) else data[j]
    {
      buffer[i] := Xor(buffer[i], key[i % 4]);
      i := i + 1;
    }
    masked := buffer[..];
  }
}
