/** The Go client's WebSocket: writing frames, and reading them back from a stream. */
module GoWebSocket {
  import opened Bytes
  import opened Lists
  import opened WireFrame

  datatype MessageType = TextMessage | BinaryMessage | CloseMessage
  datatype Message = Message(messageType: MessageType, payload: seq<byte>)

  function Opcode(t: MessageType): byte {
    match t
    case TextMessage => 0x1
    case BinaryMessage => 0x2
    case CloseMessage => 0x8
  }

  function TypeOf(opcode: int): Option<MessageType> {
    if opcode == 0x1 then Some(TextMessage)
    else if opcode == 0x2 then Some(BinaryMessage)
    else if opcode == 0x8 then Some(CloseMessage)
    else None
  }

  /** What WriteMessage puts on the wire: FIN, the minimal length form, and a mask from the client side. */
  function Written(m: Message, key: Option<MaskKey>): seq<byte>
    requires |m.payload| < TWO_32 * TWO_32
  {
    Frame(0x80 + Opcode(m.messageType), MinimalForm(|m.payload|), key, m.payload)
  }

  // ---- ReadMessage as a function of the unread stream ----

  /** A message or a failure, and what is left unread. A read that runs short uses up the stream. */
  datatype Parsed = Parsed(message: Option<Message>, rest: seq<byte>)

  function Parse(stream: seq<byte>): Parsed {
    if |stream| < 2 then Parsed(None, [])
    else if stream[0] < 0x80 then Parsed(None, stream[2..])
    else
      var len7 := stream[1] % 0x80;
      if len7 == 127 then Parsed(None, stream[2..])
      else if len7 == 126 then
        if |stream| < 4 then Parsed(None, [])
        else ParseBody(stream[0], stream[1] >= 0x80, Read16(stream, 2), stream[4..])
      else ParseBody(stream[0], stream[1] >= 0x80, len7, stream[2..])
  }

  function ParseBody(first: byte, masked: bool, len: nat, s: seq<byte>): Parsed {
    if masked then
      if |s| < 4 then Parsed(None, [])
      else if |s| < 4 + len then Parsed(None, [])
      else Parsed(Typed(first, Mask(s[4..4 + len], s[..4])), s[4 + len..])
    else
      if |s| < len then Parsed(None, []) else Parsed(Typed(first, s[..len]), s[len..])
  }

  function Typed(first: byte, payload: seq<byte>): Option<Message> {
    match TypeOf(first % 16)
    case Some(t) => Some(Message(t, payload))
    case None => None
  }

  // ---- Exact acceptance ----

  lemma ParseBodyOfFrame(first: byte, key: Option<MaskKey>, payload: seq<byte>, rest: seq<byte>)
    ensures var body := if key.Some? then key.value + Mask(payload, key.value) else payload;
            ParseBody(first, key.Some?, |payload|, body + rest) == Parsed(Typed(first, payload), rest)
  {
    if key.Some? {
      var s := key.value + Mask(payload, key.value) + rest;
      assert s[..4] == key.value && s[4..4 + |payload|] == Mask(payload, key.value) && s[4 + |payload|..] == rest;
      MaskTwice(payload, key.value);
    } else {
      assert (payload + rest)[..|payload|] == payload && (payload + rest)[|payload|..] == rest;
    }
  }

  lemma ParseOfShort(first: byte, second: byte, s: seq<byte>)
    requires first >= 0x80 && second % 0x80 < 126
    ensures Parse([first, second] + s) == ParseBody(first, second >= 0x80, second % 0x80, s)
  {
    assert ([first, second] + s)[2..] == s;
  }

  lemma ParseOfMedium(first: byte, second: byte, len: nat, s: seq<byte>)
    requires first >= 0x80 && second % 0x80 == 126 && len < 0x1_0000
    ensures Parse([first, second] + Be16(len) + s) == ParseBody(first, second >= 0x80, len, s)
  {
    var stream := [first, second] + Be16(len) + s;
    assert stream[2..4] == Be16(len) && stream[4..] == s;
    Read16Of(stream, 2, len);
  }

  lemma ParseOfHeader(first: byte, form: LengthForm, masked: bool, len: nat, s: seq<byte>)
    requires first >= 0x80 && form != Long && Fits(form, len)
    ensures Parse([first] + LengthBytes(form, if masked then 0x80 else 0, len) + s) == ParseBody(first, masked, len, s)
  {
    var maskBit := if masked then 0x80 else 0;
    if form == Short {
      assert [first] + LengthBytes(form, maskBit, len) == [first, maskBit + len];
      ParseOfShort(first, maskBit + len, s);
    } else {
      assert [first] + LengthBytes(form, maskBit, len) == [first, maskBit + 126] + Be16(len);
      ParseOfMedium(first, maskBit + 126, len, s);
    }
  }

  /**
    * Any frame with the FIN bit and a length of 7 or 16 bits, minimal or not, is consumed to its last
    * byte; it is a message exactly when its opcode is text, binary or close.
    */
  lemma ParseOfFrame(first: byte, form: LengthForm, key: Option<MaskKey>, payload: seq<byte>, rest: seq<byte>)
    requires first >= 0x80 && form != Long && Fits(form, |payload|)
    ensures Parse(Frame(first, form, key, payload) + rest) == Parsed(Typed(first, payload), rest)
  {
    var header := [first] + LengthBytes(form, if key.Some? then 0x80 else 0, |payload|);
    var body := if key.Some? then key.value + Mask(payload, key.value) else payload;
    assert (header + body) + rest == header + (body + rest);
    ParseOfHeader(first, form, key.Some?, |payload|, body + rest);
    ParseBodyOfFrame(first, key, payload, rest);
  }

  lemma MediumHeader(stream: seq<byte>)
    requires Parse(stream).message.Some? && stream[1] % 0x80 == 126
    ensures |stream| >= 4 && stream[0] >= 0x80
    ensures stream[..4] == [stream[0]] + LengthBytes(Medium, if stream[1] >= 0x80 then 0x80 else 0, Read16(stream, 2))
    ensures Parse(stream) == ParseBody(stream[0], stream[1] >= 0x80, Read16(stream, 2), stream[4..])
  {
    Be16Of(stream, 2);
    assert stream[..4] == [stream[0]] + ([stream[1]] + stream[2..4]);
  }

  lemma ShortHeader(stream: seq<byte>)
    requires Parse(stream).message.Some? && stream[1] % 0x80 != 126
    ensures stream[1] % 0x80 < 126 && stream[0] >= 0x80
    ensures stream[..2] == [stream[0]] + LengthBytes(Short, if stream[1] >= 0x80 then 0x80 else 0, stream[1] % 0x80)
    ensures Parse(stream) == ParseBody(stream[0], stream[1] >= 0x80, stream[1] % 0x80, stream[2..])
  {
  }

  /** The header of a stream that ReadMessage accepts, up to the key. */
  lemma HeaderOfMessage(stream: seq<byte>) returns (form: LengthForm, at: nat, len: nat)
    requires Parse(stream).message.Some?
    ensures form != Long && Fits(form, len) && stream[0] >= 0x80 && at <= |stream|
    ensures stream[..at] == [stream[0]] + LengthBytes(form, if stream[1] >= 0x80 then 0x80 else 0, len)
    ensures Parse(stream) == ParseBody(stream[0], stream[1] >= 0x80, len, stream[at..])
  {
    if stream[1] % 0x80 == 126 {
      form, at, len := Medium, 4, Read16(stream, 2);
      MediumHeader(stream);
    } else {
      form, at, len := Short, 2, stream[1] % 0x80;
      ShortHeader(stream);
    }
  }

  lemma BodyOfMessage(first: byte, masked: bool, len: nat, s: seq<byte>) returns (key: Option<MaskKey>)
    requires ParseBody(first, masked, len, s).message.Some?
    ensures var p := ParseBody(first, masked, len, s);
            && key.Some? == masked && |p.message.value.payload| == len
            && first % 16 == Opcode(p.message.value.messageType)
            && s == (if key.Some? then key.value + Mask(p.message.value.payload, key.value)
                     else p.message.value.payload) + p.rest
  {
    if masked {
      key := Some(s[..4]);
      MaskTwice(s[4..4 + len], s[..4]);
      assert s == s[..4] + s[4..4 + len] + s[4 + len..];
    } else {
      key := None;
      assert s == s[..len] + s[len..];
    }
  }

  /** Conversely, a message is only ever read from such a frame. */
  lemma MessageComesFromFrame(stream: seq<byte>) returns (form: LengthForm, key: Option<MaskKey>)
    requires Parse(stream).message.Some?
    ensures var p := Parse(stream);
            && form != Long && Fits(form, |p.message.value.payload|)
            && stream[0] >= 0x80 && stream[0] % 16 == Opcode(p.message.value.messageType)
            && stream == Frame(stream[0], form, key, p.message.value.payload) + p.rest
  {
    var p := Parse(stream);
    var payload := p.message.value.payload;
    var at, len;
    form, at, len := HeaderOfMessage(stream);
    key := BodyOfMessage(stream[0], stream[1] >= 0x80, len, stream[at..]);
    var body := if key.Some? then key.value + Mask(payload, key.value) else payload;
    assert stream == stream[..at] + stream[at..] == stream[..at] + (body + p.rest);
    assert stream == (stream[..at] + body) + p.rest;
  }

  /** ReadMessage accepts exactly the streams that start with a final, 7- or 16-bit frame of a known type. */
  lemma AcceptsExactly(stream: seq<byte>, m: Message, rest: seq<byte>)
    ensures Parse(stream) == Parsed(Some(m), rest) <==>
            exists first: byte, form, key ::
              && first >= 0x80 && first % 16 == Opcode(m.messageType) && form != Long && Fits(form, |m.payload|)
              && stream == Frame(first, form, key, m.payload) + rest
  {
    if Parse(stream) == Parsed(Some(m), rest) {
      var form, key := MessageComesFromFrame(stream);
    }
    forall first: byte, form, key |
      && first >= 0x80 && first % 16 == Opcode(m.messageType) && form != Long && Fits(form, |m.payload|)
      && stream == Frame(first, form, key, m.payload) + rest
      ensures Parse(stream) == Parsed(Some(m), rest)
    {
      ParseOfFrame(first, form, key, m.payload, rest);
    }
  }

  /** A frame in the 64-bit form is refused after its first two bytes, whatever follows. */
  lemma LongFrameIsRefused(first: byte, key: Option<MaskKey>, payload: seq<byte>, rest: seq<byte>)
    requires Fits(Long, |payload|)
    ensures Parse(Frame(first, Long, key, payload) + rest).message == None
  {
    var stream := Frame(first, Long, key, payload) + rest;
    assert stream[1] == (if key.Some? then 0x80 else 0) + 127;
  }

  /** A frame that is cut short anywhere is refused, and nothing is left of it. */
  lemma CutFrameIsRefused(first: byte, form: LengthForm, key: Option<MaskKey>, payload: seq<byte>, n: nat)
    requires first >= 0x80 && form != Long && Fits(form, |payload|) && n < |Frame(first, form, key, payload)|
    ensures Parse(Frame(first, form, key, payload)[..n]) == Parsed(None, [])
  {
    var header := [first] + LengthBytes(form, if key.Some? then 0x80 else 0, |payload|);
    var body := if key.Some? then key.value + Mask(payload, key.value) else payload;
    var cut := Frame(first, form, key, payload)[..n];
    assert Frame(first, form, key, payload) == header + body;
    if n >= |header| {
      var s := body[..n - |header|];
      assert cut == header + s;
      ParseOfHeader(first, form, key.Some?, |payload|, s);
    }
  }

  /** A frame without the FIN bit is refused after its first two bytes. */
  lemma FragmentIsRefused(first: byte, second: byte, s: seq<byte>)
    requires first < 0x80
    ensures Parse([first, second] + s) == Parsed(None, s)
  {
    assert ([first, second] + s)[2..] == s;
  }

  // ---- Streams of messages ----

  lemma ParseOfWritten(m: Message, key: Option<MaskKey>, rest: seq<byte>)
    requires |m.payload| < 0x1_0000
    ensures Parse(Written(m, key) + rest) == Parsed(Some(m), rest)
  {
    var first: byte := 0x80 + Opcode(m.messageType);
    assert Typed(first, m.payload) == Some(m);
    ParseOfFrame(first, MinimalForm(|m.payload|), key, m.payload, rest);
  }

  function WrittenAll(ms: seq<Message>, keys: seq<Option<MaskKey>>): seq<byte>
    requires |ms| == |keys| && forall m :: m in ms ==> |m.payload| < 0x1_0000
  {
    if ms == [] then [] else Written(ms[0], keys[0]) + WrittenAll(ms[1..], keys[1..])
  }

  /** n calls of ReadMessage in a row; a failed call ends them. */
  function ReadAll(stream: seq<byte>, n: nat): (seq<Message>, seq<byte>) {
    if n == 0 then ([], stream)
    else
      var p := Parse(stream);
      match p.message
      case None => ([], p.rest)
      case Some(m) => var (ms, rest) := ReadAll(p.rest, n - 1); ([m] + ms, rest)
  }

  lemma OneMoreRead(m: Message, key: Option<MaskKey>, later: seq<byte>, rest: seq<byte>, n: nat)
    requires |m.payload| < 0x1_0000
    ensures var (ms, left) := ReadAll(later + rest, n);
            ReadAll(Written(m, key) + later + rest, n + 1) == ([m] + ms, left)
  {
    Associative(Written(m, key), later, rest);
    ParseOfWritten(m, key, later + rest);
  }

  /**
    * Stream round trip: whatever the messages, their types and the mask keys, reading as many messages
    * as were written returns exactly those messages and leaves what follows them unread.
    */
  lemma {:induction false} StreamRoundTrip(ms: seq<Message>, keys: seq<Option<MaskKey>>, rest: seq<byte>)
    requires |ms| == |keys| && forall m :: m in ms ==> |m.payload| < 0x1_0000
    ensures ReadAll(WrittenAll(ms, keys) + rest, |ms|) == (ms, rest)
  {
    if ms == [] {
      assert WrittenAll(ms, keys) + rest == rest;
    } else {
      OneMoreRead(ms[0], keys[0], WrittenAll(ms[1..], keys[1..]), rest, |ms| - 1);
      StreamRoundTrip(ms[1..], keys[1..], rest);
      assert ms == [ms[0]] + ms[1..];
    }
  }

  /** A message of 65536 bytes or more is written but never read back, nor misread as another message. */
  lemma BigMessageIsRefused(m: Message, key: Option<MaskKey>, rest: seq<byte>)
    requires 0x1_0000 <= |m.payload| < TWO_32 * TWO_32
    ensures Parse(Written(m, key) + rest).message == None
  {
    LongFrameIsRefused(0x80 + Opcode(m.messageType), key, m.payload, rest);
  }

  /**
    * The unmasked data frames that section 5.7 of RFC 6455 gives as examples: the text "Hello", and binary
    * messages of 256 bytes and of 64 KiB. The last is a close frame without a reason (section 5.5.1).
    */
  lemma StandardExamples(m256: seq<byte>, m65536: seq<byte>)
    requires |m256| == 256 && |m65536| == 65536
    ensures Written(Message(TextMessage, [0x48, 0x65, 0x6C, 0x6C, 0x6F]), None) ==
            [0x81, 0x05, 0x48, 0x65, 0x6C, 0x6C, 0x6F]
    ensures Written(Message(BinaryMessage, m256), None) == [0x82, 0x7E, 0x01, 0x00] + m256
    ensures Written(Message(BinaryMessage, m65536), None) == [0x82, 0x7F, 0, 0, 0, 0, 0, 1, 0, 0] + m65536
    ensures Written(Message(CloseMessage, []), None) == [0x88, 0x00]
  {
    assert Be16(256) == [1, 0] && Be32(65536) == [0, 1, 0, 0] && Be32(0) == [0, 0, 0, 0];
    assert Be64(65536) == [0, 0, 0, 0, 0, 1, 0, 0];
  }

  // ---- The object ----

  class WebSocket {
    const isClient: bool
    var open: bool

    /** Bytes handed to the connection, and bytes the reader has not consumed. */
    var sent: seq<byte>
    var unread: seq<byte>

    constructor (isClient: bool, unread: seq<byte>)
      ensures open && sent == [] && this.unread == unread && this.isClient == isClient
    {
      this.isClient, this.open, this.sent, this.unread := isClient, true, [], unread;
    }

    /** WriteMessage. The random mask and the fate of the write are parameters. */
    method WriteMessage(messageType: MessageType, data: seq<byte>, randomKey: MaskKey, writeOk: bool) returns (ok: bool)
      requires |data| < TWO_32 * TWO_32
      modifies this`sent
      ensures ok == (open && writeOk)
      ensures var key := if isClient then Some(randomKey) else None;
        sent == if ok then old(sent) + Written(Message(messageType, data), key) else old(sent)
    {
      if !open {
        return false;
      }
      var frame: seq<byte> := [0x80 + Opcode(messageType)];
      var maskBit: byte := if isClient then 0x80 else 0x00;
      var payloadLen := |data|;
      if payloadLen < 126 {
        frame := frame + [maskBit + payloadLen];
      } else if payloadLen < 65536 {
        frame := frame + [maskBit + 126];
        frame := frame + Be16(payloadLen);
      } else {
        frame := frame + [maskBit + 127];
        frame := frame + Be64(payloadLen);
      }
      assert frame == [0x80 + Opcode(messageType)] + LengthBytes(MinimalForm(|data|), maskBit, |data|);
      var payload := data;
      if isClient {
        frame := frame + randomKey;
        payload := ApplyMask(data, randomKey);
      }
      frame := frame + payload;
      assert frame == Written(Message(messageType, data), if isClient then Some(randomKey) else None);
      if !writeOk {
        return false;
      }
      sent := sent + frame;
      return true;
    }

    /** io.ReadFull: n bytes, or everything there is and a failure. */
    method ReadFull(n: nat) returns (bytes: seq<byte>, ok: bool)
      modifies this`unread
      ensures ok == (n <= |old(unread)|)
      ensures ok ==> bytes == old(unread)[..n] && unread == old(unread)[n..]
      ensures !ok ==> unread == []
    {
      ok := n <= |unread|;
      if ok {
        bytes, unread := unread[..n], unread[n..];
      } else {
        bytes, unread := unread, [];
      }
    }

    method ReadMessage() returns (message: Option<Message>)
      modifies this`unread
      ensures open ==> Parsed(message, unread) == Parse(old(unread))
      ensures !open ==> message == None && unread == old(unread)
    {
      if !open {
        return None;
      }
      ghost var stream := unread;
      var header, ok := ReadFull(2);
      if !ok {
        return None;
      }
      if header[0] < 0x80 {
        return None;
      }
      var masked := header[1] >= 0x80;
      var payloadLen: nat := header[1] % 0x80;
      if payloadLen == 126 {
        var lenBytes, lenOk := ReadFull(2);
        if !lenOk {
          return None;
        }
        payloadLen := Read16(lenBytes, 0);
        assert lenBytes == stream[2..4] && unread == stream[4..];
      } else if payloadLen == 127 {
        return None;
      }
      ghost var body := unread;
      var maskKey: MaskKey := [0, 0, 0, 0];
      if masked {
        var keyBytes, keyOk := ReadFull(4);
        if !keyOk {
          return None;
        }
        maskKey := keyBytes;
      }
      var payload, payloadOk := ReadFull(payloadLen);
      if !payloadOk {
        return None;
      }
      if masked {
        assert payload == body[4..4 + payloadLen] && unread == body[4 + payloadLen..];
        payload := ApplyMask(payload, maskKey);
      }
      match TypeOf(header[0] % 16) {
        case Some(t) => message := Some(Message(t, payload));
        case None => message := None;
      }
    }
  }

  /** The masking loop, which both directions share. */
  method ApplyMask(data: seq<byte>, key: MaskKey) returns (masked: seq<byte>)
    ensures masked == Mask(data, key)
  {
    var buffer := new byte[|data|](_ => 0);
    var i := 0;
    while i < |data|
      invariant i <= |data|
      invariant forall j :: 0 <= j < i ==> buffer[j] == Xor(data[j], key[j % 4])
    {
      buffer[i] := Xor(data[i], key[i % 4]);
      i := i + 1;
    }
    masked := buffer[..];
  }
}
