/**
  * Responses on the wire, [status:1][seq:4][valLen:4][value], and their decoders in four languages, each with
  * its own checks.
  */
module ResponseCodec {
  import opened Bytes
  import opened Lists
  import opened Unicode

  datatype Response = Response(status: byte, tag: nat, value: seq<byte>)

  // ---- The grammar ----

  predicate Fits(r: Response) { r.tag < TWO_32 && |r.value| < TWO_32 }

  function Encoding(r: Response): seq<byte>
    requires Fits(r)
  {
    [r.status] + Be32(r.tag) + Be32(|r.value|) + r.value
  }

  /** The bytes begin with this response. */
  ghost predicate BeginsWith(data: seq<byte>, r: Response) {
    Fits(r) && exists rest :: data == Encoding(r) + rest
  }

  // ---- The decoders as functions of the bytes ----

  /** The highest status that Go and Python know. */
  const LAST_STATUS: byte := 6

  /** C: any status, any size. */
  function CDecoded(data: seq<byte>): Option<Response> {
    if |data| < 9 || |data| < 9 + Read32(data, 5) then None
    else Some(Response(data[0], Read32(data, 1), data[9..9 + Read32(data, 5)]))
  }

  /** TypeScript limits the size; the value is read as latin1, so a string stands for its bytes. */
  function TsDecoded(data: seq<byte>): Option<Response> {
    match CDecoded(data)
    case None => None
    case Some(r) => if |r.value| <= MAX_VALUE_SIZE then Some(r) else None
  }

  /** Go limits the status too. */
  function GoDecoded(data: seq<byte>): Option<Response> {
    match TsDecoded(data)
    case None => None
    case Some(r) => if r.status <= LAST_STATUS then Some(r) else None
  }

  /** Python requires UTF-8 as well; a string stands for the one UTF-8 that spells it. */
  function PyDecoded(data: seq<byte>): Option<Response> {
    match GoDecoded(data)
    case None => None
    case Some(r) => if IsText(r.value) then Some(r) else None
  }

  // ---- Exact acceptance ----

  lemma DecodedOfEncoding(r: Response, rest: seq<byte>)
    requires Fits(r)
    ensures CDecoded(Encoding(r) + rest) == Some(r)
  {
    var d, n := Encoding(r) + rest, |r.value|;
    assert d[1..5] == Be32(r.tag) && d[5..9] == Be32(n);
    Read32Of(d, 1, r.tag);
    Read32Of(d, 5, n);
    assert d[9..9 + n] == r.value;
  }

  lemma EncodingOfDecoded(data: seq<byte>)
    requires CDecoded(data).Some?
    ensures BeginsWith(data, CDecoded(data).value)
  {
    var r, n := CDecoded(data).value, Read32(data, 5);
    Be32Of(data, 1);
    Be32Of(data, 5);
    assert data == [data[0]] + data[1..5] + data[5..9] + data[9..9 + n] + data[9 + n..];
    assert data == Encoding(r) + data[9 + n..];
  }

  /**
    * Each decoder accepts exactly the byte strings that begin with an encoded response that meets its own
    * conditions, and yields that response: C any, TypeScript those with a value within the limit, Go those
    * of them with a known status, and Python those of them with a value in UTF-8.
    */
  lemma AcceptsExactly(data: seq<byte>, r: Response)
    ensures CDecoded(data) == Some(r) <==> BeginsWith(data, r)
    ensures TsDecoded(data) == Some(r) <==> BeginsWith(data, r) && |r.value| <= 0x200_0000
    ensures GoDecoded(data) == Some(r) <==> BeginsWith(data, r) && |r.value| <= 0x200_0000 && r.status <= 6
    ensures PyDecoded(data) == Some(r) <==>
      BeginsWith(data, r) && |r.value| <= 0x200_0000 && r.status <= 6 && exists t: Text :: r.value == Utf8(t)
  {
    if CDecoded(data).Some? {
      EncodingOfDecoded(data);
    }
    if BeginsWith(data, r) {
      var rest :| data == Encoding(r) + rest;
      DecodedOfEncoding(r, rest);
    }
    TextExactly(r.value);
  }

  lemma TextExactly(s: seq<byte>)
    ensures IsText(s) <==> exists t: Text :: s == Utf8(t)
  {
    if IsText(s) {
      DecodesExactly(s, Utf8Decode(s).value);
    }
    forall t: Text | s == Utf8(t) ensures IsText(s) {
      DecodesExactly(s, t);
    }
  }

  // ---- The decoders ----

  /** decode_response in C. */
  method CDecodeResponse(buffer: seq<byte>) returns (result: Option<Response>)
    ensures result == CDecoded(buffer)
  {
    var len := |buffer|;
    if len < 9 {
      return None;
    }
    var offset := 0;
    var status := buffer[offset];
    offset := offset + 1;
    var tag := Read32(buffer, offset);
    offset := offset + 4;
    var valLen := Read32(buffer, offset);
    offset := offset + 4;
    if len < offset + valLen {
      return None;
    }
    var value := if valLen > 0 then buffer[offset..offset + valLen] else [];
    assert value == buffer[9..9 + valLen];
    return Some(Response(status, tag, value));
  }

  /** decodeResponse in TypeScript. */
  method TsDecodeResponse(data: seq<byte>) returns (result: Option<Response>)
    ensures result == TsDecoded(data)
  {
    if |data| < 9 {
      return None;
    }
    var offset := 0;
    var status := data[offset];
    offset := offset + 1;
    var tag := Read32(data, offset);
    offset := offset + 4;
    var valLen := Read32(data, offset);
    offset := offset + 4;
    if valLen > MAX_VALUE_SIZE {
      return None;
    }
    if offset + valLen > |data| {
      return None;
    }
    var value := if valLen > 0 then data[offset..offset + valLen] else [];
    assert value == data[9..9 + valLen];
    return Some(Response(status, tag, value));
  }

  /** DecodeResponse in Go. */
  method GoDecodeResponse(data: seq<byte>) returns (result: Option<Response>)
    ensures result == GoDecoded(data)
  {
    if |data| < 9 {
      return None;
    }
    var offset := 0;
    var status := data[offset];
    offset := offset + 1;
    if status > LAST_STATUS {
      return None;
    }
    var tag := Read32(data, offset);
    offset := offset + 4;
    var valueLen := Read32(data, offset);
    offset := offset + 4;
    if valueLen > MAX_VALUE_SIZE {
      return None;
    }
    if |data| < offset + valueLen {
      return None;
    }
    return Some(Response(status, tag, data[offset..offset + valueLen]));
  }

  /** decode_response in Python; None stands for an exception. */
  method PyDecodeResponse(data: seq<byte>) returns (result: Option<Response>)
    ensures result == PyDecoded(data)
  {
    result := GoDecodeResponse(data);
    if result.Some? && !IsText(result.value.value) {
      return None;
    }
  }
}
