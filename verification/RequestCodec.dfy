/**
  * Requests on the wire in three languages: [cmd:1][seq:4][flags:1][keyLen:2][key][valLen:4][value],
  * then [ttl:4] when the lowest bit of the flags says so.
  */
module RequestCodec {
  import opened Bytes
  import opened Lists
  import opened Unicode

  datatype Request = Request(command: byte, tag: nat, key: seq<byte>, value: seq<byte>)

  // ---- The grammar ----

  predicate Fits(r: Request) {
    r.tag < TWO_32 && |r.key| < 0x1_0000 && |r.value| < TWO_32
  }

  /** A request with these flags, up to the TTL. */
  function Encoding(r: Request, flags: byte): seq<byte>
    requires Fits(r)
  {
    [r.command] + Be32(r.tag) + [flags] + (Be16(|r.key|) + r.key + Be32(|r.value|) + r.value)
  }

  function TtlSuffix(ttl: Option<nat>): seq<byte>
    requires ttl.Some? ==> ttl.value < TWO_32
  {
    if ttl.Some? then Be32(ttl.value) else []
  }

  function EncodingWithTtl(r: Request, ttl: Option<nat>): seq<byte>
    requires Fits(r) && (ttl.Some? ==> ttl.value < TWO_32)
  {
    Encoding(r, if ttl.Some? then 1 else 0) + TtlSuffix(ttl)
  }

  // ---- Where the fields are ----

  predicate FieldsInside(d: seq<byte>) {
    && |d| >= 12
    && |d| >= 12 + KeyLen(d)
    && |d| >= 12 + KeyLen(d) + ValueLen(d)
  }

  function KeyLen(d: seq<byte>): nat
    requires |d| >= 8
  {
    Read16(d, 6)
  }

  function ValueLen(d: seq<byte>): nat
    requires |d| >= 12 && |d| >= 12 + KeyLen(d)
  {
    Read32(d, 8 + KeyLen(d))
  }

  /** Where the TTL would be. */
  function End(d: seq<byte>): nat
    requires FieldsInside(d)
    ensures End(d) <= |d|
  {
    12 + KeyLen(d) + ValueLen(d)
  }

  function RequestAt(d: seq<byte>): Request
    requires FieldsInside(d)
  {
    Request(d[0], Read32(d, 1), d[8..8 + KeyLen(d)], d[12 + KeyLen(d)..End(d)])
  }

  // ---- The decoders as functions of the bytes ----

  /** The commands that Go knows. */
  const VALID_COMMANDS: set<byte> := {
    0x01, 0x02, 0x03, 0x04, 0x05, 0x06, 0x09, 0x20, 0x21, 0x22, 0x23, 0x24, 0x25, 0x10, 0x11, 0x12, 0x13, 0x14, 0x15,
    0x16, 0x17, 0x18, 0x40, 0x41, 0x42, 0x43, 0x44, 0x45, 0x46, 0x60, 0x61
  }

  function GoRequest(d: seq<byte>): Option<Request> {
    if FieldsInside(d) && d[0] in VALID_COMMANDS && ValueLen(d) <= MAX_VALUE_SIZE then Some(RequestAt(d)) else None
  }

  /** A request in TypeScript, where key and value are strings. */
  datatype TsRequest = TsRequest(command: byte, tag: nat, key: JsString, value: JsString, ttl: Option<nat>)

  /** The strings are read as UTF-8. */
  function ReadAsText(r: Request, ttl: Option<nat>): TsRequest {
    TsRequest(r.command, r.tag, ToString(r.key), ToString(r.value), ttl)
  }

  /** The strings are written as latin1. */
  function WrittenAsBytes(t: TsRequest): Request {
    Request(t.command, t.tag, Latin1(t.key), Latin1(t.value))
  }

  /** TypeScript takes any command, and reads a TTL when the flag is set. */
  function TsDecoded(d: seq<byte>): Option<TsRequest> {
    if !FieldsInside(d) || ValueLen(d) > MAX_VALUE_SIZE then None
    else if d[5] % 2 == 0 then Some(ReadAsText(RequestAt(d), None))
    else if |d| < End(d) + 4 then None
    else Some(ReadAsText(RequestAt(d), Some(Read32(d, End(d)))))
  }

  // ---- Decoding what was encoded ----

  lemma FieldsOfEncoding(r: Request, flags: byte, rest: seq<byte>)
    requires Fits(r)
    ensures var d := Encoding(r, flags) + rest;
            FieldsInside(d) && RequestAt(d) == r && d[5] == flags && d[End(d)..] == rest && ValueLen(d) == |r.value|
  {
    var d := Encoding(r, flags) + rest;
    var k, v := |r.key|, |r.value|;
    assert d[1..5] == Be32(r.tag);
    Read32Of(d, 1, r.tag);
    assert d[6..8] == Be16(k);
    Read16Of(d, 6, k);
    assert d[8 + k..12 + k] == Be32(v);
    Read32Of(d, 8 + k, v);
    assert d[8..8 + k] == r.key && d[12 + k..12 + k + v] == r.value && d[12 + k + v..] == rest;
  }

  lemma KeyAndValueOfFields(d: seq<byte>)
    requires FieldsInside(d)
    ensures var r := RequestAt(d); d[6..End(d)] == Be16(|r.key|) + r.key + Be32(|r.value|) + r.value
  {
    var k := KeyLen(d);
    Be16Of(d, 6);
    Be32Of(d, 8 + k);
    assert d[6..End(d)] == d[6..8] + d[8..8 + k] + d[8 + k..12 + k] + d[12 + k..End(d)];
  }

  lemma EncodingOfFields(d: seq<byte>)
    requires FieldsInside(d)
    ensures Fits(RequestAt(d)) && d == Encoding(RequestAt(d), d[5]) + d[End(d)..]
  {
    KeyAndValueOfFields(d);
    Be32Of(d, 1);
    assert d == [d[0]] + d[1..5] + [d[5]] + d[6..End(d)] + d[End(d)..];
  }

  /** Go accepts exactly what begins with an encoded request for a known command and a value within the limit. */
  lemma GoAcceptsExactly(d: seq<byte>, r: Request)
    ensures GoRequest(d) == Some(r) <==>
            && Fits(r) && r.command in VALID_COMMANDS && |r.value| <= MAX_VALUE_SIZE
            && exists flags: byte, rest :: d == Encoding(r, flags) + rest
  {
    if GoRequest(d) == Some(r) {
      EncodingOfFields(d);
    }
    if Fits(r) {
      forall flags: byte, rest | d == Encoding(r, flags) + rest
        ensures FieldsInside(d) && RequestAt(d) == r && ValueLen(d) == |r.value|
      {
        FieldsOfEncoding(r, flags, rest);
      }
    }
  }

  lemma TtlOfEncoding(d: seq<byte>, ttl: nat)
    requires FieldsInside(d) && ttl < TWO_32 && d[End(d)..] == Be32(ttl)
    ensures |d| == End(d) + 4 && Read32(d, End(d)) == ttl
  {
    assert |d[End(d)..]| == 4 && d[End(d)..End(d) + 4] == d[End(d)..];
    Read32Of(d, End(d), ttl);
  }

  lemma TsDecodesEncoding(r: Request, ttl: Option<nat>)
    requires Fits(r) && |r.value| <= MAX_VALUE_SIZE && (ttl.Some? ==> ttl.value < TWO_32)
    ensures TsDecoded(EncodingWithTtl(r, ttl)) == Some(ReadAsText(r, ttl))
  {
    var d := EncodingWithTtl(r, ttl);
    FieldsOfEncoding(r, if ttl.Some? then 1 else 0, TtlSuffix(ttl));
    assert RequestAt(d) == r;
    if ttl.Some? {
      TtlOfEncoding(d, ttl.value);
    }
  }

  /** The bytes that follow the value: a TTL if the lowest bit of the flags says so. */
  predicate TtlFollows(flags: byte, rest: seq<byte>, ttl: Option<nat>) {
    if flags % 2 == 0 then ttl.None?
    else |rest| >= 4 && ttl == Some(Read32(rest, 0))
  }

  /**
    * TypeScript accepts exactly what begins with an encoded request, for any command, with a value within the
    * limit and, if the flags announce one, a TTL behind it; it yields that request read as text, and that TTL.
    */
  lemma TsAcceptsExactly(d: seq<byte>, t: TsRequest)
    ensures TsDecoded(d) == Some(t) <==>
            exists r, flags: byte, rest, ttl ::
              && Fits(r) && |r.value| <= MAX_VALUE_SIZE && d == Encoding(r, flags) + rest
              && TtlFollows(flags, rest, ttl) && t == ReadAsText(r, ttl)
  {
    if TsDecoded(d) == Some(t) {
      EncodingOfFields(d);
      var rest := d[End(d)..];
      if d[5] % 2 != 0 {
        Read32Behind(d, End(d));
      }
      assert TtlFollows(d[5], rest, t.ttl) && t == ReadAsText(RequestAt(d), t.ttl);
    }
    forall r, flags: byte, rest, ttl |
      && Fits(r) && |r.value| <= MAX_VALUE_SIZE && d == Encoding(r, flags) + rest
      && TtlFollows(flags, rest, ttl) && t == ReadAsText(r, ttl)
      ensures TsDecoded(d) == Some(t)
    {
      FieldsOfEncoding(r, flags, rest);
      if flags % 2 != 0 {
        Read32Behind(d, End(d));
      }
    }
  }

  lemma Read32Behind(d: seq<byte>, at: nat)
    requires at <= |d|
    ensures |d| >= at + 4 ==> Read32(d[at..], 0) == Read32(d, at)
  {
  }

  /** The commands that Go knows, by group: keys, traversal and ranges, barrels, topics, and watches. */
  lemma ValidCommandsExactly(c: byte)
    ensures c in VALID_COMMANDS <==>
            || 0x01 <= c <= 0x06 || c == 0x09 || 0x10 <= c <= 0x18 || 0x20 <= c <= 0x25
            || 0x40 <= c <= 0x46 || 0x60 <= c <= 0x61
  {
  }

  /**
    * Across languages: whatever was encoded, with or without a TTL, decodes in Go to the same request, and
    * in TypeScript to the same request and TTL with key and value read as UTF-8. On ASCII that is the
    * same text.
    */
  lemma EncodingDecodesEverywhere(r: Request, ttl: Option<nat>)
    requires Fits(r) && r.command in VALID_COMMANDS && |r.value| <= MAX_VALUE_SIZE
    requires ttl.Some? ==> ttl.value < TWO_32
    ensures GoRequest(EncodingWithTtl(r, ttl)) == Some(r)
    ensures TsDecoded(EncodingWithTtl(r, ttl)) == Some(ReadAsText(r, ttl))
    ensures IsAscii(r.key) && IsAscii(r.value) ==>
      ReadAsText(r, ttl) == TsRequest(r.command, r.tag, r.key, r.value, ttl)
  {
    FieldsOfEncoding(r, if ttl.Some? then 1 else 0, TtlSuffix(ttl));
    TsDecodesEncoding(r, ttl);
    if IsAscii(r.key) && IsAscii(r.value) {
      AsciiIsItself(r.key);
      AsciiIsItself(r.value);
    }
  }

  predicate IsAscii(s: seq<byte>) { forall i :: 0 <= i < |s| ==> s[i] < 0x80 }

  /**
    * TypeScript to TypeScript: since strings are written as latin1 and read as UTF-8, a request comes back
    * the same exactly when key and value are ASCII, but for the replacement character itself.
    */
  lemma TsTextComesBackExactly(t: TsRequest)
    requires |t.key| <= MAX_KEY_SIZE && |t.value| <= MAX_VALUE_SIZE && t.tag < TWO_32
    requires t.ttl.Some? ==> t.ttl.value < TWO_32
    ensures TsDecoded(EncodingWithTtl(WrittenAsBytes(t), t.ttl)) == Some(t) <==>
            AllSurvive(t.key) && AllSurvive(t.value)
  {
    TsDecodesEncoding(WrittenAsBytes(t), t.ttl);
    Latin1ReadsBackExactly(t.key);
    Latin1ReadsBackExactly(t.value);
  }

  // ---- The encoders ----

  /** Nothing from `end` on has changed. */
  twostate predicate KeptFrom(buffer: array<byte>, end: nat)
    reads buffer
  {
    forall k :: end <= k < buffer.Length ==> buffer[k] == old(buffer[k])
  }

  /** Copy bytes into a buffer at the running offset. */
  method Put(buffer: array<byte>, offset: nat, bytes: seq<byte>) returns (next: nat)
    requires offset + |bytes| <= buffer.Length
    modifies buffer
    ensures next == offset + |bytes| && buffer[..next] == old(buffer[..offset]) + bytes && KeptFrom(buffer, next)
  {
    var i := 0;
    while i < |bytes|
      invariant i <= |bytes|
      invariant forall k :: 0 <= k < offset ==> buffer[k] == old(buffer[k])
      invariant forall k :: 0 <= k < i ==> buffer[offset + k] == bytes[k]
      invariant KeptFrom(buffer, offset + i)
    {
      buffer[offset + i] := bytes[i];
      i := i + 1;
    }
    next := offset + |bytes|;
    assert buffer[..next] == buffer[..offset] + buffer[offset..next];
  }

  method PutHead(buffer: array<byte>, r: Request, flags: byte) returns (offset: nat)
    requires Fits(r) && buffer.Length >= 6
    modifies buffer
    ensures offset == 6 && buffer[..offset] == [r.command] + Be32(r.tag) + [flags] && KeptFrom(buffer, offset)
  {
    offset := Put(buffer, 0, [r.command]);
    offset := Put(buffer, offset, Be32(r.tag));
    offset := Put(buffer, offset, [flags]);
  }

  /** A length and the bytes it counts. */
  method PutSized(buffer: array<byte>, start: nat, size: seq<byte>, bytes: seq<byte>) returns (offset: nat)
    requires start + |size| + |bytes| <= buffer.Length
    modifies buffer
    ensures offset == start + |size| + |bytes| && buffer[..offset] == old(buffer[..start]) + size + bytes
    ensures KeptFrom(buffer, offset)
  {
    offset := Put(buffer, start, size);
    offset := Put(buffer, offset, bytes);
  }

  /** The fields that every encoder writes, in order. */
  method PutFields(buffer: array<byte>, r: Request, flags: byte) returns (offset: nat)
    requires Fits(r) && buffer.Length >= 12 + |r.key| + |r.value|
    modifies buffer
    ensures offset == 12 + |r.key| + |r.value| && buffer[..offset] == Encoding(r, flags)
    ensures KeptFrom(buffer, offset)
  {
    offset := PutHead(buffer, r, flags);
    ghost var head := buffer[..offset];
    offset := PutSized(buffer, offset, Be16(|r.key|), r.key);
    offset := PutSized(buffer, offset, Be32(|r.value|), r.value);
    assert head + Be16(|r.key|) + r.key + Be32(|r.value|) + r.value
        == head + (Be16(|r.key|) + r.key + Be32(|r.value|) + r.value);
  }

  /** Request.Encode in Go, whose sequence numbers are 32 bits wide. */
  method GoEncode(r: Request) returns (result: Option<seq<byte>>)
    requires r.tag < TWO_32
    ensures result.Some? <==> |r.key| <= 0xFFFF && |r.value| <= 0x200_0000
    ensures result.Some? ==> result.value == EncodingWithTtl(r, None)
  {
    if |r.key| > MAX_KEY_SIZE {
      return None;
    }
    if |r.value| > MAX_VALUE_SIZE {
      return None;
    }
    var totalSize := 1 + 4 + 1 + 2 + |r.key| + 4 + |r.value|;
    var buf := new byte[totalSize](_ => 0);
    var offset := PutFields(buf, r, 0);
    assert buf[..] == buf[..offset] && Encoding(r, 0) + [] == Encoding(r, 0);
    return Some(buf[..]);
  }

  /** Lengths are cut to the width of their fields, and that many bytes are copied. */
  function CCut(r: Request): (cut: Request)
    requires r.tag < TWO_32
    ensures Fits(cut) && cut.key <= r.key && cut.value <= r.value && (Fits(r) ==> cut == r)
  {
    r.(key := r.key[..|r.key| % 0x1_0000], value := r.value[..|r.value| % TWO_32])
  }

  /** A signed 32-bit TTL, where a negative one stands for none. */
  type CTtl = n: int | -0x8000_0000 <= n < 0x8000_0000

  function OptionalTtl(ttl: CTtl): Option<nat> { if ttl >= 0 then Some(ttl) else None }

  /** What encode_request writes, whatever the size of the buffer it is given. */
  function CEncoding(r: Request, ttl: CTtl): (s: seq<byte>)
    requires r.tag < TWO_32
    ensures |s| == 12 + |r.key| % 0x1_0000 + |r.value| % TWO_32 + if ttl >= 0 then 4 else 0
  {
    EncodingWithTtl(CCut(r), OptionalTtl(ttl))
  }

  /** encode_request in C, on the memory that starts with the buffer. No bound is checked. */
  method CEncodeRequest(memory: array<byte>, r: Request, ttl: CTtl) returns (len: nat)
    requires r.tag < TWO_32 && memory.Length >= |CEncoding(r, ttl)|
    modifies memory
    ensures len == |CEncoding(r, ttl)| && memory[..] == CEncoding(r, ttl) + old(memory[len..])
  {
    var cut := CCut(r);
    var flags: byte := if ttl >= 0 then 0x01 else 0;
    len := PutFields(memory, cut, flags);
    if ttl >= 0 {
      len := Put(memory, len, Be32(ttl));
    } else {
      assert Encoding(cut, 0) + [] == Encoding(cut, 0);
    }
    assert memory[len..] == old(memory[len..]);
    assert memory[..] == memory[..len] + memory[len..];
  }

  /** The buffer on the stack of send_request. */
  const BUFFER_SIZE: nat := 65536

  /** The memory after send_request has encoded into its buffer: the buffer and what lies behind it. */
  function AfterEncoding(memory: seq<byte>, r: Request): (after: seq<byte>)
    requires r.tag < TWO_32 && |memory| >= |CEncoding(r, -1)|
    ensures |after| == |memory|
  {
    CEncoding(r, -1) + memory[|CEncoding(r, -1)|..]
  }

  /**
    * send_request leaves the memory behind its buffer alone, whatever it holds, exactly when head, key and
    * value fit the buffer. It encodes without looking.
    */
  lemma StaysInBufferExactly(r: Request)
    requires r.tag < TWO_32
    ensures 12 + |r.key| % 0x1_0000 + |r.value| % TWO_32 <= BUFFER_SIZE <==>
            forall memory: seq<byte> :: |memory| >= BUFFER_SIZE && |memory| >= |CEncoding(r, -1)| ==>
              AfterEncoding(memory, r)[BUFFER_SIZE..] == memory[BUFFER_SIZE..]
  {
    var bytes := CEncoding(r, -1);
    if |bytes| <= BUFFER_SIZE {
      forall memory: seq<byte> | |memory| >= BUFFER_SIZE
        ensures AfterEncoding(memory, r)[BUFFER_SIZE..] == memory[BUFFER_SIZE..]
      {
        assert memory[|bytes|..][BUFFER_SIZE - |bytes|..] == memory[BUFFER_SIZE..];
      }
    } else {
      var other: byte := (bytes[BUFFER_SIZE] + 1) % 256;
      var memory: seq<byte> := bytes[BUFFER_SIZE := other];
      assert AfterEncoding(memory, r)[BUFFER_SIZE..][0] == bytes[BUFFER_SIZE] != memory[BUFFER_SIZE..][0];
    }
  }

  /** encodeRequest in TypeScript. Integers that do not fit their fields make the write throw. */
  method TsEncodeRequest(req: TsRequest) returns (result: Option<seq<byte>>)
    ensures result.Some? <==>
      && |req.key| <= MAX_KEY_SIZE && |req.value| <= MAX_VALUE_SIZE && req.tag < TWO_32
      && (req.ttl.Some? ==> req.ttl.value < TWO_32)
    ensures result.Some? ==>
      result.value == EncodingWithTtl(WrittenAsBytes(req), if req.ttl == Some(0) then None else req.ttl)
  {
    if |req.key| > MAX_KEY_SIZE {
      return None;
    }
    if |req.value| > MAX_VALUE_SIZE {
      return None;
    }
    var r := WrittenAsBytes(req);
    var hasTtl := req.ttl.Some? && req.ttl.value > 0;
    var buffer := new byte[1 + 4 + 1 + 2 + |r.key| + 4 + |r.value| + if hasTtl then 4 else 0](_ => 0);
    if r.tag >= TWO_32 {
      return None;
    }
    var offset := PutFields(buffer, r, if hasTtl then 1 else 0);
    if hasTtl {
      if req.ttl.value >= TWO_32 {
        return None;
      }
      offset := Put(buffer, offset, Be32(req.ttl.value));
    } else {
      assert Encoding(r, 0) + [] == Encoding(r, 0);
    }
    assert buffer[..] == buffer[..offset];
    return Some(buffer[..]);
  }

  /** The value of a Python request: text, which is encoded, or bytes. */
  datatype PyValue = Str(text: Text) | Raw(bytes: seq<byte>)

  function PyLen(v: PyValue): nat { if v.Str? then |v.text| else |v.bytes| }

  function PyBytes(v: PyValue): seq<byte> { if v.Str? then Utf8(v.text) else v.bytes }

  /** encode_request in Python: limits on characters, and struct.pack raises on integers that do not fit. */
  method PyEncodeRequest(command: byte, tag: nat, key: Text, value: PyValue, ttl: Option<int>)
    returns (result: Option<seq<byte>>)
    ensures result.Some? <==>
      && |Utf8(key)| <= MAX_KEY_SIZE && PyLen(value) <= MAX_VALUE_SIZE && tag < TWO_32
      && (ttl.Some? ==> ttl.value < TWO_32)
    ensures result.Some? ==>
      var r := Request(command, tag, Utf8(key), PyBytes(value));
      result.value == EncodingWithTtl(r, if ttl.Some? && ttl.value > 0 then Some(ttl.value) else None)
  {
    if |key| > MAX_KEY_SIZE {
      return None;
    }
    if PyLen(value) > MAX_VALUE_SIZE {
      return None;
    }
    var r := Request(command, tag, Utf8(key), PyBytes(value));
    var hasTtl := ttl.Some? && ttl.value > 0;
    var buf := new byte[1 + 4 + 1 + 2 + |r.key| + 4 + |r.value| + if hasTtl then 4 else 0](_ => 0);
    if tag >= TWO_32 || |r.key| > MAX_KEY_SIZE {
      return None;
    }
    var offset := PutFields(buf, r, if hasTtl then 1 else 0);
    if hasTtl {
      if ttl.value >= TWO_32 {
        return None;
      }
      offset := Put(buf, offset, Be32(ttl.value));
    } else {
      assert Encoding(r, 0) + [] == Encoding(r, 0);
    }
    assert buf[..] == buf[..offset];
    return Some(buf[..]);
  }

  // ---- The decoders ----

  /** DecodeRequest in Go. */
  method GoDecodeRequest(data: seq<byte>) returns (result: Option<Request>)
    ensures result == GoRequest(data)
  {
    if |data| < 12 {
      return None;
    }
    var offset := 0;
    var cmd := data[offset];
    offset := offset + 1;
    if cmd !in VALID_COMMANDS {
      return None;
    }
    var tag := Read32(data, offset);
    offset := offset + 4;
    offset := offset + 1;
    var keyLen := Read16(data, offset);
    assert keyLen == KeyLen(data);
    offset := offset + 2;
    if |data| < offset + keyLen + 4 {
      return None;
    }
    var key := data[offset..offset + keyLen];
    offset := offset + keyLen;
    var valueLen := Read32(data, offset);
    assert valueLen == ValueLen(data);
    offset := offset + 4;
    if valueLen > MAX_VALUE_SIZE {
      return None;
    }
    if |data| < offset + valueLen {
      return None;
    }
    return Some(Request(cmd, tag, key, data[offset..offset + valueLen]));
  }

  /** decodeRequest in TypeScript, up to the TTL: the request without one, and where the TTL would be. */
  method TsDecodeFields(data: seq<byte>) returns (fields: Option<(TsRequest, nat)>)
    ensures fields ==
      if FieldsInside(data) && ValueLen(data) <= MAX_VALUE_SIZE
      then Some((ReadAsText(RequestAt(data), None), End(data)))
      else None
  {
    if |data| < 12 {
      return None;
    }
    var offset := 0;
    var command := data[offset];
    offset := offset + 1;
    var tag := Read32(data, offset);
    offset := offset + 4;
    offset := offset + 1;
    var keyLen := Read16(data, offset);
    assert keyLen == KeyLen(data);
    offset := offset + 2;
    if offset + keyLen > |data| {
      return None;
    }
    var key := ToString(data[offset..offset + keyLen]);
    offset := offset + keyLen;
    if offset + 4 > |data| {
      return None;
    }
    var valLen := Read32(data, offset);
    assert valLen == ValueLen(data);
    offset := offset + 4;
    if valLen > MAX_VALUE_SIZE {
      return None;
    }
    if offset + valLen > |data| {
      return None;
    }
    var value := ToString(data[offset..offset + valLen]);
    offset := offset + valLen;
    assert offset == End(data);
    return Some((TsRequest(command, tag, key, value, None), offset));
  }

  /** decodeRequest in TypeScript. */
  method TsDecodeRequest(data: seq<byte>) returns (result: Option<TsRequest>)
    ensures result == TsDecoded(data)
  {
    var fields := TsDecodeFields(data);
    if fields.None? {
      return None;
    }
    var (request, offset) := fields.value;
    var hasTtl := data[5] % 2 != 0;
    if !hasTtl {
      return Some(request);
    }
    if offset + 4 > |data| {
      return None;
    }
    return Some(request.(ttl := Some(Read32(data, offset))));
  }
}
