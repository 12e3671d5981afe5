/**
  * The range response as TypeScript writes it. Lengths count the units of the strings, the strings are
  * written in UTF-8, and each field is written over whatever of the one before it went too far.
  */
module RangeEncode {
  import opened Bytes
  import opened Lists
  import opened Unicode
  import opened RangeFormat
  import opened RangeCodec

  type TextItem = (JsString, JsString)

  datatype TextResponse = TextResponse(items: seq<TextItem>, hasMore: bool, nextCursor: JsString)

  /** The checks that make encodeRangeResponse throw, and the lengths that do not fit their fields. */
  predicate Encodable(r: TextResponse) {
    && |r.items| < TWO_32 && |r.nextCursor| < 0x1_0000
    && AllInLimits(r.items)
  }

  predicate InLimits(item: TextItem) { |item.0| <= MAX_KEY_SIZE && |item.1| <= MAX_VALUE_SIZE }

  predicate AllInLimits(items: seq<TextItem>) { forall i :: 0 <= i < |items| ==> InLimits(items[i]) }

  // ---- What is written ----

  function CutItem(item: TextItem): Item { (Cut(item.0), Cut(item.1)) }

  function CutItems(items: seq<TextItem>): (s: seq<Item>)
    ensures |s| == |items|
    ensures forall i :: 0 <= i < |items| ==> s[i] == CutItem(items[i])
  {
    seq(|items|, i requires 0 <= i < |items| => CutItem(items[i]))
  }

  function TextItemBytes(item: TextItem): seq<byte>
    requires InLimits(item)
  {
    ItemBytes(CutItem(item))
  }

  function TextBytes(items: seq<TextItem>): seq<byte>
    requires AllInLimits(items)
  {
    ItemsBytes(CutItems(items))
  }

  lemma {:induction false} TextBytesTake(items: seq<TextItem>, i: nat)
    requires i < |items| && AllInLimits(items[..i]) && InLimits(items[i])
    ensures AllInLimits(items[..i + 1])
    ensures TextBytes(items[..i + 1]) == TextBytes(items[..i]) + TextItemBytes(items[i])
  {
    ItemsBytesAppend(CutItems(items[..i]), CutItem(items[i]));
    assert CutItems(items[..i + 1]) == CutItems(items[..i]) + [CutItem(items[i])];
  }

  lemma {:induction false} TextBytesPrefix(items: seq<TextItem>, n: nat)
    requires n <= |items| && AllInLimits(items)
    ensures |TextBytes(items[..n])| <= |TextBytes(items)|
    decreases |items| - n
  {
    if n < |items| {
      TextBytesTake(items, n);
      TextBytesPrefix(items, n + 1);
    } else {
      assert items[..n] == items;
    }
  }

  /** The cursor is the last field: its whole characters that fit, then whatever the memory held before. */
  predicate WrittenCursor(t: JsString, cursor: seq<byte>) {
    |cursor| == |t| && Fitting(t, |t|) <= cursor
  }

  function Written(r: TextResponse, cursor: seq<byte>): (w: RangeResponse)
    requires Encodable(r) && WrittenCursor(r.nextCursor, cursor)
    ensures Fits(w)
  {
    RangeResponse(CutItems(r.items), r.hasMore, cursor)
  }

  function Flag(hasMore: bool): byte { if hasMore then 1 else 0 }

  // ---- The encoder ----

  /** Raw bytes at an offset. */
  method Append(buffer: array<byte>, offset: nat, bytes: seq<byte>) returns (next: nat)
    requires offset + |bytes| <= buffer.Length
    modifies buffer
    ensures next == offset + |bytes| && buffer[..next] == old(buffer[..offset]) + bytes
  {
    var i := 0;
    while i < |bytes|
      invariant i <= |bytes|
      invariant forall k :: 0 <= k < offset ==> buffer[k] == old(buffer[k])
      invariant forall k :: 0 <= k < i ==> buffer[offset + k] == bytes[k]
    {
      buffer[offset + i] := bytes[i];
      i := i + 1;
    }
    next := offset + |bytes|;
    assert buffer[..next] == buffer[..offset] + buffer[offset..next];
  }

  /** A string of a length that leaves room behind it; the next field goes where the length says. */
  method AppendText(buffer: array<byte>, offset: nat, t: JsString) returns (next: nat)
    requires offset + |t| + 3 <= buffer.Length
    modifies buffer
    ensures next == offset + |t| && buffer[..next] == old(buffer[..offset]) + Cut(t)
  {
    var written := Fitting(t, buffer.Length - offset);
    FittingReachesCut(t, buffer.Length - offset);
    var end := Append(buffer, offset, written);
    next := offset + |t|;
    assert buffer[..next] == buffer[..end][..next];
  }

  /** The size computation, which makes the limit checks. */
  method EncodedSize(r: TextResponse) returns (size: Option<nat>)
    ensures size.Some? <==> AllInLimits(r.items)
    ensures size.Some? ==> size.value == 7 + |r.nextCursor| + |TextBytes(r.items)|
  {
    var totalSize := 4 + 1 + 2 + |r.nextCursor|;
    var i := 0;
    while i < |r.items|
      invariant i <= |r.items| && AllInLimits(r.items[..i])
      invariant totalSize == 7 + |r.nextCursor| + |TextBytes(r.items[..i])|
    {
      if |r.items[i].0| > MAX_KEY_SIZE || |r.items[i].1| > MAX_VALUE_SIZE {
        return None;
      }
      TextBytesTake(r.items, i);
      totalSize := totalSize + 2 + |r.items[i].0| + 4 + |r.items[i].1|;
      i := i + 1;
    }
    assert r.items[..i] == r.items;
    return Some(totalSize);
  }

  /** A length and the string it counts. */
  method WriteSized(buffer: array<byte>, start: nat, size: seq<byte>, t: JsString) returns (offset: nat)
    requires start + |size| + |t| + 3 <= buffer.Length
    modifies buffer
    ensures offset == start + |size| + |t| && buffer[..offset] == old(buffer[..start]) + size + Cut(t)
  {
    offset := Append(buffer, start, size);
    offset := AppendText(buffer, offset, t);
  }

  method WriteItem(buffer: array<byte>, offset: nat, item: TextItem) returns (next: nat)
    requires InLimits(item) && offset + |TextItemBytes(item)| + 3 <= buffer.Length
    modifies buffer
    ensures next == offset + |TextItemBytes(item)|
    ensures buffer[..next] == old(buffer[..offset]) + TextItemBytes(item)
  {
    next := WriteSized(buffer, offset, Be16(|item.0|), item.0);
    ghost var key := Be16(|item.0|) + Cut(item.0);
    assert buffer[..next] == old(buffer[..offset]) + key;
    next := WriteSized(buffer, next, Be32(|item.1|), item.1);
    assert TextItemBytes(item) == key + Be32(|item.1|) + Cut(item.1);
  }

  method WriteItems(buffer: array<byte>, start: nat, items: seq<TextItem>) returns (offset: nat)
    requires AllInLimits(items) && start + |TextBytes(items)| + 3 <= buffer.Length
    modifies buffer
    ensures offset == start + |TextBytes(items)| && buffer[..offset] == old(buffer[..start]) + TextBytes(items)
  {
    offset := start;
    ghost var front := buffer[..start];
    var i := 0;
    while i < |items|
      invariant i <= |items|
      invariant offset == start + |TextBytes(items[..i])| <= buffer.Length
      invariant buffer[..offset] == front + TextBytes(items[..i])
    {
      TextBytesTake(items, i);
      TextBytesPrefix(items, i + 1);
      Associative(front, TextBytes(items[..i]), TextItemBytes(items[i]));
      offset := WriteItem(buffer, offset, items[i]);
      i := i + 1;
    }
    assert items[..i] == items;
  }

  /** The last field: the cursor up to the end of the buffer. */
  method WriteCursor(buffer: array<byte>, start: nat, t: JsString) returns (cursor: seq<byte>)
    requires start + |t| == buffer.Length
    modifies buffer
    ensures WrittenCursor(t, cursor) && buffer[..] == old(buffer[..start]) + cursor
  {
    var end := Append(buffer, start, Fitting(t, |t|));
    cursor := buffer[start..];
    assert buffer[..start] == buffer[..end][..start];
    assert cursor[..end - start] == buffer[..end][start..];
    assert buffer[..] == buffer[..start] + cursor;
  }

  method WriteTail(buffer: array<byte>, start: nat, r: TextResponse) returns (cursor: seq<byte>)
    requires |r.nextCursor| < 0x1_0000 && start + 3 + |r.nextCursor| == buffer.Length
    modifies buffer
    ensures WrittenCursor(r.nextCursor, cursor)
    ensures buffer[..] == old(buffer[..start]) + TailBytes(Flag(r.hasMore), cursor)
  {
    var offset := Append(buffer, start, [Flag(r.hasMore)]);
    offset := Append(buffer, offset, Be16(|r.nextCursor|));
    cursor := WriteCursor(buffer, offset, r.nextCursor);
  }

  /** encodeRangeResponse in TypeScript. */
  method TsEncodeRangeResponse(r: TextResponse) returns (result: Option<seq<byte>>)
    ensures result.Some? <==> Encodable(r)
    ensures result.Some? ==>
      exists cursor ::
        WrittenCursor(r.nextCursor, cursor) && result.value == Encoding(Written(r, cursor), Flag(r.hasMore))
  {
    var size := EncodedSize(r);
    if size.None? || |r.items| >= TWO_32 || |r.nextCursor| >= 0x1_0000 {
      return None;
    }
    var buffer := new byte[size.value];
    ghost var count, items := Be32(|r.items|), TextBytes(r.items);
    var offset := Append(buffer, 0, Be32(|r.items|));
    assert buffer[..offset] == count;
    offset := WriteItems(buffer, offset, r.items);
    var cursor := WriteTail(buffer, offset, r);
    Associative(count, items, TailBytes(Flag(r.hasMore), cursor));
    assert buffer[..] == Encoding(Written(r, cursor), Flag(r.hasMore));
    result := Some(buffer[..]);
  }

  // ---- What is read back ----

  /** Go and TypeScript parse what TypeScript wrote, whatever bytes follow, to the bytes of the fields. */
  lemma TsEncodingDecodes(r: TextResponse, cursor: seq<byte>, rest: seq<byte>)
    requires Encodable(r) && WrittenCursor(r.nextCursor, cursor)
    ensures var data := Encoding(Written(r, cursor), Flag(r.hasMore)) + rest;
            && Parse(data) == Limited(Parse(data)) == Some(Written(r, cursor))
            && Written(r, cursor).hasMore == r.hasMore && Written(r, cursor).nextCursor == cursor
            && |Written(r, cursor).items| == |r.items|
            && forall i :: 0 <= i < |r.items| ==>
                 Written(r, cursor).items[i] == (Cut(r.items[i].0), Cut(r.items[i].1))
  {
    ParseOfEncoding(Written(r, cursor), Flag(r.hasMore), rest);
    WithinLimitExactly(CutItems(r.items));
  }

  function ReadItem(item: Item): TextItem { (ToString(item.0), ToString(item.1)) }

  /** The strings that TypeScript makes of a parsed response. */
  function ReadAsText(r: RangeResponse): TextResponse {
    var items := seq(|r.items|, i requires 0 <= i < |r.items| => ReadItem(r.items[i]));
    TextResponse(items, r.hasMore, ToString(r.nextCursor))
  }

  predicate ItemSurvives(item: TextItem) { AsciiButLast(item.0) && AsciiButLast(item.1) }

  predicate ItemsSurvive(items: seq<TextItem>) { forall i :: 0 <= i < |items| ==> ItemSurvives(items[i]) }

  lemma ItemComesBackExactly(item: TextItem)
    ensures ReadItem(CutItem(item)) == item <==> ItemSurvives(item)
  {
    CutReadsBackExactly(item.0);
    CutReadsBackExactly(item.1);
  }

  lemma WrittenComesBackExactly(r: TextResponse, cursor: seq<byte>)
    requires Encodable(r) && WrittenCursor(r.nextCursor, cursor)
    ensures ReadAsText(Written(r, cursor)) == r <==> ToString(cursor) == r.nextCursor && ItemsSurvive(r.items)
  {
    var back := ReadAsText(Written(r, cursor)).items;
    forall i | 0 <= i < |r.items| ensures back[i] == r.items[i] <==> ItemSurvives(r.items[i]) {
      ItemComesBackExactly(r.items[i]);
    }
    assert back == r.items <==> forall i :: 0 <= i < |r.items| ==> back[i] == r.items[i];
  }

  /** The cursor over memory that held zeros. */
  function CursorOver(t: JsString): (cursor: seq<byte>)
    ensures WrittenCursor(t, cursor)
  {
    Fitting(t, |t|) + seq(|t| - |Fitting(t, |t|)|, _ => 0)
  }

  lemma AsciiCursorComesBack(t: JsString, cursor: seq<byte>)
    requires IsAsciiString(t) && WrittenCursor(t, cursor)
    ensures ToString(cursor) == t
  {
    CutIsWholeExactly(t);
    FittingIsPrefix(t, |t|);
    CutReadsBackExactly(t);
    AsciiIsAsciiButLast(t);
    assert cursor == Cut(t);
  }

  lemma LongCharIsLost(t: JsString)
    requires t != [] && t[0] >= 0x80
    ensures ToString(CursorOver(t)) != t
  {
    var first, cursor := Utf8Char(FirstChar(t)), CursorOver(t);
    if |first| > |t| {
      assert cursor[0] == 0;
      ToStringOfCons(cursor);
    } else {
      assert cursor == first + cursor[|first|..];
      LongCharShortens(FirstChar(t), cursor[|first|..]);
    }
  }

  lemma AsciiInFront(t: JsString, later: seq<byte>)
    requires t != [] && t[0] < 0x80 && WrittenCursor(t[1..], later) && ToString(later) != t[1..]
    ensures var cursor := [t[0] as int] + later; WrittenCursor(t, cursor) && ToString(cursor) != t
  {
    var cursor, tail := [t[0] as int] + later, t[1..];
    ToStringOfCons(cursor);
    assert cursor[1..] == later && ToString(cursor)[1..] == ToString(later);
    assert Fitting(t, |t|) == [t[0] as int] + Fitting(tail, |tail|);
  }

  /** For any other cursor there is a content of the memory that shows. */
  lemma {:induction false} OtherCursorIsLost(t: JsString) returns (cursor: seq<byte>)
    requires !IsAsciiString(t)
    ensures WrittenCursor(t, cursor) && ToString(cursor) != t
  {
    assert t == [t[0]] + t[1..];
    if t[0] < 0x80 {
      var later := OtherCursorIsLost(t[1..]);
      cursor := [t[0] as int] + later;
      AsciiInFront(t, later);
    } else {
      cursor := CursorOver(t);
      LongCharIsLost(t);
    }
  }

  /**
    * TypeScript to TypeScript: a response comes back the same, whatever the memory held before, exactly
    * when its cursor is ASCII, and so are its keys and values but for a replacement character at the end.
    */
  lemma TextComesBackExactly(r: TextResponse)
    requires Encodable(r)
    ensures (forall cursor :: WrittenCursor(r.nextCursor, cursor) ==> ReadAsText(Written(r, cursor)) == r) <==>
            IsAsciiString(r.nextCursor) && ItemsSurvive(r.items)
  {
    forall cursor | WrittenCursor(r.nextCursor, cursor)
      ensures ReadAsText(Written(r, cursor)) == r <==> ToString(cursor) == r.nextCursor && ItemsSurvive(r.items)
    {
      WrittenComesBackExactly(r, cursor);
    }
    if IsAsciiString(r.nextCursor) {
      forall cursor | WrittenCursor(r.nextCursor, cursor) ensures ToString(cursor) == r.nextCursor {
        AsciiCursorComesBack(r.nextCursor, cursor);
      }
      assert WrittenCursor(r.nextCursor, CursorOver(r.nextCursor));
    } else {
      var lost := OtherCursorIsLost(r.nextCursor);
    }
  }
}
