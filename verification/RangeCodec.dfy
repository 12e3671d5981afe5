/** The decoders of the Go and TypeScript clients for range responses. */
module RangeCodec {
  import opened Bytes
  import opened Lists
  import opened RangeFormat

  // ---- Go ----

  /** An item loop that is to come to `all` has decoded `done` and has `left` items to go at `s`. */
  ghost predicate UnderWay(all: Option<(seq<Item>, seq<byte>)>, done: seq<Item>, s: seq<byte>, left: nat) {
    all == Prepend(done, ParseItems(s, left))
  }

  lemma ItemTaken(all: Option<(seq<Item>, seq<byte>)>, done: seq<Item>, s: seq<byte>, left: nat,
                  item: Item, rest: seq<byte>)
    requires UnderWay(all, done, s, left) && left > 0 && ParseItem(s) == Some((item, rest))
    ensures UnderWay(all, done + [item], rest, left - 1)
  {
    if ParseItems(rest, left - 1).Some? {
      var (items, _) := ParseItems(rest, left - 1).value;
      assert done + ([item] + items) == (done + [item]) + items;
    }
  }

  lemma ItemRefused(all: Option<(seq<Item>, seq<byte>)>, done: seq<Item>, s: seq<byte>, left: nat)
    requires UnderWay(all, done, s, left) && left > 0 && ParseItem(s).None?
    ensures all == None
  {
  }

  lemma ItemsDone(all: Option<(seq<Item>, seq<byte>)>, done: seq<Item>, s: seq<byte>)
    requires UnderWay(all, done, s, 0)
    ensures all == Some((done, s))
  {
    assert done + [] == done;
  }

  /** Four consecutive pieces of `s` behind its two lengths are the item and the rest. */
  lemma ItemParts(s: seq<byte>, key: seq<byte>, value: seq<byte>, rest: seq<byte>)
    requires |s| == 2 + |key| + 4 + |value| + |rest|
    requires Read16(s, 0) == |key| && Read32(s, 2 + |key|) == |value|
    requires s[2..2 + |key|] == key && s[2 + |key| + 4..2 + |key| + 4 + |value|] == value
    requires s[2 + |key| + 4 + |value|..] == rest
    ensures ParseItem(s) == Some(((key, value), rest))
  {
  }

  lemma PrependNothing(r: Option<(seq<Item>, seq<byte>)>)
    ensures Prepend([], r) == r
  {
    if r.Some? { assert [] + r.value.0 == r.value.0; }
  }

  /** One turn of the Go decoder's item loop. */
  method GoDecodeItem(buf: seq<byte>, start: nat) returns (item: Option<Item>, offset: nat)
    requires start <= |buf|
    ensures item.Some? ==> offset <= |buf| && ParseItem(buf[start..]) == Some((item.value, buf[offset..]))
    ensures item.None? ==> ParseItem(buf[start..]).None?
  {
    offset := start;
    ghost var s := buf[start..];
    if |buf| < offset + 2 {
      return None, offset;
    }
    var keyLen := Read16(buf, offset);
    offset := offset + 2;
    if |buf| < offset + keyLen {
      return None, offset;
    }
    var key := buf[offset..offset + keyLen];
    offset := offset + keyLen;
    if |buf| < offset + 4 {
      return None, offset;
    }
    var valLen := Read32(buf, offset);
    offset := offset + 4;
    if |buf| < offset + valLen {
      return None, offset;
    }
    var value := buf[offset..offset + valLen];
    offset := offset + valLen;
    assert Read16(s, 0) == keyLen && Read32(s, 2 + keyLen) == valLen;
    ItemParts(s, key, value, buf[offset..]);
    return Some((key, value)), offset;
  }

  /** The Go decoder after its item loop. */
  method GoDecodeTail(buf: seq<byte>, start: nat, items: seq<Item>) returns (result: Option<RangeResponse>)
    requires start <= |buf|
    ensures result == ParseTail(items, buf[start..])
  {
    var offset := start;
    ghost var s := buf[start..];
    if |buf| < offset + 1 {
      return None;
    }
    var hasMore := buf[offset] != 0;
    offset := offset + 1;
    if |buf| < offset + 2 {
      return None;
    }
    var cursorLen := Read16(buf, offset);
    offset := offset + 2;
    assert Read16(s, 1) == cursorLen;
    if |buf| < offset + cursorLen {
      return None;
    }
    assert s[3..3 + cursorLen] == buf[offset..offset + cursorLen];
    return Some(RangeResponse(items, hasMore, buf[offset..offset + cursorLen]));
  }

  /**
    * DecodeRangeResponse in Go: it succeeds exactly where the grammar's parser does, with its result, unless
    * the list it allocates before it looks at any item exhausts the memory, which has room for `capacity` items.
    */
  method GoDecodeRangeResponse(buf: seq<byte>, capacity: nat)
      returns (result: Option<RangeResponse>, exhausted: bool)
    ensures exhausted <==> |buf| >= 5 && Read32(buf, 0) > capacity
    ensures !exhausted ==> result == Parse(buf)
  {
    if |buf| < 5 {
      if |buf| == 4 {
        ShortResponse(buf);
      }
      return None, false;
    }
    var count := Read32(buf, 0);
    if count > capacity {
      return None, true;
    }
    var items, offset, ok := GoDecodeItems(buf, count);
    if !ok {
      return None, false;
    }
    result := GoDecodeTail(buf, offset, items);
    exhausted := false;
  }

  /** The Go decoder's item loop. */
  method GoDecodeItems(buf: seq<byte>, count: nat) returns (items: seq<Item>, offset: nat, ok: bool)
    requires |buf| >= 4
    ensures offset <= |buf|
    ensures ParseItems(buf[4..], count) == if ok then Some((items, buf[offset..])) else None
  {
    offset := 4;
    items := [];
    var i := 0;
    ghost var all := ParseItems(buf[4..], count);
    PrependNothing(all);
    while i < count
      invariant i <= count && offset <= |buf|
      invariant UnderWay(all, items, buf[offset..], count - i)
    {
      var item, next := GoDecodeItem(buf, offset);
      if item.None? {
        ItemRefused(all, items, buf[offset..], count - i);
        return items, offset, false;
      }
      ItemTaken(all, items, buf[offset..], count - i, item.value, buf[next..]);
      offset := next;
      items := items + [item.value];
      i := i + 1;
    }
    ItemsDone(all, items, buf[offset..]);
    ok := true;
  }

  /** A count alone is not a response. */
  lemma ShortResponse(buf: seq<byte>)
    requires |buf| == 4
    ensures Parse(buf).None?
  {
    if Read32(buf, 0) > 0 {
      assert ParseItem(buf[4..]).None?;
    }
  }

  // ---- TypeScript ----

  /** The TypeScript decoder also refuses values over its size limit. */
  function Limited(r: Option<RangeResponse>): Option<RangeResponse> {
    if r.Some? && WithinLimit(r.value.items) then r else None
  }

  predicate WithinLimit(items: seq<Item>) {
    items == [] || (|items[0].1| <= MAX_VALUE_SIZE && WithinLimit(items[1..]))
  }

  lemma {:induction false} WithinLimitExactly(items: seq<Item>)
    ensures WithinLimit(items) <==> forall i :: 0 <= i < |items| ==> |items[i].1| <= MAX_VALUE_SIZE
  {
    if items != [] {
      WithinLimitExactly(items[1..]);
      assert items == [items[0]] + items[1..];
    }
  }

  /** TypeScript accepts what Go accepts, and yields the same, exactly when every value is within the limit. */
  lemma TsAcceptsExactly(data: seq<byte>, r: RangeResponse)
    ensures Limited(Parse(data)) == Some(r) <==>
            Parse(data) == Some(r) && forall i :: 0 <= i < |r.items| ==> |r.items[i].1| <= MAX_VALUE_SIZE
  {
    WithinLimitExactly(r.items);
  }

  /** The item loop with its limit check, item by item. */
  function TsParseItems(s: seq<byte>, n: nat): Option<(seq<Item>, seq<byte>)>
    decreases n
  {
    if n == 0 then Some(([], s))
    else
      match TsParseItem(s)
      case None => None
      case Some((item, rest)) => Prepend([item], TsParseItems(rest, n - 1))
  }

  function TsParseItem(s: seq<byte>): Option<(Item, seq<byte>)> {
    if ParseItem(s).Some? && |ParseItem(s).value.0.1| <= MAX_VALUE_SIZE then ParseItem(s) else None
  }

  /** Checking each value on the way is checking them all at the end. */
  lemma {:induction false} TsParseItemsIsLimited(s: seq<byte>, n: nat)
    ensures TsParseItems(s, n) ==
            var r := ParseItems(s, n); if r.Some? && WithinLimit(r.value.0) then r else None
    decreases n
  {
    if n > 0 && ParseItem(s).Some? {
      var (item, rest) := ParseItem(s).value;
      TsParseItemsIsLimited(rest, n - 1);
      if ParseItems(rest, n - 1).Some? {
        assert ([item] + ParseItems(rest, n - 1).value.0)[1..] == ParseItems(rest, n - 1).value.0;
      }
    }
  }

  /** One turn of the TypeScript decoder's item loop. */
  method TsDecodeItem(data: seq<byte>, start: nat) returns (item: Option<Item>, offset: nat)
    requires start <= |data|
    ensures offset <= |data|
    ensures TsParseItem(data[start..]) == if item.Some? then Some((item.value, data[offset..])) else None
  {
    offset := start;
    ghost var s := data[start..];
    if offset + 2 > |data| {
      return None, offset;
    }
    var keyLen := Read16(data, offset);
    offset := offset + 2;
    if keyLen > MAX_KEY_SIZE {
      return None, offset;
    }
    if offset + keyLen > |data| {
      return None, offset;
    }
    var key := data[offset..offset + keyLen];
    offset := offset + keyLen;
    if offset + 4 > |data| {
      return None, offset;
    }
    var valLen := Read32(data, offset);
    offset := offset + 4;
    assert Read16(s, 0) == keyLen && Read32(s, 2 + keyLen) == valLen;
    if valLen > MAX_VALUE_SIZE {
      return None, offset;
    }
    if offset + valLen > |data| {
      return None, offset;
    }
    var value := if valLen > 0 then data[offset..offset + valLen] else [];
    offset := offset + valLen;
    ItemParts(s, key, value, data[offset..]);
    return Some((key, value)), offset;
  }

  method TsDecodeTail(data: seq<byte>, start: nat, items: seq<Item>) returns (result: Option<RangeResponse>)
    requires start <= |data|
    ensures result == ParseTail(items, data[start..])
  {
    var offset := start;
    ghost var s := data[start..];
    if offset >= |data| {
      return None;
    }
    var hasMore := data[offset] != 0;
    offset := offset + 1;
    if offset + 2 > |data| {
      return None;
    }
    var nextCursorLen := Read16(data, offset);
    offset := offset + 2;
    assert Read16(s, 1) == nextCursorLen;
    if nextCursorLen > MAX_KEY_SIZE {
      return None;
    }
    if offset + nextCursorLen > |data| {
      return None;
    }
    assert s[3..3 + nextCursorLen] == data[offset..offset + nextCursorLen];
    return Some(RangeResponse(items, hasMore, if nextCursorLen > 0 then data[offset..offset + nextCursorLen] else []));
  }

  /** The same for the TypeScript decoder's loop. */
  ghost predicate TsUnderWay(all: Option<(seq<Item>, seq<byte>)>, done: seq<Item>, s: seq<byte>, left: nat) {
    all == Prepend(done, TsParseItems(s, left))
  }

  lemma TsItemTaken(all: Option<(seq<Item>, seq<byte>)>, done: seq<Item>, s: seq<byte>, left: nat,
                    item: Item, rest: seq<byte>)
    requires TsUnderWay(all, done, s, left) && left > 0 && TsParseItem(s) == Some((item, rest))
    ensures TsUnderWay(all, done + [item], rest, left - 1)
  {
    if TsParseItems(rest, left - 1).Some? {
      var (items, _) := TsParseItems(rest, left - 1).value;
      assert done + ([item] + items) == (done + [item]) + items;
    }
  }

  lemma TsItemRefused(all: Option<(seq<Item>, seq<byte>)>, done: seq<Item>, s: seq<byte>, left: nat)
    requires TsUnderWay(all, done, s, left) && left > 0 && TsParseItem(s).None?
    ensures all == None
  {
  }

  lemma TsItemsDone(all: Option<(seq<Item>, seq<byte>)>, done: seq<Item>, s: seq<byte>)
    requires TsUnderWay(all, done, s, 0)
    ensures all == Some((done, s))
  {
    assert done + [] == done;
  }

  /** The TypeScript decoder's item loop. */
  method TsDecodeItems(data: seq<byte>, count: nat) returns (items: seq<Item>, offset: nat, ok: bool)
    requires |data| >= 4
    ensures offset <= |data|
    ensures TsParseItems(data[4..], count) == if ok then Some((items, data[offset..])) else None
  {
    offset := 4;
    items := [];
    var i := 0;
    ghost var all := TsParseItems(data[4..], count);
    PrependNothing(all);
    while i < count
      invariant i <= count && offset <= |data|
      invariant TsUnderWay(all, items, data[offset..], count - i)
    {
      var item, next := TsDecodeItem(data, offset);
      if item.None? {
        TsItemRefused(all, items, data[offset..], count - i);
        return items, offset, false;
      }
      TsItemTaken(all, items, data[offset..], count - i, item.value, data[next..]);
      offset := next;
      items := items + [item.value];
      i := i + 1;
    }
    TsItemsDone(all, items, data[offset..]);
    ok := true;
  }

  /** decodeRangeResponse in TypeScript: the same as Go's decoder, but for the limit on values. */
  method TsDecodeRangeResponse(data: seq<byte>) returns (result: Option<RangeResponse>)
    ensures result == Limited(Parse(data))
  {
    if |data| < 7 {
      TooShort(data);
      return None;
    }
    var count := Read32(data, 0);
    TsParseItemsIsLimited(data[4..], count);
    var items, offset, ok := TsDecodeItems(data, count);
    if !ok {
      return None;
    }
    result := TsDecodeTail(data, offset, items);
  }

  lemma TooShort(data: seq<byte>)
    requires |data| < 7
    ensures Parse(data).None?
  {
    if Parse(data).Some? {
      BytesOfParsedItems(data[4..], Read32(data, 0));
    }
  }
}
