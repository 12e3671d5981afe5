/**
  * The range response on the wire, as a grammar and as a parser, and the theorem that ties them:
  * [count:4] then per item [keyLen:2][key][valLen:4][val], then [hasMore:1][nextCursorLen:2][nextCursor].
  */
module RangeFormat {
  import opened Bytes
  import opened Lists

  type Item = (seq<byte>, seq<byte>)

  datatype RangeResponse = RangeResponse(items: seq<Item>, hasMore: bool, nextCursor: seq<byte>)

  // ---- The grammar ----

  predicate ItemFits(item: Item) { |item.0| < 0x1_0000 && |item.1| < TWO_32 }

  predicate Fits(r: RangeResponse) {
    && |r.items| < TWO_32 && |r.nextCursor| < 0x1_0000
    && forall i :: 0 <= i < |r.items| ==> ItemFits(r.items[i])
  }

  function ItemBytes(item: Item): seq<byte>
    requires ItemFits(item)
  {
    Be16(|item.0|) + item.0 + Be32(|item.1|) + item.1
  }

  function ItemsBytes(items: seq<Item>): seq<byte>
    requires forall i :: 0 <= i < |items| ==> ItemFits(items[i])
  {
    if items == [] then [] else ItemBytes(items[0]) + ItemsBytes(items[1..])
  }

  lemma {:induction false} ItemsBytesAppend(items: seq<Item>, item: Item)
    requires ItemFits(item) && forall i :: 0 <= i < |items| ==> ItemFits(items[i])
    ensures forall i :: 0 <= i < |items + [item]| ==> ItemFits((items + [item])[i])
    ensures ItemsBytes(items + [item]) == ItemsBytes(items) + ItemBytes(item)
  {
    if items == [] {
      assert [item][1..] == [] && ItemsBytes([item]) == ItemBytes(item) + [];
    } else {
      var tail := items[1..];
      ItemsBytesAppend(tail, item);
      assert (items + [item])[1..] == tail + [item] && (items + [item])[0] == items[0];
      Associative(ItemBytes(items[0]), ItemsBytes(tail), ItemBytes(item));
    }
  }

  function TailBytes(flag: byte, cursor: seq<byte>): seq<byte>
    requires |cursor| < 0x1_0000
  {
    [flag] + Be16(|cursor|) + cursor
  }

  /** Any non-zero flag means that there is more. */
  function Encoding(r: RangeResponse, flag: byte): seq<byte>
    requires Fits(r)
  {
    Be32(|r.items|) + (ItemsBytes(r.items) + TailBytes(flag, r.nextCursor))
  }

  // ---- The parser ----

  /** One item off the front of `s`, and the rest. */
  function ParseItem(s: seq<byte>): Option<(Item, seq<byte>)> {
    if |s| < 2 then None
    else
      var k := Read16(s, 0);
      if |s| < 2 + k + 4 then None
      else
        var v := Read32(s, 2 + k);
        if |s| < 2 + k + 4 + v then None
        else Some(((s[2..2 + k], s[2 + k + 4..2 + k + 4 + v]), s[2 + k + 4 + v..]))
  }

  function ParseItems(s: seq<byte>, n: nat): Option<(seq<Item>, seq<byte>)>
    decreases n
  {
    if n == 0 then Some(([], s))
    else
      match ParseItem(s)
      case None => None
      case Some((item, rest)) => Prepend([item], ParseItems(rest, n - 1))
  }

  function Prepend(done: seq<Item>, r: Option<(seq<Item>, seq<byte>)>): Option<(seq<Item>, seq<byte>)> {
    match r
    case None => None
    case Some((items, rest)) => Some((done + items, rest))
  }

  /** Flag and cursor off the front of `s`; what follows is ignored by every decoder. */
  function ParseTail(items: seq<Item>, s: seq<byte>): Option<RangeResponse> {
    if |s| < 3 || |s| < 3 + Read16(s, 1) then None
    else Some(RangeResponse(items, s[0] != 0, s[3..3 + Read16(s, 1)]))
  }

  function Parse(data: seq<byte>): Option<RangeResponse> {
    if |data| < 4 then None
    else
      match ParseItems(data[4..], Read32(data, 0))
      case None => None
      case Some((items, rest)) => ParseTail(items, rest)
  }

  // ---- The parser accepts exactly the grammar ----

  lemma ParseItemOfBytes(item: Item, rest: seq<byte>)
    requires ItemFits(item)
    ensures ParseItem(ItemBytes(item) + rest) == Some((item, rest))
  {
    var (k, v) := item;
    var s := ItemBytes(item) + rest;
    assert s[0..2] == Be16(|k|);
    Read16Of(s, 0, |k|);
    assert s[2 + |k|..2 + |k| + 4] == Be32(|v|);
    Read32Of(s, 2 + |k|, |v|);
    assert s[2..2 + |k|] == k && s[2 + |k| + 4..2 + |k| + 4 + |v|] == v && s[2 + |k| + 4 + |v|..] == rest;
  }

  lemma BytesOfParsedItem(s: seq<byte>)
    requires ParseItem(s).Some?
    ensures var (item, rest) := ParseItem(s).value; ItemFits(item) && s == ItemBytes(item) + rest
  {
    var k := Read16(s, 0);
    var v := Read32(s, 2 + k);
    Be16Of(s, 0);
    Be32Of(s, 2 + k);
    assert s == s[0..2] + s[2..2 + k] + s[2 + k..2 + k + 4] + s[2 + k + 4..2 + k + 4 + v] + s[2 + k + 4 + v..];
  }

  lemma {:induction false} ParseItemsOfBytes(items: seq<Item>, rest: seq<byte>)
    requires forall i :: 0 <= i < |items| ==> ItemFits(items[i])
    ensures ParseItems(ItemsBytes(items) + rest, |items|) == Some((items, rest))
  {
    if items == [] {
      assert ItemsBytes(items) + rest == rest;
    } else {
      var first, later := ItemBytes(items[0]), ItemsBytes(items[1..]);
      Associative(first, later, rest);
      ParseItemOfBytes(items[0], later + rest);
      ParseItemsOfBytes(items[1..], rest);
      assert [items[0]] + items[1..] == items;
    }
  }

  lemma {:induction false} BytesOfParsedItems(s: seq<byte>, n: nat)
    requires ParseItems(s, n).Some?
    ensures var (items, rest) := ParseItems(s, n).value;
            |items| == n && (forall i :: 0 <= i < n ==> ItemFits(items[i])) && s == ItemsBytes(items) + rest
    decreases n
  {
    if n == 0 {
      assert ItemsBytes([]) + s == s;
    } else {
      var (item, after) := ParseItem(s).value;
      BytesOfParsedItem(s);
      BytesOfParsedItems(after, n - 1);
      var (later, rest) := ParseItems(after, n - 1).value;
      assert ([item] + later)[1..] == later && ([item] + later)[0] == item;
      Associative(ItemBytes(item), ItemsBytes(later), rest);
    }
  }

  lemma ParseTailOfBytes(items: seq<Item>, flag: byte, cursor: seq<byte>, rest: seq<byte>)
    requires |cursor| < 0x1_0000
    ensures ParseTail(items, TailBytes(flag, cursor) + rest) == Some(RangeResponse(items, flag != 0, cursor))
  {
    var s := TailBytes(flag, cursor) + rest;
    assert s[1..3] == Be16(|cursor|);
    Read16Of(s, 1, |cursor|);
    assert s[3..3 + |cursor|] == cursor;
  }

  /** Whatever follows the encoding, parsing gives back the response. */
  lemma ParseOfEncoding(r: RangeResponse, flag: byte, rest: seq<byte>)
    requires Fits(r) && (flag != 0 <==> r.hasMore)
    ensures Parse(Encoding(r, flag) + rest) == Some(r)
  {
    var data := Encoding(r, flag) + rest;
    var tail := TailBytes(flag, r.nextCursor) + rest;
    assert data == Be32(|r.items|) + (ItemsBytes(r.items) + tail);
    assert data[0..4] == Be32(|r.items|) && data[4..] == ItemsBytes(r.items) + tail;
    Read32Of(data, 0, |r.items|);
    ParseItemsOfBytes(r.items, tail);
    ParseTailOfBytes(r.items, flag, r.nextCursor, rest);
  }

  lemma BytesOfParsedTail(items: seq<Item>, s: seq<byte>) returns (rest: seq<byte>)
    requires ParseTail(items, s).Some?
    ensures var r := ParseTail(items, s).value;
            |r.nextCursor| < 0x1_0000 && s == TailBytes(s[0], r.nextCursor) + rest
  {
    rest := s[3 + Read16(s, 1)..];
    Be16Of(s, 1);
    assert s == [s[0]] + s[1..3] + s[3..3 + Read16(s, 1)] + rest;
  }

  lemma EncodingOfParsed(data: seq<byte>) returns (flag: byte, rest: seq<byte>)
    requires Parse(data).Some?
    ensures var r := Parse(data).value;
            Fits(r) && (flag != 0 <==> r.hasMore) && data == Encoding(r, flag) + rest
  {
    BytesOfParsedItems(data[4..], Read32(data, 0));
    var (items, s) := ParseItems(data[4..], Read32(data, 0)).value;
    rest := BytesOfParsedTail(items, s);
    flag := s[0];
    Be32Of(data, 0);
    var head, body, tail := Be32(|items|), ItemsBytes(items), TailBytes(flag, Parse(data).value.nextCursor);
    assert data == head + data[4..] && data[4..] == body + (tail + rest);
    Regroup(head, body, tail, rest);
  }

  lemma Regroup(a: seq<byte>, b: seq<byte>, c: seq<byte>, d: seq<byte>)
    ensures a + (b + (c + d)) == a + (b + c) + d
  {
  }

  /** The parser succeeds exactly on byte strings that begin with an encoding, and yields what is encoded. */
  lemma ParsesExactly(data: seq<byte>, r: RangeResponse)
    ensures Parse(data) == Some(r) <==>
            Fits(r) && exists flag: byte, rest :: (flag != 0 <==> r.hasMore) && data == Encoding(r, flag) + rest
  {
    if Parse(data) == Some(r) {
      var flag, rest := EncodingOfParsed(data);
    }
    if Fits(r) {
      forall flag: byte, rest | (flag != 0 <==> r.hasMore) && data == Encoding(r, flag) + rest
        ensures Parse(data) == Some(r)
      {
        ParseOfEncoding(r, flag, rest);
      }
    }
  }
}
