/**
  * The messages as tables of fields, the way the protocol's documentation gives them: numbers of a fixed
  * width with the most significant byte first, and byte strings. Every encoding is shown to be its table.
  */
module WireLayout {
  import opened Bytes
  import opened Lists
  import WireFrame
  import RequestCodec
  import ResponseCodec
  import RangeFormat
  import EventCodec
  import BatchEncode
  import BatchReply
  import Unicode

  // ---- Tables ----

  datatype Field = Number(value: nat, width: nat) | Raw(bytes: seq<byte>)

  /** The last `width` digits of a number in base 256. */
  function Digits(n: nat, width: nat): seq<byte> {
    if width == 0 then [] else Digits(n / 0x100, width - 1) + [n % 0x100]
  }

  function Laid(fields: seq<Field>): seq<byte> {
    if fields == [] then []
    else (match fields[0]
          case Number(n, width) => Digits(n, width)
          case Raw(bytes) => bytes) + Laid(fields[1..])
  }

  /** A byte string with its length in front. */
  function Sized(bytes: seq<byte>, width: nat): seq<Field> { [Number(|bytes|, width), Raw(bytes)] }

  lemma LaidOne(f: Field, rest: seq<Field>)
    ensures Laid([f] + rest) == (match f case Number(n, w) => Digits(n, w) case Raw(b) => b) + Laid(rest)
  {
    assert ([f] + rest)[1..] == rest;
  }

  lemma {:induction false} LaidConcat(a: seq<Field>, b: seq<Field>)
    ensures Laid(a + b) == Laid(a) + Laid(b)
  {
    if a == [] {
      assert a + b == b;
    } else {
      assert (a + b)[1..] == a[1..] + b && (a + b)[0] == a[0];
      LaidConcat(a[1..], b);
    }
  }

  lemma LaidSized(bytes: seq<byte>, width: nat)
    ensures Laid(Sized(bytes, width)) == Digits(|bytes|, width) + bytes
  {
    var fields := Sized(bytes, width);
    assert fields[1..] == [Raw(bytes)] && [Raw(bytes)][1..] == [];
    assert Laid([Raw(bytes)]) == bytes + [];
  }

  // ---- The widths in use ----

  lemma OneDigit(n: byte)
    ensures Digits(n, 1) == [n]
  {
    assert Digits(n / 0x100, 0) + [n % 0x100] == [n];
  }

  lemma TwoDigits(n: nat)
    requires n < 0x1_0000
    ensures Digits(n, 2) == Be16(n)
  {
    OneDigit(n / 0x100);
  }

  lemma FourDigits(n: nat)
    requires n < TWO_32
    ensures Digits(n, 4) == Be32(n)
  {
    var high, low := n / 0x1_0000, n % 0x1_0000;
    assert n / 0x100 / 0x100 == high && n / 0x100 % 0x100 == low / 0x100 && n % 0x100 == low % 0x100;
    TwoDigits(high);
    assert Digits(n, 4) == Digits(n / 0x100, 3) + [n % 0x100] == (Digits(high, 2) + [n / 0x100 % 0x100]) + [n % 0x100];
  }

  lemma {:induction false} DigitsSplit(high: nat, low: nat, a: nat, b: nat)
    requires low < Power(b)
    ensures Digits(high * Power(b) + low, a + b) == Digits(high, a) + Digits(low, b)
    decreases b
  {
    if b == 0 {
      assert Digits(low, 0) == [] && high * 1 + low == high;
    } else {
      var n := high * Power(b) + low;
      var m := high * Power(b - 1);
      assert n == 0x100 * m + low by {
        assert high * (0x100 * Power(b - 1)) == 0x100 * m;
      }
      assert n / 0x100 == m + low / 0x100 && n % 0x100 == low % 0x100;
      DigitsSplit(high, low / 0x100, a, b - 1);
    }
  }

  function Power(b: nat): nat { if b == 0 then 1 else 0x100 * Power(b - 1) }

  lemma EightDigits(n: nat)
    requires n < TWO_32 * TWO_32
    ensures Digits(n, 8) == Be64(n)
  {
    assert Power(2) == 0x1_0000 && Power(4) == 0x1_0000 * Power(2) == TWO_32;
    DigitsSplit(n / TWO_32, n % TWO_32, 4, 4);
    FourDigits(n / TWO_32);
    FourDigits(n % TWO_32);
  }

  // ---- The tables ----

  /** A request: docs/PROTOCOL.md, section on the request frame. */
  function RequestTable(r: RequestCodec.Request, ttl: Option<nat>): seq<Field> {
    [Number(r.command, 1), Number(r.tag, 4), Number(if ttl.Some? then 1 else 0, 1)]
    + Sized(r.key, 2) + Sized(r.value, 4) + TtlTable(ttl)
  }

  lemma RequestIsItsTable(r: RequestCodec.Request, ttl: Option<nat>)
    requires RequestCodec.Fits(r) && (ttl.Some? ==> ttl.value < TWO_32)
    ensures RequestCodec.EncodingWithTtl(r, ttl) == Laid(RequestTable(r, ttl))
  {
    var flags: byte := if ttl.Some? then 1 else 0;
    Numbers3(r.command, r.tag, flags);
    SizedTwo(r.key);
    SizedFour(r.value);
    LaidTtl(ttl);
    LaidFour([Number(r.command, 1), Number(r.tag, 4), Number(flags, 1)], Sized(r.key, 2), Sized(r.value, 4),
             TtlTable(ttl),
             [r.command] + Be32(r.tag) + [flags], Be16(|r.key|) + r.key, Be32(|r.value|) + r.value,
             RequestCodec.TtlSuffix(ttl));
    RequestParts(r, flags);
  }

  lemma RequestParts(r: RequestCodec.Request, flags: byte)
    requires RequestCodec.Fits(r)
    ensures RequestCodec.Encoding(r, flags) ==
            ([r.command] + Be32(r.tag) + [flags]) + (Be16(|r.key|) + r.key) + (Be32(|r.value|) + r.value)
  {
  }

  function TtlTable(ttl: Option<nat>): seq<Field> { if ttl.Some? then [Number(ttl.value, 4)] else [] }

  lemma LaidTtl(ttl: Option<nat>)
    requires ttl.Some? ==> ttl.value < TWO_32
    ensures Laid(TtlTable(ttl)) == RequestCodec.TtlSuffix(ttl)
  {
    if ttl.Some? {
      FourDigits(ttl.value);
      LaidOne(Number(ttl.value, 4), []);
      assert [Number(ttl.value, 4)] + [] == [Number(ttl.value, 4)];
    }
  }

  lemma Numbers3(a: byte, b: nat, c: byte)
    requires b < TWO_32
    ensures Laid([Number(a, 1), Number(b, 4), Number(c, 1)]) == [a] + Be32(b) + [c]
  {
    OneDigit(a);
    FourDigits(b);
    OneDigit(c);
    LaidOne(Number(a, 1), [Number(b, 4), Number(c, 1)]);
    LaidOne(Number(b, 4), [Number(c, 1)]);
    LaidOne(Number(c, 1), []);
    assert [Number(a, 1)] + [Number(b, 4), Number(c, 1)] == [Number(a, 1), Number(b, 4), Number(c, 1)];
    assert [Number(b, 4)] + [Number(c, 1)] == [Number(b, 4), Number(c, 1)] && [Number(c, 1)] + [] == [Number(c, 1)];
  }

  lemma SizedTwo(bytes: seq<byte>)
    requires |bytes| < 0x1_0000
    ensures Laid(Sized(bytes, 2)) == Be16(|bytes|) + bytes
  {
    LaidSized(bytes, 2);
    TwoDigits(|bytes|);
  }

  lemma SizedFour(bytes: seq<byte>)
    requires |bytes| < TWO_32
    ensures Laid(Sized(bytes, 4)) == Be32(|bytes|) + bytes
  {
    LaidSized(bytes, 4);
    FourDigits(|bytes|);
  }

  lemma LaidFour(a: seq<Field>, b: seq<Field>, c: seq<Field>, d: seq<Field>,
                 w: seq<byte>, x: seq<byte>, y: seq<byte>, z: seq<byte>)
    requires Laid(a) == w && Laid(b) == x && Laid(c) == y && Laid(d) == z
    ensures Laid(a + b + c + d) == w + x + y + z
  {
    LaidConcat(a, b);
    LaidConcat(a + b, c);
    LaidConcat(a + b + c, d);
  }

  /** A response: the section on the response frame. */
  lemma ResponseIsItsTable(r: ResponseCodec.Response)
    requires ResponseCodec.Fits(r)
    ensures ResponseCodec.Encoding(r) == Laid([Number(r.status, 1), Number(r.tag, 4)] + Sized(r.value, 4))
  {
    LaidConcat([Number(r.status, 1), Number(r.tag, 4)], Sized(r.value, 4));
    Numbers2(r.status, r.tag);
    SizedFour(r.value);
  }

  lemma Numbers2(a: byte, b: nat)
    requires b < TWO_32
    ensures Laid([Number(a, 1), Number(b, 4)]) == [a] + Be32(b)
  {
    OneDigit(a);
    FourDigits(b);
    LaidOne(Number(a, 1), [Number(b, 4)]);
    LaidOne(Number(b, 4), []);
    assert [Number(a, 1)] + [Number(b, 4)] == [Number(a, 1), Number(b, 4)] && [Number(b, 4)] + [] == [Number(b, 4)];
  }

  function ItemTable(item: RangeFormat.Item): seq<Field> { Sized(item.0, 2) + Sized(item.1, 4) }

  function ItemsTable(items: seq<RangeFormat.Item>): seq<Field> {
    if items == [] then [] else ItemTable(items[0]) + ItemsTable(items[1..])
  }

  /** The items of a range response, and those of a batch. */
  lemma {:induction false} ItemsAreTheirTable(items: seq<RangeFormat.Item>)
    requires forall i :: 0 <= i < |items| ==> RangeFormat.ItemFits(items[i])
    ensures RangeFormat.ItemsBytes(items) == Laid(ItemsTable(items))
  {
    if items != [] {
      var (k, v) := items[0];
      ItemsAreTheirTable(items[1..]);
      LaidConcat(ItemTable(items[0]), ItemsTable(items[1..]));
      LaidConcat(Sized(k, 2), Sized(v, 4));
      SizedTwo(k);
      SizedFour(v);
      assert RangeFormat.ItemBytes(items[0]) == (Be16(|k|) + k) + (Be32(|v|) + v);
    }
  }

  lemma RangeResponseIsItsTable(r: RangeFormat.RangeResponse)
    requires RangeFormat.Fits(r)
    ensures RangeFormat.Encoding(r, if r.hasMore then 1 else 0) ==
            Laid([Number(|r.items|, 4)] + ItemsTable(r.items)
                 + [Number(if r.hasMore then 1 else 0, 1)] + Sized(r.nextCursor, 2))
  {
    var flag: byte := if r.hasMore then 1 else 0;
    var count, items := Be32(|r.items|), RangeFormat.ItemsBytes(r.items);
    var cursor := Be16(|r.nextCursor|) + r.nextCursor;
    FourDigits(|r.items|);
    LaidNumber(|r.items|, 4);
    ItemsAreTheirTable(r.items);
    OneDigit(flag);
    LaidNumber(flag, 1);
    SizedTwo(r.nextCursor);
    LaidFour([Number(|r.items|, 4)], ItemsTable(r.items), [Number(flag, 1)], Sized(r.nextCursor, 2),
             count, items, [flag], cursor);
    RangeParts(count, items, flag, r.nextCursor);
  }

  lemma LaidNumber(n: nat, width: nat)
    ensures Laid([Number(n, width)]) == Digits(n, width)
  {
    assert [Number(n, width)][1..] == [] && Digits(n, width) + [] == Digits(n, width);
  }

  lemma RangeParts(count: seq<byte>, items: seq<byte>, flag: byte, cursor: seq<byte>)
    requires |cursor| < 0x1_0000
    ensures count + (items + RangeFormat.TailBytes(flag, cursor)) == count + items + [flag] + (Be16(|cursor|) + cursor)
  {
  }

  /** An event behind its first byte and the sequence number that follows it. */
  lemma EventIsItsTable(lead: nat, e: EventCodec.Event)
    requires lead < TWO_32 && EventCodec.Fits(e)
    ensures EventCodec.Encoding([0xFF] + Be32(lead), e) ==
            Laid([Number(0xFF, 1), Number(lead, 4)] + Sized(e.topic, 2)
                 + [Number(e.messageType, 1), Number(e.sequence, 8), Number(e.timestamp, 8)]
                 + (Sized(e.headers, 4) + Sized(e.payload, 4)))
  {
    var middle := [Number(e.messageType, 1), Number(e.sequence, 8), Number(e.timestamp, 8)];
    var topic, back := Be16(|e.topic|) + e.topic, (Be32(|e.headers|) + e.headers) + (Be32(|e.payload|) + e.payload);
    Numbers2(0xFF, lead);
    SizedTwo(e.topic);
    LaidMiddle(e);
    LaidConcat(Sized(e.headers, 4), Sized(e.payload, 4));
    SizedFour(e.headers);
    SizedFour(e.payload);
    LaidFour([Number(0xFF, 1), Number(lead, 4)], Sized(e.topic, 2), middle, Sized(e.headers, 4) + Sized(e.payload, 4),
             [0xFF] + Be32(lead), topic, EventCodec.Middle(e), back);
    EventParts(lead, e);
  }

  lemma EventParts(lead: nat, e: EventCodec.Event)
    requires lead < TWO_32 && EventCodec.Fits(e)
    ensures EventCodec.Encoding([0xFF] + Be32(lead), e) ==
            ([0xFF] + Be32(lead)) + (Be16(|e.topic|) + e.topic) + EventCodec.Middle(e)
            + ((Be32(|e.headers|) + e.headers) + (Be32(|e.payload|) + e.payload))
  {
    assert EventCodec.Back(e) == (Be32(|e.headers|) + e.headers) + (Be32(|e.payload|) + e.payload);
  }

  lemma LaidMiddle(e: EventCodec.Event)
    requires EventCodec.Fits(e)
    ensures Laid([Number(e.messageType, 1), Number(e.sequence, 8), Number(e.timestamp, 8)]) == EventCodec.Middle(e)
  {
    var a, b, c := Number(e.messageType, 1), Number(e.sequence, 8), Number(e.timestamp, 8);
    OneDigit(e.messageType);
    EightDigits(e.sequence);
    EightDigits(e.timestamp);
    LaidOne(a, [b, c]);
    LaidOne(b, [c]);
    LaidOne(c, []);
    assert [a] + [b, c] == [a, b, c] && [b] + [c] == [b, c] && [c] + [] == [c];
  }

  /** The reply to one key of a batch. */
  lemma ReplyIsItsTable(r: BatchReply.Reply)
    requires BatchReply.Fits(r)
    ensures BatchReply.ReplyBytes(r) == Laid([Number(r.status, 1)] + Sized(r.value, 4))
  {
    LaidOne(Number(r.status, 1), Sized(r.value, 4));
    OneDigit(r.status);
    SizedFour(r.value);
  }

  /** One key of a batch get. */
  lemma KeyIsItsTable(key: Unicode.Text)
    requires |Unicode.Utf8(key)| < 0x1_0000
    ensures BatchEncode.KeyBytes(key) == Laid(Sized(Unicode.Utf8(key), 2))
  {
    SizedTwo(Unicode.Utf8(key));
  }

  function LengthTable(form: WireFrame.LengthForm, mask: byte, n: nat): seq<Field> {
    match form
    case Short => [Number(mask + n, 1)]
    case Medium => [Number(mask + 126, 1), Number(n, 2)]
    case Long => [Number(mask + 127, 1), Number(n, 8)]
  }

  function BodyTable(key: Option<WireFrame.MaskKey>, payload: seq<byte>): seq<Field> {
    if key.Some? then [Raw(key.value), Raw(WireFrame.Mask(payload, key.value))] else [Raw(payload)]
  }

  /** A WebSocket frame: section 5.2 of RFC 6455. */
  lemma FrameIsItsTable(first: byte, form: WireFrame.LengthForm, key: Option<WireFrame.MaskKey>, payload: seq<byte>)
    requires WireFrame.Fits(form, |payload|)
    ensures WireFrame.Frame(first, form, key, payload) ==
            Laid([Number(first, 1)] + LengthTable(form, if key.Some? then 0x80 else 0, |payload|)
                 + BodyTable(key, payload))
  {
    var mask: byte := if key.Some? then 0x80 else 0;
    OneDigit(first);
    LaidNumber(first, 1);
    LaidLength(form, mask, |payload|);
    LaidBody(key, payload);
    LaidConcat([Number(first, 1)], LengthTable(form, mask, |payload|));
    LaidConcat([Number(first, 1)] + LengthTable(form, mask, |payload|), BodyTable(key, payload));
  }

  lemma LaidLength(form: WireFrame.LengthForm, mask: byte, n: nat)
    requires WireFrame.Fits(form, n) && (mask == 0 || mask == 0x80)
    ensures WireFrame.LengthBytes(form, mask, n) == Laid(LengthTable(form, mask, n))
  {
    match form
    case Short =>
      OneDigit(mask + n);
      LaidNumber(mask + n, 1);
    case Medium =>
      OneDigit(mask + 126);
      TwoDigits(n);
      LaidTwo(Number(mask + 126, 1), Number(n, 2));
    case Long =>
      OneDigit(mask + 127);
      EightDigits(n);
      LaidTwo(Number(mask + 127, 1), Number(n, 8));
  }

  lemma LaidTwo(a: Field, b: Field)
    ensures Laid([a, b]) == Laid([a]) + Laid([b])
    ensures Laid([a]) == match a case Number(n, w) => Digits(n, w) case Raw(s) => s
    ensures Laid([b]) == match b case Number(n, w) => Digits(n, w) case Raw(s) => s
  {
    LaidConcat([a], [b]);
    assert [a] + [b] == [a, b];
    LaidOne(a, []);
    LaidOne(b, []);
    assert [a] + [] == [a] && [b] + [] == [b];
  }

  lemma LaidBody(key: Option<WireFrame.MaskKey>, payload: seq<byte>)
    ensures Laid(BodyTable(key, payload)) ==
            if key.Some? then key.value + WireFrame.Mask(payload, key.value) else payload
  {
    if key.Some? {
      LaidTwo(Raw(key.value), Raw(WireFrame.Mask(payload, key.value)));
    } else {
      LaidTwo(Raw(payload), Raw(payload));
    }
  }
}
