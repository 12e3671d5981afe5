/**
  * The Python client's batch encoders. They size a bytearray by counting characters, write UTF-8 bytes
  * into it by slice assignment at a running offset, and rely on slice assignment to extend it.
  */
module BatchEncode {
  import opened Bytes
  import opened Lists
  import opened Unicode
  import RangeFormat

  type TextItem = (Text, Text)

  // ---- What the encoders are to produce ----

  /** Lengths that pass the size check on characters and fit their fields in bytes. */
  predicate Encodable(item: TextItem) {
    |Utf8(item.0)| < 0x1_0000 && |item.1| <= MAX_VALUE_SIZE
  }

  predicate AllEncodable(items: seq<TextItem>) {
    forall i :: 0 <= i < |items| ==> Encodable(items[i])
  }

  function EncodedItem(item: TextItem): RangeFormat.Item { (Utf8(item.0), Utf8(item.1)) }

  function Encoded(items: seq<TextItem>): (r: seq<RangeFormat.Item>)
    ensures AllEncodable(items) ==> forall i :: 0 <= i < |r| ==> RangeFormat.ItemFits(r[i])
  {
    seq(|items|, i requires 0 <= i < |items| => EncodedItem(items[i]))
  }

  /** The items of a batch have the form of the items of a range response. */
  function ItemBytes(item: TextItem): seq<byte>
    requires Encodable(item)
  {
    RangeFormat.ItemBytes(EncodedItem(item))
  }

  function ItemsBytes(items: seq<TextItem>): seq<byte>
    requires AllEncodable(items)
  {
    RangeFormat.ItemsBytes(Encoded(items))
  }

  /** A decoder for that form reads back the UTF-8 of every key and value, and nothing is left over. */
  lemma ItemsReadBack(items: seq<TextItem>)
    requires AllEncodable(items) && |items| < TWO_32
    ensures var data := Be32(|items|) + ItemsBytes(items);
            var read := RangeFormat.ParseItems(data[4..], |items|);
            && Read32(data, 0) == |items| && read.Some? && read.value.1 == [] && |read.value.0| == |items|
            && forall i :: 0 <= i < |items| ==> read.value.0[i] == (Utf8(items[i].0), Utf8(items[i].1))
  {
    var data := Be32(|items|) + ItemsBytes(items);
    assert data[0..4] == Be32(|items|) && data[4..] == ItemsBytes(items) + [];
    Read32Of(data, 0, |items|);
    RangeFormat.ParseItemsOfBytes(Encoded(items), []);
  }

  function KeyBytes(key: Text): seq<byte>
    requires |Utf8(key)| < 0x1_0000
  {
    Be16(|Utf8(key)|) + Utf8(key)
  }

  function KeysBytes(keys: seq<Text>): seq<byte>
    requires forall i :: 0 <= i < |keys| ==> |Utf8(keys[i])| < 0x1_0000
  {
    if keys == [] then [] else KeyBytes(keys[0]) + KeysBytes(keys[1..])
  }

  /** The keys of a batch get as the server reads them: each behind its length. */
  function ParseKeys(s: seq<byte>, n: nat): Option<(seq<seq<byte>>, seq<byte>)>
    decreases n
  {
    if n == 0 then Some(([], s))
    else if |s| < 2 || |s| < 2 + Read16(s, 0) then None
    else
      match ParseKeys(s[2 + Read16(s, 0)..], n - 1)
      case None => None
      case Some((keys, rest)) => Some(([s[2..2 + Read16(s, 0)]] + keys, rest))
  }

  function KeysInUtf8(keys: seq<Text>): (r: seq<seq<byte>>)
    ensures |r| == |keys| && forall i :: 0 <= i < |keys| ==> r[i] == Utf8(keys[i])
  {
    if keys == [] then [] else [Utf8(keys[0])] + KeysInUtf8(keys[1..])
  }

  lemma {:induction false} ParseKeysOfBytes(keys: seq<Text>, rest: seq<byte>)
    requires forall i :: 0 <= i < |keys| ==> |Utf8(keys[i])| < 0x1_0000
    ensures ParseKeys(KeysBytes(keys) + rest, |keys|) == Some((KeysInUtf8(keys), rest))
  {
    if keys == [] {
      assert [] + rest == rest;
    } else {
      var later := KeysBytes(keys[1..]);
      Associative(KeyBytes(keys[0]), later, rest);
      KeyInFront(Utf8(keys[0]), later + rest);
      ParseKeysOfBytes(keys[1..], rest);
    }
  }

  lemma KeyInFront(key: seq<byte>, rest: seq<byte>)
    requires |key| < 0x1_0000
    ensures var s := Be16(|key|) + key + rest;
            && |s| >= 2 + |key| && Read16(s, 0) == |key|
            && s[2..2 + |key|] == key && s[2 + |key|..] == rest
  {
    var s := Be16(|key|) + key + rest;
    assert s[0..2] == Be16(|key|);
    Read16Of(s, 0, |key|);
  }

  /** Up to its limit on the count, the server reads back the UTF-8 of every key, and nothing is left over. */
  lemma KeysReadBack(keys: seq<Text>)
    requires |keys| < TWO_32 && forall i :: 0 <= i < |keys| ==> |Utf8(keys[i])| < 0x1_0000
    ensures var data := Be32(|keys|) + KeysBytes(keys);
            var read := ParseKeys(data[4..], |keys|);
            && Read32(data, 0) == |keys| && read.Some? && read.value.1 == [] && |read.value.0| == |keys|
            && forall i :: 0 <= i < |keys| ==> read.value.0[i] == Utf8(keys[i])
  {
    var data := Be32(|keys|) + KeysBytes(keys);
    assert data[0..4] == Be32(|keys|) && data[4..] == KeysBytes(keys) + [];
    Read32Of(data, 0, |keys|);
    ParseKeysOfBytes(keys, []);
  }

  // ---- Slice assignment ----

  /** buf[lo:hi] = bytes: bounds past the end are cut back, and the buffer takes the new length. */
  function AssignSlice(buf: seq<byte>, lo: nat, hi: nat, bytes: seq<byte>): seq<byte>
    requires lo <= hi
  {
    buf[..if lo <= |buf| then lo else |buf|] + bytes + buf[if hi <= |buf| then hi else |buf|..]
  }

  function Max(a: nat, b: nat): nat { if a >= b then a else b }

  /** Assigning as many bytes as the slice names extends the buffer exactly as far as they reach. */
  lemma AssignAtOffset(buf: seq<byte>, offset: nat, bytes: seq<byte>)
    requires offset <= |buf|
    ensures var r := AssignSlice(buf, offset, offset + |bytes|, bytes);
            |r| == Max(|buf|, offset + |bytes|) && r[..offset + |bytes|] == buf[..offset] + bytes
  {
  }

  // ---- The encoders ----

  /** The bytearray and the offset while items are written. */
  class Writer {
    var buf: seq<byte>
    var offset: nat
    const totalSize: nat

    ghost predicate Valid()
      reads this
    {
      offset <= |buf| == Max(totalSize, offset)
    }

    constructor (totalSize: nat)
      ensures Valid() && offset == 0 && this.totalSize == totalSize
    {
      this.totalSize := totalSize;
      buf := seq(totalSize, _ => 0);
      offset := 0;
    }

    /** buf[offset:offset+len(bytes)] = bytes; offset += len(bytes). */
    method Put(bytes: seq<byte>)
      requires Valid()
      modifies this
      ensures Valid() && offset == old(offset) + |bytes| && buf[..offset] == old(buf[..offset]) + bytes
    {
      AssignAtOffset(buf, offset, bytes);
      buf := AssignSlice(buf, offset, offset + |bytes|, bytes);
      offset := offset + |bytes|;
    }
  }

  /** The sum of characters that sizes the bytearray, four bytes for the count apart. */
  function CharSize(items: seq<TextItem>): nat {
    if items == [] then 0
    else CharSize(items[..|items| - 1]) + 2 + |items[|items| - 1].0| + 4 + |items[|items| - 1].1|
  }

  lemma ItemsBytesAppend(items: seq<TextItem>, item: TextItem)
    requires AllEncodable(items) && Encodable(item)
    ensures AllEncodable(items + [item]) && ItemsBytes(items + [item]) == ItemsBytes(items) + ItemBytes(item)
  {
    RangeFormat.ItemsBytesAppend(Encoded(items), EncodedItem(item));
    assert Encoded(items + [item]) == Encoded(items) + [EncodedItem(item)];
  }

  /** The bytearray is never larger than the bytes written into it. */
  lemma {:induction false} CharSizeIsNoMore(items: seq<TextItem>)
    requires AllEncodable(items)
    ensures CharSize(items) <= |ItemsBytes(items)|
    decreases |items|
  {
    if items != [] {
      var n := |items| - 1;
      CharSizeIsNoMore(items[..n]);
      ItemsBytesAppend(items[..n], items[n]);
      assert items == items[..n] + [items[n]];
    }
  }

  /** The four assignments for one item; struct.pack raises on a key that is too long in bytes. */
  method PutItem(w: Writer, item: TextItem) returns (ok: bool)
    requires w.Valid() && WithinLimits(item)
    modifies w
    ensures w.Valid() && ok == Encodable(item)
    ensures ok ==> w.offset >= old(w.offset) && w.buf[..w.offset] == old(w.buf[..w.offset]) + ItemBytes(item)
  {
    var keyBytes := Utf8(item.0);
    var valBytes := Utf8(item.1);
    ok := |keyBytes| < 0x1_0000;
    if ok {
      ghost var before := w.buf[..w.offset];
      w.Put(Be16(|keyBytes|));
      w.Put(keyBytes);
      w.Put(Be32(|valBytes|));
      w.Put(valBytes);
      assert w.buf[..w.offset] == before + Be16(|keyBytes|) + keyBytes + Be32(|valBytes|) + valBytes;
    }
  }

  /** The loop of encode_batch_set that writes the items; false is an exception from struct.pack. */
  method WriteItems(w: Writer, items: seq<TextItem>) returns (ok: bool)
    requires w.Valid() && AllWithinLimits(items)
    modifies w
    ensures w.Valid() && (ok <==> AllEncodable(items))
    ensures ok ==> w.buf[..w.offset] == old(w.buf[..w.offset]) + ItemsBytes(items)
  {
    var i := 0;
    while i < |items|
      invariant i <= |items| && w.Valid()
      invariant AllEncodable(items[..i])
      invariant w.buf[..w.offset] == old(w.buf[..w.offset]) + ItemsBytes(items[..i])
    {
      ghost var before := ItemsBytes(items[..i]);
      assert WithinLimits(items[i]);
      ok := PutItem(w, items[i]);
      if !ok {
        return;
      }
      ItemsBytesAppend(items[..i], items[i]);
      assert items[..i + 1] == items[..i] + [items[i]];
      Associative(old(w.buf[..w.offset]), before, ItemBytes(items[i]));
      i := i + 1;
    }
    assert items[..i] == items;
    ok := true;
  }

  /** The first loop of encode_batch_set: the size in characters, or an exception. */
  method TotalSize(items: seq<TextItem>) returns (totalSize: Option<nat>)
    ensures totalSize == if AllWithinLimits(items) then Some(4 + CharSize(items)) else None
  {
    var size := 4;
    var i := 0;
    while i < |items|
      invariant i <= |items| && size == 4 + CharSize(items[..i])
      invariant forall k :: 0 <= k < i ==> WithinLimits(items[k])
    {
      if |items[i].0| > MAX_KEY_SIZE || |items[i].1| > MAX_VALUE_SIZE {
        assert !WithinLimits(items[i]);
        return None;
      }
      assert items[..i + 1][..i] == items[..i];
      size := size + 2 + |items[i].0| + 4 + |items[i].1|;
      i := i + 1;
    }
    assert items[..i] == items;
    return Some(size);
  }

  /** The size check, which counts characters. */
  predicate WithinLimits(item: TextItem) {
    |item.0| <= MAX_KEY_SIZE && |item.1| <= MAX_VALUE_SIZE
  }

  predicate AllWithinLimits(items: seq<TextItem>) {
    forall i :: 0 <= i < |items| ==> WithinLimits(items[i])
  }

  /** What can be encoded passes the size check. */
  lemma EncodableIsWithinLimits(items: seq<TextItem>)
    ensures AllEncodable(items) ==> AllWithinLimits(items)
  {
    if AllEncodable(items) {
      forall i | 0 <= i < |items| ensures WithinLimits(items[i]) {
        assert Encodable(items[i]);
      }
    }
  }

  /**
    * encode_batch_set: although the bytearray is sized by characters, the result is exactly the
    * specified encoding, with no padding, for every batch whose lengths fit; otherwise it raises.
    */
  method EncodeBatchSet(items: seq<TextItem>) returns (result: Option<seq<byte>>)
    ensures result.Some? <==> |items| < TWO_32 && AllEncodable(items)
    ensures result.Some? ==> result.value == Be32(|items|) + ItemsBytes(items)
  {
    if items == [] {
      assert Be32(0) + [] == Be32(0);
      return Some(Be32(0));
    }
    EncodableIsWithinLimits(items);
    var totalSize := TotalSize(items);
    if totalSize.None? {
      return None;
    }
    if |items| >= TWO_32 {
      return None;
    }
    var w := new Writer(totalSize.value);
    w.Put(Be32(|items|));
    var ok := WriteItems(w, items);
    if !ok {
      return None;
    }
    CharSizeIsNoMore(items);
    assert w.buf == w.buf[..w.offset];
    return Some(w.buf);
  }

  function KeyCharSize(keys: seq<Text>): nat {
    if keys == [] then 0 else KeyCharSize(keys[..|keys| - 1]) + 2 + |keys[|keys| - 1]|
  }

  lemma {:induction false} KeysBytesAppend(keys: seq<Text>, key: Text)
    requires |Utf8(key)| < 0x1_0000 && forall i :: 0 <= i < |keys| ==> |Utf8(keys[i])| < 0x1_0000
    ensures forall i :: 0 <= i < |keys + [key]| ==> |Utf8((keys + [key])[i])| < 0x1_0000
    ensures KeysBytes(keys + [key]) == KeysBytes(keys) + KeyBytes(key)
  {
    if keys == [] {
      assert [key][1..] == [] && KeysBytes([key]) == KeyBytes(key) + [];
    } else {
      KeysBytesAppend(keys[1..], key);
      assert (keys + [key])[1..] == keys[1..] + [key];
      Associative(KeyBytes(keys[0]), KeysBytes(keys[1..]), KeyBytes(key));
    }
  }

  lemma {:induction false} KeyCharSizeIsNoMore(keys: seq<Text>)
    requires forall i :: 0 <= i < |keys| ==> |Utf8(keys[i])| < 0x1_0000
    ensures KeyCharSize(keys) <= |KeysBytes(keys)|
    decreases |keys|
  {
    if keys != [] {
      var n := |keys| - 1;
      KeyCharSizeIsNoMore(keys[..n]);
      KeysBytesAppend(keys[..n], keys[n]);
      assert keys == keys[..n] + [keys[n]];
    }
  }

  /** encode_batch_get, which encode_batch_delete shares. */
  method EncodeBatchGet(keys: seq<Text>) returns (result: Option<seq<byte>>)
    ensures result.Some? <==> |keys| < TWO_32 && forall i :: 0 <= i < |keys| ==> |Utf8(keys[i])| < 0x1_0000
    ensures result.Some? ==> result.value == Be32(|keys|) + KeysBytes(keys)
  {
    if keys == [] {
      return Some(Be32(0));
    }
    var totalSize := 4;
    var i := 0;
    while i < |keys|
      invariant i <= |keys| && totalSize == 4 + KeyCharSize(keys[..i])
    {
      if |keys[i]| > MAX_KEY_SIZE {
        return None;
      }
      assert keys[..i + 1][..i] == keys[..i];
      totalSize := totalSize + 2 + |keys[i]|;
      i := i + 1;
    }
    assert keys[..i] == keys;
    if |keys| >= TWO_32 {
      return None;
    }
    var w := new Writer(totalSize);
    w.Put(Be32(|keys|));
    var ok := WriteKeys(w, keys);
    if !ok {
      return None;
    }
    KeyCharSizeIsNoMore(keys);
    assert w.buf == w.buf[..w.offset];
    return Some(w.buf);
  }

  method PutKey(w: Writer, key: Text) returns (ok: bool)
    requires w.Valid()
    modifies w
    ensures w.Valid() && ok == (|Utf8(key)| < 0x1_0000)
    ensures ok ==> w.buf[..w.offset] == old(w.buf[..w.offset]) + KeyBytes(key)
  {
    var keyBytes := Utf8(key);
    ok := |keyBytes| < 0x1_0000;
    if ok {
      w.Put(Be16(|keyBytes|));
      w.Put(keyBytes);
    }
  }

  method WriteKeys(w: Writer, keys: seq<Text>) returns (ok: bool)
    requires w.Valid()
    modifies w
    ensures w.Valid() && (ok <==> forall i :: 0 <= i < |keys| ==> |Utf8(keys[i])| < 0x1_0000)
    ensures ok ==> w.buf[..w.offset] == old(w.buf[..w.offset]) + KeysBytes(keys)
  {
    var i := 0;
    while i < |keys|
      invariant i <= |keys| && w.Valid()
      invariant forall k :: 0 <= k < i ==> |Utf8(keys[k])| < 0x1_0000
      invariant w.buf[..w.offset] == old(w.buf[..w.offset]) + KeysBytes(keys[..i])
    {
      ghost var before := KeysBytes(keys[..i]);
      ok := PutKey(w, keys[i]);
      if !ok {
        return;
      }
      KeysBytesAppend(keys[..i], keys[i]);
      assert keys[..i + 1] == keys[..i] + [keys[i]];
      Associative(old(w.buf[..w.offset]), before, KeyBytes(keys[i]));
      i := i + 1;
    }
    assert keys[..i] == keys;
    ok := true;
  }
}
