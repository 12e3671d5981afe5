/**
  * The C client's lenient parser for range responses, and its agreement with the exact one. It keeps
  * whatever it could read of a malformed response; allocation never fails here.
  */
module CRange {
  import opened Bytes
  import opened Lists
  import opened RangeFormat

  /** What one index of the key and value arrays holds; None is a null pointer. */
  datatype Slot = Slot(key: Option<seq<byte>>, value: Option<seq<byte>>)

  datatype CResult = CResult(slots: seq<Slot>, hasMore: bool, nextCursor: Option<seq<byte>>)

  const EMPTY: Slot := Slot(None, None)

  function Empties(n: nat): (s: seq<Slot>)
    ensures |s| == n && forall i :: 0 <= i < n ==> s[i] == EMPTY
  {
    seq(n, _ => EMPTY)
  }

  // ---- The parser as a function of the bytes ----

  /** One item: what it fills in, the rest, and whether the loop goes on. */
  function CItem(s: seq<byte>): (Slot, seq<byte>, bool) {
    if |s| < 2 then (EMPTY, s, false)
    else
      var k := Read16(s, 0);
      if |s| < 2 + k then (EMPTY, s[2..], false)
      else
        var key := s[2..2 + k];
        if |s| < 2 + k + 4 then (Slot(Some(key), None), s[2 + k..], false)
        else
          var v := Read32(s, 2 + k);
          if |s| < 2 + k + 4 + v then (Slot(Some(key), None), s[2 + k + 4..], false)
          else (Slot(Some(key), Some(s[2 + k + 4..2 + k + 4 + v])), s[2 + k + 4 + v..], true)
  }

  /** The items of `n` slots, slots not reached being empty, and the rest. */
  function CItems(s: seq<byte>, n: nat): (seq<Slot>, seq<byte>)
    decreases n
  {
    if n == 0 then ([], s)
    else if s == [] then ([EMPTY] + CItems(s, n - 1).0, s)
    else
      var (slot, rest, more) := CItem(s);
      if more then ([slot] + CItems(rest, n - 1).0, CItems(rest, n - 1).1)
      else ([slot] + Empties(n - 1), rest)
  }

  function CTail(slots: seq<Slot>, s: seq<byte>): CResult {
    var hasMore := s != [] && s[0] != 0;
    var t := if s == [] then s else s[1..];
    if |t| < 2 || Read16(t, 0) == 0 || |t| < 2 + Read16(t, 0) then CResult(slots, hasMore, None)
    else CResult(slots, hasMore, Some(t[2..2 + Read16(t, 0)]))
  }

  function CParse(data: seq<byte>): CResult
    requires |data| >= 4
  {
    var (slots, rest) := CItems(data[4..], Read32(data, 0));
    CTail(slots, rest)
  }

  // ---- Agreement ----

  function Filled(items: seq<Item>): seq<Slot> {
    seq(|items|, i requires 0 <= i < |items| => Slot(Some(items[i].0), Some(items[i].1)))
  }

  lemma FilledCons(item: Item, items: seq<Item>)
    ensures Filled([item] + items) == [Slot(Some(item.0), Some(item.1))] + Filled(items)
  {
  }

  /** As far as the items can be parsed they are filled in, and the lenient parser goes on behind them. */
  lemma {:induction false} CItemsAgree(s: seq<byte>, k: nat, n: nat)
    requires k <= n && ParseItems(s, k).Some?
    ensures var (items, rest) := ParseItems(s, k).value;
            CItems(s, n) == (Filled(items) + CItems(rest, n - k).0, CItems(rest, n - k).1)
    decreases k
  {
    if k == 0 {
      assert Filled([]) + CItems(s, n).0 == CItems(s, n).0;
    } else {
      var (item, rest) := ParseItem(s).value;
      CItemsAgree(rest, k - 1, n - 1);
      var (items, tail) := ParseItems(rest, k - 1).value;
      assert CItem(s) == (Slot(Some(item.0), Some(item.1)), rest, true);
      FilledCons(item, items);
      Associative([Slot(Some(item.0), Some(item.1))], Filled(items), CItems(tail, n - k).0);
    }
  }

  /**
    * On every byte string that the exact parser accepts, the lenient one fills in the same items, flag
    * and cursor; an empty cursor is a null pointer.
    */
  lemma CParseAgrees(data: seq<byte>, r: RangeResponse)
    requires Parse(data) == Some(r)
    ensures var c := CParse(data);
            && c.hasMore == r.hasMore && c.nextCursor == (if r.nextCursor == [] then None else Some(r.nextCursor))
            && |c.slots| == |r.items|
            && forall i :: 0 <= i < |r.items| ==> c.slots[i] == Slot(Some(r.items[i].0), Some(r.items[i].1))
  {
    CItemsAgree(data[4..], Read32(data, 0), Read32(data, 0));
    var (items, s) := ParseItems(data[4..], Read32(data, 0)).value;
    assert Filled(items) + [] == Filled(items);
    assert Read16(s[1..], 0) == Read16(s, 1);
    assert s[1..][2..2 + Read16(s, 1)] == s[3..3 + Read16(s, 1)];
  }

  /** The key of an item that is cut short, if it is there in full. */
  function CutKey(s: seq<byte>): Option<seq<byte>> {
    if |s| >= 2 && |s| >= 2 + Read16(s, 0) then Some(s[2..2 + Read16(s, 0)]) else None
  }

  /**
    * What the lenient parser makes of items that are cut short: the k items before the cut in full, of the one
    * that is cut the key if it is there in full, and nothing of the others.
    */
  lemma CItemsOfCut(s: seq<byte>, k: nat, n: nat)
    requires k < n && ParseItems(s, k).Some? && ParseItem(ParseItems(s, k).value.1).None?
    ensures var (items, tail) := ParseItems(s, k).value;
            CItems(s, n).0 == Filled(items) + ([Slot(CutKey(tail), None)] + Empties(n - k - 1))
  {
    CItemsAgree(s, k, n);
    CutItem(ParseItems(s, k).value.1, n - k);
  }

  lemma CutItem(s: seq<byte>, n: nat)
    requires n > 0 && ParseItem(s).None?
    ensures CItems(s, n).0 == [Slot(CutKey(s), None)] + Empties(n - 1)
  {
    if s == [] {
      NothingLeft(n - 1);
    }
  }

  // ---- The item loop ----

  ghost predicate EmptyFrom(slots: seq<Slot>, i: nat) {
    forall k :: i <= k < |slots| ==> slots[k] == EMPTY
  }

  /** The loop's result when the slots before `i` are filled and the other items are still to be read. */
  function Continue(slots: seq<Slot>, i: nat, s: seq<byte>): (seq<Slot>, seq<byte>)
    requires i <= |slots|
  {
    (slots[..i] + CItems(s, |slots| - i).0, CItems(s, |slots| - i).1)
  }

  lemma NothingFilled(s: seq<byte>, n: nat)
    ensures Continue(Empties(n), 0, s) == CItems(s, n)
  {
    assert [] + CItems(s, n).0 == CItems(s, n).0;
  }

  lemma ItemFilled(slots: seq<Slot>, i: nat, s: seq<byte>)
    requires i < |slots| && s != [] && EmptyFrom(slots, i)
    ensures var (slot, rest, goOn) := CItem(s);
            var filled := slots[i := slot];
            && EmptyFrom(filled, i + 1)
            && Continue(slots, i, s) == if goOn then Continue(filled, i + 1, rest) else (filled, rest)
  {
    var (slot, rest, goOn) := CItem(s);
    var filled := slots[i := slot];
    assert filled[..i + 1] == slots[..i] + [slot];
    if goOn {
      var later := CItems(rest, |slots| - i - 1).0;
      assert slots[..i] + ([slot] + later) == (slots[..i] + [slot]) + later;
    } else {
      assert filled == slots[..i] + ([slot] + Empties(|slots| - i - 1));
    }
  }

  /** Out of slots or out of bytes, the slots stay as they are. */
  lemma ContinueEnds(slots: seq<Slot>, i: nat, s: seq<byte>)
    requires i <= |slots| && EmptyFrom(slots, i) && (i < |slots| ==> s == [])
    ensures Continue(slots, i, s) == (slots, s)
  {
    if i < |slots| {
      NothingLeft(|slots| - i);
    }
    assert slots == slots[..i] + Empties(|slots| - i);
  }

  lemma {:induction false} NothingLeft(n: nat)
    ensures CItems([], n) == (Empties(n), [])
    decreases n
  {
    if n == 0 {
      assert Empties(0) == [];
    } else {
      NothingLeft(n - 1);
      assert [EMPTY] + Empties(n - 1) == Empties(n);
    }
  }

  // ---- The parser itself ----

  class BBRangeResult {
    var count: nat
    var keys: array<Option<seq<byte>>>
    var values: array<Option<seq<byte>>>
    var nextCursor: Option<seq<byte>>
    var hasMore: bool

    constructor ()
      ensures fresh(keys) && fresh(values)
    {
      count := 0;
      keys, values := new Option<seq<byte>>[0], new Option<seq<byte>>[0];
      nextCursor, hasMore := None, false;
    }

    ghost predicate Valid()
      reads this
    {
      keys != values && keys.Length == values.Length == count
    }

    ghost function Slots(): seq<Slot>
      requires Valid()
      reads this, keys, values
    {
      seq(count, i requires 0 <= i < count reads this, keys, values =>
        if i < keys.Length && i < values.Length then Slot(keys[i], values[i]) else EMPTY)
    }

    ghost function View(): CResult
      requires Valid()
      reads this, keys, values
    {
      CResult(Slots(), hasMore, nextCursor)
    }

    /** One turn of the item loop for index i. */
    method FillItem(data: seq<byte>, start: nat, i: nat) returns (offset: nat, more: bool)
      requires Valid() && i < count && start <= |data| && Slots()[i] == EMPTY
      modifies keys, values
      ensures start <= offset <= |data|
      ensures var (slot, rest, goOn) := CItem(data[start..]);
        Slots() == old(Slots())[i := slot] && data[offset..] == rest && more == goOn
    {
      offset := start;
      ghost var s := data[start..];
      if offset + 2 > |data| {
        assert Slots() == old(Slots())[i := EMPTY];
        return offset, false;
      }
      var keyLen := Read16(data, offset);
      offset := offset + 2;
      assert Read16(s, 0) == keyLen;
      if offset + keyLen > |data| {
        assert Slots() == old(Slots())[i := EMPTY];
        return offset, false;
      }
      assert data[offset..offset + keyLen] == s[2..2 + keyLen];
      keys[i] := Some(data[offset..offset + keyLen]);
      offset := offset + keyLen;
      assert Slots() == old(Slots())[i := Slot(keys[i], None)];
      if offset + 4 > |data| {
        return offset, false;
      }
      var valLen := Read32(data, offset);
      offset := offset + 4;
      assert Read32(s, 2 + keyLen) == valLen;
      if offset + valLen > |data| {
        return offset, false;
      }
      assert data[offset..offset + valLen] == s[2 + keyLen + 4..2 + keyLen + 4 + valLen];
      values[i] := Some(data[offset..offset + valLen]);
      offset := offset + valLen;
      assert Slots() == old(Slots())[i := Slot(keys[i], values[i])];
      return offset, true;
    }

    /** The item loop: it fills the arrays until an item is cut short or the bytes run out. */
    method FillItems(data: seq<byte>) returns (offset: nat)
      requires Valid() && |data| >= 4 && Slots() == Empties(count)
      modifies keys, values
      ensures offset <= |data| && (Slots(), data[offset..]) == CItems(data[4..], count)
    {
      offset := 4;
      var i := 0;
      var more := true;
      ghost var slots, all := Slots(), CItems(data[4..], count);
      assert slots[..0] == [];
      NothingFilled(data[4..], count);
      while i < count && offset < |data| && more
        invariant 4 <= offset <= |data| && i <= count == |slots| && slots == Slots()
        invariant EmptyFrom(slots, i)
        invariant all == if more then Continue(slots, i, data[offset..]) else (slots, data[offset..])
        decreases count - i, more
      {
        ItemFilled(slots, i, data[offset..]);
        var next, goOn := FillItem(data, offset, i);
        slots := Slots();
        offset, more := next, goOn;
        i := i + 1;
      }
      if more {
        ContinueEnds(slots, i, data[offset..]);
      }
    }

    /** What follows the items: the flag and the cursor, as far as they are there. */
    method FillTail(data: seq<byte>, start: nat)
      requires start <= |data| && !hasMore && nextCursor == None
      modifies this`hasMore, this`nextCursor
      ensures forall slots :: CResult(slots, hasMore, nextCursor) == CTail(slots, data[start..])
    {
      var offset := start;
      ghost var s := data[offset..];
      if offset < |data| {
        hasMore := data[offset] != 0;
        offset := offset + 1;
      }
      ghost var t := if s == [] then s else s[1..];
      assert t == data[offset..];
      if offset + 2 <= |data| {
        var cursorLen := Read16(data, offset);
        offset := offset + 2;
        assert Read16(t, 0) == cursorLen;
        if cursorLen > 0 && offset + cursorLen <= |data| {
          nextCursor := Some(data[offset..offset + cursorLen]);
          assert t[2..2 + cursorLen] == data[offset..offset + cursorLen];
        }
      }
    }

    /** parse_range_response. */
    method ParseRangeResponse(data: seq<byte>) returns (ok: bool)
      modifies this
      ensures ok == (|data| >= 4)
      ensures ok ==> Valid() && fresh(keys) && fresh(values) && View() == CParse(data)
      ensures !ok ==> unchanged(this)
    {
      if |data| < 4 {
        return false;
      }
      count := Read32(data, 0);
      keys := new Option<seq<byte>>[count](_ => None);
      values := new Option<seq<byte>>[count](_ => None);
      nextCursor := None;
      hasMore := false;
      assert Slots() == Empties(count);
      var offset := FillItems(data);
      FillTail(data, offset);
      return true;
    }
  }
}
