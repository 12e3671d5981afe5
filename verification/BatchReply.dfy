/** Replies to a batch get: the exact decoder in Python, and the lenient loop in C. */
module BatchReply {
  import opened Bytes
  import opened Lists
  import opened Unicode

  type Key = seq<byte>

  /** What the server says about one key. */
  datatype Reply = Reply(status: byte, value: seq<byte>)

  const STATUS_OK: byte := 0

  // ---- The grammar: [status:1][seq:4][count:4], then [status:1][valLen:4][val] per key ----

  predicate Fits(r: Reply) { |r.value| < TWO_32 }

  function ReplyBytes(r: Reply): seq<byte>
    requires Fits(r)
  {
    [r.status] + Be32(|r.value|) + r.value
  }

  function RepliesBytes(rs: seq<Reply>): seq<byte>
    requires forall i :: 0 <= i < |rs| ==> Fits(rs[i])
  {
    if rs == [] then [] else ReplyBytes(rs[0]) + RepliesBytes(rs[1..])
  }

  // ---- The parser ----

  function ParseReply(s: seq<byte>): Option<(Reply, seq<byte>)> {
    if |s| < 5 || |s| < 5 + Read32(s, 1) then None
    else Some((Reply(s[0], s[5..5 + Read32(s, 1)]), s[5 + Read32(s, 1)..]))
  }

  function ParseReplies(s: seq<byte>, n: nat): (r: Option<seq<Reply>>)
    ensures r.Some? ==> |r.value| == n
    decreases n
  {
    if n == 0 then Some([])
    else
      match ParseReply(s)
      case None => None
      case Some((r, rest)) => Prepend([r], ParseReplies(rest, n - 1))
  }

  function Prepend(done: seq<Reply>, r: Option<seq<Reply>>): Option<seq<Reply>> {
    match r
    case None => None
    case Some(rs) => Some(done + rs)
  }

  lemma ParseOfReply(r: Reply, rest: seq<byte>)
    requires Fits(r)
    ensures ParseReply(ReplyBytes(r) + rest) == Some((r, rest))
  {
    var s := ReplyBytes(r) + rest;
    assert s[1..5] == Be32(|r.value|);
    Read32Of(s, 1, |r.value|);
    assert s[5..5 + |r.value|] == r.value && s[5 + |r.value|..] == rest;
  }

  lemma BytesOfReply(s: seq<byte>)
    requires ParseReply(s).Some?
    ensures var (r, rest) := ParseReply(s).value; Fits(r) && s == ReplyBytes(r) + rest
  {
    Be32Of(s, 1);
    assert s == [s[0]] + s[1..5] + s[5..5 + Read32(s, 1)] + s[5 + Read32(s, 1)..];
  }

  /** The parser accepts exactly the byte strings that begin with n encoded replies. */
  lemma {:induction false} RepliesParse(rs: seq<Reply>, rest: seq<byte>)
    requires forall i :: 0 <= i < |rs| ==> Fits(rs[i])
    ensures ParseReplies(RepliesBytes(rs) + rest, |rs|) == Some(rs)
  {
    if rs != [] {
      Associative(ReplyBytes(rs[0]), RepliesBytes(rs[1..]), rest);
      ParseOfReply(rs[0], RepliesBytes(rs[1..]) + rest);
      RepliesParse(rs[1..], rest);
      assert [rs[0]] + rs[1..] == rs;
    }
  }

  lemma {:induction false} ParsedReplies(s: seq<byte>, n: nat) returns (rest: seq<byte>)
    requires ParseReplies(s, n).Some?
    ensures var rs := ParseReplies(s, n).value;
            |rs| == n && (forall i :: 0 <= i < n ==> Fits(rs[i])) && s == RepliesBytes(rs) + rest
    decreases n
  {
    if n == 0 {
      rest := s;
      assert RepliesBytes([]) + s == s;
    } else {
      var (r, after) := ParseReply(s).value;
      BytesOfReply(s);
      rest := ParsedReplies(after, n - 1);
      var rs := ParseReplies(after, n - 1).value;
      assert ([r] + rs)[1..] == rs && ([r] + rs)[0] == r;
      Associative(ReplyBytes(r), RepliesBytes(rs), rest);
    }
  }

  // ---- Python ----

  /** The keys that were found, with their values, in the order of the request. */
  function Found(keys: seq<Key>, rs: seq<Reply>): seq<(Key, seq<byte>)>
    requires |keys| == |rs|
  {
    if keys == [] then []
    else (if rs[0].status == STATUS_OK then [(keys[0], rs[0].value)] else []) + Found(keys[1..], rs[1..])
  }

  /** The pairs are in the order of the request: those of its first keys come first. */
  lemma {:induction false} FoundInOrder(a: seq<Key>, ra: seq<Reply>, b: seq<Key>, rb: seq<Reply>)
    requires |a| == |ra| && |b| == |rb|
    ensures Found(a + b, ra + rb) == Found(a, ra) + Found(b, rb)
  {
    if a == [] {
      assert a + b == b && ra + rb == rb && [] + Found(b, rb) == Found(b, rb);
    } else {
      assert (a + b)[1..] == a[1..] + b && (ra + rb)[1..] == ra[1..] + rb;
      FoundInOrder(a[1..], ra[1..], b, rb);
      Associative(if ra[0].status == STATUS_OK then [(a[0], ra[0].value)] else [],
                  Found(a[1..], ra[1..]), Found(b, rb));
    }
  }

  /** A pair is in the result exactly when some key of the request was answered with status 0 and that value. */
  lemma {:induction false} FoundExactly(keys: seq<Key>, rs: seq<Reply>, k: Key, v: seq<byte>)
    requires |keys| == |rs|
    ensures (k, v) in Found(keys, rs) <==>
            exists i :: 0 <= i < |keys| && keys[i] == k && rs[i] == Reply(0, v)
  {
    if keys != [] {
      FoundExactly(keys[1..], rs[1..], k, v);
      if exists i :: 0 <= i < |keys| && keys[i] == k && rs[i] == Reply(STATUS_OK, v) {
        var i :| 0 <= i < |keys| && keys[i] == k && rs[i] == Reply(STATUS_OK, v);
        if i > 0 { assert keys[1..][i - 1] == k && rs[1..][i - 1] == rs[i]; }
      }
      if (k, v) in Found(keys[1..], rs[1..]) {
        var j :| 0 <= j < |keys[1..]| && keys[1..][j] == k && rs[1..][j] == Reply(STATUS_OK, v);
        assert keys[j + 1] == k && rs[j + 1] == Reply(STATUS_OK, v);
      }
    }
  }

  /** Every value is UTF-8, found or not; a string stands for the one UTF-8 that spells it. */
  predicate AllText(rs: seq<Reply>) { forall r :: r in rs ==> IsText(r.value) }

  /** The reply is long enough for its header, counts as many replies as keys, and holds them all. */
  predicate WellFormed(data: seq<byte>, keys: seq<Key>) {
    |data| >= 9 && Read32(data, 5) == |keys| && ParseReplies(data[9..], |keys|).Some?
  }

  lemma PrependNothing(r: Option<seq<Reply>>)
    ensures Prepend([], r) == r
  {
    if r.Some? { assert [] + r.value == r.value; }
  }

  lemma ReplyTaken(done: seq<Reply>, s: seq<byte>, left: nat, r: Reply, rest: seq<byte>)
    requires left > 0 && ParseReply(s) == Some((r, rest))
    ensures Prepend(done, ParseReplies(s, left)) == Prepend(done + [r], ParseReplies(rest, left - 1))
  {
    if ParseReplies(rest, left - 1).Some? {
      var rs := ParseReplies(rest, left - 1).value;
      assert done + ([r] + rs) == (done + [r]) + rs;
    }
  }

  /** A value that is not UTF-8 spoils the whole list, wherever the others lead. */
  lemma ReplyNotText(done: seq<Reply>, s: seq<byte>, left: nat)
    requires left > 0 && ParseReply(s).Some? && !IsText(ParseReply(s).value.0.value)
    ensures var all := Prepend(done, ParseReplies(s, left)); all.Some? ==> !AllText(all.value)
  {
    var all := Prepend(done, ParseReplies(s, left));
    if all.Some? {
      assert all.value[|done|] == ParseReply(s).value.0;
    }
  }

  lemma ReplyRefused(done: seq<Reply>, s: seq<byte>, left: nat)
    requires left > 0 && ParseReply(s) == None
    ensures Prepend(done, ParseReplies(s, left)) == None
  {
  }

  lemma RepliesDone(done: seq<Reply>, s: seq<byte>)
    ensures Prepend(done, ParseReplies(s, 0)) == Some(done)
  {
    assert done + [] == done;
  }

  lemma {:induction false} FoundAppend(keys: seq<Key>, rs: seq<Reply>, key: Key, r: Reply)
    requires |keys| == |rs|
    ensures Found(keys + [key], rs + [r]) == Found(keys, rs) + if r.status == STATUS_OK then [(key, r.value)] else []
  {
    if keys != [] {
      FoundAppend(keys[1..], rs[1..], key, r);
      assert (keys + [key])[1..] == keys[1..] + [key] && (rs + [r])[1..] == rs[1..] + [r];
    } else {
      assert [key][1..] == [] && [r][1..] == [];
    }
  }

  /** One reply off the data at an offset; None stands for an exception. */
  method PyDecodeReply(data: seq<byte>, start: nat) returns (reply: Option<Reply>, offset: nat)
    requires start <= |data|
    ensures offset <= |data|
    ensures reply.Some? <==> ParseReply(data[start..]).Some? && IsText(ParseReply(data[start..]).value.0.value)
    ensures reply.Some? ==> ParseReply(data[start..]) == Some((reply.value, data[offset..]))
  {
    offset := start;
    ghost var s := data[start..];
    if offset + 1 > |data| {
      return None, offset;
    }
    var itemStatus := data[offset];
    offset := offset + 1;
    if offset + 4 > |data| {
      return None, offset;
    }
    var valLen := Read32(data, offset);
    assert Read32(s, 1) == valLen;
    offset := offset + 4;
    if offset + valLen > |data| {
      return None, offset;
    }
    var value := if valLen > 0 then data[offset..offset + valLen] else [];
    assert value == s[5..5 + valLen];
    offset := offset + valLen;
    if !IsText(value) {
      return None, offset;
    }
    return Some(Reply(itemStatus, value)), offset;
  }

  /** The loop has decoded `done`, found the pairs `found`, and has `rest` in front of it. */
  ghost predicate SoFar(all: Option<seq<Reply>>, keys: seq<Key>, done: seq<Reply>, found: seq<(Key, seq<byte>)>,
                        rest: seq<byte>) {
    && |done| <= |keys| && Prepend(done, ParseReplies(rest, |keys| - |done|)) == all
    && found == Found(keys[..|done|], done) && AllText(done)
  }

  lemma TurnTaken(all: Option<seq<Reply>>, keys: seq<Key>, done: seq<Reply>, found: seq<(Key, seq<byte>)>,
                  s: seq<byte>, r: Reply, rest: seq<byte>)
    requires SoFar(all, keys, done, found, s) && |done| < |keys|
    requires ParseReply(s) == Some((r, rest)) && IsText(r.value)
    ensures SoFar(all, keys, done + [r],
                  found + (if r.status == STATUS_OK then [(keys[|done|], r.value)] else []), rest)
  {
    var i := |done|;
    ReplyTaken(done, s, |keys| - i, r, rest);
    FoundAppend(keys[..i], done, keys[i], r);
    assert keys[..i + 1] == keys[..i] + [keys[i]];
  }

  /** A reply that raises an exception does so for the whole list. */
  lemma TurnRefused(all: Option<seq<Reply>>, keys: seq<Key>, done: seq<Reply>, found: seq<(Key, seq<byte>)>,
                    s: seq<byte>)
    requires SoFar(all, keys, done, found, s) && |done| < |keys|
    requires ParseReply(s).None? || !IsText(ParseReply(s).value.0.value)
    ensures all.Some? ==> !AllText(all.value)
  {
    if ParseReply(s).Some? {
      ReplyNotText(done, s, |keys| - |done|);
    } else {
      ReplyRefused(done, s, |keys| - |done|);
    }
  }

  lemma TurnsDone(all: Option<seq<Reply>>, keys: seq<Key>, done: seq<Reply>, found: seq<(Key, seq<byte>)>,
                  s: seq<byte>)
    requires SoFar(all, keys, done, found, s) && |done| == |keys|
    ensures all == Some(done) && AllText(done) && found == Found(keys, done)
  {
    RepliesDone(done, s);
    assert keys[..|keys|] == keys;
  }

  /** The loop of decode_batch_get_response. */
  method PyDecodeReplies(data: seq<byte>, keys: seq<Key>) returns (found: seq<(Key, seq<byte>)>, ok: bool)
    requires |data| >= 9
    ensures ok <==> ParseReplies(data[9..], |keys|).Some? && AllText(ParseReplies(data[9..], |keys|).value)
    ensures ok ==> found == Found(keys, ParseReplies(data[9..], |keys|).value)
  {
    var offset: nat := 9;
    found := [];
    ghost var done: seq<Reply> := [];
    var i := 0;
    ghost var all := ParseReplies(data[9..], |keys|);
    PrependNothing(all);
    while i < |keys|
      invariant i == |done| && offset <= |data|
      invariant SoFar(all, keys, done, found, data[offset..])
    {
      var reply, next := PyDecodeReply(data, offset);
      if reply.None? {
        TurnRefused(all, keys, done, found, data[offset..]);
        return found, false;
      }
      TurnTaken(all, keys, done, found, data[offset..], reply.value, data[next..]);
      if reply.value.status == STATUS_OK {
        found := found + [(keys[i], reply.value.value)];
      } else {
        assert found + [] == found;
      }
      done := done + [reply.value];
      offset := next;
      i := i + 1;
    }
    TurnsDone(all, keys, done, found, data[offset..]);
    ok := true;
  }

  /**
    * decode_batch_get_response: it raises exactly on malformed replies, count mismatches and values that
    * are not UTF-8, and otherwise returns exactly the found keys in request order.
    */
  method PyDecodeBatchGet(data: seq<byte>, keys: seq<Key>) returns (results: Option<seq<(Key, seq<byte>)>>)
    ensures results == if WellFormed(data, keys) && AllText(ParseReplies(data[9..], |keys|).value)
                       then Some(Found(keys, ParseReplies(data[9..], |keys|).value)) else None
  {
    if |data| < 9 {
      return None;
    }
    var count := Read32(data, 5);
    if count != |keys| {
      return None;
    }
    var found, ok := PyDecodeReplies(data, keys);
    if !ok {
      return None;
    }
    return Some(found);
  }

  /**
    * For every list of replies, whatever the leading status, number and trailing bytes: decoding what
    * the server encoded returns the found keys of exactly those replies.
    */
  lemma DecodesWhatWasEncoded(lead: seq<byte>, rs: seq<Reply>, rest: seq<byte>, keys: seq<Key>)
    requires |lead| == 5 && |rs| == |keys| < TWO_32 && forall i :: 0 <= i < |rs| ==> Fits(rs[i])
    ensures var data := lead + Be32(|rs|) + (RepliesBytes(rs) + rest);
            WellFormed(data, keys) && ParseReplies(data[9..], |keys|) == Some(rs)
  {
    var data := lead + Be32(|rs|) + (RepliesBytes(rs) + rest);
    assert data[5..9] == Be32(|rs|) && data[9..] == RepliesBytes(rs) + rest;
    Read32Of(data, 5, |rs|);
    RepliesParse(rs, rest);
  }

  // ---- C ----

  /** What one index of the status and value arrays holds; None is a null pointer. */
  datatype Slot = Slot(status: byte, value: Option<seq<byte>>)

  /** Slots that the loop does not reach. */
  function Unanswered(n: nat): (s: seq<Slot>)
    ensures |s| == n && forall i :: 0 <= i < n ==> s[i] == Slot(0, None)
  {
    seq(n, _ => Slot(0, None))
  }

  /** One slot: a value that is cut short stays null, and its length field alone is skipped. */
  function CSlot(s: seq<byte>): (Slot, seq<byte>)
    requires |s| >= 5
  {
    var v := Read32(s, 1);
    if 5 + v <= |s| then (Slot(s[0], Some(s[5..5 + v])), s[5 + v..]) else (Slot(s[0], None), s[5..])
  }

  function CSlots(s: seq<byte>, n: nat): (r: seq<Slot>)
    ensures |r| == n
    decreases n
  {
    if n == 0 then []
    else if |s| < 5 then Unanswered(n)
    else [CSlot(s).0] + CSlots(CSlot(s).1, n - 1)
  }

  function FilledSlots(rs: seq<Reply>): seq<Slot> {
    seq(|rs|, i requires 0 <= i < |rs| => Slot(rs[i].status, Some(rs[i].value)))
  }

  lemma FilledSlotsCons(r: Reply, rs: seq<Reply>)
    ensures FilledSlots([r] + rs) == [Slot(r.status, Some(r.value))] + FilledSlots(rs)
  {
  }

  /** The bytes behind the first k replies. */
  function Behind(s: seq<byte>, k: nat): seq<byte>
    requires ParseReplies(s, k).Some?
    decreases k
  {
    if k == 0 then s else Behind(ParseReply(s).value.1, k - 1)
  }

  /**
    * As far as the replies can be parsed, the C loop fills in their statuses and values, and goes on behind
    * them. On everything that Python accepts these are all replies.
    */
  lemma {:induction false} CSlotsAgree(s: seq<byte>, k: nat, n: nat)
    requires k <= n && ParseReplies(s, k).Some?
    ensures CSlots(s, n) == FilledSlots(ParseReplies(s, k).value) + CSlots(Behind(s, k), n - k)
    ensures k == n ==> forall i :: 0 <= i < n ==>
              var r := ParseReplies(s, k).value[i]; CSlots(s, n)[i] == Slot(r.status, Some(r.value))
    decreases k
  {
    if k == 0 {
      assert FilledSlots([]) + CSlots(s, n) == CSlots(s, n);
    } else {
      var (r, rest) := ParseReply(s).value;
      var rs := ParseReplies(rest, k - 1).value;
      CSlotsAgree(rest, k - 1, n - 1);
      FilledSlotsCons(r, rs);
      Associative([Slot(r.status, Some(r.value))], FilledSlots(rs), CSlots(Behind(s, k), n - k));
    }
  }

  /**
    * What the C loop makes of replies that are cut short: the k replies before the cut as they are, then a null
    * value for the one whose value is cut, whose first bytes are read as further replies; and where not even
    * a status and a length are left, status 0 and null values to the end.
    */
  lemma CSlotsOfCut(s: seq<byte>, k: nat, n: nat)
    requires k < n && ParseReplies(s, k).Some? && ParseReply(Behind(s, k)).None?
    ensures var tail := Behind(s, k);
            CSlots(s, n) == FilledSlots(ParseReplies(s, k).value)
              + if |tail| < 5 then Unanswered(n - k) else [Slot(tail[0], None)] + CSlots(tail[5..], n - k - 1)
  {
    CSlotsAgree(s, k, n);
  }

  /** One turn of the filling loop. */
  method CFillSlot(data: seq<byte>, start: nat, statuses: array<byte>, values: array<Option<seq<byte>>>, i: nat)
    returns (pos: nat)
    requires start + 5 <= |data| && i < statuses.Length == values.Length && values[i] == None
    modifies statuses, values
    ensures pos <= |data| && (Slot(statuses[i], values[i]), data[pos..]) == CSlot(data[start..])
    ensures forall k :: 0 <= k < statuses.Length && k != i ==>
      statuses[k] == old(statuses[k]) && values[k] == old(values[k])
  {
    pos := start;
    ghost var s := data[start..];
    statuses[i] := data[pos];
    pos := pos + 1;
    var valLen := Read32(data, pos);
    assert Read32(s, 1) == valLen;
    pos := pos + 4;
    if pos + valLen <= |data| {
      assert data[pos..pos + valLen] == s[5..5 + valLen];
      values[i] := Some(data[pos..pos + valLen]);
      pos := pos + valLen;
    }
  }

  lemma CSlotsStep(s: seq<byte>, n: nat)
    requires n > 0 && |s| >= 5
    ensures CSlots(s, n)[0] == CSlot(s).0 && CSlots(s, n)[1..] == CSlots(CSlot(s).1, n - 1)
  {
  }

  lemma CSlotsEnd(s: seq<byte>, n: nat, all: seq<Slot>, i: nat)
    requires |s| < 5 && i + n == |all| && all[i..] == CSlots(s, n)
    ensures forall k :: i <= k < |all| ==> all[k] == Slot(0, None)
  {
    assert forall k :: i <= k < |all| ==> all[k] == all[i..][k - i];
  }

  /** The first `i` slots are as wanted, and the others are untouched. */
  ghost predicate FilledUpTo(statuses: array<byte>, values: array<Option<seq<byte>>>, all: seq<Slot>, i: nat)
    requires statuses.Length == values.Length == |all|
    reads statuses, values
  {
    forall k :: 0 <= k < |all| ==> Slot(statuses[k], values[k]) == if k < i then all[k] else Slot(0, None)
  }

  /** The filling loop of bb_batch_get, on a response whose overall status is OK. */
  method CFillSlots(data: seq<byte>) returns (statuses: array<byte>, values: array<Option<seq<byte>>>)
    requires |data| >= 9
    ensures statuses.Length == values.Length == Read32(data, 5)
    ensures forall i :: 0 <= i < statuses.Length ==>
      Slot(statuses[i], values[i]) == CSlots(data[9..], Read32(data, 5))[i]
  {
    var pos: nat := 5;
    var count := Read32(data, pos);
    pos := pos + 4;
    values := new Option<seq<byte>>[count](_ => None);
    statuses := new byte[count](_ => 0);
    FillFrom(data, pos, statuses, values);
  }

  /** The loop itself, on arrays that hold nothing yet. */
  method FillFrom(data: seq<byte>, start: nat, statuses: array<byte>, values: array<Option<seq<byte>>>)
    requires start <= |data| && statuses.Length == values.Length
    requires forall k :: 0 <= k < statuses.Length ==> statuses[k] == 0 && values[k] == None
    modifies statuses, values
    ensures forall k :: 0 <= k < statuses.Length ==>
      Slot(statuses[k], values[k]) == CSlots(data[start..], statuses.Length)[k]
  {
    var count, pos: nat, i := statuses.Length, start, 0;
    ghost var all := CSlots(data[start..], count);
    assert all[0..] == all;
    while i < count && pos + 5 <= |data|
      invariant i <= count && pos <= |data| && FilledUpTo(statuses, values, all, i)
      invariant all[i..] == CSlots(data[pos..], count - i)
    {
      pos := CFillNext(data, pos, statuses, values, i, all);
      i := i + 1;
    }
    if i < count {
      CSlotsEnd(data[pos..], count - i, all, i);
    }
  }

  /** The same turn, when the slots before it are filled. */
  method CFillNext(data: seq<byte>, start: nat, statuses: array<byte>, values: array<Option<seq<byte>>>, i: nat,
                   ghost all: seq<Slot>)
    returns (pos: nat)
    requires start + 5 <= |data| && i < |all| == statuses.Length == values.Length
    requires FilledUpTo(statuses, values, all, i) && all[i..] == CSlots(data[start..], |all| - i)
    modifies statuses, values
    ensures pos <= |data| && FilledUpTo(statuses, values, all, i + 1)
    ensures all[i + 1..] == CSlots(data[pos..], |all| - i - 1)
  {
    CSlotsStep(data[start..], |all| - i);
    assert all[i..][0] == all[i] && all[i..][1..] == all[i + 1..];
    pos := CFillSlot(data, start, statuses, values, i);
  }
}
