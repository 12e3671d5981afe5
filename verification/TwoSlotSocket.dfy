/** The two-slot receive side as the C struct it is: two growing buffers changed in place. */
module TwoSlotSocket {
  import opened Bytes
  import opened TwoSlot

  const INITIAL_CAPACITY: nat := 4096

  /** memcpy(dst + at, data, |data|). */
  method CopyInto(dst: array<byte>, at: nat, data: seq<byte>)
    requires at + |data| <= dst.Length
    modifies dst
    ensures dst[..at] == old(dst[..at])
    ensures dst[at..at + |data|] == data
    ensures dst[at + |data|..] == old(dst[at + |data|..])
  {
    var i := 0;
    while i < |data|
      invariant i <= |data|
      invariant forall k :: 0 <= k < dst.Length ==>
        dst[k] == if at <= k < at + i then data[k - at] else old(dst[k])
    {
      dst[at + i] := data[i];
      i := i + 1;
    }
  }

  /**
    * The capacity for `needed` bytes: the buffer as it is, or the first size that suffices in a series
    * that starts at twice the old capacity, or at 4096 for a buffer not allocated yet, and doubles.
    */
  method GrownCapacity(capacity: nat, needed: nat) returns (size: nat)
    requires needed > capacity
    ensures size >= needed
    ensures size >= 2 * capacity && (capacity == 0 ==> size >= INITIAL_CAPACITY)
    ensures size == (if capacity > 0 then 2 * capacity else INITIAL_CAPACITY) || size < 2 * needed
  {
    size := if capacity > 0 then capacity * 2 else INITIAL_CAPACITY;
    while size < needed
      invariant size > 0 && size >= 2 * capacity && (capacity == 0 ==> size >= INITIAL_CAPACITY)
      invariant size == (if capacity > 0 then 2 * capacity else INITIAL_CAPACITY) || size < 2 * needed
      decreases needed - size
    {
      size := size * 2;
    }
  }

  /** Append to a slot, growing it when the bytes do not fit. */
  method AppendTo(buffer: array<byte>, len: nat, data: seq<byte>) returns (result: array<byte>)
    requires len <= buffer.Length
    modifies buffer
    ensures result == buffer || fresh(result)
    ensures len + |data| <= result.Length
    ensures result[..len + |data|] == old(buffer[..len]) + data
    ensures fresh(result) ==> len + |data| > buffer.Length && unchanged(buffer)
  {
    result := buffer;
    if len + |data| > buffer.Length {
      var size := GrownCapacity(buffer.Length, len + |data|);
      result := new byte[size](_ => 0);
      CopyInto(result, 0, buffer[..len]);
      assert result[..len] == buffer[..len];
    }
    CopyInto(result, len, data);
    assert result[..len + |data|] == result[..len] + result[len..len + |data|];
  }

  class BBWebSocket {
    var connected: bool
    var recvBuffer: array<byte>
    var recvLen: nat
    var recvComplete: bool
    var queueBuffer: array<byte>
    var queueLen: nat
    var queueComplete: bool

    /** The chunks that arrived and the messages handed out so far. */
    ghost var arrived: seq<Arrival>
    ghost var delivered: seq<seq<byte>>

    ghost predicate Valid()
      reads this
    {
      && recvBuffer != queueBuffer
      && recvLen <= recvBuffer.Length && queueLen <= queueBuffer.Length
    }

    ghost function View(): State
      requires Valid()
      reads this, recvBuffer, queueBuffer
    {
      State(connected, recvBuffer[..recvLen], recvComplete, queueBuffer[..queueLen], queueComplete, arrived, delivered)
    }

    constructor ()
      ensures Valid() && View() == Start() && fresh(recvBuffer) && fresh(queueBuffer)
    {
      connected, recvComplete, queueComplete := true, false, false;
      recvBuffer, queueBuffer := new byte[0], new byte[0];
      recvLen, queueLen := 0, 0;
      arrived, delivered := [], [];
    }

    /** A fragment for the current message. */
    method FillRecv(data: seq<byte>, final: bool)
      requires Valid()
      modifies this`recvBuffer, this`recvLen, this`recvComplete, recvBuffer
      ensures Valid() && recvBuffer[..recvLen] == old(recvBuffer[..recvLen]) + data
      ensures recvComplete == (old(recvComplete) || final)
      ensures recvBuffer == old(recvBuffer) || fresh(recvBuffer)
    {
      recvBuffer := AppendTo(recvBuffer, recvLen, data);
      recvLen := recvLen + |data|;
      if final { recvComplete := true; }
    }

    /** A fragment for the next message. */
    method FillQueue(data: seq<byte>, final: bool)
      requires Valid()
      modifies this`queueBuffer, this`queueLen, this`queueComplete, queueBuffer
      ensures Valid() && queueBuffer[..queueLen] == old(queueBuffer[..queueLen]) + data
      ensures queueComplete == (old(queueComplete) || final)
      ensures queueBuffer == old(queueBuffer) || fresh(queueBuffer)
    {
      queueBuffer := AppendTo(queueBuffer, queueLen, data);
      queueLen := queueLen + |data|;
      if final { queueComplete := true; }
    }

    /** ws_event_callback. */
    method OnEvent(c: Callback)
      requires Valid()
      modifies this, recvBuffer, queueBuffer
      ensures Valid() && View() == OnCallback(old(View()), c)
      ensures recvBuffer == old(recvBuffer) || fresh(recvBuffer)
      ensures queueBuffer == old(queueBuffer) || fresh(queueBuffer)
    {
      match c
      case Closed =>
        connected := false;
        recvComplete := true;
      case Chunk(data, final) =>
        arrived := arrived + [Arrival(data, final, connected, Held(View()), Started(View()))];
        if !recvComplete && !queueComplete {
          FillRecv(data, final);
        } else if recvComplete && !queueComplete {
          FillQueue(data, final);
        }
    }

    /** One turn of lws_service. */
    method LwsService(callbacks: seq<Callback>)
      requires Valid()
      modifies this, recvBuffer, queueBuffer
      ensures Valid() && View() == Service(old(View()), callbacks)
      ensures recvBuffer == old(recvBuffer) || fresh(recvBuffer)
      ensures queueBuffer == old(queueBuffer) || fresh(queueBuffer)
    {
      var i := 0;
      while i < |callbacks|
        invariant i <= |callbacks| && Valid()
        invariant recvBuffer == old(recvBuffer) || fresh(recvBuffer)
        invariant queueBuffer == old(queueBuffer) || fresh(queueBuffer)
        invariant Service(View(), callbacks[i..]) == Service(old(View()), callbacks)
      {
        assert callbacks[i..][1..] == callbacks[i + 1..];
        OnEvent(callbacks[i]);
        i := i + 1;
      }
    }

    /** Hand out the current message and move the queued one up. */
    method TakeMessage() returns (data: seq<byte>)
      requires Valid() && Ready(View())
      modifies this, recvBuffer
      ensures Valid() && View() == Take(old(View()))
      ensures data == old(View()).recv
    {
      data := recvBuffer[..recvLen];
      delivered := delivered + [data];
      recvLen := 0;
      recvComplete := false;
      if queueComplete && queueLen > 0 {
        if queueLen > recvBuffer.Length {
          recvBuffer := new byte[queueLen](_ => 0);
        }
        CopyInto(recvBuffer, 0, queueBuffer[..queueLen]);
        recvLen := queueLen;
        recvComplete := true;
        queueBuffer := new byte[0];
        queueLen := 0;
        queueComplete := false;
      }
    }

    /** ws_recv_binary. The schedule stands for the network and the clock. */
    method RecvBinary(schedule: seq<seq<Callback>>) returns (data: seq<byte>, ok: bool)
      requires Valid()
      modifies this, recvBuffer, queueBuffer
      ensures Valid() && View() == ReadStep(old(View()), schedule)
      ensures View().delivered == if ok then old(delivered) + [data] else old(delivered)
      ensures ok ==> data != []
      ensures old(connected) && Coming(old(View())) != [] ==> ok && data == Coming(old(View()))[0]
      ensures !old(connected) ==> !ok
    {
      data, ok := [], false;
      if !connected {
        return;
      }
      if recvComplete && recvLen > 0 {
        data := TakeMessage();
        return data, true;
      }
      if recvComplete {
        queueBuffer := new byte[0];
        queueLen := 0;
        queueComplete := false;
      }
      recvLen := 0;
      recvComplete := false;
      assert View() == Reset(old(View()));
      var turn := 0;
      while !recvComplete && turn < |schedule|
        invariant turn <= |schedule| && Valid() && connected
        invariant recvBuffer == old(recvBuffer) || fresh(recvBuffer)
        invariant queueBuffer == old(queueBuffer) || fresh(queueBuffer)
        invariant Wait(View(), schedule[turn..]) == Wait(Reset(old(View())), schedule)
        invariant delivered == old(delivered)
        decreases |schedule| - turn
      {
        assert schedule[turn..][1..] == schedule[turn + 1..];
        ServiceDelivers(View(), schedule[turn]);
        LwsService(schedule[turn]);
        if !connected {
          return;
        }
        turn := turn + 1;
      }
      if recvComplete && recvLen > 0 {
        data := TakeMessage();
        ok := true;
      }
    }
  }

  /** Callbacks hand nothing out. */
  lemma {:induction false} ServiceDelivers(s: State, callbacks: seq<Callback>)
    ensures Service(s, callbacks).delivered == s.delivered
    decreases |callbacks|
  {
    if callbacks != [] { ServiceDelivers(OnCallback(s, callbacks[0]), callbacks[1..]); }
  }
}
