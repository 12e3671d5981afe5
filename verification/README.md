# BitBarrel clients: a model and its proofs

BitBarrel is a key-value store that is reached over WebSocket. This project models the hard parts of
its client libraries in Go, TypeScript, C and Python, and proves what they guarantee. The server
appears only as the other side of the wire: it answers the requests it receives, once each and in
order, echoes the sequence number, and may push events at any time.

`dafny verify dfyconfig.toml` checks everything.

## Layout

- **The request protocol in Go.** `GoClient.dfy` is the lock-step protocol as steps of any number of
  goroutines, connections and the server. `GoClientSafety.dfy` proves what every step keeps and what
  follows for whole runs, `GoClientProgress.dfy` that calls come to an end with their answers,
  `GoClientStart.dfy` says when a call starts safely, `GoClientLimits.dfy` gives the runs where the
  guarantees end, and `GoClientObject.dfy` is the client as an object whose methods are shown to follow
  the protocol.
- **The request protocol in TypeScript.** `TsClient.dfy` specifies the tasks of the event loop,
  listeners that call back into the client included; `TsClientSafety.dfy` proves the pending-table
  guarantees; `TsClientTasks.dfy` says what each task does; `TsClientEndToEnd.dfy` adds an honest server;
  `TsClientObject.dfy` is the client as an object.
- **Receiving in C.** `TwoSlot.dfy` and `TwoSlotSocket.dfy` are the two-slot buffer behind
  libwebsockets, as a state machine and as the struct with its growing arrays, and `TwoSlotReads.dfy`
  says what one read gives and what becomes of fragments. `MessageQueue.dfy` is the linked queue of events, `SendRequest.dfy` the loop that skips events before a response, with its
  counterpart in Python, and `ConsecutiveCalls.dfy` what calls in a row get from it.
- **Pagination in Python.** `Keys.dfy` and `Pagination.dfy`: scans over a store that may change
  between pages.
- **Wire formats.** `WireFrame.dfy`, `GoWebSocket.dfy` and `CWebSocket.dfy` are WebSocket framing
  (RFC 6455, sections 5.2, 5.3 and 5.5). `RequestCodec.dfy`, `ResponseCodec.dfy`,
  `RangeFormat.dfy`, `RangeCodec.dfy`, `RangeEncode.dfy`, `CRange.dfy`, `EventCodec.dfy`, `BatchEncode.dfy`
  and `BatchReply.dfy` are the BitBarrel messages, each with its grammar, the functions the decoders
  compute, and the decoders and encoders themselves; `WireLayout.dfy` ties each grammar to a table of
  fields. `Unicode.dfy`, `Bytes.dfy` and `Lists.dfy` hold what they share.

Code that changes things step by step is a method or a class here; functions specify it, and lemmas
say what the specification means.

## Where the code does less than one may expect

Each of these is proved, with the exact condition where there is one.

- Go: with a message handler, a call that overtakes another one in its handler can read the other's
  response. With ordinary numbers that is a sequence mismatch, so the mismatch is not unreachable
  (`OvertakingCallReadsTheOlderAnswer`). A call that starts now, and is the only one to write from
  now on, is safe if and only if the open connection owes nothing (`StartIsSafeExactly`).
- Go: what protects from a wrong answer is not the age of the call itself but the age of the oldest call
  in flight, and the bound is exactly 2^32 numbers (`AgeBoundIsTight`).
- Go: a call that comes back from its handler reads through a nil pointer if and only if the client has
  no connection at that moment (`NilConnectionExactly`). A `Close` can be the cause, and so can the
  transport failure of any other call (`FailedWriteCrashesTheCall`).
- Go: a frame in the 64-bit length form is refused on reading, though the writer produces it
  (`BigMessageIsRefused`).
- C: an empty message that arrives while exactly one message is held, a non-empty one, jams the receive
  buffer for good; nothing else does (`JammedExactly`, `JammedForever`). What arrives behind an empty
  message is dropped by the next read (`DeliveredInOrder`).
- C: a message whose fragments have the start of a read between them is cut: its last part is handed out as
  a message, and its first part is dropped or glued to the next one (`ReadBetweenFragmentsExactly`,
  `StalePartIsGlued`).
- C: the fallback receiver looks for the mask behind the payload, so a masked frame in the standard's form
  comes out wrong (`ReceiveOfMaskedFrame`).
- C: the fallback receiver reads the payload of a ping or pong as frames. Messages behind it come back
  right if and only if the payload is empty or made up of complete pong headers
  (`ControlFramePassedOverExactly`; `PassedOverExactly` for any bytes in front).
- C: a call gets the reply to its own request if and only if its reply, and that of every call before it,
  came in time: behind fewer than ten events, and with no failed or empty receive first
  (`OwnReplyExactly`). Sequence numbers are never compared, and a timeout leaves the connection open, so
  one late reply is enough for no later call to get its own. If all else is in time, each later call gets
  the reply to the call before it (`MissShiftsAllReplies`).
- Python: its loop does compare the numbers, so it never returns another call's reply; under the same
  condition a call ends by its own reply, and every other call raises (`PyOwnReplyExactly`).
- C: `send_request` encodes into 65536 bytes on its stack without looking, and stays inside if and only if
  12 bytes of head, the key and the value fit (`StaysInBufferExactly`).
- Events: Python delivers a payload that is cut short as far as it goes, C delivers an empty one, Go
  and TypeScript refuse it (`DecodersDifferOnCutPayload`).
- TypeScript: a lost socket does not reset `handshakeReceived`, so the next handshake is decoded as a
  response. That is the only way a promise can resolve with anything but the server's answer to its own
  request (`AnswersAreOwnExactly`, `HandshakeResolvesACall`); handshakes that arrive while the flag is
  down are harmless (`AnswersAreOwnWhenGreetedOnTime`).
- TypeScript: requests are written as latin1 and read as UTF-8, so text comes back exactly when it is
  ASCII (`TsTextComesBackExactly`). A range response is written in UTF-8 but measured in UTF-16 units, so
  there too only ASCII comes back (`TextComesBackExactly`).
- Python: `status_to_error` has an exception for every status but OK, so the special case of
  `_send_request` for an EXISTS that finds nothing is never reached (`PyReceive`).
- Python: with page size 1 and an empty first key, `iterate_range` repeats that key for ever and
  `paginate_range_result` stops after it. Over a fixed store no other input gets stuck, and over a
  changing one `iterate_range` still yields every other key once if it ends.

## Model

| member | source | states |
|---|---|---|
| GoClientSafety.LockStepSafety | clients/go/client.go:232-313 | Without a handler, after any interleaving of calls, closes, failures and reconnects: a free lock means the open connection owes nothing, every success is the answer to the call's own request, and every other return is a transport error, so the sequence mismatch is unreachable |
| GoClientProgress.CallSucceeds | clients/go/client.go:124-313 | Progress, in any run, handler or not: from any moment at which the lock is free and nothing is owed, a request, connecting first if it must and past any number of events of any kind, gets the answer to its own request and leaves the client ready for the next |
| GoClientProgress.ConnectCallSucceeds | clients/go/client.go:124-178 | Connect on its own, from any such moment without a connection: with a good handshake the new connection stays and the lock is free |
| GoClientProgress.ReturnsFreeTheLock | clients/go/client.go:187-313 | However a call returns, the lock is free and its goroutine is done; after a transport failure there is no connection either |
| GoClientProgress.FailuresEndTheCall | clients/go/client.go:263-281 | A write or read that fails always ends the call like that |
| GoClientSafety.HandlerSafety | clients/go/client.go:283-298 | With a handler too, every success is the call's own answer as long as no call in flight gets older than 2^32 numbers |
| GoClientLimits.AgeBoundIsTight | clients/go/client.go:248 | For every k: successes are own answers in all runs whose calls in flight never get older than k numbers if and only if k is at most 2^32 |
| GoClientSafety.ResponseReadIsTheOldestOwed | clients/go/client.go:297-312 | The response a call reads is the oldest one owed on its connection; it is accepted or reported as a mismatch by the number on the wire alone |
| GoClientSafety.NoCallInFlightMeansNothingOwed | clients/go/client.go:124-313 | Handler or not: once no call is in flight, the open connection owes no response |
| GoClientStart.StartIsSafeExactly | clients/go/client.go:232-313 | In any run, handler or not: from the start of a call on, every continuation in which no other call writes lets it end with its own answer, a transport error or a nil connection, if and only if the open connection owes nothing at that moment |
| GoClientSafety.LoneCallIsSafe | clients/go/client.go:232-313 | A call that starts with no call in flight, and during whose life no other call gets as far as writing, ends with its own answer, a transport error or a nil connection |
| GoClientSafety.TakeNumberKeeps | clients/go/client.go:895-897 | The number that Traverse takes outside sendRequest, connected or not, keeps the invariant |
| GoClientSafety.RunKeepsInv | clients/go/client.go:124-313 | Every run keeps the invariant: who holds the lock, which connection it works on, which numbers are in flight, the handshake first, and the debts of the open connection bounded entry by entry by the calls in flight |
| GoClientSafety.StepKeepsInv | clients/go/client.go:124-313 | Each single step keeps that invariant |
| GoClientSafety.DialKeeps | clients/go/client.go:124-156 | Connect up to the handshake keeps it, also when another goroutine connected first |
| GoClientSafety.HandshakeKeeps | clients/go/client.go:158-178 | Reading the handshake keeps it, and a bad handshake drops the connection |
| GoClientSafety.IssueKeeps | clients/go/client.go:237-255 | Taking the lock and a number keeps it, also when the request does not encode |
| GoClientSafety.WriteKeeps | clients/go/client.go:257-273 | The write keeps it, whether or not a failed write reached the server |
| GoClientSafety.ReadKeeps | clients/go/client.go:275-313 | Each turn of the read loop keeps it |
| GoClientSafety.ReadResponseKeeps | clients/go/client.go:301-312 | Returning from a response, matching or not, keeps it: one debt less and one call less |
| GoClientSafety.HandlerReturnsKeeps | clients/go/client.go:288-293 | Retaking the lock and reloading the connection keeps it |
| GoClientSafety.CloseAndFailKeeps | clients/go/client.go:187-199 | Closing on an error keeps it |
| GoClientLimits.WrongAnswerAfterWrapAround | clients/go/client.go:248 | A reachable run in which a call that saw only its own number issued succeeds with another call's response, because that other call sat in its handler for 2^32 numbers |
| GoClientLimits.NilConnectionExactly | clients/go/client.go:288-293 | For every run, every goroutine in its handler and whatever others do: the call then reads through a nil connection if and only if there is no connection when it retakes the lock |
| GoClientLimits.CloseDuringHandlerCrashesTheCall | clients/go/client.go:181-199 | A reachable run in which a Close during the handler leads there |
| GoClientLimits.FailedWriteCrashesTheCall | clients/go/client.go:263-267 | A reachable run in which the failed write of another call leads there |
| GoClientLimits.OvertakingCallReadsTheOlderAnswer | clients/go/client.go:301-312 | For every number n: a reachable run in which call n overtakes call 0 in its handler and reads its response, which is a sequence mismatch unless 2^32 divides n, and then a success |
| GoClientLimits.BurnNumbers | clients/go/client.go:895-897 | Numbers can be used up in any quantity without a request |
| GoClientObject.Client.SendRequest | clients/go/client.go:232-313 | Executed statement by statement while others act between its steps, sendRequest is exactly the run of the protocol that the schedule gives; it has returned unless it is still at a read or in its handler, and without a handler what it returns is its own answer or a transport error |
| GoClientObject.Client.Turn | clients/go/client.go:276-299 | One turn of the read loop, or of the wait for the handler and the lock, is at most one step of the protocol and ends in a verdict or at the next read |
| GoClientObject.Client.ReadMessage | clients/go/client.go:276-312 | The read, the event test, the decoding and the number check are the protocol's read step |
| GoClientObject.Client.Issue | clients/go/client.go:237-255 | The number taken is the counter's, modulo 2^32, and is used up even when the encoding fails |
| GoClientObject.Client.WriteRequest | clients/go/client.go:257-273 | A failed write closes the connection before it returns |
| GoClientObject.Client.FinishConnect | clients/go/client.go:158-178 | Connect succeeds, keeps the connection and goes on if and only if a well-formed handshake was read; the lock is free either way |
| GoClientObject.Client.Dial | clients/go/client.go:124-156 | Connect refuses when there is a connection, and otherwise installs the new one under the lock |
| GoClientObject.Client.EnsureConnected | clients/go/client.go:219-228 | Looks at the connection under the lock and gives the lock back |
| GoClientObject.Client.TakeNumber | clients/go/client.go:895-897 | Traverse takes the next number without sending |
| GoClientObject.Client.Close | clients/go/client.go:181-199 | Close drops the connection |
| GoClientObject.Client.Relock | clients/go/client.go:291-292 | After the handler the connection is reloaded |
| TsClientEndToEnd.AnswersAreOwnExactly | clients/typescript/src/client.ts:282-345 | Over an honest server, for every run: each promise that resolves has the server's answer to its own call if and only if no handshake is ever decoded as a response to a waiting call, and nothing but a handshake takes an answer's place |
| TsClientTasks.CallResolves | clients/typescript/src/client.ts:282-388 | Progress, in any run of a connected client: a request that is encoded and sent is resolved by the response that carries its number, and the table is then as before |
| TsClientTasks.ConnectSucceeds | clients/typescript/src/client.ts:92-121 | Dialing, opening and a handshake that parses leave the client connected, from any state that waits for one |
| TsClientTasks.CloseRejectsAll | clients/typescript/src/client.ts:149-170 | In any run, close on an open connection rejects exactly the unsettled promises, once each, empties the table and resets all but the counter |
| TsClientTasks.SocketClosedRejectsAll | clients/typescript/src/client.ts:123-134 | A lost socket does the same to promises and table, and leaves handshakeReceived as it was |
| TsClientTasks.SendRegistersExactly | clients/typescript/src/client.ts:358-388 | A request takes the next number, and waits in the table with its timer set if and only if it was encoded, with a number under 2^32, and sent |
| TsClientTasks.ReceiveExactly | clients/typescript/src/client.ts:282-345 | For every message in any run: what it changes by itself, and how many listeners hear of it |
| TsClientTasks.ReactionIsTasks | clients/typescript/src/client.ts:149-388 | What a listener calls on the client has the effect of as many tasks of its own |
| TsClientEndToEnd.AnswersAreOwnWhenGreetedOnTime | clients/typescript/src/client.ts:123-134 | As long as every handshake arrives while handshakeReceived is false, every promise that resolves has the server's answer to its own call |
| TsClientEndToEnd.HandshakeResolvesACall | clients/typescript/src/client.ts:123-134 | A run in which that fails: after a lost socket handshakeReceived stays set, two requests do not encode, and the next handshake resolves request number 2 |
| TsClientSafety.PendingTable | clients/typescript/src/client.ts:282-389 | After any run numbers are unique and below the counter, also when traverse takes some; a call is in the table exactly while its promise is unsettled; entries belong to the call with that number and have their timer; a promise resolves only with its own number |
| TsClientSafety.SettledAtMostOnce | clients/typescript/src/client.ts:361-388 | A promise is asked to settle once, or a second time only by the stale timer of a closed connection |
| TsClientSafety.StaleTimerIsHarmless | clients/typescript/src/client.ts:149-170 | Across any closes and reconnects, a timer that close left set changes neither the table nor any other call |
| TsClientSafety.TimerSettlesItsOwnCall | clients/typescript/src/client.ts:362-365 | The timer of an unsettled call settles exactly that call |
| TsClientSafety.ReplyResolvesExactlyItsCall | clients/typescript/src/client.ts:326-340 | A reply, early, late or repeated, resolves exactly the unsettled call whose number it carries and changes nothing else |
| TsClientSafety.RunKeepsInv | clients/typescript/src/client.ts:92-389 | Every run of tasks, with listeners that call back into the client, keeps the table's invariant and leaves the message loop idle |
| TsClientSafety.StepKeepsInv | clients/typescript/src/client.ts:92-389 | Each task keeps that invariant |
| TsClientSafety.DrainKeeps | clients/typescript/src/client.ts:282-345 | The message loop keeps the table and ends with an empty buffer |
| TsClientSafety.RejectAllKeeps | clients/typescript/src/client.ts:158-162 | Rejecting everything at once keeps the table |
| TsClientObject.BitBarrelClient.SendAndWait | clients/typescript/src/client.ts:358-388 | The method changes the fields as the specified step does |
| TsClientObject.BitBarrelClient.RejectEach | clients/typescript/src/client.ts:127-131 | The loop over the table, in any order, rejects every pending promise once and nothing else |
| TsClientObject.BitBarrelClient.RejectPending | clients/typescript/src/client.ts:158-162 | All pending promises are rejected and the table is empty |
| TsClientObject.BitBarrelClient.TakeNumber | clients/typescript/src/client.ts:793-798 | traverse takes a number outside sendAndWait |
| TsClientObject.BitBarrelClient.CloseSelf | clients/typescript/src/client.ts:149-166 | close does nothing without a connection; otherwise it rejects exactly the unsettled promises, empties the table and resets the client |
| TsClientObject.BitBarrelClient.DispatchMessage | clients/typescript/src/client.ts:290-340 | One turn of the message loop is the specified dispatch |
| TsClientObject.BitBarrelClient.ProcessMessages | clients/typescript/src/client.ts:282-345 | The loop is the specified drain, under the re-entrancy guard |
| TsClientObject.BitBarrelClient.HandleMessage | clients/typescript/src/client.ts:209-213 | Receiving a message is the specified task and keeps the invariant |
| TsClientObject.BitBarrelClient.OnTimeout | clients/typescript/src/client.ts:362-365 | A timer that fires is the specified task and keeps the invariant |
| TsClientObject.BitBarrelClient.Close | clients/typescript/src/client.ts:149-170 | Closing, listeners included, is the specified task and keeps the invariant |
| TsClientObject.BitBarrelClient.OnSocketClose | clients/typescript/src/client.ts:123-134 | Losing the socket is the specified task and keeps the invariant |
| TwoSlot.DeliveredInOrder | clients/c/src/websocket.c:63-411 | For any mix of callbacks, reads and timeouts on whole messages, empty ones included, the reader gets, in order and byte for byte, exactly the messages that found room, and what is still to come is at most two |
| TwoSlotReads.ReadHandsOutTheFirst | clients/c/src/websocket.c:302-344 | On an open connection a read hands out the first message that is coming, whatever else goes on |
| TwoSlotReads.ReadsEmptyTheBuffer | clients/c/src/websocket.c:302-344 | As many reads as messages are coming hand out all of them, in order |
| TwoSlotReads.ReadGivesTheFirstArriving | clients/c/src/websocket.c:346-411 | In any run of whole messages, with nothing coming, a read gives exactly the first message that arrives while it waits; nothing if that is empty, if the connection closes in the same turn, or if the buffer is jammed |
| TwoSlotReads.CloseIsFinal | clients/c/src/websocket.c:112-118 | Once the connection has closed nothing is handed out any more |
| TwoSlotReads.FragmentsAreOneMessage | clients/c/src/websocket.c:68-110 | Fragments with no read between them leave the slots as the whole message does |
| TwoSlotReads.ReadBetweenFragmentsExactly | clients/c/src/websocket.c:295-411 | A message in two parts comes whole if and only if no read lies between its parts and fewer than two messages are held; after a read its second part is a message of its own |
| TwoSlotReads.StalePartIsGlued | clients/c/src/websocket.c:295-411 | The part in front of such a read can stay behind and be glued to the message after |
| TwoSlot.LostOnlyWhenTwoAreHeld | clients/c/src/websocket.c:69-109 | Among non-empty whole messages, one is lost if and only if two undelivered ones were held when it arrived |
| TwoSlot.RunKeepsQueue | clients/c/src/websocket.c:63-411 | What was handed out and what is coming is at every moment exactly what found room; behind an empty message nothing does |
| TwoSlot.NeverWedges | clients/c/src/websocket.c:63-110 | With non-empty chunks, fragmented or not, no reachable state holds a complete next message without a complete current one, so a waiting reader's slot takes whatever arrives |
| TwoSlot.JammedExactly | clients/c/src/websocket.c:63-411 | For any mix of callbacks, reads and timeouts, messages whole or fragmented, inside a read or not: the buffer of an open connection is jammed if and only if an empty message arrived while exactly one message was held, a non-empty one |
| TwoSlot.JammedInOneRead | clients/c/src/websocket.c:359-408 | A message and an empty one in one turn of lws_service jam the buffer within a single read |
| TwoSlot.JammedForever | clients/c/src/websocket.c:71-108 | Once jammed, a reader gets at most the one message that was held, whatever arrives and however often it reads |
| TwoSlotSocket.BBWebSocket.OnEvent | clients/c/src/websocket.c:63-118 | The callback on the C struct, with its growing arrays, is the specified one |
| TwoSlotSocket.BBWebSocket.RecvBinary | clients/c/src/websocket.c:295-411 | The blocking read on the C struct is the specified one, and returns the first message that is coming if there is one |
| TwoSlotSocket.BBWebSocket.TakeMessage | clients/c/src/websocket.c:380-410 | Handing out a message moves a queued one up |
| TwoSlotSocket.GrownCapacity | clients/c/src/websocket.c:74-76 | The doubling loop ends with room for what is needed, at its first size or at less than twice the need |
| TwoSlotSocket.AppendTo | clients/c/src/websocket.c:72-83 | Appending keeps the bytes already there, with every copy inside the capacity |
| MessageQueue.Queue.Enqueue | clients/c/src/pubsub.c:75-92 | The linked list with head and tail gains one message at its end |
| MessageQueue.Queue.Dequeue | clients/c/src/pubsub.c:95-111 | The first message leaves; an empty queue gives a null pointer |
| MessageQueue.DequeueAll | clients/c/src/pubsub.c:75-111 | Dequeuing until the queue is empty returns the messages first in, first out |
| ConsecutiveCalls.OwnReplyExactly | clients/c/src/bitbarrel.c:273-350 | Over any number of C calls and whatever arrives first: a call gets the reply to its own request if and only if its reply and that of every earlier call came in time, behind fewer than ten events and no failed or empty receive |
| ConsecutiveCalls.PyOwnReplyExactly | clients/python/bitbarrel/client.py:1291-1319 | Over any number of Python calls: under the same condition a call ends by the reply to its own request, and every other call raises |
| ConsecutiveCalls.MissShiftsAllReplies | clients/c/src/bitbarrel.c:291-328 | One call that gives up after ten events, or whose receive fails or is empty, leaves its reply unread; if what it leaves and what follows is in time, every later C call gets the reply to the call before it |
| ConsecutiveCalls.CallsStayBehind | clients/c/src/bitbarrel.c:273-350 | With n replies unread and everything in time from then on, every call takes the reply that is n calls old: no call catches up |
| ConsecutiveCalls.FindsOlderReplies | clients/c/src/bitbarrel.c:291-321 | Once a reply is unread one always is, and whatever reply a call finds then belongs to an earlier call |
| ConsecutiveCalls.LoopTakesFirstReply | clients/c/src/bitbarrel.c:291-321 | The loop takes the first reply among what arrives, or none, and leaves all others unread in order |
| SendRequest.LoopReachesReply | clients/c/src/bitbarrel.c:286-332 | The loop reaches response decoding if and only if a non-event is among its first attempts; it then has skipped exactly the events before it and leaves the rest unread |
| SendRequest.LoopGivesUp | clients/c/src/bitbarrel.c:316-321 | With nothing but events for all its attempts the loop gives up and leaves the rest unread |
| SendRequest.ConcludesExactly | clients/c/src/bitbarrel.c:286-350 | send_request gives up exactly on ten leading events, fails exactly if fewer are followed by nothing, an empty message or a failure, returns a response exactly if the message there begins with its encoding, and refuses any other message |
| SendRequest.PyReturnsExactly | clients/python/bitbarrel/client.py:1291-1334 | _send_request returns a value exactly if the message behind fewer than ten events begins with the encoding of a response with status 0, its own number and that value, in UTF-8 and within the limit; otherwise it raises |
| SendRequest.KindsOfArrival | clients/c/src/pubsub.c:113-172 | An encoded event is passed over and decodes to its topic and payload; an encoded response is taken for a reply unless its status is 255 |
| ResponseCodec.AcceptsExactly | clients/c/src/protocol.c:58-95 | Each of the four decoders accepts exactly what begins with an encoded response that meets its own conditions on status, size and UTF-8 |
| ResponseCodec.CDecodeResponse | clients/c/src/protocol.c:58-95 | C's decoder is the specified function of the bytes |
| ResponseCodec.PyDecodeResponse | clients/python/bitbarrel/protocol.py:237-270 | Python's, with its exceptions |
| ResponseCodec.GoDecodeResponse | clients/go/protocol.go:281-321 | Go's |
| ResponseCodec.TsDecodeResponse | clients/typescript/src/protocol.ts:154-179 | TypeScript's |
| SendRequest.PyReceive | clients/python/bitbarrel/client.py:1291-1334 | Python's loop is the same bounded loop, followed by decoding as UTF-8, the comparison of the numbers and the status, of which all but OK raise |
| SendRequest.BBClient.AwaitReply | clients/c/src/bitbarrel.c:291-321 | The countdown loop on the object is the specified loop, and the queue or the callback has exactly the decodable events before the response, in order |
| SendRequest.BBClient.ReceiveReply | clients/c/src/bitbarrel.c:286-350 | send_request after sending concludes as the loop and the response decoder say, and has delivered the decodable events in order |
| SendRequest.BBClient.ProcessEvent | clients/c/src/pubsub.c:113-196 | An event goes to the callback or to the end of the queue exactly when it decodes |
| Pagination.IterateRange | clients/python/bitbarrel/helpers.py:62-79 | Over any changing store: the empty key for as long as the first page is stuck on it, then increasing keys with values the store had; at the end every non-empty key that was present throughout has been yielded exactly once; over a fixed store it ends with the whole selection if and only if its first page is not stuck; all keys yielded lie between start and end or have the prefix |
| Pagination.OtherKeysOnce | clients/python/bitbarrel/helpers.py:73-79 | Stuck pages neither repeat nor lose any other key |
| Pagination.SelectedExactly | clients/python/bitbarrel/helpers.py:65-68 | What is scanned: the keys with the prefix if there is one, else those from the start key to before the end key, an empty end key meaning no end |
| Keys.LessIsLexicographic | clients/python/bitbarrel/client.py:719-741 | The order of the keys is the lexicographic order of their bytes |
| Pagination.PaginateRangeResult | clients/python/bitbarrel/helpers.py:24-40 | The same for the list version, whose result is complete if and only if its first page is not stuck on the empty key |
| Pagination.WholeSelectionIsUnique | clients/python/bitbarrel/helpers.py:24-79 | The whole selection in order is one list, so the result does not depend on the page size |
| Pagination.ScanTurn | clients/python/bitbarrel/client.py:719-741 | One more page, served by the cursor contract, keeps order and covers everything up to the new cursor |
| Pagination.NextCursorIsAKey | clients/python/bitbarrel/client.py:728 | Only a first page that is the empty key alone has an empty cursor with more to come |
| Pagination.EveryQueryHasAPage | clients/python/bitbarrel/client.py:719-741 | The cursor contract can be met for every store and query |
| GoWebSocket.StreamRoundTrip | clients/go/websocket.go:214-356 | For any messages under 65536 bytes, any types and any mask keys, reading as many messages as were written returns exactly those and leaves the bytes after them |
| GoWebSocket.AcceptsExactly | clients/go/websocket.go:287-356 | ReadMessage accepts exactly the streams that start with a final 7- or 16-bit frame of a known type, and returns its payload and the rest |
| GoWebSocket.ParseOfFrame | clients/go/websocket.go:287-356 | A frame with any of the two lengths, minimal or not, is consumed to its last byte |
| GoWebSocket.LongFrameIsRefused | clients/go/websocket.go:317-319 | A frame in the 64-bit form is refused whatever follows |
| GoWebSocket.BigMessageIsRefused | clients/go/websocket.go:249-255 | A message of 65536 bytes or more is written but never read back, nor misread |
| GoWebSocket.CutFrameIsRefused | clients/go/websocket.go:287-333 | A frame cut short anywhere is refused, and nothing is left of it |
| GoWebSocket.FragmentIsRefused | clients/go/websocket.go:299-304 | A frame without the FIN bit is refused after its first two bytes |
| GoWebSocket.StandardExamples | clients/go/websocket.go:214-284 | The frames written are those that section 5.7 of RFC 6455 gives as examples |
| GoWebSocket.WebSocket.WriteMessage | clients/go/websocket.go:214-284 | The bytes appended to the connection are one frame in its minimal form |
| GoWebSocket.WebSocket.ReadMessage | clients/go/websocket.go:287-356 | The reader on the connection is the specified parser, on success and on failure |
| WireFrame.MinimalFormIsShortest | clients/go/websocket.go:242-255 | The chosen length form gives the shortest frame (section 5.2 of RFC 6455) |
| WireFrame.MaskExactly | clients/go/websocket.go:267-275 | Masking flips in byte j exactly the bits that are set in byte j modulo 4 of the key (section 5.3 of RFC 6455) |
| WireFrame.ZeroKeyMasksNothing | clients/go/websocket.go:267-275 | The key of zeros leaves the payload as it is |
| WireFrame.XorExactly | clients/go/websocket.go:272 | The byte computed is the one in which exactly those bits are set in which the two differ |
| WireFrame.MaskTwice | clients/go/websocket.go:336-340 | Masking twice with one key is the identity (section 5.3 of RFC 6455) |
| CWebSocket.PassedOverExactly | clients/c/src/websocket.c:748-834 | For any bytes: every message behind them comes back whole, with the bytes after it left and given pongs sent, if and only if they are complete ping and pong headers with just those pings |
| CWebSocket.ControlFramePassedOverExactly | clients/c/src/websocket.c:792-799 | One ping or pong is passed over with just its own pong if and only if its payload is empty or made up of complete pong headers |
| CWebSocket.RoundTripPastControls | clients/c/src/websocket.c:682-834 | The same for any list of pings and pongs with payloads; payloads that are empty or pong headers suffice |
| CWebSocket.ReceiveOfFrame | clients/c/src/websocket.c:748-834 | A frame that is no close, ping or pong, of any length form, is returned whole up to 16 MB; a larger one is refused |
| CWebSocket.ReceiveOfMaskedFrame | clients/c/src/websocket.c:806-831 | A masked data frame of the standard's form is consumed to its last byte, but its key is taken for the start of the payload and its last four bytes for the key |
| CWebSocket.ReceiveOfCutMask | clients/c/src/websocket.c:825-831 | With fewer than four bytes left for the key, its end is what the buffer held before |
| CWebSocket.ReceiveOfClose | clients/c/src/websocket.c:788-791 | A close frame ends the connection and is answered with an empty one |
| CWebSocket.ReceiveOfCutFrame | clients/c/src/websocket.c:813-823 | A data frame cut short within its payload ends the connection |
| CWebSocket.ReceiveOfCutHeader | clients/c/src/websocket.c:748-786 | A header cut short fails and is lost; fewer than two bytes are left for the next call |
| CWebSocket.ConstantFrames | clients/c/src/websocket.c:793 | The pong is an empty pong frame, and the close an empty close frame |
| CWebSocket.SentIsAFrame | clients/c/src/websocket.c:682-729 | What the sender writes is a frame with the payload's length if and only if that length fits 32 bits |
| CWebSocket.ControlPayloadIsReadAsFrames | clients/c/src/websocket.c:792-799 | The payload of a ping or pong is not skipped but read as frames |
| CWebSocket.PingPayloadIsTakenForMessage | clients/c/src/websocket.c:792-799 | A ping that carries the bytes of a frame makes the receiver return that frame's payload |
| CWebSocket.BBWebSocket.RecvBinary | clients/c/src/websocket.c:748-834 | The receiver on the struct is the specified function of the incoming bytes, and it terminates |
| CWebSocket.BBWebSocket.SendBinary | clients/c/src/websocket.c:682-729 | The bytes sent are the specified header and the data |
| CWebSocket.BuildHeader | clients/c/src/websocket.c:688-712 | The header filled in byte by byte is the specified one |
| RangeFormat.ParsesExactly | clients/go/protocol.go:492-554 | The parser of the grammar accepts exactly the byte strings that begin with an encoded response, and yields it |
| RangeFormat.ParseOfEncoding | clients/go/protocol.go:492-554 | Parsing what was encoded gives the response back, whatever bytes follow |
| RangeCodec.GoDecodeRangeResponse | clients/go/protocol.go:492-554 | On every byte string Go's decoder is that parser, unless it exhausts the memory, which it does exactly when there are 5 bytes and their count exceeds the items the memory has room for |
| RangeCodec.TsDecodeRangeResponse | clients/typescript/src/protocol.ts:407-469 | TypeScript's decoder is that parser with a limit on values, on every byte string |
| RangeCodec.TsAcceptsExactly | clients/typescript/src/protocol.ts:407-469 | It accepts what Go accepts, and yields the same, exactly when every value is within the limit |
| RangeEncode.TsEncodeRangeResponse | clients/typescript/src/protocol.ts:358-402 | TypeScript's encoder throws exactly outside its limits; otherwise it writes the encoding in which each key and value is its UTF-8 cut to the number of its UTF-16 units, and the cursor its whole characters that fit and then whatever the memory held |
| RangeEncode.TsEncodingDecodes | clients/typescript/src/protocol.ts:358-469 | What TypeScript encodes, Go and TypeScript parse to those bytes, whatever follows |
| RangeEncode.TextComesBackExactly | clients/typescript/src/protocol.ts:358-469 | From TypeScript to TypeScript a response comes back the same, whatever the memory held, if and only if its cursor is ASCII and so are its keys and values but for a replacement character at the very end |
| Unicode.CutReadsBackExactly | clients/typescript/src/protocol.ts:382-391 | UTF-8 cut to the number of UTF-16 units reads back as the string exactly when it is ASCII, but for a replacement character at the very end |
| CRange.CParseAgrees | clients/c/src/range.c:21-99 | On everything the exact parser accepts, the lenient C parser fills in the same items, flag and cursor |
| CRange.CItemsOfCut | clients/c/src/range.c:21-99 | Of items that are cut short it keeps those before the cut, the key of the one that is cut if it is there in full, and nothing of the others |
| CRange.BBRangeResult.ParseRangeResponse | clients/c/src/range.c:21-99 | The C parser on its arrays is the specified lenient parser, on malformed input too |
| EventCodec.GoAcceptsExactly | clients/go/protocol.go:828-912 | Go accepts exactly the byte strings that begin with an encoded event |
| EventCodec.DecodersAgree | clients/c/src/pubsub.c:119-172 | On every event buffer Go accepts, C, Python and TypeScript extract the same topic and payload bytes, TypeScript from 36 bytes up and Python if the strings are UTF-8 |
| EventCodec.DecodersDifferOnCutPayload | clients/python/bitbarrel/protocol.py:724-776 | Python accepts what C accepts if the strings are UTF-8; otherwise the decoders differ exactly on a payload that is cut short |
| EventCodec.CutEventExactly | clients/python/bitbarrel/protocol.py:724-776 | An encoded event that lost its end: cut within the payload, Go and TypeScript refuse it, C delivers an empty payload and Python what is left of it; cut anywhere before, all four refuse it |
| EventCodec.GoDecodePubSubEvent | clients/go/protocol.go:828-912 | Go's decoder is the specified function of the bytes |
| EventCodec.TsDecodePubSubEvent | clients/typescript/src/protocol.ts:790-850 | TypeScript's decoder is the specified function of the bytes |
| EventCodec.PyDecodePubSubEvent | clients/python/bitbarrel/protocol.py:724-776 | Python's decoder, with slices that never fail and UTF-8 that may, is the specified function of the bytes |
| EventCodec.CDecodePubSubEvent | clients/c/src/pubsub.c:113-172 | C's parser is the specified function of the bytes |
| BatchEncode.EncodeBatchSet | clients/python/bitbarrel/protocol.py:930-967 | Although sized by characters, the output is exactly the specified encoding in UTF-8 bytes, without padding; it raises exactly when a key or value is too long |
| BatchEncode.EncodeBatchGet | clients/python/bitbarrel/protocol.py:970-998 | The same for keys alone |
| BatchEncode.ItemsReadBack | clients/python/bitbarrel/protocol.py:930-967 | A decoder for the batch format reads back the UTF-8 of every key and value, and nothing is left over |
| BatchEncode.KeysReadBack | clients/python/bitbarrel/protocol.py:970-998 | The parser of a batch get reads back the UTF-8 of every key, and nothing is left over |
| Unicode.DecodesExactly | clients/python/bitbarrel/protocol.py:952-953 | Strict UTF-8 decoding accepts exactly what encoding produces, and gives the text back |
| Unicode.TextReadsAsUnits | clients/typescript/src/protocol.ts:428-452 | What anyone wrote as UTF-8 is read by JavaScript as the UTF-16 units of its characters |
| Unicode.StringComesBackExactly | clients/typescript/src/protocol.ts:382-452 | A JavaScript string comes back through UTF-8 exactly when each of its surrogates has its partner |
| Unicode.BrokenExample | clients/typescript/src/protocol.ts:428-452 | Broken sequences read as in table 3-8 of the Unicode Standard |
| Unicode.StandardExamples | clients/python/bitbarrel/protocol.py:952-953 | Characters of each width are encoded as in section 7 of RFC 3629 |
| Unicode.UnitsExactly | clients/typescript/src/protocol.ts:382-391 | The units of a character are its own code or a high and a low surrogate with ten bits each (section 2.1 of RFC 2781) |
| BatchEncode.CharSizeIsNoMore | clients/python/bitbarrel/protocol.py:935-945 | The bytearray is never larger than what is written into it |
| BatchEncode.Writer.Put | clients/python/bitbarrel/protocol.py:956-965 | A slice assignment at the running offset extends the buffer exactly as far as the bytes reach |
| BatchReply.PyDecodeBatchGet | clients/python/bitbarrel/protocol.py:1018-1063 | Raises exactly on count mismatch, truncation and values that are not UTF-8, found or not, and otherwise returns the found keys in request order |
| BatchReply.FoundExactly | clients/python/bitbarrel/protocol.py:1060-1061 | A pair is returned if and only if some requested key was answered with status 0 and that value |
| BatchReply.FoundInOrder | clients/python/bitbarrel/protocol.py:1060-1061 | The pairs are in the order of the request |
| BatchReply.DecodesWhatWasEncoded | clients/python/bitbarrel/protocol.py:1018-1063 | Every encoded list of replies is well formed and decodes to itself |
| BatchReply.ParsedReplies | clients/python/bitbarrel/protocol.py:1037-1063 | What is accepted begins with that many encoded replies |
| BatchReply.CSlotsAgree | clients/c/src/bitbarrel.c:949-963 | As far as replies can be parsed, and so on all that Python accepts, the C loop fills in their statuses and values |
| BatchReply.CSlotsOfCut | clients/c/src/bitbarrel.c:949-963 | Of replies that are cut short it keeps those before the cut; the one whose value is cut gets a null value, and its first bytes are read as further replies |
| BatchReply.CFillSlots | clients/c/src/bitbarrel.c:933-963 | The C loop on its arrays is the specified lenient one |
| RequestCodec.EncodingDecodesEverywhere | clients/typescript/src/protocol.ts:64-120 | What any client encodes, with or without a TTL, decodes in Go to the same request, and in TypeScript to the same request and TTL with key and value read as UTF-8, which is the same text on ASCII |
| RequestCodec.TsTextComesBackExactly | clients/typescript/src/protocol.ts:46-103 | From TypeScript to TypeScript, where strings are written as latin1 and read as UTF-8, key and value come back the same if and only if they are ASCII, but for the replacement character |
| Unicode.Latin1ReadsBackExactly | clients/typescript/src/protocol.ts:46-88 | The same for any one string |
| RequestCodec.GoAcceptsExactly | clients/go/protocol.go:188-248 | Go accepts exactly the byte strings that begin with an encoded request for a known command and a value within limits |
| RequestCodec.TsAcceptsExactly | clients/typescript/src/protocol.ts:64-120 | TypeScript accepts exactly what begins with an encoded request for any command, a value within the limit and, if the flags announce one, a TTL; it yields that request read as text |
| RequestCodec.ValidCommandsExactly | clients/go/protocol.go:82-95 | The commands Go knows |
| RequestCodec.GoEncode | clients/go/protocol.go:137-185 | Go writes the encoding, and fails exactly outside its limits |
| RequestCodec.CEncodeRequest | clients/c/src/protocol.c:10-54 | C writes the encoding of the request with its lengths cut to their fields, and nothing behind it |
| RequestCodec.StaysInBufferExactly | clients/c/src/bitbarrel.c:277-278 | send_request leaves the memory behind its 65536-byte buffer alone, whatever it holds, if and only if 12 bytes and the cut key and value fit |
| RequestCodec.TsEncodeRequest | clients/typescript/src/protocol.ts:24-59 | TypeScript writes the encoding with strings as latin1, and throws exactly outside its limits |
| RequestCodec.PyEncodeRequest | clients/python/bitbarrel/protocol.py:78-144 | Python writes the encoding in UTF-8 bytes, and raises exactly when a length, number or TTL does not fit |
| RequestCodec.GoDecodeRequest | clients/go/protocol.go:188-248 | Go's decoder is the specified function of the bytes |
| RequestCodec.TsDecodeRequest | clients/typescript/src/protocol.ts:64-120 | TypeScript's decoder, strings included, is the specified function of the bytes |
| WireLayout.RequestIsItsTable | docs/PROTOCOL.md:47-60 | The encoding of a request is the documented table of fields, numbers most significant byte first |
| WireLayout.ResponseIsItsTable | docs/PROTOCOL.md:96-103 | So is that of a response |
| WireLayout.RangeResponseIsItsTable | clients/typescript/src/protocol.ts:354-357 | So is that of a range response |
| WireLayout.ItemsAreTheirTable | clients/python/bitbarrel/protocol.py:930-967 | And that of the items of a batch |
| WireLayout.EventIsItsTable | clients/go/protocol.go:826-827 | And that of an event |
| WireLayout.ReplyIsItsTable | docs/PROTOCOL.md:528-539 | And that of a batch reply |
| WireLayout.KeyIsItsTable | docs/PROTOCOL.md:515-524 | And that of a batch key |
| WireLayout.FrameIsItsTable | clients/go/websocket.go:232-284 | A WebSocket frame is the table of section 5.2 of RFC 6455 |

## Left out

- Sockets, DNS, TLS, the HTTP upgrade, tokens, deadlines and timers as real time: each is a success, a
  failure or a timeout that may happen at any moment.
- The Nim storage engine is not part of this model; pages come from any store that honours the cursor
  contract.
- Handshake parsing: whether a handshake or an event parses is left open in the protocol models.
- JSON in event headers, history, presence and topic lists; they rest on library parsers or string scans.
- Go's background receiver, which reads the connection outside the lock.
- Go: `Close` runs between the steps of other goroutines; the fields of the model's connections stand
  for the socket and the server behind it, and the scheduler is the sequence of actions.
- TypeScript: awaiting a Blob, listeners that throw, a missing error listener, and numbers above 2^53.
  Subscriptions and the current barrel do not touch the table and are not modelled. An honest server is
  a condition on the messages that arrive, not a machine of its own.
- C: allocation failure, big-endian hosts, reconnecting one libwebsockets handle, the order of the
  fragments of two interleaved messages, and socket reads that return only part of what was asked for.
- C strings are byte strings here, so what a NUL byte inside a key, value, topic or payload hides from
  `strlen` is not modelled. What an overrun of the stack buffer does next is not modelled either.
- `bb_publish`, `bb_process_messages`, `bb_wait_message` and Python's `traverse`, whose formats do not
  match the others; the comma tokenising of C and Go's `split`.
- Which exception Python raises, and which error text the others give.
- Strings in the event and range decoders are the bytes that spell them. Python's are required to be
  UTF-8, where bytes and text are one to one; TypeScript's replacement characters are modelled for
  requests and for range responses that TypeScript wrote, and Go and C keep bytes.
- Event timestamps and sequence numbers are unsigned 64-bit integers; the conversion of TypeScript's to
  a floating-point number is not modelled.
- `encode_batch_delete`, which is `encode_batch_get`; range, prefix and history requests and the
  decoders for key lists, which repeat the patterns of the range response.
- Command wrappers, status-to-error tables, examples and user interfaces.
- Pagination.IterateRange: the number of stores given bounds how many pages are watched, and the page
  size is at least 1; a generator that its caller abandons is a shorter watch.
- Pagination.PaginateRangeResult: the optional callback for each item is not modelled.
- GoClientObject.Client.SendRequest: the schedule bounds how long a call is watched; with a handler
  its result is covered by the lemmas about runs.
- CWebSocket.BBWebSocket.SendBinary: the two `send` calls either both succeed or are not made.
- SendRequest.BBClient.ReceiveReply: starts after the request has been encoded and sent.
- RangeCodec.GoDecodeRangeResponse: the memory has room for a given number of items; how much that is, and
  that Go ends the process when it is exceeded, is not modelled.
- CWebSocket.BBWebSocket.RecvBinary: `ws_recv_binary` returns 0 both for an empty message and for a timeout;
  the model tells `Data([])` and `TimedOut` apart.
- GoClientSafety.SuccessIsOwnExactlyWhenClose: its condition is about the hidden origin of a response, so
  no caller can test it; `AgeBoundIsTight` is the bound that a caller can keep to.
- BatchReply.CFillSlots: starts at the count, after the checks of length and overall status.
