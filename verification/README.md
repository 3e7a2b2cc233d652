# Verification of the sgate gateway core

sgate is a long-connection gateway: clients connect over TCP or WebSocket, and
the gateway forwards their messages to logic servers and pushes messages back.
This project models the parts of it that are hard to get right and proves what
they are for, for every input, every interleaving and every run. Verify it with
`dafny verify dfyconfig.toml`.

| file | what it models |
|---|---|
| `Common.dfy`, `Arith.dfy`, `Bytes.dfy` | options; integer division; bytes, length-prefixed units, big-endian numbers, XOR masking, slices |
| `TcpFraming.dfy` | length-prefixed frames and the per-connection reassembly buffer |
| `WsFraming.dfy` | WebSocket frames (section 5.2 and 5.3 of RFC 6455): parser and printer |
| `WsSession.dfy` | the WebSocket read loop and fragment reassembly (section 5.4 of RFC 6455) |
| `FrameLimits.dfy` | the size limits of the configuration and what they guarantee |
| `Coalescing.dfy` | the push buffer of a connection and its re-framing for WebSocket |
| `DirtySet.dfy` | the dirty set between pushing goroutines and the flusher |
| `RateLimit.dfy` | the lock-free token bucket |
| `ProtoWire.dfy` | the client message envelope in the Protocol Buffers wire format |
| `ReconnectQueue.dfy` | the reconnect queue with its overflow policies and flush loop |
| `LogicLink.dfy` | the whole send side of a logic-server link under concurrency |
| `LogicClient.dfy` | shard attach/detach counting and the client pool with its shortcut |
| `BatchPush.dfy` | grouping of pushes into PushBatch frames |
| `LogicServer.dfy` | the logic server's session, user and group bookkeeping |
| `ShardedMap.dfy` | the sharded concurrent map |
| `RemoteAddr.dfy`, `ConnManager.dfy` | peer addresses; the connection registry and its indexes |
| `Degradation.dfy` | the sliding error window of a degradation rule |

Shape of the model. Code that updates fields is a class whose methods are proved
against a function on values, and the properties are lemmas about that function.
Concurrent protocols (`DirtySet`, `RateLimit`, `LogicLink`) are state machines in
which each atomic operation, lock section or channel operation is a step, and the
lemmas quantify over every sequence of enabled steps of any number of goroutines.

Where code and documentation disagree, the model follows the code:

- `newDegradationRule` has a default for every window size that is not positive,
  but a negative size panics in `make` before the default is looked at. The
  default is only reachable for zero (`Degradation.NewDegradationRule`).
- `maxFrameSize` is meant to be the largest legal TCP frame. It is cut to 32 bits
  before the comparison, so from 2^32 on a configuration can load and refuse
  frames it is meant to allow (`FrameLimits.LimitHoldsExactly`,
  `FrameLimits.HugeLimitRefusesAll`).
- `RequeueFront` speaks of dropping the oldest message when full. It drops the
  next one (`ReconnectQueue.RequeueKeepsBound`), which arrived after the message
  it puts back (`LogicLink.QueueOrder`).
- The per-IP counts are said to follow the real client address behind a proxy.
  They do as long as connections are open, whatever the addresses
  (`ConnManager.UpdateIpKeepsCounts`). But `RemoveConnection` counts down the host
  of the rewritten address instead of the counted one. The two are the same
  exactly when the address could be rewritten, which excludes IPv6 peers, IPv6
  client addresses and unknown peers (`ConnManager.ReplaceThenRemove`,
  `RemoteAddr.NotRewritable`, `ConnManager.Ipv6PeerLeaks`).
- An account's connection set is meant to list its connections. It always lists
  all of them, and lists no others exactly as long as no connection changes from
  one account to another (`ConnManager.AccountsExactlyUnlessChanged`).
- A message that `SendMessage` has put into the reconnect queue is said to be sent
  after reconnecting. It can be left there on a connected client in three ways,
  and then waits for the next disconnect or for a later message that its shard
  refuses (`LogicLink.StrandedExactly`, `LogicLink.LateEnqueueStrands`,
  `LogicLink.LostFlushStrands`).
- The end of a stream is meant to release its own sessions. A session that has
  moved to another stream keeps its route there but loses its user and groups
  (`LogicServer.CleanupHitsMovedSessions`).

## Model

| member | source | states |
|---|---|---|
| TcpFraming.ParseResumes | internal/gateway/handlers.go:258-281 | parsing a + b is parsing a and resuming with its unconsumed suffix followed by b; a stream rejected or stopped within a is rejected the same way on a + b |
| TcpFraming.ParseIffEncoded | internal/gateway/handlers.go:258-281 | for any handler, a stream leaves the connection open with given frames handed on and a rest if and only if it is their length-prefixed encoding, all legal and each answered with going on, followed by an incomplete frame |
| TcpFraming.CloseIffEncoded | internal/gateway/handlers.go:258-281 | for any handler, it closes the connection with given frames handed on if and only if it starts with them, all legal, and an illegal length follows or the last of them is the first one the handler stops at |
| TcpFraming.ChunkingIrrelevant | internal/gateway/handlers.go:237-288 | however a stream is cut into reads that do not trip the buffer limit, the frames handed on and the verdict are those of one pass over the whole stream, and an open connection holds exactly the unconsumed suffix |
| TcpFraming.OverflowCloses | internal/gateway/handlers.go:239-247 | a read that trips the buffer limit closes the connection with the frames handed on before, and no later read changes that |
| TcpFraming.ConnContext.FeedFrames | internal/gateway/handlers.go:237-288 | one read, with compaction and an offset into the buffer, has the effect of one step of that one-pass parse, the overflow, bad length and handler-stop exits included |
| WsFraming.ParseFrameStable | internal/gateway/websocket.go:217-268 | bytes that arrive later never change the answer on a frame already decided |
| WsFraming.ParseWire | internal/gateway/websocket.go:217-268 | the parser inverts the layout of section 5.2 of RFC 6455 for every first byte, length form, mask and trailing bytes |
| WsFraming.WireOfParsed | internal/gateway/websocket.go:217-268 | conversely, whatever the parser accepts is the wire form of the frame it reports |
| WsFraming.StrictPrefixNeedsMore | internal/gateway/websocket.go:217-268 | every strict prefix of a legal frame asks for more input and is not an error |
| WsFraming.OversizeRefused | internal/gateway/websocket.go:217-268 | a length above the limit is refused as soon as the length field is there, for every first byte, length form, mask bit and whatever follows |
| WsFraming.EncodeIsWire | internal/connection/ws_frame.go:6-25 | the server's three branches are the unmasked wire form with a fitting length form |
| WsFraming.ParseEncoded | internal/connection/ws_frame.go:6-25 | parsing an encoded frame gives the opcode, the FIN bit and the payload back, for every length form and trailing bytes |
| WsSession.ConsumeResumes | internal/gateway/websocket.go:313-370 | consuming a + b is consuming a and resuming with what it left, reassembly state included |
| WsSession.ChunkingIrrelevant | internal/gateway/websocket.go:296-370 | however the bytes are cut into reads that do not trip the buffer limit, messages, verdict, message under reassembly and unconsumed suffix are those of one pass |
| WsSession.ConsumeIsFold | internal/gateway/websocket.go:313-370 | on frames a client sent, the result depends only on FIN bits, opcodes and unmasked payloads: masks and length forms have no influence and each payload is unmasked once |
| WsSession.FoldUnder | internal/gateway/websocket.go:322-357 | any handler is given what the one that refuses nothing is given, up to the first message it refuses |
| WsSession.WellFormedSessionDelivered | internal/gateway/websocket.go:296-370 | for any handler, a session well formed under section 5.4 of RFC 6455, cut in any way, is handed on as its messages (fragments concatenated under the first opcode, interleaved control frames in their place) up to and including the first one the handler refuses, and closed there; if it refuses none, all are handed on and the connection is open, idle and empty |
| WsSession.ClosesExactly | internal/gateway/websocket.go:322-357 | for any frame list the session stays open if and only if no frame is unmasked, too long, a continuation with no message begun, or takes the reassembled length above the limit; otherwise it closes at the first such frame with the messages before it delivered |
| WsSession.AnySessionDelivered | internal/gateway/websocket.go:296-370 | the same on bytes, for any frames, any cut into reads that do not trip the buffer limit and any handler: handed on are the messages before the first offending frame, up to the first one the handler refuses |
| WsSession.UnmaskedCloses | internal/gateway/websocket.go:322-325 | an unmasked frame closes the connection whatever its header, payload, the bytes after it and the message under reassembly, and hands nothing on |
| WsSession.OverflowCloses | internal/gateway/websocket.go:298-310 | a read that trips the buffer limit closes the connection with the messages handed on before, and no later read changes that |
| WsSession.WebSocketConnection.Reassemble | internal/gateway/websocket.go:322-357 | one client frame updates fragBuf, fragOp and fragging and hands on a message as the reassembly function says, refusals included |
| WsSession.WebSocketConnection.HandleMessage | internal/gateway/websocket.go:296-370 | one read, with compaction, in-place unmasking and an offset, has the effect of one step of the one-pass session |
| FrameLimits.TcpResidue | internal/gateway/handlers.go:258-281 | after every successful read an open TCP connection holds at most maxFrame + 3 bytes |
| FrameLimits.WsResidue | internal/gateway/websocket.go:313-370 | after every successful read an open WebSocket connection holds at most maxWSFrame + 13 bytes |
| FrameLimits.TcpSmallReads | internal/gateway/handlers.go:239-247 | reads no larger than the room above that residue never overflow the buffer |
| FrameLimits.WsSmallReads | internal/gateway/websocket.go:298-310 | the same for WebSocket |
| FrameLimits.TcpLimitsExact | internal/config/config.go:396-399 | the buffer holds the largest legal frame and its prefix if and only if no stream arriving byte by byte is ever closed for overflow; for frame limits below 2^32 that is the TCP cross-check |
| FrameLimits.WsLimitsExact | internal/config/config.go:400-403 | the same for the WebSocket cross-check with its 14 header bytes |
| FrameLimits.LoadedLimitsLeaveRoom | internal/config/config.go:416-433 | every configuration that loads, defaults applied first, is safe byte by byte on both transports and has room for a maximal frame arriving whole |
| FrameLimits.LoadsExactly | internal/config/config.go:396-403 | a configuration loads if and only if, defaults applied, no stream arriving byte by byte is ever closed for overflow on either transport; for TCP frame limits from 2^32 on the cross-check asks for more |
| FrameLimits.LimitHoldsExactly | internal/gateway/handlers.go:258-266 | every TCP frame up to the configured size is legal if and only if the size is below 2^32 or its low 32 bits are all set |
| FrameLimits.HugeLimitRefusesAll | internal/config/config.go:396-399 | a configuration with a frame limit of 2^32 loads and then hands no frame on |
| FrameLimits.DefaultsFillIn | internal/config/config.go:416-433 | after the defaults every limit is positive, positive values are kept, applying them again changes nothing, and a configuration without values loads |
| Coalescing.SplitUnitsIff | internal/connection/connection.go:336-352 | a TCP client reads back exactly the pushed payloads if and only if each is shorter than 2^32 bytes |
| Coalescing.ReframeMeaning | internal/connection/connection.go:402-422 | re-framing succeeds exactly on buffers a TCP client could split, and a WebSocket client then reads the same payloads |
| Coalescing.ReframeOfUnits | internal/connection/connection.go:402-422 | re-framing never fails on a buffer built by appending, and yields one FIN binary frame per payload |
| Coalescing.OutputMeans | internal/connection/connection.go:355-398 | what a flush writes reads, as WebSocket frames, as the units of the buffer; on TCP, and on WebSocket for a buffer that is no list of units, it is the buffer |
| Coalescing.ReframeCoalescedAsWSFrames | internal/connection/connection.go:402-422 | the loop over offsets computes the recursive re-framing, nil on a malformed buffer |
| Coalescing.Connection.AppendCoalesced | internal/connection/connection.go:336-352 | appends one length-prefixed unit and counts it |
| Coalescing.Connection.FlushCoalesced | internal/connection/connection.go:355-398 | writes the buffer in the transport's form, empties it in either case and counts only written messages |
| Coalescing.RunState | internal/connection/connection.go:336-398 | in every run of appends and flushes, whichever writes are accepted, the buffer encodes exactly the waiting payloads and the socket got exactly the written ones |
| Coalescing.EveryPayloadOnce | internal/connection/connection.go:336-398 | every pushed payload is written, refused or waiting, exactly once and in push order; without a refused write nothing is missing |
| Coalescing.ClientReadsWhatWasPushed | internal/connection/connection.go:336-422 | in every run the concatenated outputs decode to exactly the payloads whose write was accepted, in order, on TCP and on WebSocket; while all are accepted these and the waiting ones are everything pushed |
| DirtySet.NothingStranded | internal/connection/coalescer.go:49-88 | under every interleaving a registered connection with unsent data is marked dirty, in the flusher's work or owned by a goroutine about to mark it, and written plus buffered data is what was pushed |
| DirtySet.FlushDelivers | internal/connection/coalescer.go:68-88 | whatever goroutines append, mark, register or unregister during a flush: when the flusher is at rest again after a swap, all data pushed before the swap is written for every connection that stayed registered and had no goroutine between append and mark |
| DirtySet.FlushDrains | internal/connection/coalescer.go:68-88 | in particular, if only the flusher moves, no such connection is left with unwritten data |
| DirtySet.GoneGetsNothing | internal/connection/coalescer.go:68-88 | in every run, once a connection is unregistered and not in the flusher's hand nothing more is written to it |
| DirtySet.WriteCoalescer.MarkDirty | internal/connection/coalescer.go:49-59 | list and set of dirty connections stay equal and free of duplicates |
| DirtySet.WriteCoalescer.SwapOut | internal/connection/coalescer.go:68-79 | the flusher takes the whole list and leaves both empty |
| RateLimit.RateBound | internal/security/ratelimit.go:75-112 | under every interleaving 0 <= tokens <= burst, and admissions since creation are at most max * (1 + elapsed / refresh) |
| RateLimit.InterleavedWindow | internal/security/ratelimit.go:75-112 | any window of an interleaved run of N goroutines admits at most burst * (N + 2 + length / refresh), and at most the tokens and refills under way at its start plus the refills earned in it |
| RateLimit.NoWindowBound | internal/security/ratelimit.go:75-112 | interleaved calls have no window bound in the parameters alone: with max, burst and refresh one, any number can be admitted at one instant |
| RateLimit.WindowBound | internal/security/ratelimit.go:75-112 | from any reachable bucket, a window of serial calls admits at most burst + max * (length / refresh + 1) |
| RateLimit.SerialWindow | internal/security/ratelimit.go:75-146 | the window bound at any point of a serial run from a new bucket |
| RateLimit.AdmittedExactly | internal/security/ratelimit.go:75-112 | of n calls at one time exactly min(n, tokens) are admitted, where more than a refresh period after the last refill the tokens have grown by max per whole period, up to burst |
| RateLimit.AloneIsSerial | internal/security/ratelimit.go:75-112 | every run of a call's atomic operations with no other goroutine in between ends with the bucket and the answer of the serial step |
| RateLimit.AloneFinishes | internal/security/ratelimit.go:75-112 | and there always is such a run |
| RateLimit.TokenBucket.constructor | internal/security/ratelimit.go:135-146 | a new bucket holds max tokens and never has a non-positive refresh period |
| RateLimit.TokenBucket.Consume | internal/security/ratelimit.go:75-112 | run alone, the compare-and-swap loops compute the serial step |
| RateLimit.TokenBucket.UpdateParams | internal/security/ratelimit.go:115-132 | a hot update cuts tokens down to the new cap and adds none |
| ProtoWire.ConsumeEncodedVarint | internal/routes/routes.go:59-107 | every 64-bit value survives Base 128 encoding, whatever follows |
| ProtoWire.VarintExactly | internal/routes/routes.go:59-107 | a varint is accepted if and only if a byte without continuation bit is among the first ten, and is at most one as the tenth; its value has 64 bits and its size is the place of that byte |
| ProtoWire.ConsumeEncodedValue | internal/routes/routes.go:95-103 | a printed unknown field is skipped in full if and only if its groups are not nested too deeply |
| ProtoWire.ExtractMessageFrame | internal/routes/routes.go:59-107 | the loop terminates on every input and computes the recursive extraction |
| ProtoWire.ExtractEncoded | internal/routes/routes.go:59-107 | for well-formed fields in any order and number the result is their meaning, last value first, if no group is nested too deeply, and a refusal otherwise |
| ProtoWire.FieldCut | internal/routes/routes.go:59-107 | every field, known or unknown, cut off anywhere inside is refused |
| ProtoWire.WrongMessageRefused | internal/routes/routes.go:59-107 | so is a message that after any good fields has one that is cut off, a known number with a wrong type, a number out of range, or a group closed under another number |
| ProtoWire.MeaningOfKnown | internal/routes/routes.go:95-103 | unknown fields inserted anywhere do not change the result |
| ProtoWire.ClientMessageRoundTrip | internal/routes/frame.go:24-57 | any field list with the envelope's known fields and shallow unknown fields in between extracts to exactly cmd, seqId and body |
| ProtoWire.MarshalThenExtract | internal/routes/frame.go:52-57 | for every int32 cmd, int64 seqId and body, extracting the marshalled message returns exactly these, and decoding succeeds if and only if cmd is not zero |
| ProtoWire.DecodeClientMessage | internal/routes/frame.go:24-38 | accepts exactly the extractable messages with a command, with their values |
| ReconnectQueue.EnqueueKeepsBound | internal/backend/client.go:330-387 | under every policy the queue stays within its size, an accepted message is last, and at most the oldest gives way, only when full |
| ReconnectQueue.EnqueueAnswers | internal/backend/client.go:330-387 | when each answer is given: backpressure accepts exactly below the threshold, block and timeout exactly while there is space, drop always; a full queue answers closing, full or wait by whether it is closed and the deadline passed |
| ReconnectQueue.OnlyDropPolicyDrops | internal/backend/client.go:330-387 | under every policy but drop an accepted message costs no other: the drop branch of backpressure is unreachable |
| ReconnectQueue.RequeueKeepsBound | internal/backend/client.go:409-421 | a requeued message is first again, the bound holds, and at most the next message is dropped |
| ReconnectQueue.StreamMessageQueue.constructor | internal/backend/client.go:299-318 | sizes and thresholds out of range fall back to the defaults |
| ReconnectQueue.StreamMessageQueue.TryEnqueue | internal/backend/client.go:330-387 | one locked attempt has the verdict and effect of the enqueue function |
| ReconnectQueue.StreamMessageQueue.Dequeue | internal/backend/client.go:390-401 | takes the first message, if any |
| ReconnectQueue.StreamMessageQueue.PutFront | internal/backend/client.go:409-421 | has the effect of the requeue function |
| ReconnectQueue.StreamMessageQueue.Flush | internal/backend/client.go:425-464 | run alone, the retry loop sends a prefix of the queue in order, discards at most one message and only on closing, and leaves messages only after a hundred failures in a row |
| LogicLink.PlacesStep | internal/backend/client.go:209-271 | no step loses a message object or puts it in two places, and only a new object adds a place |
| LogicLink.OneOwner | internal/backend/client.go:209-271 | in every run before closing each object given to SendMessage, new or taken out of the pool again, is in exactly one place: a caller, the queue, the flusher's hand, a channel, a batch, returned with an error, or the pool |
| LogicLink.SenderGoesIn | internal/backend/client.go:209-249 | a call goes on to its shard if and only if the client is connected, into the channel only if that has room, and to the queue otherwise |
| LogicLink.TryQueueEnds | internal/backend/client.go:213-240 | an attempt to enqueue that ends the call does exactly one of two things: the queue takes the message and recycles nothing or the first message of a full queue, or the message goes back to its caller with an error and nothing else moves |
| LogicLink.SenderGetsOut | internal/backend/client.go:209-249 | no other step ends a call: its message is then last in its shard's channel, accepted by the queue or returned |
| LogicLink.PoolChanges | internal/backend/iface.go:39-52 | every step puts into the pool exactly a batch the send loop is done with, what a caller gives back after an error, or the message a full queue gives up, and only reuse takes an object out |
| LogicLink.PoolOnlyGains | internal/backend/iface.go:39-52 | in every run an object that is in the pool and was not got there by one of these |
| LogicLink.QueueOrder | internal/backend/client.go:330-464 | over all policies and interleavings the queue stays within its size, and messages flushed, then the one in hand, then the queue are a subsequence of arrival order |
| LogicLink.StrandedExactly | internal/backend/client.go:209-249 | exactly three steps leave a message waiting in the queue of a connected client with no flush running or to come (a late enqueue by a sender that saw it away, a flush that finds the flag still set, giving up after a hundred failures), and exactly two end that (losing the connection, a later message refused by its shard) |
| LogicLink.StrandedOnlyThen | internal/backend/client.go:425-464 | in every run a message is left waiting only if one of the three happened |
| LogicLink.LateEnqueueStrands | internal/backend/client.go:211-224 | a run from a new client in which a sender that saw it away enqueues after the flush of the new connection is over |
| LogicLink.LostFlushStrands | internal/backend/client.go:425-436 | a run in which a flush comes between the empty look at the queue and the clearing of the flag |
| LogicLink.ShardOrder | internal/backend/stream.go:95-216 | the batches a shard's loop is done with, flattened and followed by the one in the making and the channel, are the accepted messages in order; each batch holds 1 to 256; a session stays on one shard; what went out on the stream is in the order of acceptance, and is all of the batches if none was dropped |
| LogicLink.BatchEndsExactly | internal/backend/stream.go:95-131 | in every run the loop ends a batch if and only if it has 256 messages or everything the shard accepted is in a batch, and otherwise takes the next message |
| LogicLink.AnswersAreKept | internal/backend/stream.go:146-181 | in every run a batch counts as sent if and only if its send succeeded, and the flusher gives up if and only if its last hundred attempts failed in a row |
| LogicLink.StreamShard.NextBatch | internal/backend/stream.go:95-131 | the drain loop takes a prefix of the channel of 1 to 256 messages, fewer than 256 only when it ran empty |
| LogicClient.StepOk | internal/backend/client.go:111-206 | attach, detach and close keep the counter equal to the shards holding a stream and the connected flag right |
| LogicClient.ConnectedExactly | internal/backend/client.go:111-206 | in every run the counter is exact until closing, and the client is connected if and only if it is not closing and every shard holds a stream |
| LogicClient.ReplacedStreamIsForgotten | internal/backend/client.go:148-176 | detaching a stream that a redial has replaced, or detaching twice, changes nothing |
| LogicClient.AttachMeans | internal/backend/client.go:111-145 | attaching succeeds if and only if the client is not closing and the index exists; the slot then holds the stream and no other slot changes, and an error changes nothing |
| LogicClient.DetachMeans | internal/backend/client.go:148-176 | detaching the stream a slot holds empties that slot and no other; detaching any other stream changes nothing |
| LogicClient.CloseMeans | internal/backend/client.go:179-206 | a closed client is not connected, keeps its streams, refuses every attach, and closing it again changes nothing |
| LogicClient.HoldsLastAttached | internal/backend/client.go:111-206 | in every run a shard holds a stream if and only if its last successful attach was of it and no detach of it followed |
| LogicClient.AllAttachedConnects | internal/backend/client.go:111-145 | attaching a stream to every shard of a new client connects it |
| LogicClient.LogicClient.AttachShard | internal/backend/client.go:111-145 | has the effect and error of the attach function, and reports exactly the transition to connected |
| LogicClient.LogicClient.DetachShard | internal/backend/client.go:148-176 | has the effect of the detach function |
| LogicClient.LogicClient.CloseClient | internal/backend/client.go:179-206 | has the effect of the close function; closing twice changes nothing |
| LogicClient.LogicClientPool.UpdateFastClient | internal/backend/pool.go:48-56 | the shortcut is set exactly when there is one client |
| LogicClient.LogicClientPool.Admit | internal/backend/pool.go:76-118 | finds the client, makes one, or replaces one with another shard count; a closed pool admits none |
| LogicClient.LogicClientPool.ClientStep | internal/backend/pool.go:48-56 | no attach, detach or close of any client invalidates the shortcut |
| LogicClient.LogicClientPool.ClosePool | internal/backend/pool.go:121-134 | closes every client and empties the pool; the left-over shortcut stays harmless |
| LogicClient.LogicClientPool.IsConnected | internal/backend/pool.go:144-158 | the shortcut's answer is the answer of the full scan in every valid state, after closing too |
| BatchPush.FlushRefines | internal/backend/stream.go:288-366 | a flush does not change which unbatched output the state stands for |
| BatchPush.BatchingRefines | internal/backend/stream.go:370-434 | after any messages, what batched mode sent followed by what is pending is, per connection and in order, what unbatched mode sent; logins agree, counters agree up to what is pending, fewer than 128 are pending |
| BatchPush.BatchingIsInvisible | internal/backend/stream.go:370-457 | with the flush at the end of the stream every connection got the same messages in the same order, and the counters are equal |
| BatchPush.EveryoneReceivesTheirs | internal/backend/stream.go:288-434 | in both modes a registered connection gets exactly the messages for it and the broadcasts, with their cmd, seqId and data and in order; the logins and the drops are those of the input list |
| BatchPush.PendingExactly | internal/backend/stream.go:370-412 | pending is the number of session messages since the last broadcast, modulo 128 |
| BatchPush.BatchedConserves | internal/backend/stream.go:288-434 | pushed + dropped + pending is one per session message and one per connection for each broadcast |
| BatchPush.Receiver.FlushBatch | internal/backend/stream.go:288-366 | the grouping loop and the sending loop, in any order of connections, have the effect of the flush function and leave the connection map empty |
| BatchPush.Receiver.ProcessOne | internal/backend/stream.go:370-412 | one upstream message has the effect of the batched step: heartbeat, broadcast after a flush, or session push |
| BatchPush.Receiver.SendToAll | internal/backend/stream.go:393-401 | a broadcast reaches every registered connection once, in any order |
| LogicServer.StepKeeps | internal/logic/server.go:263-457 | every operation keeps the user maps inverse, the group relations converse without empty sets, and every routed session bound to an open stream |
| LogicServer.Reachable | internal/logic/server.go:263-457 | these hold in every state reachable by any sequence of operations |
| LogicServer.CleanupForgets | internal/logic/server.go:263-278 | after the end of a stream in any reachable state no session is routed to it, and no session it bound has a user or a group |
| LogicServer.CleanupHitsMovedSessions | internal/logic/server.go:263-278 | a session routed to another stream stays routed there; its user and groups survive if and only if the ending stream never bound it or there are none to lose |
| LogicServer.MovedSessionIsLoggedOut | internal/logic/server.go:263-288 | a run after which a session that moved to a second stream loses its user when the first one ends |
| LogicServer.CleanupFrame | internal/logic/server.go:263-278 | sessions the stream never bound keep route, user and groups |
| LogicServer.OfflineExactly | internal/logic/server.go:445-457 | routing and groups always end; the session's login ends if and only if no user is named, it had none, or the named user is its own |
| LogicServer.MemberExactly | internal/logic/server.go:368-457 | after any operation a session is in a group if and only if it just joined it, or was in it and was not taken out by leaving it, going offline or the end of a stream that had bound it |
| LogicServer.UserExactly | internal/logic/server.go:339-356 | a user leads to a session if and only if the operation logs it in there, or it did and the operation does not end or replace that login |
| LogicServer.RouteExactly | internal/logic/server.go:263-288 | a session is routed to a stream if and only if it just spoke on it, or was routed there and neither spoke elsewhere, went offline nor lost that stream |
| LogicServer.BoundExactly | internal/logic/server.go:256-288 | a stream is open from its opening, under a number not in use, to its end, and binds exactly the sessions that spoke on it |
| LogicServer.LogicServer.Register | internal/logic/server.go:339-349 | the two swaps remove both former partners and keep the maps inverse |
| LogicServer.LogicServer.Unregister | internal/logic/server.go:352-356 | removes the user's pair from both maps |
| LogicServer.LogicServer.JoinPushGroup | internal/logic/server.go:368-385 | adds the pair to both relations and returns the group's size, zero on empty arguments |
| LogicServer.LogicServer.LeavePushGroup | internal/logic/server.go:388-406 | removes the pair from both relations, keeps no empty set, and returns the remaining size |
| LogicServer.LogicServer.LeaveAll | internal/logic/server.go:431-442 | visiting only the listed groups, which all exist, removes the session from every group |
| LogicServer.LogicServer.GoOffline | internal/logic/server.go:445-457 | has the effect of the offline function |
| LogicServer.LogicServer.ProcessMessage | internal/logic/server.go:281-288 | binds the session to the stream and logs the user in, if named |
| LogicServer.LogicServer.EndStream | internal/logic/server.go:263-278 | clearing the sessions one by one, in any order, has the effect of clearing them at once |
| ShardedMap.ShardedMap.Load | internal/connection/sharded_map.go:38-44 | looks up the one map, whatever the hash |
| ShardedMap.ShardedMap.Store | internal/connection/sharded_map.go:46-51 | updates the one map |
| ShardedMap.ShardedMap.Delete | internal/connection/sharded_map.go:53-58 | deletes from the one map |
| ShardedMap.ShardedMap.DeleteIf | internal/connection/sharded_map.go:61-75 | deletes if and only if the entry holds the given value |
| ShardedMap.ShardedMap.Range | internal/connection/sharded_map.go:79-96 | visits entries of the map, none twice, all of them unless the last call stopped it |
| ShardedMap.ShardedMap.RangeEditing | internal/connection/sharded_map.go:79-96 | with a callback that stores and deletes as it likes no key is visited twice, every visited entry was in the map before its visit, and every entry that stays throughout is visited |
| ShardedMap.ShardedMap.RangeDeleting | internal/connection/sharded_map.go:79-96 | with a callback that deletes, still visits every entry once and leaves the map empty |
| ShardedMap.ShardedMap.Count | internal/connection/sharded_map.go:99-108 | the sum of the shard sizes is the size of the map |
| RemoteAddr.HostOfJoined | internal/connection/connection.go:160-171 | splitting ip:rest gives ip back if and only if neither part has a colon or a bracket |
| RemoteAddr.HostOfBracketedAddr | internal/connection/connection.go:160-171 | splitting [host]:port gives host back if and only if host has no bracket and port neither colon nor bracket |
| RemoteAddr.RewriteExactly | internal/connection/connection.go:177-187 | the rewritten address has the new host if and only if the address was rewritable, a condition on the old address and the new host |
| RemoteAddr.NotRewritable | internal/connection/connection.go:177-187 | no address with two colons (every IPv6 peer), no host:port with a replacement that has a colon (every IPv6 client) and no empty address is rewritable |
| ConnManager.IndexesAgree | internal/connection/manager.go:157-320 | after every run each user entry leads to a live connection with that user, each live connection with an account is in its set, count and active are the registry's size, and total is active plus closed |
| ConnManager.UserLeadsExactly | internal/connection/manager.go:157-320 | after any operation a user leads to a connection if and only if it was just named for it, or led to it and was neither given away, renamed nor removed |
| ConnManager.ConnExactly | internal/connection/manager.go:157-320 | which connections are live after any operation, and with which user, account and peer host |
| ConnManager.TotalsExactly | internal/connection/manager.go:157-235 | in every run total counts the additions and closed the additions that are not live any more |
| ConnManager.AccountsStayExact | internal/connection/manager.go:247-262 | setting an account keeps the account sets exact if and only if the connection had no other account |
| ConnManager.ListedExactly | internal/connection/manager.go:247-276 | after any operation a connection is listed under an account if and only if it was just set, or was listed and not removed while it had that account |
| ConnManager.StepExact | internal/connection/manager.go:157-320 | any operation on exact account sets keeps them exact if and only if it does not change a connection from one account to another |
| ConnManager.AccountsExactlyUnlessChanged | internal/connection/manager.go:157-320 | after every run with ids that are not used again the account sets hold exactly the live connections of their account if and only if no connection changed from one account to another in it |
| ConnManager.ClosedConnectionStaysListed | internal/connection/manager.go:218-276 | a run after which a closed connection is still listed under its first account |
| ConnManager.UpdateIpKeepsCounts | internal/connection/manager.go:178-191 | replacing a peer address, whatever it is, keeps the per-IP counts equal to the live connections by peer host |
| ConnManager.UpdateIpAnswers | internal/connection/manager.go:178-191 | the answer is yes if and only if the connection is live and its peer host changed |
| ConnManager.RemoveKeepsCounts | internal/connection/manager.go:209-235 | removing a connection keeps them if and only if the host of its address is its peer host, or it has no peer host and nothing is taken |
| ConnManager.ReplaceThenRemove | internal/connection/manager.go:178-235 | a connection whose address was replaced is removed without harm if and only if the address was rewritable |
| ConnManager.CountsRightAfter | internal/connection/manager.go:126-235 | after every run whose removals take the peer host, whatever the addresses, each host is counted exactly as often as live connections have it |
| ConnManager.UnrewritableLeaks | internal/connection/manager.go:178-235 | if it was not, the replacement stays counted once too often when the connection is gone |
| ConnManager.Ipv6PeerLeaks | internal/connection/manager.go:178-235 | a run that adds an IPv6 peer and replaces its address has right counts, and after removing it a count of one with no connection |
| ConnManager.PlainCountsExact | internal/connection/manager.go:126-235 | after every run over host:port addresses with colon-free parts the counts are right and every connection can be removed without harm |
| ConnManager.NothingLeft | internal/connection/manager.go:550-561 | an empty registry leaves no user entry, and no IP entry if and only if the counts were covered by what removals take |
| ConnManager.RemoveCovered | internal/connection/manager.go:209-235 | no removal makes or breaks that the counts are covered by what removing every connection takes from them |
| ConnManager.CntInc | internal/connection/manager.go:126-133 | counting up adds one to the host and nothing to any other; the empty host is not counted and kept counts are positive |
| ConnManager.CntDec | internal/connection/manager.go:136-147 | counting down takes one from the host, not below zero, and nothing from any other; a count of zero is not kept |
| ConnManager.OfDrop | internal/connection/manager.go:265-276 | takes the connection out of the account's set and leaves every other set alone |
| ConnManager.Connection.PeerHost | internal/connection/connection.go:160-171 | the cached or split host, cached afterwards |
| ConnManager.Connection.SetRemoteHost | internal/connection/connection.go:177-187 | overrides the cached host and rewrites the address, cut at its first colon |
| ConnManager.ConnectionManager.AddConnection | internal/connection/manager.go:157-173 | enters the connection into registry, user index, counters and per-IP map, and keeps the indexes consistent |
| ConnManager.ConnectionManager.UpdateConnectionIp | internal/connection/manager.go:178-191 | re-keys the per-IP count and says whether anything changed |
| ConnManager.ConnectionManager.RemoveConnection | internal/connection/manager.go:209-235 | takes the connection out of every index once, with compare-and-delete on the user index; a second call changes nothing |
| ConnManager.ConnectionManager.SetConnectionAccount | internal/connection/manager.go:247-262 | adds the connection to the account's set |
| ConnManager.ConnectionManager.UpdateConnectionUser | internal/connection/manager.go:305-320 | moves the connection's user entry, deleting the old one only if it is still its own |
| ConnManager.ConnectionManager.CloseAllConnections | internal/connection/manager.go:550-561 | empties registry and user index, and the per-IP map if and only if its counts were covered, in particular if they were right and all connections removable without harm; every connection ever added is counted closed |
| Degradation.WindowSlides | internal/traffic/degradation.go:119-135 | one more result changes the error count by what enters and, once full, what leaves |
| Degradation.TripsExactly | internal/traffic/degradation.go:119-149 | in every run a result makes a rule degraded if and only if the window is full, its error rate reaches the threshold and it was not degraded; the trigger counter goes up exactly then |
| Degradation.DegradeRule.Slide | internal/traffic/degradation.go:119-135 | the ring buffer's incremental count is the number of errors among the last min(count, windowSize) results |
| Degradation.DegradeRule.RecordResult | internal/traffic/degradation.go:119-149 | has the effect of the record function on the full history |
| Degradation.DegradeRule.Process | internal/traffic/degradation.go:79-103 | answers with the fallback exactly within the cool-down, counted from the whole second in which degradation began, and ends degradation after it |
| Degradation.NewDegradationRule | internal/traffic/degradation.go:45-62 | defaults for zero values; no rule at all exactly for a negative window size |

## Left out

- Sockets and the event loop (gnet), gRPC, etcd, HTTP administration, start-up: a stream or socket is a sink that may refuse a write.
- The WebSocket HTTP handshake, the opcode dispatch behind it, JWT, WAF rules and WASM filters.
- The request pipeline around the frames: filters, circuit breaker, latency ring, replay cache, whitelist, overload control. They would only add easier members.
- Pooled and shared buffers: payloads are values, so reuse of a buffer by a later read is not captured; ownership of pooled messages is, in `LogicLink`.
- The choice of coalescer shard by connection id and the flush timer: one dirty set is modelled, and every moment is a possible flush.
- Closing of a logic client during sends: once the shard is closed, a send can report failure after the message has entered the channel, so ownership is stated for runs before closing.
- A panic while a batch is sent: its messages are then neither sent nor recycled.
- The steps between enqueueing a refused message, or becoming connected, and starting the flush goroutine: each pair is one step.
- Attach and detach of a shard are single steps; between the counter and the connected flag other goroutines could see them disagree.
- Waiting for space in the reconnect queue is a retry that finds space, a closed queue or a passed deadline; fairness and timers are not modelled.
- Rate limiter dimensions, bucket eviction and parameter changes during concurrent use; the rate bounds are for fixed parameters and a clock that does not go back.
- Floating-point numbers are reals: thresholds and rates are compared without rounding.
- Marshalling failures and failed sends of pushed frames: with a failed direct send the code counts a batch neither as pushed nor as dropped.
- Methods of the logic server and of the connection manager are single steps, and connection ids are taken as fresh; races between them are not modelled.
- The connection manager's serverUserConnections, serverConnections and group maps: removal there is not compare-and-delete, so they are not complete.
- The helper that extracts a host from an address for the per-IP map lives in another repository and is not part of this model; it is taken to split like RemoteHost does.
- 32-bit wrap-around of counters and of connection limits.
- FNV and maphash: any function from keys to shards.
- WsFraming.ParseEncoded: for payloads shorter than 2^64 bytes, the length the 64-bit form can carry.
- FrameLimits.WsLimitsExact: for frame limits below 2^64, which a 64-bit integer cannot exceed; likewise FrameLimits.LoadsExactly.
- RateLimit.SerialWindow: for serial calls, since `RateLimit.NoWindowBound` shows that interleaved calls have no such bound; `RateLimit.InterleavedWindow` is what they have.
