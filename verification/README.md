# A model of the shared-memory bus and of the retrieval kernels

This project models, and proves properties of, two parts of the repository:

- **The bus** (`server-go/bus`): a lock-free single-producer single-consumer ring over shared
  memory, the 64-byte frame codec, the client that lends ring slots out, the module envelope, the
  caller that cuts requests into fragments and collects replies, and the serving loop that
  reassembles requests, runs handlers concurrently, cancels, and replies.
- **The memory module** (`server-go/modules/memory`, `src/modules/memory`): the embedder's circuit
  breaker, PageRank over the link graph, the bounded graph walk, scope-ordered recall with lane
  floors, relation-label normalization and the two gates that rest on it, the XML escaper, and the
  overlapping chunker.

The bus is proved layer by layer, and the layers are then joined. A ring under any interleaving of
its two sides is a FIFO queue; a frame or header decodes to what was encoded; the events a client
polls are a prefix of those emitted; the serving loop, in any order of events and handler returns,
starts each stream's handler once with that stream's bytes and sends each job one reply, which says so
when the job was cancelled or late; a call that waits too long returns and cancels; and a call
returns what the handler returns for exactly the request's bytes (`EndToEnd.CallReturnsHandlersAnswer`,
and joined to the serving loop itself, turn by turn, `Serving.CallerGetsAnswer`).

Integers are mathematical; every wrap-around, truncation and width of the source is written out
(`U32`, `U64`, `I64` are subset types). The ring keeps unbounded ghost indices beside the 64-bit
ones. Each shared word is read or written in a step of its own, sequentially consistent, as the Go
memory model's "Atomic Values" section says of `sync/atomic`.

The source's objects are classes, and its loops are loops: `SharedRing.RingView`, `Client.BusClient`,
`Caller.ModuleCaller`, `RuntimeServer.Server` and `Breaker.EmbedBreaker` update their fields, and
each method is proved to take one step of the corresponding transition system, about whose runs the
theorems are. The array algorithms work in place and are proved against functions or against the
property the source promises.

## Where the source falls short of what its comments say

Each is a lemma, with the exact condition beside it where one is stated.

- The chunker's "ensure forward progress" guard compares with `break_at - 200`, not with `pos`: some
  content is chunked for ever (`Chunker.SomeContentNeverHalts`); it halts exactly when no window it
  reaches is stuck (`Chunker.HaltsIff`), and always when no newline of the content ends a run of
  forty white-space characters (`Chunker.NewlinesFollowTextHalts`).
- A lane floor may displace a row of its own lane, and then leaves fewer than it asked for
  (`LaneFloor.FloorCanMiss`, exactly when: `LaneFloor.FloorIsMet`); a floor with more rows to promote
  than its window holds runs off the front of the list (`LaneFloor.FloorCanOverrun`, exactly when:
  `LaneFloor.FloorOverruns`).
- The breaker can have two probes out at once when a call granted before it opened reports late
  (`Breaker.TwoProbes`); `Breaker.ProbesAreBounded` is the bound that does hold, and
  `Breaker.SecondProbeIff` says exactly when a second probe can still get out.
- The caller's size check truncates the length to 32 bits first (`Caller.SizeCheckAdmitsOversized`,
  exactly when: `Caller.SizeCheck`).
- Poll slices a payload by wrapped bounds that no check has seen (`Client.ValidFrameOutOfRange`, exactly
  when: `Client.SliceInRange`); the placement check would rule it out (`Client.PlacedIsInRange`).
- The gate judges a label and its normal form alike exactly when normalizing does not empty a
  non-empty label (`Ontology.GateByNormalForm`); for sensitivity there is no exception
  (`Ontology.SensitivityByNormalForm`).

## Model

| member | source | states |
|---|---|---|
| Bits.MaskedIndex | server-go/bus/ring.go:88-91 | For a power-of-two capacity below 2^32, masking the wrapped 64-bit index gives the unbounded index modulo the capacity, so wrap-around never skips or repeats a slot. |
| Bits.PowerOfTwoTest | server-go/bus/wire.go:111 | For a positive word, `v & (v-1) == 0` holds exactly when the word has one bit set. |
| RingProtocol.StepKeepsInv | server-go/bus/ring.go:96-126 | Every atomic step of either side keeps the ring's invariant: wrapped indices match unbounded ones, at most `capacity` items are unread, unread slots hold the sent items, and what each side has begun is consistent with the other's progress. |
| RingProtocol.StepRefinesQueue | server-go/bus/ring.go:96-126 | The publishing store appends the written slot to the queue, the releasing store removes the oldest item, whose read bytes agree with it, and no other step changes the queue of at most `capacity` items. |
| RingProtocol.BeginAnswers | server-go/bus/ring.go:96-120 | A producer is refused exactly when the ring is full and a consumer exactly when it is empty, at the moment of the load that decides it, whatever the other side is in the middle of. |
| RingProtocol.WriterIsAlone | server-go/bus/ring.go:96-103 | The slot being written is neither an unread slot nor the slot being read. |
| RingProtocol.DistinctSlots | server-go/bus/ring.go:88-91 | Two positions less than a capacity apart never share a slot. |
| RingProtocol.RunKeepsInv | server-go/bus/ring.go:96-126 | The invariant survives every interleaving of producer and consumer steps. |
| RingProtocol.RunIsFifo | server-go/bus/ring.go:58-126 | From an attached ring, after any interleaving, the items received are a prefix of the items sent, in order: nothing is lost, duplicated or reordered, and at most `capacity` are in flight. |
| RingProtocol.LentSlotIsStable | server-go/bus/ring.go:113-126 | While a slot is lent to the consumer no sequence of producer steps changes a byte of it: the tail has not moved. |
| RingProtocol.AttachedInv | server-go/bus/ring.go:46-75 | A ring with sane geometry and indices at most a capacity apart starts in the invariant, whatever the absolute indices are. |
| SharedRing.HeaderMeaning | server-go/bus/ring.go:46-67 | An accepted header is one with the magic, a power of two of at least two slots under its own mask, and all its slots mapped right behind it. |
| SharedRing.AttachRing | server-go/bus/ring.go:46-75 | A mapping is accepted exactly when its header passes every check; the view then has the header's geometry and the shared indices, and its unread items are those between them. |
| SharedRing.RingView.constructor | server-go/bus/ring.go:30-75 | The view starts valid, with the shared indices, at a base equal to the tail. |
| SharedRing.RingView.ProduceBegin | server-go/bus/ring.go:96-103 | Answers no slot exactly when the ring is full; otherwise the free slot, the one the protocol's two loads choose. |
| SharedRing.RingView.ProduceCommit | server-go/bus/ring.go:106-109 | The bytes now in the free slot become the newest unread item; nothing else changes. |
| SharedRing.RingView.ConsumeBegin | server-go/bus/ring.go:113-120 | Answers no slot exactly when nothing is unread; otherwise the slot whose bytes are the oldest unread item. |
| SharedRing.RingView.ConsumeCommit | server-go/bus/ring.go:123-126 | Drops exactly the oldest unread item. |
| SharedRing.RingView.FreeSlotFilled | server-go/bus/ring.go:96-109 | Writing any bytes into the free slot, and nowhere else, leaves every unread item as it was. |
| Bytes.GetPut | server-go/bus/wire.go:164-189 | A value that fits its width survives little-endian storing and loading. |
| Bytes.PutGet | server-go/bus/wire.go:193-218 | Loading bytes and storing the value again reproduces the bytes. |
| Wire.FrameRoundTrip | server-go/bus/wire.go:164-218 | Every valid frame encodes to 64 bytes that decode to that frame. |
| Wire.HeaderRoundTrip | server-go/bus/wire.go:164-218 | Re-encoding the frame of an accepted header reproduces the header's 64 bytes. |
| Wire.HeaderDecodes | server-go/bus/wire.go:193-218 | Input that starts with a valid frame's bytes decodes to that frame, whatever follows. |
| Wire.Encode | server-go/bus/wire.go:164-189 | Writes the frame's 64 bytes at the front of the slot and nothing else, or, with no room or an invalid frame, writes nothing and answers zero. |
| Wire.Decode | server-go/bus/wire.go:193-218 | Answers what decoding the input answers, and changes the output frame only on success. |
| Wire.ValidateMeaning | server-go/bus/wire.go:111-158 | A frame validates exactly when, bit by bit: known flags only, one pattern bit, one placement bit if and only if there is a payload, bounded length, no stray reference, `More` only on inline requests and replies, a generation only with the arena flag, and a zero correlation exactly on notifications. |
| Client.EmitFrameValid | server-go/bus/client.go:188-220 | Every frame the client builds for its own kinds of message passes validation. |
| Client.EmitReasons | server-go/bus/client.go:188-219 | Each of emit's answers has its condition, and the first that holds decides. |
| Client.EmitFrameFields | server-go/bus/client.go:204-212 | The frame carries the call's kind, correlation and flags and the sender's handle, and a payload inline behind the header. |
| Client.SentIsEmitted | server-go/bus/client.go:188-220 | What emit commits is a valid inline frame whose payload lies right behind the header, within the slot. |
| Client.EmittedIsPlaced | server-go/bus/wire.go:223-246 | Every emitted frame passes the placement check of the slot it is in. |
| Client.OpenEmitted | server-go/bus/client.go:279-305 | A slot that carries an emitted event opens to exactly that frame and payload, and to no other. |
| Client.FillSlot | server-go/bus/client.go:205-218 | Copies header and payload into the slot it was given and touches no byte outside it. |
| Client.OpenSlot | server-go/bus/client.go:290-304 | For any slot at all: whether its header decodes, its frame, and the bounds of the payload view, or bounds that no slice can have. |
| Client.SliceInRange | server-go/bus/client.go:298-302 | The payload slice is out of range exactly when the header decodes to an inline frame whose reference plus length wraps past 2^64 and lands within the slot. |
| Client.PlacedIsInRange | server-go/bus/wire.go:223-246 | The placement check rules that out. |
| Client.ValidFrameOutOfRange | server-go/bus/wire.go:114-158 | Validation alone does not: a valid frame with reference 2^64-1 and length 2 gets there. |
| Client.BusClient.Emit | server-go/bus/client.go:188-220 | Refuses a detached client, a changed epoch, an oversized payload, a full ring or an invalid frame, changing nothing; otherwise the outbound queue gains exactly one slot carrying the event. |
| Client.BusClient.Poll | server-go/bus/client.go:279-305 | Whatever the inbound slots hold: releases the slot lent by the previous poll, and only that; then lends the oldest unread slot's event, or reports none, or fails on a slice out of range; an undecodable slot is dropped. |
| Client.BusClient.GiveBack | server-go/bus/client.go:279-289 | Releases the slot still lent, if there is one. |
| Emission.RunCarries | server-go/bus/client.go:188-220 | A producer that stores anything within the next event's bytes, as often as it likes and in any order, and commits once each byte was last stored as the event has it, interleaved with any consumer, publishes slots that carry its events in order. |
| Emission.EmitProgramEmits | server-go/bus/wire.go:164-189 | On a ring with room, emit's own steps (two loads, the header cleared and then written, the payload, the two commit steps) are those of such a producer. |
| Emission.PolledIsPrefixOfEmitted | server-go/bus/client.go:188-305 | Over any such interleaving, every byte the consumer has read, of a slot given back or still lent, is that of the event emitted in that place; the header read whole gives that event's frame, and header and payload give the event, so the events polled are a prefix of those emitted. |
| Emission.HeaderReadIsFrame | server-go/bus/client.go:291-295 | Sixty-four bytes read that are an event's decode to its frame, whatever the rest of the slot holds. |
| Emission.ReadIsEvent | server-go/bus/client.go:291-303 | Header and payload read that are an event's open to the event, whatever bytes of the slot were not read. |
| ModuleProtocol.MessageRoundTrip | server-go/bus/module_protocol.go:48-95 | A valid module header followed by its body decodes to that header. |
| ModuleProtocol.DecodedHeader | server-go/bus/module_protocol.go:76-95 | An accepted header is valid, its body is present, and re-encoding it reproduces its 40 bytes. |
| ModuleProtocol.Encode | server-go/bus/module_protocol.go:58-74 | Refuses a short buffer or an invalid header leaving the buffer alone; otherwise writes exactly the header's bytes. |
| Fragments.PiecesJoin | server-go/bus/module_caller.go:134-163 | The pieces join to the body, none is larger than the chunk, only the last is smaller, and only the last ends the run. |
| Fragments.RequestPacketOpens | server-go/bus/module_caller.go:150-158 | Each request fragment is a request, is marked `More` exactly when it is not the last, and opens to its header and its bytes. |
| Fragments.ReplyPacketOpens | server-go/bus/module_runtime.go:240-272 | The same of each reply fragment. |
| Fragments.FragmentIsEmitted | server-go/bus/client.go:188-267 | Within the host's geometry no fragment is refused for its own sake, and the frame emitted carries the fragment that was sent. |
| Runtime.StepKeepsInv | server-go/bus/module_runtime.go:293-429 | Every step of the loop or of a handler keeps: assemblies and jobs key-disjoint, at most 16 of each, bodies at most 16 MiB, and running handlers plus queued results in bijection with jobs. |
| Runtime.RunKeepsInv | server-go/bus/module_runtime.go:293-429 | So does every run, in any order of packets, handler returns, cancels and shutdown. |
| Runtime.NoHandlerBlocks | server-go/bus/module_runtime.go:196-221 | Running plus queued always equals jobs, so the results channel has room for every handler that has still to return, also after the loop has stopped. |
| Runtime.ShutdownDrains | server-go/bus/module_runtime.go:298-323 | The shutdown drain receives exactly one result for each outstanding job, always has a handler or a result to wait for, and ends with nothing left. |
| Runtime.AfterReturn | server-go/bus/module_runtime.go:298-323 | Once the drain has ended nothing can happen any more: no handler is left running and no result is unreceived. |
| Outcomes.ReturnIsAnswered | server-go/bus/module_runtime.go:196-221 | Once a handler has returned, over any continuation its job gets exactly one answer, which is what the return must come to, and has it when the job is gone. |
| Outcomes.CancelIsAnswered | server-go/bus/module_runtime.go:346-352 | A cancel that arrives while the handler is running: over any continuation, whatever the handler returns, the one answer is "cancelled" without a body; and until it returns the handler can see the flag. |
| Outcomes.CancelledCall | server-go/bus/module_runtime.go:346-427 | The whole story: a stream among any traffic, then a cancel while its handler runs; started once with the request's bytes, and answered "cancelled", once. |
| Outcomes.LateCall | server-go/bus/module_runtime.go:213-218 | The same of a call whose handler returns at or past its deadline: answered "deadline exceeded", once. |
| RuntimeHistory.RunReassembles | server-go/bus/module_runtime.go:345-427 | In every reachable state an assembly's body is the concatenation of its correlation's accepted fragments since its last reset, and every handler started was given that concatenation with the closing fragment. |
| RuntimeHistory.RunBalances | server-go/bus/module_runtime.go:196-291 | Over every run that is still serving, for each correlation and in total, replies sent plus live jobs equal refusals plus jobs started, and the packets sent are those replies, whole, one after another. |
| RuntimeHistory.RunSettles | server-go/bus/module_runtime.go:293-429 | Over every run that serves on or leaves by its context or the host, shutdown included: replies sent plus live jobs plus results drained equal refusals plus jobs started, for each correlation and in total. |
| RuntimeHistory.RequestOutcome | server-go/bus/module_runtime.go:345-427 | Each request fragment is exactly one of absorbed, with no reply, refused, with one immediate reply, or started as a job, with a handler running for it. |
| RuntimeHistory.RefusalReasons | server-go/bus/module_runtime.go:355-425 | Each refusal has its reason and each reason its status: a fragment that does not belong is invalid, one without room is an internal failure, a closing one past its deadline, without a handler, or with 16 jobs live is refused as such, and any other is absorbed or started. |
| RuntimeHistory.ReplyShape | server-go/bus/module_runtime.go:223-275 | A logical reply is a run of `More` fragments closed by one final fragment, all of one correlation; any status but OK is a single fragment with an empty body. |
| RuntimeHistory.NeverServesAgain | server-go/bus/module_runtime.go:298-323 | A loop that has left the serving phase never serves again. |
| RuntimeServer.Server.HandleEvent | server-go/bus/module_runtime.go:345-427 | One polled event changes the loop's maps, replies and log as the transition system's event step does, with the fault that the bus's own answers determine, and uses up exactly the answers it heard. |
| RuntimeServer.Server.Accept | server-go/bus/module_runtime.go:375-427 | The same of a well-formed request: its assembly grows, is refused and dropped, or becomes a job. |
| RuntimeServer.Server.ReplyModuleResult | server-go/bus/module_runtime.go:223-275 | Sends the fragments of the logical reply in order, downgrading an invalid or oversized answer, as far as the bus takes them; succeeds exactly when it takes them all. |
| RuntimeServer.Server.SendFragments | server-go/bus/module_runtime.go:236-274 | The offset loop sends exactly the fragments before the first that the bus does not take, all of them exactly when it succeeds. |
| RuntimeServer.Server.SendFragment | server-go/bus/module_runtime.go:251-271 | One fragment is retried while the ring is full; it is sent, once, exactly when the first answer that is not a full ring takes it. |
| RuntimeServer.DeliversAll | server-go/bus/module_runtime.go:237-274 | However often the ring is full, n fragments all go out exactly when the first n answers that find it otherwise take them. |
| RuntimeServer.ReplyDelivered | server-go/bus/module_runtime.go:223-275 | The loop goes on serving after a reply exactly when the reply could be framed and the bus took every fragment; and then exactly that reply has gone out, whole. |
| RuntimeServer.Server.RunHandler | server-go/bus/module_runtime.go:196-221 | A handler's return queues one result, within the channel's capacity of 16: "cancelled" without a body when the job is flagged; else "deadline exceeded" without a body when the clock works and is at or past a deadline there is; else the handler's own outcome, with its body only when it is OK and within the limit. |
| Runtime.FinalResultReports | server-go/bus/module_runtime.go:196-221 | The result computed is the one and only such result. |
| RuntimeServer.Server.FinishWork | server-go/bus/module_runtime.go:286-291 | The oldest queued result is replied to, as far as the bus takes it, and its job forgotten. |
| RuntimeServer.Server.FinishAll | server-go/bus/module_runtime.go:303-313 | The loop over the results channel takes the replies of `Finishes`, one for each queued result in order, up to the first that the bus does not take whole, and leaves the loop exactly then. |
| RuntimeServer.FinishesMeaning | server-go/bus/module_runtime.go:303-313 | Those steps are replies only; every one before the last is without fault, as many as there are results, all without fault, when it goes on, and otherwise the last is the one that failed. |
| RuntimeServer.Server.EndHandlers | server-go/bus/module_runtime.go:196-221 | The handlers listed as ended queue their results, in order, and nothing else happens. |
| RuntimeServer.EndingsMeaning | server-go/bus/module_runtime.go:196-221 | Exactly the listed handlers that are still running return, each once. |
| RuntimeServer.Server.BeginShutdown | server-go/bus/module_runtime.go:315-318 | The loop over the jobs flags every one of them and loses none, and the drain begins unless there are none. |
| RuntimeServer.Server.DrainAll | server-go/bus/module_runtime.go:319-323 | The waiting loop ends, once handlers do, after exactly one receive for each job, with nothing running and nothing queued. |
| RuntimeServer.Server.RunModuleClient | server-go/bus/module_runtime.go:293-429 | The serving loop, over any turns, takes the one run of the transition system that the turns and the bus's answers determine, but for the order of the results it waits for at the end. It receives the events polled, in order; it goes on only while no turn stops it, and then has replied to every result queued; it ends only for a reply not delivered, its context, the host or the poll; and when its context ends it returns with no job, no handler and no result left. |
| RuntimeServer.LoopReceives | server-go/bus/module_runtime.go:334-344 | What the loop receives is a prefix of the events polled, and all of them while it goes on. |
| Streams.StreamIsServed | server-go/bus/module_runtime.go:345-427 | Whatever else the bus carries, a complete stream that arrives in order, with room and time, starts its handler exactly once, with exactly the request's bytes, is never refused, and is answered at most once, by what the handler returned. |
| Streams.MergeIsServed | server-go/bus/module_caller.go:134-163 | For any merge that keeps each correlation's order of at most 16 calls' streams, every one of them is so served; room is proved, not assumed. |
| Caller.Send | server-go/bus/module_caller.go:134-163 | Sends, in order and through one reused buffer, exactly the fragments before the first that the bus does not take, and answers success or the error that the bus's answers determine; with no stage, a zero correlation, or a fragment no module message can hold, nothing goes out. |
| Caller.SendSucceeds | server-go/bus/module_caller.go:134-163 | A send succeeds exactly when the request can be framed, has a stage and a correlation, and the bus takes every fragment; a send that fails leaves at least one fragment unsent. |
| Caller.AwaitReply | server-go/bus/module_caller.go:169-223 | The loop computes the fold over polled events. It goes on exactly while nothing goes wrong and the reply is incomplete, and ends at the first failure, cancellation, passed deadline or refusal by the host, with that outcome. |
| Caller.WaitEndsEarly | server-go/bus/module_caller.go:170-199 | After a calm stretch that leaves the reply incomplete, a failed poll, a cancelled context, a passed deadline and the host's two refusals of this correlation each end the wait with their own outcome. |
| Caller.WaitsIff | server-go/bus/module_caller.go:170-221 | A wait is unfinished exactly when nothing has gone wrong and the packets of its correlation do not complete a reply. |
| Caller.ReactMeaning | server-go/bus/module_caller.go:192-220 | What each event means to the wait, case by case; the sum compared with the limit does not wrap. |
| Caller.OthersAreSkipped | server-go/bus/module_caller.go:169-223 | The outcome depends only on the events of the call's own correlation, in order: any others, late replies of earlier calls included, change nothing. |
| Caller.AwaitGetsAnswer | server-go/bus/module_caller.go:169-223 | Polling exactly one reply's fragments, among anything else, returns the reply's whole body, or its status as an error. |
| Caller.ModuleCaller.Call | server-go/bus/module_caller.go:96-130 | The outcome, the counter and everything put on the link are determined. A call whose wait ends early returns as its wait ends, with the whole request and then exactly one cancel on the link when the bus takes it; one that returns a body has put only the request there. |
| Caller.ConcludeEarly | server-go/bus/module_caller.go:113-129 | So for every request, bus and sequence of polls. |
| Caller.ConcludeMeaning | server-go/bus/module_caller.go:114-128 | A call whose every fragment the bus takes ends as its wait ends; any other ends with the bus's error, has sent less than the whole request, and sends no cancel. |
| Caller.SizeCheck | server-go/bus/module_caller.go:101-103 | The size check is the documented limit exactly for lengths below 4 GiB and for those whose low 32 bits exceed the limit too. |
| Caller.SizeCheckAdmitsOversized | server-go/bus/module_caller.go:101-103 | It admits 4 GiB exactly, and 2^24 + 1 lengths in every further 4 GiB. |
| EndToEnd.CallIsAnswered | server-go/bus/module_runtime.go:223-275 | The packets the module sends for a served call are exactly the fragments of one reply, the handler's. |
| EndToEnd.CallReturnsHandlersAnswer | server-go/bus/module_caller.go:96-223 | End to end: when the bus takes every fragment, and what the call put on the link reaches the module in order, with room and time, and the reply comes back in order, the call ends with exactly what the handler returns for exactly the request's bytes, for every inline budget on either side, whatever other traffic is interleaved both ways; when the bus does not take every fragment, the call ends with its error. |
| EndToEnd.CallThrough | server-go/bus/module_caller.go:96-130 | The same of the method itself: such a call returns what the handler returns, having sent exactly its request, and a cancel only when the handler's status is a failure. |
| Serving.LoopServes | server-go/bus/module_runtime.go:293-429 | What the turns bring decides it: when they poll the streams of at most 16 calls, merged in any way that keeps each one's order, in time, and the loop goes on, every call's handler was started once with the request's bytes; and once a turn has listed its handler as ended no job of it is left and the packets sent back are exactly its reply. |
| Serving.DueIsDone | server-go/bus/module_runtime.go:303-313 | A call whose stream has been polled, and whose handler a later turn lists as ended, has no job left: the loop has replied. |
| Serving.TurnLeaves | server-go/bus/module_runtime.go:302-344 | A turn that the loop goes on after leaves no result queued, and no job of a handler it listed as ended unless it started a new one. |
| Serving.CallerGetsAnswer | server-go/bus/module_caller.go:96-223 | A caller of such a loop, whose fragments the bus takes, whose handler has ended, and whom the replies reach in order, ends its call with what the handler returns for its request's bytes. |
| Serving.ServeCalls | server-go/bus/module_runtime.go:293-429 | The same of the loop as it runs, from its start. |
| Breaker.BreakerDelay | server-go/modules/memory/embed.go:88-114 | For all 64-bit bases and limits and all counts, without overflow, the loop and the jitter yield the capped doubling plus its jitter. |
| Breaker.DoubleStep | server-go/modules/memory/embed.go:96-103 | One saturating doubling is one more doubling of `min(base * 2^n, max)`, computed without exceeding the limit. |
| Breaker.DelayBounds | server-go/modules/memory/embed.go:88-114 | The delay lies between `d = min(base * 2^n, max)` and the smaller of `max` and `d + d/4`. |
| Breaker.DelayGrows | server-go/modules/memory/embed.go:88-114 | Despite jitter at any two times, one more opening never shortens the delay. |
| Breaker.EmbedBreaker.Allow | server-go/modules/memory/embed.go:49-68 | Grants or suppresses a call and claims the probe exactly as the transition system asks. |
| Breaker.EmbedBreaker.ReportFailure | server-go/modules/memory/embed.go:116-131 | Lengthens the streak with saturation and opens or re-opens the breaker from the third failure on. |
| Breaker.OpensExactly | server-go/modules/memory/embed.go:116-131 | A failure that makes the streak reach the threshold opens the breaker exactly when the time of the next try is a positive 64-bit number. |
| Breaker.ProbesAreBounded | server-go/modules/memory/embed.go:49-86 | In every run of concurrent callers: open exactly when the streak is at least 3; within one open period the outstanding probes are at most the late reports of older calls plus one if a probe is flagged; with no late report exactly that one; and every other outstanding call was granted before the opening. |
| Breaker.Suppression | server-go/modules/memory/embed.go:49-68 | While open, a suppressed caller is told exactly the time left, never more than 30000 ms, and is counted; past that time the probe is granted unless one is in flight; a clock that reads before the opening makes a probe eligible again. |
| Breaker.ClosedGrants | server-go/modules/memory/embed.go:49-56 | With fewer than three failures in a row every caller is granted at once. |
| Breaker.LateMeaning | server-go/modules/memory/embed.go:70-86 | What counts as a late report: one by a call granted before the breaker opened. |
| Breaker.OpenPeriods | server-go/modules/memory/embed.go:70-131 | Over every run of concurrent callers: open exactly from the third failure in a row on, since the last of them, for min(1000 * 2^(n - 3), 30000) ms after the n-th and at most a quarter more within the cap; a success starts the count again. |
| Breaker.TwoProbes | server-go/modules/memory/embed.go:70-86 | A run in which one late report leaves two probes outstanding: the naive claim is false. |
| Breaker.SecondProbeIff | server-go/modules/memory/embed.go:49-86 | From any reachable open state, two probes can be out at once later in the same open period exactly when a call granted before the opening is still outstanding, or more probes are out now than the flag claims. |
| Breaker.SecondProbeOnlyByStragglers | server-go/modules/memory/embed.go:49-86 | With no late report so far, exactly when a call granted before the opening is still outstanding. |
| PageRank.AdjacencySymmetric | src/modules/memory/memory_core_helpers.c:273-288 | The link graph is symmetric and has no negative weight, whatever the links are. |
| PageRank.BuildAdjacency | src/modules/memory/memory_core_helpers.c:264-288 | The in-place counting yields the matrix in which each accepted link counts once in each direction; for distinct positive ids whose links name them, entry by entry the number of allowed links between the two ids, returned for the one or for the other, and zero on the diagonal. |
| PageRank.AdjacencyCounts | src/modules/memory/memory_core_helpers.c:273-288 | The matrix counts exactly those links, by their own ends. |
| PageRank.SharesAreWhole | src/modules/memory/memory_core_helpers.c:296-313 | Every entry, dangling or linked, passes on exactly its whole score. |
| PageRank.NextIsDistribution | src/modules/memory/memory_core_helpers.c:290-318 | An iteration keeps the total at 1 and every score at or above 0.15/count. |
| PageRank.IterateIsDistribution | src/modules/memory/memory_core_helpers.c:290-318 | So do any number of iterations from the uniform start. |
| PageRank.ShareMeaning | src/modules/memory/memory_core_helpers.c:296-313 | A linked entry passes its score on in proportion to its links, a dangling one evenly. |
| PageRank.DegreesAreStationary | src/modules/memory/memory_core_helpers.c:290-318 | Where nothing dangles, scores proportional to the number of links are what following links leaves as it is; an iteration mixes them with an even spread, 85 to 15. |
| PageRank.IterateStep | src/modules/memory/memory_core_helpers.c:290-318 | Each iteration is applied to the scores of the one before. |
| PageRank.Refine | src/modules/memory/memory_core_helpers.c:292-317 | The two-buffer loop computes one iteration. |
| PageRank.MaxScore | src/modules/memory/memory_core_helpers.c:320-330 | The largest score is found and is positive, so the exit on a non-positive maximum is never taken. |
| PageRank.ScaledRange | src/modules/memory/memory_core_helpers.c:332-336 | Every scaled score lies above 0 and at most at the weight, and the largest is the weight. |
| PageRank.PageRankScores | src/modules/memory/memory_core_helpers.c:252-339 | Nothing when the configuration or the counts rule it out; otherwise one score per match, in order, in (0, weight] with the weight attained. |
| GraphWalk.AcceptsMeaning | src/modules/memory/memory_episodes.c:455-460 | A relation is followed exactly when the mask is the full mask or its code is below 32 and that bit is set. |
| GraphWalk.WithinIsPaths | src/modules/memory/memory_episodes.c:442-496 | Being within k hops means being reached by a path of at most k accepted edges. |
| GraphWalk.Walk | src/modules/memory/memory_episodes.c:414-506 | Every entry is an accepted edge of an entity one hop nearer, and hops never fall; when at most 256 entities are in reach, under names the tables hold whole, each entity is written once, at its exact distance, and all but the seed are written unless the output fills up. When every row names its entity, each entry copies its row, and the row joins the entity it was found from and the one it reaches; and unless the output fills up both ends of every row that is followed, of every entity seen with hops to spare, are seen. |
| GraphWalk.AroundMeaning | src/modules/memory/memory_episodes.c:452-469 | The neighbours of an entity are the other ends of its rows whose relation the mask admits, or a discussion's for a code out of range. |
| GraphWalk.GenuineIsFaithful | src/modules/memory/memory_episodes.c:452-489 | An entry is a copy of a row that is followed, joining where it was found and what it reaches. |
| GraphWalk.ReachedIsComplete | src/modules/memory/memory_episodes.c:442-501 | When the entities written are those in reach, none that a followed row leads to with hops to spare is missing. |
| GraphWalk.ContainedIsSmall | src/modules/memory/memory_episodes.c:428-436 | Any set of at most 256 entities that holds the seed and that followed rows never leave is enough for all in reach to fit. |
| GraphWalk.HopIsShortest | src/modules/memory/memory_episodes.c:478-490 | The hop of an exact entry is the length of a shortest path to the entity it reaches. |
| GraphWalk.EndHop | src/modules/memory/memory_episodes.c:442-501 | Expanding the whole frontier marks everything one hop further, and only the next frontier is left to expand. |
| GraphWalk.ExpandNode | src/modules/memory/memory_episodes.c:447-495 | Expanding a node writes each accepted edge to an unmarked entity once and leaves none unmarked while there is room. |
| GraphWalk.RoomToMark | src/modules/memory/memory_episodes.c:471-494 | While all in reach fits the tables, neither table is ever full when an entity is to be marked. |
| LaneFloor.FloorPermutes | src/modules/memory/memory_core_search_b.c:1412-1456 | A floor only permutes the list. |
| LaneFloor.FloorIsMet | src/modules/memory/memory_core_search_b.c:1432-1455 | After an acting floor the window holds the floor's number of lane rows, or all there are, exactly when none of the last rows of the window, as many as the floor lacks and the tail supplies, was itself of the lane. |
| LaneFloor.WindowCount | src/modules/memory/memory_core_search_b.c:1432-1455 | In every case: lane rows before, less displaced ones, plus promoted ones; and the window shrinks by the number promoted. |
| LaneFloor.FloorOverruns | src/modules/memory/memory_core_search_b.c:1447-1453 | An acting floor seeks a victim before the list's start exactly when the rows to promote outnumber its window. |
| LaneFloor.FloorFits | src/modules/memory/memory_core_search_b.c:1412-1456 | A floor no larger than its window never does. |
| LaneFloor.FloorCanMiss | src/modules/memory/memory_core_search_b.c:1447-1453 | Two of three rows in the lane, and a floor of two leaves one. |
| LaneFloor.FloorCanOverrun | src/modules/memory/memory_core_search_b.c:1447-1453 | Two lane rows behind a window of one, and a floor of two overruns it. |
| LaneFloor.TwoFloors | src/modules/memory/memory_core_search_c.c:1086-1093 | Two floors in sequence, the second within what the first left, permute the list, and no row the first promoted leaves the original window. |
| LaneFloor.ApplyInPlace | src/modules/memory/memory_core_search_b.c:1412-1456 | The loops in place compute the floor, touch nothing beyond the list, and answer the window left. |
| Recall.Merge | src/modules/memory/memory_core_search_c.c:458-476 | The loop in place leaves `Merged`: what was there and then the extra rows of new ids, in order, as far as the buffer has room; nothing behind them changes. |
| Recall.MergedMeaning | src/modules/memory/memory_core_search_c.c:458-476 | Merging keeps what was there, adds only rows of the extra list, keeps ids distinct, and with room to spare has exactly the ids of both lists. |
| Recall.MergedCut | src/modules/memory/memory_core_search_c.c:458-476 | A smaller buffer gets the front of what a larger one would. |
| Recall.SortScopeBuckets | src/modules/memory/memory_core_search_c.c:949-969 | The insertion sort in place yields falling ranks with every rank's rows in their old order, and ranks aligned with rows. |
| Recall.InsertedIsStable | src/modules/memory/memory_core_search_c.c:955-968 | Inserting the next row extends the stable sort by one. |
| Recall.StableSortUnique | src/modules/memory/memory_core_search_c.c:953-954 | A list has only one stable sort by rank. |
| Recall.BucketsPermute | src/modules/memory/memory_core_search_c.c:949-969 | Lists with equal buckets are permutations of each other. |
| Recall.FilterInScope | src/modules/memory/memory_core_search_c.c:1063-1074 | The compaction in place keeps exactly the candidates in scope, in order. |
| Recall.KeepInOrder | src/modules/memory/memory_core_search_c.c:1063-1074 | The candidates in scope stay in order, however the list is put together. |
| Recall.KeepIsComplete | src/modules/memory/memory_core_search_c.c:1063-1074 | No candidate in scope is dropped. |
| Recall.SelectionSort | src/modules/memory/memory_core_search_b.c:936-955 | Scores fall, and every row keeps the score it was given. |
| Recall.Rerank | src/modules/memory/memory_core_search_b.c:780-975 | Reranking scores and sorts the whole pool whatever the scorer is; the limit only caps the answer. |
| Recall.ApplyLanes | src/modules/memory/memory_core_search_c.c:1085-1094 | The pool becomes what the summary floor and then, within what that left, the fact floor make of it; out of bounds exactly when one of them overruns. |
| Recall.BothFloorsPermute | src/modules/memory/memory_core_search_c.c:1085-1094 | Both floors only permute the pool, and never overrun when their sum fits the window. |
| Recall.FindVisible | src/modules/memory/memory_core_search_c.c:1063-1100 | The answer is that of the steps: the pool in scope by relevance, sorted stably by scope, floored, sorted stably by scope again, and cut to the least of the kept rows, the limit (20 when none is given) and the room; there is none exactly when a floor overruns. |
| Recall.StepsRecall | src/modules/memory/memory_core_search_c.c:1063-1100 | With lanes off, or floors that fit, such a recall always answers; with the omitted rows the answer permutes the pool in scope and is ordered by rank; with lanes off it is the reranker's order stably sorted by rank. |
| Recall.SummariesStay | src/modules/memory/memory_core_search_c.c:1085-1094 | The fact floor, applied after the summary floor, leaves every summary that one promoted in the window. |
| Recall.FloorShows | src/modules/memory/memory_core_search_c.c:1085-1094 | Where the scope decides nothing, a lane's floor shows in the answer: as many of its rows as asked for, or all there are, if it displaces none of its own. |
| Recall.FeaturesKeepRanks | src/modules/memory/memory_core_search_c.c:1095-1098 | Whatever the scores and the lane floors were, two answers over the same candidates have the same ranks position by position: features move candidates only within their scope bucket. |
| Recall.RecallMeaning | src/modules/memory/memory_core_search_c.c:1063-1100 | Every row returned was generated and is in scope, ids stay distinct, and ranks fall. |
| Recall.OmittedRankNoHigher | src/modules/memory/memory_core_search_c.c:1095-1100 | No row in scope that was left out outranks any row returned. |
| Ontology.NormalizeRelType | server-go/modules/memory/ontology.go:98-128 | The loop with its flags and cap yields the label's words in lower case joined by single underscores, cut to 63 characters and trimmed. |
| Ontology.NormalizeImage | server-go/modules/memory/ontology.go:89-128 | The normalized labels are exactly the strings in normal form, and normalizing is idempotent. |
| Ontology.SpellingsAgree | server-go/modules/memory/ontology.go:89-128 | However a label spells its words, by capitals, by any characters between them, or both, its normal form is the words in small letters joined by underscores. |
| Ontology.CapitalsDoNotSplit | server-go/modules/memory/ontology.go:113-117 | A run of capitals is one word. |
| Ontology.EmptiedLabels | server-go/modules/memory/ontology.go:98-128 | Normalizing empties exactly the labels without a letter or a digit. |
| Ontology.LookupByNormalForm | server-go/modules/memory/ontology.go:143-154 | Looking a label up is looking its normal form up, though the look-up normalizes again. |
| Ontology.GateByNormalForm | server-go/modules/memory/ontology.go:156-185 | The gate gives a label and its normal form the same verdict exactly when normalizing does not empty a non-empty label. |
| Ontology.GateMeaning | server-go/modules/memory/ontology.go:156-185 | No label is a bad argument; a label unknown in normal form is novel; a known one is accepted or rejected by whether each kind, or the wildcard, is listed at its own end. |
| Ontology.WorksFor | server-go/modules/memory/ontology_seed.go:12 | In every spelling, a person works for an organization and not the other way round. |
| Ontology.SensitivityByNormalForm | server-go/modules/memory/pii.go:70-102 | A label and its normal form are always equally sensitive. |
| Ontology.SensitivityMeaning | server-go/modules/memory/pii.go:60-102 | A known relation has its row's tier; an unknown one is secret when its normal form mentions a credential, else personal when it mentions a regulated identifier, else normal. |
| XmlEscape.EscapeText | src/modules/memory/memory_assemble_util.h:15-56 | The buffer ends up with the escape of the longest prefix that fits beside the terminator, and the terminator. |
| XmlEscape.LongestFitIsLongest | src/modules/memory/memory_assemble_util.h:23-55 | Nothing that would have fitted is cut; with room for the whole escape nothing is. |
| XmlEscape.EscapeRoundTrip | src/modules/memory/memory_assemble_util.h:27-43 | Unescaping gives the text back. |
| XmlEscape.PredefinedEntities | src/modules/memory/memory_assemble_util.h:27-43 | Each entity stands for the character it is predefined for (section 4.6 of XML 1.0). |
| XmlEscape.EscapeIsClean | src/modules/memory/memory_assemble_util.h:27-43 | No markup character is left raw, and an ampersand only starts a whole entity (sections 2.4 and 4.6 of XML 1.0). |
| Chunker.HaltsIff | src/modules/memory/memory_core_helpers_b.c:1643-1689 | Chunking ends exactly when no window it reaches breaks within the overlap of its start with nothing but space in the overlap. |
| Chunker.NewlinesFollowTextHalts | src/modules/memory/memory_core_helpers_b.c:1643-1689 | Content in which no newline ends a run of forty white-space characters, content without newlines included, is always chunked to an end. |
| Chunker.SomeContentNeverHalts | src/modules/memory/memory_core_helpers_b.c:1684-1688 | Forty-three spaces and a newline before plain text are chunked for ever. |
| Chunker.StepDescends | src/modules/memory/memory_core_helpers_b.c:1643-1689 | A window that is not stuck yields a chunk, or brings the next chunk or the end nearer. |
| Chunker.ProgressCondition | src/modules/memory/memory_core_helpers_b.c:1684-1688 | The next window starts further on exactly when the break lies past the overlap or within the first 40 characters; it starts forty characters before the break, or at it within the first forty, and never past it. |
| Chunker.WindowMeaning | src/modules/memory/memory_core_helpers_b.c:1646-1677 | A window ends with the content, or behind the last sentence break within 200 characters, or else at 200; its chunk ends where only white space follows. |
| Chunker.RunCovers | src/modules/memory/memory_core_helpers_b.c:1643-1689 | At every moment of a run the windows cover an unbroken prefix, all its text is in some chunk, and there are at most 8 chunks, none empty and none over 200 characters. |
| Chunker.HaltedCovers | src/modules/memory/memory_core_helpers_b.c:1643-1693 | A run that ends short of eight chunks has chunked all the text. |
| Chunker.RefreshChunks | src/modules/memory/memory_core_helpers_b.c:1619-1693 | Wherever chunking ends, the loop inserts the run's chunks in order, or the whole content when it is nothing but space. |

## Left out

- Chunker.RefreshChunks: requires that no reached window is stuck, which is exactly when the loop ends at all.
- SharedRing.RingView.ProduceCommit: the view's methods are proved without interference between a begin and its commit; interference is in `RingProtocol`, whose steps they take.
- Breaker.SecondProbeIff: like all of the breaker's runs, assumes a clock that is positive and at least 30 s from overflow; it may jump either way.
- EndToEnd.CallReturnsHandlersAnswer: assumes of the host only that it keeps each correlation's order and keeps correlations in flight distinct; the host itself is not part of this model.
- GraphWalk.Walk: the cutting of an entry's strings to the output record's own fields is not modelled, as that record's declaration is not part of this model; the walk's own tables cut names at 255 characters, as in the source.
- Recall.Rerank: scoring is an arbitrary function of the pool; the score, rank and explanation fields it writes into the rows are not modelled.
- Recall.FindVisible: takes the generated candidates as given; the fallback without a vector index, an empty query and the saved scope of the caller are not modelled.
- PageRank.PageRankScores: doubles are reals, so rounding is not modelled; the link query is an arbitrary sequence per match, and the list of allowed relations an arbitrary test; at most 128 matches, as the source's buffers demand.
- Ontology.NormalizeRelType: labels are strings of characters; bytes of multi-byte characters count as separators either way.
- The injection floor on a fact's confidence, one comparison.
- Sockets, descriptor passing, memory mapping, attach handshakes, heartbeats and reconnection: operating-system plumbing.
- The daemon host with its routing, leases and reaping.
- RuntimeServer.Server.RunHandler: a handler's look at its cancel flag and its send of the result are one step; in the source another send or a cancel can fall between them, so results can queue in an order that no run here has.
- RuntimeServer.Server.RunModuleClient: handlers end between turns of the loop; every finer interleaving is in the transition system, whose runs the theorems are about.
- Handlers are arbitrary functions that return, and clocks are inputs of each step; a handler that panics, or never returns, is not modelled.
- Linked-neighbour expansion during reranking, off by default.
- Directives, tiers, episode cards, briefing and context text, JSON, and command tables: presentational or thin wrappers.
- Rank weights, evidence and decay formulas: constants without a specification.
