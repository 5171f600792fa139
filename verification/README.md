# A model of the nxt runtime

A Dafny model of the parts of the nxt C++ runtime in which state, concurrency
or streaming make correctness hard, with proofs of what those parts promise.
`dafny verify dfyconfig.toml` checks all of it.

- **The bounded evaluator** (`Words`, `Mask`, `Farm`, `SlotQueue`, `Pool`). A 64-ary
  summary tree is a set with minimum, a ring is a queue, a farm is a free set of
  slots, and on top of them the pool keeps its slots, counters and queues
  consistent over every run, never loses a wake-up and drains completely.
- **The blocking pool** (`Blocking`, `BlockingProgress`). An interleaving transition
  system of owner deck, workers and cancellers, one step per locked region: what each
  call ends with and why, over every interleaving; that something can always go on
  while a call is resident; and that nothing goes on for ever by itself.
- **Streaming readers** (`Http*`, `TlsFlight`, `WebSocket*`, `Reel`). Bytes arrive in
  nondeterministic nonempty pieces; every reader is proved equal to a function of
  the whole stream, and that function to a grammar or grouping stated without the
  reader's state.
- **JSON** (`Json*`, `StrictJson`, `LenientJson`, `Responses`). A strict slicing parser,
  a lenient scanner and a printer: the strict one accepts exactly the texts of JSON
  values, defined as a datatype, and slices them where their parts stand; the two
  readers agree wherever it accepts, and printed slices are sliced back unchanged.
- **Protected records** (`TlsMessages`, `TlsRecords`, `TlsSession`), **UTF-8** (`Utf8`) and **big-integer
  arithmetic** (`Crypto`, `Bits`).

Objects whose methods change fields are classes; loops are loops with invariants;
exceptions are `None` or an outcome. An exception's text, and an HTTP rejection's
status, are not modelled.

Three properties one might expect are false of the code, and the exact condition
under which they hold is proved instead: `mod_inverse` refuses modulus one though
every number is coprime to it (`Crypto.ModInverse`, `Crypto.ModulusOneRefused`);
`pow_mod` returns one for modulus one and exponent zero, and a negative residue for a
negative power (`Crypto.PowerSpecExact`);
and a TLS server flight followed by further handshake bytes is accepted or not
depending on whether a record ends right behind Finished (`TlsFlight.BoundaryDecides`,
`TlsFlight.CutMatters`).

## Model

| member | source | states |
|---|---|---|
| `MaskTree.CountLevels` | src/nxtrt/land.hpp:279-287 | level sizes are the repeated quotients by 64, up to a single root word, within six levels for every capacity up to 2^36 |
| `MaskTree.LayoutOf` | src/nxtrt/land.hpp:279-295 | the layout is well formed for every capacity up to 2^36: root level first, each level as wide as the words below it need |
| `MaskTree.LevelsDisjoint` | src/nxtrt/land.hpp:279-295 | words of different levels, and different words of one level, are different words of the array |
| `MaskTree.AncestorsOn` | src/nxtrt/land.hpp:252-263 | in a tree with consistent summaries every ancestor bit of a member is set |
| `MaskTree.RootSummary` | src/nxtrt/land.hpp:302-305 | the root word is zero exactly when the set is empty |
| `MaskTree.RewritePosition` | src/nxtrt/land.hpp:325-347 | changing one bit of one word keeps every summary but the one above that word, and changes the set by that member alone |
| `MaskTree.DescendLeftmost` | src/nxtrt/land.hpp:306-311 | taking the leading one bit at each level stays on the leftmost path that leads to a member |
| `MaskTree.Peek` | src/nxtrt/land.hpp:302-313 | the minimum of the set, or the capacity when it is empty |
| `MaskTree.Erase` | src/nxtrt/land.hpp:325-334 | removes the member, and afterwards every summary bit is again set exactly when its child word is nonzero |
| `MaskTree.Insert` | src/nxtrt/land.hpp:337-347 | adds the member, with the same summary invariant |
| `MaskTree.FillLevel` | src/nxtrt/land.hpp:354-361 | one level becomes exactly its live bits, the partial last word included |
| `MaskTree.Fill` | src/nxtrt/land.hpp:350-364 | from any words the tree of the full set; without indices nothing is written, so there the words must be the empty tree already |
| `Masks.Mask.constructor` | src/nxtrt/land.hpp:439-446 | over borrowed words of any content: a valid, empty mask |
| `Masks.Mask.Empty` | src/nxtrt/land.hpp:453-456 | true exactly when the set is empty |
| `Masks.Mask.Contains` | src/nxtrt/land.hpp:477-480 | membership, for every index including those past the capacity |
| `Masks.Mask.Take` | src/nxtrt/land.hpp:463-469 | removes and returns the minimum, or returns the capacity and changes nothing |
| `Masks.Mask.Give` | src/nxtrt/land.hpp:471-475 | adds one index to the set |
| `Masks.Mask.Fill` | src/nxtrt/land.hpp:482-486 | the set becomes all indices |
| `Masks.Run` | src/nxtrt/land.hpp:425-491 | over any sequence of fill, give and take, the mask returns what a plain set with minimum returns and ends with the same contents |
| `Rings.WindowExtend` | src/nxtrt/buffer-core.hpp:503-523 | growing the live window by values written at the write index appends them, wrap-around included |
| `Rings.WindowDrop` | src/nxtrt/buffer-core.hpp:654-664 | moving the read cursor drops exactly the front of the window |
| `Rings.Ring.Chunks` | src/nxtrt/buffer-core.hpp:482-501 | the two spans, concatenated, are the queue |
| `Rings.Ring.UnusedCapacity` | src/nxtrt/buffer-core.hpp:510-523 | a contiguous run of raw slots outside the live window, empty only when the ring is full |
| `Rings.Ring.AdvanceConstructed` | src/nxtrt/buffer-core.hpp:637-640 | values constructed in that run join the back of the queue |
| `Rings.Ring.Toss` | src/nxtrt/buffer-core.hpp:654-664 | drops the `n` oldest values, across the wrap-around |
| `Rings.Ring.TakeFront` | src/nxtrt/buffer-core.hpp:616-619 | takes the oldest value |
| `Farms.Farm.constructor` | src/nxtrt/farm.hpp:80-90 | every slot starts free |
| `Farms.Farm.Empty` | src/nxtrt/farm.hpp:112-115 | true exactly when nothing is free |
| `Farms.Farm.TryAlloc` | src/nxtrt/farm.hpp:120-125 | hands out a free slot and removes it from the free set; null exactly when nothing is free; hot slots first, in FIFO order |
| `Farms.Farm.Alloc` | src/nxtrt/farm.hpp:131-137 | the same through a refill of the hot ring |
| `Farms.Farm.Give` | src/nxtrt/farm.hpp:141-148 | a slot that was out joins the free set, hot if there is room, else cold |
| `Farms.Farm.StreamMore` | src/nxtrt/farm.hpp:159-175 | moves the lowest cold indices to the ring in ascending order and keeps the free set |
| `Farms.Serve` | src/nxtrt/farm.hpp:62-175 | over any sequence of requests that returns only slots handed out: hot and cold are disjoint and duplicate-free, and free and handed-out slots partition 0..N-1 |
| `SlotQueues.Queue.Push` | src/nxtrt/pool.hpp:216-224 | appends to the intrusive queue, of which the links and end pointers are exactly the list |
| `SlotQueues.Queue.Pop` | src/nxtrt/pool.hpp:226-234 | takes the front of that list |
| `SlotQueues.Publish` | src/nxtrt/pool.hpp:377-377 | a slot popped from one queue and pushed on the other through their shared links leaves both intact |
| `SlotQueues.Use` | src/nxtrt/pool.hpp:211-235 | completing, publishing, consuming, dropping `completed_` and releasing, done over the shared links, are those operations on two disjoint sequences |
| `SlotQueues.Replay` | src/nxtrt/pool.hpp:211-235 | so is every sequence of uses that the pool's own preconditions allow: its sequences `completed` and `buffered` stand for these queues |
| `PoolState.Recount` | src/nxtrt/pool.hpp:288-317 | rewriting one slot moves `occupied_` and `running_` by that slot alone, and the farm with them |
| `Pools.Pool.constructor` | src/nxtrt/pool.hpp:112-129 | the invariants hold of a new pool |
| `Pools.Pool.Signal` | src/nxtrt/pool.hpp:267-274 | wakes the parked controller exactly once, or leaves the change flag set |
| `Pools.Pool.Stop` | src/nxtrt/pool.hpp:162-172 | the input read and every owned slot have been asked to stop, and the waiter is woken once |
| `Pools.Pool.Reserve` | src/nxtrt/pool.hpp:295-304 | a blank slot taken out of the farm; none exactly when all slots are occupied |
| `Pools.Pool.Release` | src/nxtrt/pool.hpp:306-317 | gives a slot back once; only one whose frame does not run and that no queue holds |
| `Pools.Pool.Toss` | src/nxtrt/pool.hpp:319-323 | consuming the oldest results returns exactly their slots, keeping `buffered_` in lockstep with the result ring |
| `Pools.Pool.JobFinishes` | src/nxtrt/pool.hpp:288-293 | a completion enqueues the slot once, wakes a parked controller once, and an idea counts as failed exactly if its job threw |
| `Pools.Pool.InputFinishes` | src/nxtrt/pool.hpp:278-286 | the settled input read wakes the same waiter once |
| `Pools.Pool.AcceptInput` | src/nxtrt/pool.hpp:325-361 | the idea is invoked once in its slot; every kind of answer, and every throw, keeps the invariant teardown needs, and without a throw every slot stays placed |
| `Pools.ResultRoom` | src/nxtrt/pool.hpp:363-381 | while a slot waits to be published the result ring is not full |
| `Pools.Pool.PublishOne` | src/nxtrt/pool.hpp:366-379 | the result of the slot that completed first, whose job did not fail, goes to the back of the ring |
| `Pools.Pool.PublishCompleted` | src/nxtrt/pool.hpp:363-381 | publishes everything that finished, in completion order; a job that ended with an exception is never published: its exception is raised and its slot stays queued |
| `Pools.Pool.PumpOnce` | src/nxtrt/pool.hpp:385-424 | one turn of the loop makes progress that bounds the number of turns |
| `Pools.Pool.Pump` | src/nxtrt/pool.hpp:383-425 | when it returns, nothing completed is unpublished; with scheduling on, nothing prepared is unscheduled and the input read is under way, has ended, or no slot is left |
| `Pools.Pool.DiscardSettled` | src/nxtrt/pool.hpp:429-447 | keeps exactly the running frames and the slot of a pending read; returns true exactly when nothing is occupied, and then every slot is back in the farm |
| `Pools.Pool.Exhausted` | src/nxtrt/pool.hpp:467-468 | at EOF the input has ended without a throw, every idea it offered was admitted, none of them failed, and what consumers received and what the ring holds is, together, one result per idea, in completion order |
| `Pools.Pool.StillRunning` | src/nxtrt/pool.hpp:499-504 | when the pump can do no more and there is nothing to return, a job is running |
| `Pools.Pool.StreamMore` | src/nxtrt/pool.hpp:449-476 | the ready path: more results, EOF with everything delivered and nothing failed, an exception, only if a job, the input, a move or the deck failed or a stop was asked for, with everything drained, or `read_slow` staged |
| `Pools.Pool.RunReader` | src/nxtrt/pool.hpp:478-506 | from a start or a wake-up to the next park or the end, with the same outcomes |
| `Pools.Pool.Close` | src/nxtrt/pool.hpp:181-188 | ends only with every slot back in the farm, else parks while something runs |
| `Pools.Pool.RunCloser` | src/nxtrt/pool.hpp:181-188 | the same after a wake-up |
| `Pools.Pool.Consume` | src/nxtrt/pool.hpp:319-323 | the consumer gets the oldest results, and only they leave the ring |
| `Pools.Pool.Destroy` | src/nxtrt/pool.hpp:136-144 | aborts exactly while an operation is under way or anything runs; otherwise every slot goes back to the farm, stopped or not |
| `Pools.Drive` | src/nxtrt/pool.hpp:104-506 | every state of every run satisfies the invariant: partition of owned slots, both counters, lockstep with the ring, what consumers received followed by the ring as the beginning of the completion order, and what a parked controller relies on; the values consumers got over the run are exactly those recorded as received, and none of them belongs to a failed idea |
| `Pools.DeliveredInOrder` | src/nxtrt/pool.hpp:363-381 | in every state that is not stopping, what consumers received followed by the ring is the beginning of the completion order, without gap or repetition, and the rest is still queued |
| `Pools.NoneFailed` | src/nxtrt/pool.hpp:366-379 | in every state, stopping or not, nothing received and nothing in the ring belongs to an idea whose job ended with an exception |
| `Pools.ParkedIsWatched` | src/nxtrt/pool.hpp:237-293 | a parked controller has no completed slot unpublished, and a job or the input read is running whose end wakes it; when stopping, every running job and a pending input read have been asked to stop |
| `BlockingPool.StartRunKeeps` | src/nxtrt/blocking.hpp:291-303 | entering `run` keeps the invariant of jobs, workers, owner, occupancy, wake-ups and stop |
| `BlockingPool.CheckAdmissionKeeps` | src/nxtrt/blocking.hpp:305-317 | the admission check keeps the invariant of jobs, workers, owner, occupancy, wake-ups and stop |
| `BlockingPool.CheckDeliveryKeeps` | src/nxtrt/blocking.hpp:322-332 | the delivery check keeps the invariant of jobs, workers, owner, occupancy, wake-ups and stop |
| `BlockingPool.WakeKeeps` | src/nxtrt/blocking.hpp:318-336 | resuming a parked call keeps the invariant of jobs, workers, owner, occupancy, wake-ups and stop |
| `BlockingPool.WaitFailsKeeps` | src/nxtrt/blocking.hpp:92-97 | a wait that throws keeps the invariant of jobs, workers, owner, occupancy, wake-ups and stop |
| `BlockingPool.EndResidenceKeeps` | src/nxtrt/blocking.hpp:374-380 | the guard after its join keeps the invariant of jobs, workers, owner, occupancy, wake-ups and stop |
| `BlockingPool.NotifyNextKeeps` | src/nxtrt/blocking.hpp:381-383 | one notification of the guard keeps the invariant of jobs, workers, owner, occupancy, wake-ups and stop |
| `BlockingPool.StartStopKeeps` | src/nxtrt/blocking.hpp:345-350 | the start of `stop` or `close` keeps the invariant of jobs, workers, owner, occupancy, wake-ups and stop |
| `BlockingPool.StopNextKeeps` | src/nxtrt/blocking.hpp:348-349 | one cancellation by `stop` keeps the invariant of jobs, workers, owner, occupancy, wake-ups and stop |
| `BlockingPool.CheckCloseKeeps` | src/nxtrt/blocking.hpp:361-366 | the test of the `close` loop keeps the invariant of jobs, workers, owner, occupancy, wake-ups and stop |
| `BlockingPool.CancelKeeps` | src/nxtrt/blocking.hpp:110-115 | a cancellation from any thread keeps the invariant of jobs, workers, owner, occupancy, wake-ups and stop |
| `BlockingPool.TakeKeeps` | src/nxtrt/blocking.hpp:398-408 | a worker taking a job keeps the invariant of jobs, workers, owner, occupancy, wake-ups and stop |
| `BlockingPool.ExecuteKeeps` | src/nxtrt/blocking.hpp:117-128 | the queued-to-running step keeps the invariant of jobs, workers, owner, occupancy, wake-ups and stop |
| `BlockingPool.FinishKeeps` | src/nxtrt/blocking.hpp:170-182 | the end of a callable keeps the invariant of jobs, workers, owner, occupancy, wake-ups and stop |
| `BlockingPool.PublishKeeps` | src/nxtrt/blocking.hpp:130-136 | publication keeps the invariant of jobs, workers, owner, occupancy, wake-ups and stop |
| `BlockingPool.StepKeeps` | src/nxtrt/blocking.hpp:105-419 | every step of every thread keeps the invariant |
| `BlockingPool.RunKeeps` | src/nxtrt/blocking.hpp:105-419 | it holds in every state of every interleaving; in particular `occupied_` is the number of submitted resident calls and at most the capacity |
| `BlockingPool.AtMostOnce` | src/nxtrt/blocking.hpp:291-340 | a callable is invoked at most once; a value or its exception comes from that one finished invocation; no submitted call leaves before publication |
| `BlockingPool.CancelFirstPrevents` | src/nxtrt/blocking.hpp:110-128 | a callable whose cancel took the lock before the queued-to-running step is never invoked, in any continuation |
| `BlockingPool.DeliveryUncancelled` | src/nxtrt/blocking.hpp:324-332 | a value is delivered exactly when the call is done, produced a value and is not flagged cancelled at that moment |
| `BlockingPool.EndingWasDecided` | src/nxtrt/blocking.hpp:304-339 | in every run, every ending of a call was decided by an earlier step in a state that calls for it: a value or an exception by a delivery check that found it done and not flagged, a cancellation by a check that found it flagged or the pool closing |
| `BlockingPool.EndedAsFinished` | src/nxtrt/blocking.hpp:170-182 | in every run a call ends with a value only if its callable returned normally, with an exception only if it threw; that end came before and is the only one the callable has |
| `BlockingPool.CancelledForAReason` | src/nxtrt/blocking.hpp:105-115 | in every run a call that ended cancelled had been flagged by somebody or found the pool closing |
| `BlockingPool.FirstInFirstOut` | src/nxtrt/blocking.hpp:398-408 | in every run what workers have taken, then what is queued, is what was submitted, in order |
| `BlockingProgress.ClosedIsOver` | src/nxtrt/blocking.hpp:361-366 | once a close has returned, every worker has exited, nothing is queued and every submitted call has been published |
| `BlockingProgress.NeverStuck` | src/nxtrt/blocking.hpp:291-419 | while a call is resident, a loop is half done or a close waits, some thread can go on without anything from outside |
| `BlockingProgress.IdleCan` | src/nxtrt/blocking.hpp:92-115 | with the deck idle every resident call is parked and may see its wait fail; a resident call can be cancelled at any time |
| `BlockingProgress.Lowers` | src/nxtrt/blocking.hpp:291-419 | every step that needs nothing from outside lowers one measure |
| `BlockingProgress.Settles` | src/nxtrt/blocking.hpp:291-419 | so the threads never go on for ever by themselves |
| `BlockingProgress.Settled` | src/nxtrt/blocking.hpp:291-419 | and where they stop in any run, every call has left with an ending and no close waits |
| `BlockingPool.HeldIsResident` | src/nxtrt/blocking.hpp:395-419 | a worker touches only jobs whose call is resident and unpublished |
| `BlockingPool.ParkedHasReason` | src/nxtrt/blocking.hpp:304-366 | a parked call or `close` has an unread notification or a lasting reason to wait |
| `BlockingPool.StoppedNeverStarts` | src/nxtrt/blocking.hpp:342-350 | after `stop`, what is queued is cancelled before it starts |
| `BlockingPool.NothingQueued` | src/nxtrt/blocking.hpp:361-366 | when `close` finds no calls, the work queue is empty |
| `BlockingPool.WorkersProgress` | src/nxtrt/blocking.hpp:395-419 | while a submitted call is unpublished some worker can take a step |
| `Json.ReadHex` | src/nxt/json.hpp:185-197 | four hexadecimal digits, or an error |
| `Json.ReadUnicode` | src/nxt/json.hpp:224-240 | the UTF-8 of an escape or of a surrogate pair; unpaired surrogates refused |
| `Json.ReadStringBody` | src/nxt/json.hpp:199-244 | decodes a literal and stops right behind its closing quote |
| `Json.ReadNumberText` | src/nxt/json.hpp:255-268 | the longest run of number characters |
| `Json.ReadToken` | src/nxt/json.hpp:281-318 | the next token, the end, or an error, as a function of text and offset |
| `JsonWriter.Writer.String` | src/nxt/json.hpp:76-102 | the escaped literal |
| `JsonWriter.StringRoundTrip` | src/nxt/json.hpp:76-102 | a literal written for any text reads back as that text, wherever it stands |
| `StrictJson.ReadValue` | src/nxtai/responses_stream.hpp:35-65 | accepts a value up to 128 levels deep and stops at its end |
| `StrictJson.Object` | src/nxtai/responses_stream.hpp:73-99 | the map of keys to slices; refuses duplicate keys, trailing commas and trailing text |
| `StrictJson.AsMapKeys` | src/nxtai/responses_stream.hpp:86-87 | the map has exactly the keys of the fields |
| `StrictJson.Array` | src/nxtai/responses_stream.hpp:101-123 | the slices of an array |
| `JsonLiterals.LiteralIs` | src/nxt/json.hpp:199-244 | a literal reads as a text up to an offset exactly when it is characters, short escapes, four-digit escapes and surrogate pairs that mean that text, and a quote |
| `JsonLiterals.EscapedIs` | src/nxt/json.hpp:76-102 | the writer spells a character as itself if it can, else by the short escape if there is one, else by its number |
| `JsonGrammar.ValueRead` | src/nxtai/responses_stream.hpp:35-65 | the text of any value at most 128 deep, with any whitespace between tokens, is accepted and the reader ends right behind it |
| `JsonGrammar.ValueIs` | src/nxtai/responses_stream.hpp:35-65 | a value is accepted from one offset to another exactly when whitespace and the text of such a value stand there and no number runs on |
| `JsonDocuments.ObjectIs` | src/nxtai/responses_stream.hpp:73-99 | a text is accepted as an object with given fields exactly when it spells one with distinct keys; the fields are its keys and where its values stand |
| `JsonDocuments.ArrayIs` | src/nxtai/responses_stream.hpp:101-123 | a text is accepted as an array with given slices exactly when it spells one whose values, each with the whitespace before it, are those slices |
| `JsonDocuments.ListedParts` | src/nxtai/responses_stream.hpp:83-87 | the slice of each field is the text of its value with the whitespace behind the colon |
| `JsonDocuments.AsMapIs` | src/nxtai/responses_stream.hpp:86-87 | the map takes each key to the slice of its field and has no other keys |
| `JsonSlices.NextMoves` | src/nxt/json.hpp:281-318 | a token keeps its meaning in any text that shows the same characters and does not continue a number |
| `JsonSlices.ValueMoves` | src/nxtai/responses_stream.hpp:35-65 | so does a value, whatever separator or whitespace follows it |
| `JsonSlices.PrintedSlices` | src/nxtai/responses_stream.hpp:101-123 | printing the slices of any accepted array and slicing again gives the identical list |
| `JsonWriter.WriteRawJsonArray` | src/nxtai/responses_request.hpp:125-136 | the values verbatim between brackets and commas |
| `JsonSlices.Reprint` | src/nxtai/responses_request.hpp:125-136 | the same round trip through the reader and the printer |
| `LenientJson.ReadJsonU16` | src/nxtai/tool_json.hpp:57-70 | the same four digits as the strict reader |
| `LenientJson.ReadJsonUnicode` | src/nxtai/tool_json.hpp:105-126 | the same escape as the strict reader |
| `LenientJson.AppendJsonUtf8` | src/nxtai/tool_json.hpp:38-55 | the second encoder, put together with bitwise or, writes what `append_utf8` writes |
| `LenientJson.SameEscapes` | src/nxtai/tool_json.hpp:96-104 | the two escape tables agree on every character |
| `LenientJson.ReadJsonString` | src/nxtai/tool_json.hpp:76-132 | agrees with the strict decoder on every literal, well formed or not |
| `LenientJson.SkipJsonSyncValue` | src/nxtai/tool_json.hpp:136-172 | lands where the bracket-stack scan ends, or fails on a bad string |
| `LenientJson.JsonStringObject` | src/nxtai/tool_json.hpp:178-217 | the decoded string members in order, or nothing |
| `LenientJson.JsonStringMember` | src/nxtai/tool_json.hpp:222-232 | the first member of that key |
| `JsonAgreement.ContainerScan` | src/nxtai/tool_json.hpp:145-167 | from inside a strictly valid object or array the bracket stack is back at its height exactly at the strict end |
| `JsonAgreement.SkipLands` | src/nxtai/tool_json.hpp:136-172 | the skipper goes from any strictly valid non-string value to the separator behind it |
| `JsonAgreement.MembersAgree` | src/nxtai/tool_json.hpp:178-217 | on every object the strict reader accepts, the lenient reader finds exactly the fields whose slice is a string literal, decoded and in order |
| `JsonAgreement.LookupLiterals` | src/nxtai/tool_json.hpp:222-232 | looking a key up in those members is looking it up in the strict map |
| `JsonAgreement.StringField` | src/nxtai/tool_json.hpp:222-232 | the decoded string exactly when the strict field is a string literal, and nothing otherwise |
| `Responses.ReadSnapshot` | src/nxtai/responses_stream.hpp:192-202 | the snapshot of a completed response, in the strict reader's terms |
| `Responses.StreamDecoder.Accept` | src/nxtai/responses_stream.hpp:173-206 | the outcome of every event in the strict reader's terms alone; only the first valid snapshot completes the response |
| `Responses.KindsOfEvents` | src/nxtai/responses_stream.hpp:182-202 | what each of the six kinds of event named in the source comes to |
| `Responses.OtherEvents` | src/nxtai/responses_stream.hpp:180-205 | any other kind is ignored, and a payload whose `type` differs throws |
| `Responses.SnapshotIs` | src/nxtai/responses_stream.hpp:192-202 | a snapshot exactly for an object `response` with a nonempty `id`, the status `completed` and an array `output`, whose slices are its items |
| `HttpChunks.ExtsIsGrammar` | src/nxtrt/http-server.cpp:239-292 | the extension scanner accepts exactly the chunk extensions of section 7.1.1 of RFC 9112 |
| `HttpChunks.ScanExtensions` | src/nxtrt/http-server.cpp:239-292 | the loop itself decides that grammar; blanks at the end are refused |
| `HttpChunks.FromChars` | src/nxtrt/http-server.cpp:230-237 | the number of the digits, refused from 2^64 on |
| `HttpChunks.ChunkLength` | src/nxtrt/http-server.cpp:228-294 | a size exactly for the lines `chunk-size [chunk-ext]`, and the right one |
| `HttpText.FindArrived` | src/nxtrt/http-server.cpp:174-183 | a terminator found in what has arrived is the first one of the whole stream, and one not found ends past it |
| `Http.Stream.AppendInput` | src/nxtrt/http-server.cpp:155-166 | refuses exactly at the bound; never reads past it |
| `Http.Stream.ReadHead` | src/nxtrt/http-server.cpp:168-190 | the head of the stream, refused or closed, as a function of the bytes, for every limit; only an accepted head is taken off them |
| `Http.Stream.ReadLine` | src/nxtrt/http-server.cpp:194-217 | a line exactly when its first CRLF is within both budgets; the wire budget does not underflow |
| `Http.Stream.ReadPayload` | src/nxtrt/http-server.cpp:296-318 | exactly `length` bytes behind the body, if body, wire and stream allow it |
| `Http.Stream.ReadCrlf` | src/nxtrt/http-server.cpp:346-355 | the CRLF behind chunk data |
| `Http.Stream.ReadChunks` | src/nxtrt/http-server.cpp:338-357 | the chunk loop, as a function of the bytes |
| `Http.Stream.ReadTrailers` | src/nxtrt/http-server.cpp:358-372 | the trailer loop, as a function of the bytes, within the shared budget |
| `Http.Stream.ReadBody` | src/nxtrt/http-server.cpp:320-373 | the body, or where a refused one leaves the bytes |
| `Http.Stream.ReadRequest` | src/nxtrt/http-server.cpp:626-643 | acceptance, head, body and the bytes left behind, accepted or refused, depend only on the bytes, not on how they arrive |
| `Http.Connection` | src/nxtrt/http-server.cpp:617-681 | so do the whole sequence of accepted requests, whether the last was refused, and the bytes left over in either case |
| `HttpFraming.AcceptedBodies` | src/nxtrt/http-server.cpp:320-373 | a chunked body is accepted exactly when it is chunks, a last chunk, trailer fields and an empty line within every limit, and it is the concatenation of the chunk data |
| `HttpFraming.WithinLimits` | src/nxtrt/http-server.cpp:320-373 | body and wire use of every accepted body are within the limits |
| `HttpFraming.StatedBodies` | src/nxtrt/http-server.cpp:328-337 | a body of stated length is accepted exactly when it is that many of the bytes, within both limits |
| `HttpFraming.FieldIs` | src/nxtrt/http-server.cpp:32-43 | a field line is accepted exactly when it is a token, a colon and a value without controls |
| `HttpFraming.TrailerIs` | src/nxtrt/http-server.cpp:358-372 | a trailer line is accepted exactly when it is a field and not one of the two that frame the message, in whatever letters they are spelled |
| `HttpFraming.RequestIs` | src/nxtrt/http-server.cpp:626-643 | a request is accepted exactly when the bytes are a head within its limit that the parser takes, a body accepted behind it, and the bytes left |
| `HttpChunks.TokenCharIs` | src/nxtrt/http-server.cpp:18-24 | token characters are the visible characters that are no delimiter |
| `HttpChunks.FieldCharIs` | src/nxtrt/http-server.cpp:26-29 | field values hold visible characters, bytes beyond ASCII, spaces and tabs |
| `Http.ServedInOrder` | src/nxtrt/http-server.cpp:617-681 | a session is a chain: each accepted request leaves the bytes of the next, all but the last keep the connection, and what ends it is the last one, the count, the end of input or a refusal |
| `Http.OnlyServed` | src/nxtrt/http-server.cpp:617-681 | the session served is the only such chain |
| `TlsFlight.WalkAppend` | src/nxtrt/tls.cpp:108-156 | taking the messages complete so far, then the rest, is taking them all at once |
| `TlsMessages.MessageIs` | src/nxtrt/tls.cpp:116-122 | bytes are a whole message exactly when they are a type, the length of the body in three bytes, the most significant first, and that body, within 1 MiB |
| `TlsFlight.LoopIsFlight` | src/nxtrt/tls.cpp:111-156 | the message loop finishes exactly on message types 8, 11, 15 and 20, once each and in order, CertificateVerify and Finished good for exactly the transcript before them; the transcript has then grown by exactly the flight |
| `TlsFlight.OneFlight` | src/nxtrt/tls.cpp:111-161 | no authentic flight continues another |
| `TlsFlight.TakeMessages` | src/nxtrt/tls.cpp:110-156 | the loop over a reassembled flight, equal to that walk |
| `TlsFlight.Session.Handshake` | src/nxtrt/tls.cpp:86-173 | `handshaken_` only after an authentic flight, for all records; and, with at most 1 MiB of handshake bytes, whenever a prefix of the records is one |
| `TlsFlight.CutIndependent` | src/nxtrt/tls.cpp:89-162 | if no flight ends inside the bytes, acceptance depends on the bytes alone, not on the cut nor on skipped change_cipher_spec records |
| `TlsFlight.BoundaryDecides` | src/nxtrt/tls.cpp:158-161 | if one does, it is accepted exactly when a record ends right behind Finished |
| `TlsFlight.CutMatters` | src/nxtrt/tls.cpp:158-161 | for every authentic flight and any bytes behind it: with a record ending behind Finished it is accepted, and the same bytes with no record ending there are refused |
| `TlsFlight.CutWitness` | src/nxtrt/tls.cpp:158-161 | one such pair of cuts written out |
| `TlsRecords.RecordNonce` | src/nxt/tls.hpp:711-725 | the IV exclusive-or the big-endian sequence number |
| `TlsRecords.NonceInjective` | src/nxt/tls.hpp:711-725 | under one IV, equal nonces mean equal sequence numbers |
| `TlsRecords.NonceIs` | src/nxt/tls.hpp:711-725 | byte by byte: the IV exclusive-or four zeros and the counter in eight bytes, the most significant first |
| `TlsRecords.HeaderIs` | src/nxt/tls.hpp:797-803 | the type, then version and length in two bytes each, the most significant first |
| `TlsRecords.TrafficKeys.Seal` | src/nxt/tls.hpp:791-813 | one record, sealed with the nonce of the counter, which moves on by one, modulo 2^64 |
| `TlsRecords.TrafficKeys.Open` | src/nxt/tls.hpp:733-789 | what the record held without padding, or a refusal |
| `TlsRecords.LengthExact` | src/nxt/tls.hpp:797-803 | the length field is exact exactly when the record fits in sixteen bits |
| `TlsRecords.OpenSealed` | src/nxt/tls.hpp:733-813 | opening what was sealed gives the content and its nonzero type back, trailing zeros included |
| `TlsRecords.OpenedIs` | src/nxt/tls.hpp:733-789 | content and type are found in front of any padding, and a text of padding alone is refused |
| `TlsSession.ReadsOneMore` | src/nxtrt/tls.cpp:176-189 | a peer that has read the wire reads one more record as what was sealed in it |
| `TlsSession.NonceReuse` | src/nxt/tls.hpp:791-806 | two records sealed in an epoch share a nonce exactly when they are a multiple of 2^64 records apart |
| `TlsSession.Session.Send` | src/nxt/tls.hpp:791-813 | one more record on the wire and in the log of its epoch, with the nonce it was sealed with |
| `TlsSession.Session.WriteAll` | src/nxtrt/tls.cpp:176-189 | a peer that opens the records in order then has exactly the bytes written so far, and the client's keys |
| `TlsSession.Session.Reply` | src/nxtrt/tls.cpp:284-309 | the answer to a KeyUpdate is the last record under the old keys, and the peer follows |
| `TlsSession.Session.PostHandshake` | src/nxtrt/tls.cpp:254-317 | reassembles post-handshake messages; a KeyUpdate is accepted only as the last thing there, moves the read keys once, and is answered exactly when asked |
| `TlsSession.ScanIs` | src/nxtrt/tls.cpp:254-309 | a buffer is taken exactly when it is whole messages that are no KeyUpdate, and then part of a message, or a KeyUpdate as the last bytes |
| `TlsSession.Converse` | src/nxtrt/tls.cpp:176-317 | over any conversation the peer gets exactly the bytes given to `write_all`; the wire is the logged records of all epochs, each epoch under the secret that follows the last, and no record holds more than 2^14 bytes, and within every epoch records share a nonce exactly a multiple of 2^64 apart |
| `WebSocketFrames.LengthCanonical` | src/nxtrt/websocket.hpp:266-277 | the length reader accepts a length exactly in the shortest form, the one `frame` writes |
| `WebSocketFrames.FrameRead` | src/nxtrt/websocket.hpp:256-294 | the bytes of a frame have its head and payload, whatever follows |
| `WebSocketFrames.EncodeLength` | src/nxtrt/websocket.hpp:412-420 | the shortest form, with the mask bit |
| `WebSocketFrames.EncodeFrame` | src/nxtrt/websocket.hpp:406-428 | a final frame with the payload masked |
| `WebSocketFrames.ClientFrameRead` | src/nxtrt/websocket.hpp:406-428 | a receiver that unmasks byte by byte gets opcode and payload back |
| `WebSocketFrames.MaskedAt` | src/nxtrt/websocket.hpp:422-425 | the exclusive or of a masked byte with the mask byte at its place modulo four is the byte that was given |
| `WebSocket.Client.ReadHead` | src/nxtrt/websocket.hpp:256-277 | the head of a frame as a function of the bytes |
| `WebSocket.Client.ReadFrame` | src/nxtrt/websocket.hpp:256-294 | a frame, unless malformed, out of place, over the limit or cut short; the limit does not underflow |
| `WebSocket.Client.TakeClose` | src/nxtrt/websocket.hpp:303-326 | echoes Close once; refuses bad codes and reasons |
| `WebSocket.Client.TakeData` | src/nxtrt/websocket.hpp:327-342 | adds a fragment, or completes a message |
| `WebSocket.Client.Receive` | src/nxtrt/websocket.hpp:250-343 | event, state, replies and remaining bytes of a call are a function of the bytes, however they arrive |
| `WebSocketMessages.FoldLegal` | src/nxtrt/websocket.hpp:280-342 | on a legal frame stream nothing is refused, the data events are the groups of data frames, and the replies are the answers to the pings |
| `WebSocketMessages.FirstEvent` | src/nxtrt/websocket.hpp:250-343 | a call takes the frames up to the first event and answers the pings among them |
| `WebSocketMessages.FrameAtIff` | src/nxtrt/websocket.hpp:256-294 | bytes are taken for a frame exactly when they are what a server would send for it |
| `WebSocketMessages.FrameKinds` | src/nxtrt/websocket.hpp:259-275 | the six opcodes there are; control frames are whole and at most 125 bytes |
| `WebSocketMessages.LegalIff` | src/nxtrt/websocket.hpp:280-342 | without Close, frames are taken without an error exactly when they are a legal stream |
| `WebSocketMessages.CloseIs` | src/nxtrt/websocket.hpp:303-318 | a Close frame is taken, as an event, exactly when it is empty, or a code that may be sent and a UTF-8 reason, which are the event |
| `WebSocketMessages.ClosesOnce` | src/nxtrt/websocket.hpp:319-340 | the first Close is echoed unless one was sent, no other is, and no message is given out once one was sent |
| `WebSocketMessages.ReceiveAll` | src/nxtrt/websocket.hpp:250-343 | however many calls are made, up to the last event, they return the first events in order; the messages are the concatenations of fragment payloads, all of them in the end, and each ping passed is answered once with its own payload |
| `Utf8.EncodeShape` | src/nxt/json.hpp:136-153 | every encoding has the length its lead byte states, continuation bytes, and is not overlong |
| `Utf8.AssembleEncodes` | src/nxt/json.hpp:136-153 | bytes of that shape that assemble to a scalar value are its encoding |
| `Utf8.DecompositionUnique` | src/nxt/json.hpp:136-153 | a byte string is the encoding of at most one sequence of scalar values |
| `Utf8.Check` | src/nxtrt/websocket.hpp:67-99 | accepts exactly the concatenations of encodings of Unicode scalar values |
| `Chunks.At` | src/nxt/tls.hpp:332-343 | the value at an index of the chunks read as one sequence |
| `Chunks.Subspan` | src/nxtrt/buffer-core.hpp:204-224 | the same part of that sequence, in no more chunks |
| `Reels.VisibleFrames` | src/nxtrt/buffers.hpp:435-438 | frames visible in a buffer are the first frames of the stream, with the same ends |
| `Reels.Reel.Visible` | src/nxtrt/buffer-core.hpp:375-395 | iterating the view gives exactly those |
| `Reels.Reel.NextFillTarget` | src/nxtrt/buffers.hpp:543-569 | more than is buffered, and never past the end of the next incomplete frame, for every continuation |
| `Reels.Reel.Peek` | src/nxtrt/buffers.hpp:445-458 | returns frames of the stream; fewer than asked only when they are all there are; a buffer error only if the next frame does not fit |
| `Reels.Reel.DiscardPrefix` | src/nxtrt/buffers.hpp:462-485 | drops exactly the extent, or reports the end |
| `Reels.ReadAll` | src/nxtrt/buffers.hpp:445-569 | peek and discard over any arrival give exactly the frames of the stream, if the buffer holds the largest |
| `FrameScanners.TlsHonest` | src/nxt/tls.hpp:359-378 | the record scanner meets the contract a reel relies on |
| `FrameScanners.SealedScans` | src/nxt/tls.hpp:359-378 | a sealed record, whatever follows, scans as one frame: its whole length and the bytes behind its header |
| `FrameScanners.ScanTlsRecord` | src/nxt/tls.hpp:359-378 | for every split into chunks, what it finds on the bytes in one piece |
| `FrameScanners.AbridgedHonest` | src/nxtrt/mtproto.hpp:91-153 | the abridged scanner meets the same contract |
| `FrameScanners.ScanAbridged` | src/nxtrt/mtproto.hpp:91-153 | for every split, what it finds in one piece; its too-large exception is unreachable |
| `FrameScanners.WrittenScans` | src/nxtrt/mtproto.hpp:388-412 | a written frame scans as its payload exactly when no quick ack was requested |
| `FrameScanners.WordsAre` | src/nxtrt/mtproto.hpp:91-153 | the length of a long header is little-endian |
| `Crypto.Mod` | src/nxt/crypto.cpp:191-199 | the least nonnegative residue, from truncating division |
| `Crypto.Euclid` | src/nxt/crypto.cpp:210-222 | the loop ends with a common divisor that is a combination of both numbers, with the sign truncating division leaves it |
| `Crypto.TruncMul` | src/nxt/crypto.cpp:278-280 | reducing a factor first does not change a truncated remainder |
| `Crypto.ModInverse` | src/nxt/crypto.cpp:201-226 | for a positive modulus the inverse in range, exactly when the numbers are coprime and the modulus is above one; for a negative one an inverse exactly for a positive, coprime value and an odd number of divisions; else it throws |
| `Crypto.InverseUnique` | src/nxt/crypto.cpp:201-226 | there is only one inverse in range |
| `Crypto.ModulusOneRefused` | src/nxt/crypto.cpp:201-226 | modulus one is coprime to everything, has the inverse zero, and is refused |
| `Crypto.PowMod` | src/nxt/crypto.cpp:270-302 | both loops, for every base and modulus: the truncated remainder of the power, or one for exponent zero; modulus zero throws |
| `Crypto.PowerSpecExact` | src/nxt/crypto.cpp:270-302 | for a positive modulus that is the modular power exactly when the exponent is zero and the modulus above one, or the exponent is not zero and the power is not negative or is divisible |
| `Crypto.IntFromBytes` | src/nxt/crypto.cpp:162-168 | the big-endian number |
| `Crypto.WriteIntBytes` | src/nxt/crypto.cpp:241-252 | writes the low bytes, and succeeds exactly when the number fits |
| `Crypto.BytesFromInt` | src/nxt/crypto.cpp:228-239 | the bytes of exactly that number and length, or an error |
| `Crypto.ReadWrite` | src/nxt/crypto.cpp:162-239 | reading bytes and writing the number gives the bytes back |
| `Crypto.ModularExponentiate` | src/nxt/crypto.cpp:728-743 | the stated power on byte strings, and exactly when it throws |
| `Crypto.RsaRawPublicEncrypt` | src/nxt/crypto.cpp:705-726 | the stated power; only the argument checks can fail, and then the output is untouched |

## Left out

- The deck, promises and coroutine frames: only "starting enqueues, completion notifies once" is used. Binding to one deck and the overlap guards (`busy_`) are not modelled; operations of one object do not overlap.
- Pools.Pool: a task becoming done and its completion notification are one step; a task an idea returns is not finished by someone else between being prepared and being started. The queues `completed_` and `buffered_` are sequences here; that the intrusive queues over one link per slot behave as those sequences, for every use the pool makes of them, is `SlotQueues.Replay`.
- BlockingPool.RunKeeps: condition-variable wake-ups are abstracted to enabledness, one `close` waits at a time, and thread creation and destruction are outside.
- Masks.Mask: the default-constructed mask without words, and the inline variant `mask<N>`, whose operations are the same.
- Farms.Farm: slots are their indices; `at` and pointer arithmetic are not modelled.
- `parse_head` of the HTTP server: any function from the head's text to a parsed head. Responses, files, timeouts and status codes are left out, and a refill that brings nothing is not a step.
- Http.Connection: whether a handler's answer becomes a response is any function of the request.
- TlsFlight.Session.Handshake: ClientHello, ServerHello, key derivation and client Finished are outside; opening a record, X.509 verification, the signature and the Finished MAC are functions passed in.
- TlsRecords.TrafficKeys: the cipher and the key schedule are functions of which only open-of-seal and the two lengths are assumed.
- TlsSession.Session.PostHandshake: the mapping of other records to events, alerts and the byte feed over them are left out.
- WebSocket.Client.Receive: the upgrade handshake, the operations `send`, `ping` and `close`, which only call `frame`, and concurrent use are left out.
- Reels.Reel: the reel scans the buffer's bytes in one piece; that the scanners find the same on chunk views is stated separately, by `FrameScanners.ScanTlsRecord` and `FrameScanners.ScanAbridged`.
- Crypto.PowMod: negative exponents, for which the bit test of `cpp_int` throws.
- Crypto.WriteIntBytes: negative numbers, for the same reason.
- P-256, ECDSA, RSA-PSS, AES-GCM, SHA and X25519.
- Compression, graphics, sockets, DNS, processes and the other operating-system plumbing; server-sent events, URLs and options.
