# A verified model of the gRPC library for Node.js

This project models the parts of grpc-node where state, ordering or arithmetic make the
behaviour hard to see from any one function, and proves what the code and its documentation
promise about them. Everything is Dafny 4.11; `dafny verify dfyconfig.toml` checks it.

The model has four parts.

1. **The wire format and the reading half of a pure-JavaScript call.** `Wire` defines what a
   byte string means by a recursive parser and what a message looks like by an encoder, and
   relates the two. `ReadPath` is the incremental three-state deframer with its queue and
   pause/resume, refined against that parser over every run. `EndToEnd` joins it to the
   writing half; the peer at the other end stands for anything that frames messages alike,
   since this package has only a client.
2. **The native batch and tag life cycle.** `NativeRuntime` has the Call, Server and
   completion-queue objects with their counters; callbacks run in the middle of a completion
   and start new work. `BatchLedger` says what the counters and the trace of everything core is
   told must satisfy, and proves that each step keeps it.
3. **The surface state machines.** `ClientReads` (read chain and status reconciliation),
   `ServerSends` (order of send operations), `CallLifecycle` (attach/retry, held writes, final
   status), `WholeCall` (both halves of a call, for the order of end and status) and
   `UnaryResponse`.
4. **Algebra and arithmetic.** `CallMetadata` and `Base64` (the multimap and its HTTP/2 headers),
   `MetadataArray` (flattening to and regrouping from core's array), `Credentials`
   (composition trees), `Deadline` (the grpc-timeout header) and `Histogram`.

## How foreign code enters

Node streams, libuv and the gRPC core appear only through what they do to this code.

- *Answers* are parameters. How a consumer answers a `push` is a finite tree (`Reaction`): any
  number of nested `_read` calls, each with answers of its own, and then true or false. Whether
  core accepts a batch, and whether a completion succeeded, are likewise arbitrary.
- *Callbacks* are finite scripts of calls back into the model (`NativeRuntime.Action`), nested
  where the source calls a callback at once.
- *Runs* are arbitrary sequences of events or turns. A `Run` method skips an event that its
  environment cannot produce in the current state. These are the assumptions: no `data` event
  while the HTTP/2 stream is paused or after `end`; `end` once; Writable issues one `_write` at
  a time, and `finish` or `_final` at most once, with no write outstanding; the completion
  queue returns each outstanding tag once; an object that a tag refers to is not collected.
- What a class has shown to the outside is recorded in ghost fields (`delivered`, `log`, `ops`,
  `causes`, `offered`, `performed`), which no real field depends on; `history` is the list of
  events that a run has gone through.

## Where the code and its promises part

- **`constructor` as a metadata key.** It is a legal key, but `internalRepr` is a plain object
  and inherits a function under that name, so `add` and `merge` throw a TypeError on it unless
  `set` made an own property first. Hence the header round trip, merging, and the right
  neutrality of empty credentials fail, exactly in the cases stated in
  `CallMetadata.HeadersRoundTrip`, `CallMetadata.Metadata.Merge` and `Credentials.ComposeEmpty`.
- **"Exactly one response."** A unary callback can succeed after several messages when the
  deserializer yields null for all but the last, since null is also the mark for "nothing yet"
  (`UnaryResponse.StatusAfterEnd`, `NullThenValue`). If the status comes before the end, it
  succeeds with whatever has arrived, even nothing (`StatusFirst`). handleUnaryResponse assumes
  that it does not, but nothing in the call stream sees to it: `WholeCall.Call.Handle` has the
  exact condition, and `TrailersOvertake` the states from which trailers overtake the end.
- **The status after a failed write.** terminateCall is meant to send the error as the status,
  but a write whose batch fails never calls back, so Writable never finishes and no status is
  sent, whatever follows (`ServerSends.ServerWritableStream.Run`). Without a failed write the
  status can always still be sent (`Conclude`).
- **Client status.** If emitting 'error' throws, as it does without a listener, 'status' is not
  emitted (`ClientReads.StatusEmitted`). A deserializer that turns a
  message into null ends the stream for the consumer without ending the reads, so there is no
  status until something calls `_read` again (`NullSilences`).
- **`__proto__` as a received key.** Its values become the prototype of the regrouped object
  instead of a property: `MetadataArray.RegroupFlattened` has the exact condition and
  `ProtoLost` the input.
- **Histogram buckets** add up to the count exactly if every value was at least 1 and below the
  start of the bucket after the last (`Histogram.BucketsAddUp`).
- **Timeouts.** With 10^8 hours or more left, no unit fits and the promise for the header is
  never settled (`Deadline.EncodeTimeout`); a deadline in the past is sent as a negative count
  (`PastDeadline`); and the count has a ninth digit, exactly when less than one unit is missing
  to 10^8 of the chosen unit (`NineDigits`), which every unit but the millisecond allows
  (`NineDigitsReached`).
- **Forced shutdown** destroys the server even if core reports a failure; "exactly once" is
  therefore proved without asking for success of a forced shutdown (`BatchLedger.DestroyedOnce`).
- **The compressed flag** is the only thing lost when a byte string is parsed and encoded again
  (`Wire.EncodeAllParse`).

## Model

| member | source | states |
|---|---|---|
| Wire.WriteU32 | packages/grpc-js-core/src/call-stream.ts:376-376 | the four big-endian length bytes read back as the length |
| Wire.WriteReadU32 | packages/grpc-js-core/src/call-stream.ts:245-245 | conversely four bytes are the only spelling of the length they read as |
| Wire.BigEndian | packages/grpc-js-core/src/call-stream.ts:376-376 | lengths are ordered as their bytes are, most significant first, so with the two laws above no other byte order is possible |
| Wire.EncodeLayout | packages/grpc-js-core/src/call-stream.ts:370-379 | byte by byte: a zero flag, the length, the payload; one byte x is sent as 0, 0, 0, 0, 1, x |
| Wire.ParseAppend | packages/grpc-js-core/src/call-stream.ts:220-273 | parsing can be interrupted after any prefix and resumed from the unparsed bytes, for all byte strings |
| Wire.ChunkingIrrelevant | packages/grpc-js-core/src/call-stream.ts:220-273 | parsing chunk by chunk equals parsing the concatenation, for every way of cutting, empty chunks included |
| Wire.ParseEncodeAll | packages/grpc-js-core/src/call-stream.ts:370-379 | the parser undoes the encoder on every message list and leaves an unfinished tail untouched |
| Wire.EncodeAllParse | packages/grpc-js-core/src/call-stream.ts:220-273 | re-encoding the parsed messages gives back the bytes with only the flag bytes cleared |
| Wire.RoundTrip | packages/grpc-js-core/src/call-stream.ts:220-273 | encode, concatenate, cut anywhere, deframe: the same messages and nothing left over |
| Wire.EncodeMessage | packages/grpc-js-core/src/call-stream.ts:370-379 | every byte of the uninitialised buffer is written and the result is the wire form; fails exactly when the length needs more than 32 bits |
| ReadPath.ParsePiece | packages/grpc-js-core/src/call-stream.ts:226-270 | a piece that leaves a message incomplete only extends the leftover; one that completes it yields that message |
| ReadPath.CallReader.constructor | packages/grpc-js-core/src/call-stream.ts:87-103 | the initial fields hold the empty leftover |
| ReadPath.CallReader.TakeFlag | packages/grpc-js-core/src/call-stream.ts:226-235 | from NO_DATA one byte moves the partial state to exactly that leftover byte |
| ReadPath.CallReader.TakeSize | packages/grpc-js-core/src/call-stream.ts:236-254 | at least one byte is consumed, the fields hold exactly the leftover bytes, and a zero-length message is reported exactly when it is complete |
| ReadPath.CallReader.TakePayload | packages/grpc-js-core/src/call-stream.ts:255-271 | at least one byte is consumed; on completion the concatenated pieces are the payload, neither cut nor padded |
| ReadPath.CallReader.TryPush | packages/grpc-js-core/src/call-stream.ts:126-136 | the message joins delivered ++ queued at the very end whether pushed or queued; pushing goes on exactly if it could and the consumer takes more, and otherwise the stream is paused |
| ReadPath.CallReader.Step | packages/grpc-js-core/src/call-stream.ts:224-272 | one turn of the loop keeps the partial fields equal to the unparsed suffix and delivered ++ queued equal to the parsed messages |
| ReadPath.CallReader.OnData | packages/grpc-js-core/src/call-stream.ts:220-273 | the data handler keeps the invariant for any chunk and any re-entrant consumer; afterwards the stream is paused exactly if a push was refused, so never with a consumer that takes everything |
| ReadPath.CallReader.Push | packages/grpc-js-core/src/call-stream.ts:128-128 | nested reads during a push move items only from the front of the queue, so the order is kept |
| ReadPath.CallReader.ReadMore | packages/grpc-js-core/src/call-stream.ts:351-367 | _read delivers queued items in order and stops at the first refusal or the end, and only there: for consumers that do not read again, exactly the items up to that one are pushed, the rest stays queued and the stream resumes only if there was none; before attachment it is only remembered |
| ReadPath.CallReader.OnEnd | packages/grpc-js-core/src/call-stream.ts:274-280 | the end marker comes after every message, pushed or queued |
| ReadPath.CallReader.Handle | packages/grpc-js-core/src/call-stream.ts:220-280 | one event: what it adds to the bytes received, and what it changes |
| ReadPath.CallReader.Run | packages/grpc-js-core/src/call-stream.ts:220-280 | over every run delivered ++ queued equals the parsed messages then one end marker, and a non-empty queue means the stream is paused |
| ReadPath.Complete | packages/grpc-js-core/src/call-stream.ts:220-280 | once the stream has ended and the queue is drained the consumer has been given exactly the messages the peer encoded, and one end |
| EndToEnd.InOrder | packages/grpc-js-core/src/call-stream.ts:220-398 | in every state of both ends, however the sent bytes are cut and delayed, the consumer has been given no more than the written messages that have arrived complete, in order, and an end only after all of those; with all bytes arrived, the stream ended and the queue drained, exactly the messages written and one end |
| WholeCall.Call.Handle | packages/grpc-js-core/src/call-stream.ts:185-310 | both halves of a call over one event: end and status are each signalled once, when due, and the status stays behind the end if and only if no event brings it before the consumer has been given everything |
| WholeCall.Call.TrailersOvertake | packages/grpc-js-core/src/call-stream.ts:185-219 | from every attached state without a status in which the consumer has not been given everything, trailers put the status before the end |
| WholeCall.OvertakenFromTheStart | packages/grpc-js-core/src/client.ts:78-84 | such a call exists, with an OK status before any message |
| BatchLedger.TagsSplit | packages/grpc-native-core/ext/completion_queue.cc:36-71 | the outstanding tags are the per-call counts summed over all calls plus the tags of no call |
| BatchLedger.FinalOps | packages/grpc-native-core/ext/call.cc:690-714 | a batch is final exactly if it sends the status from the server or receives it on the client |
| BatchLedger.StartBatchSound | packages/grpc-native-core/ext/call.cc:723-731 | starting a batch on a held call keeps every call and server sound |
| BatchLedger.UnrefSound | packages/grpc-native-core/ext/call.cc:497-502 | releasing a call with nothing outstanding keeps its trace right: one unref, nothing outstanding at it, nothing after it |
| BatchLedger.CollectSound | packages/grpc-native-core/ext/call.cc:509-512 | the destructor's release is sound when no tag holds the call |
| BatchLedger.DoneOk | packages/grpc-native-core/ext/call.cc:552-560 | a call with an outstanding tag is still held and its counter positive; completing the batch releases it exactly when it was the last after a final operation |
| BatchLedger.CompleteBatchSound | packages/grpc-native-core/ext/call.cc:476-490 | retiring a batch's tag keeps all other calls and all servers sound |
| BatchLedger.TryShutdownSound | packages/grpc-native-core/ext/server.cc:322-329 | asking for a graceful shutdown keeps the server accounted for exactly once |
| BatchLedger.ForceShutdownSound | packages/grpc-native-core/ext/server.cc:198-220 | a forced shutdown hands the server from the wrapper to one tag |
| BatchLedger.CompleteTrySound | packages/grpc-native-core/ext/server.cc:145-149 | completing a graceful shutdown destroys the server if and only if it succeeded and nothing else took it |
| BatchLedger.CompleteForceSound | packages/grpc-native-core/ext/server.cc:77-81 | completing a forced shutdown destroys the server it carries, which nothing has destroyed before |
| BatchLedger.DestroyedOnce | packages/grpc-native-core/ext/server.cc:185-220 | a server is destroyed at most once and only on request; exactly once when a shutdown was asked for, every shutdown tag has completed and no graceful one failed |
| NativeRuntime.Call.CompleteBatch | packages/grpc-native-core/ext/call.cc:552-560 | the fields move as the ledger's step says |
| NativeRuntime.Runtime.CompletionQueueNext | packages/grpc-native-core/ext/completion_queue.cc:65-71 | the source's assertion that the prepare handle is inactive holds; the counter grows by one and the handle is active |
| NativeRuntime.Runtime.StartBatchOn | packages/grpc-native-core/ext/call.cc:652-732 | a released call fails its callback at once and nothing reaches core; malformed operations change nothing; a batch that core rejects changes no counter and leaks one tag; otherwise one tag and one start are recorded |
| NativeRuntime.Runtime.Collect | packages/grpc-native-core/ext/call.cc:509-512 | collecting a call that no tag holds unrefs it exactly if that was not done before |
| NativeRuntime.Runtime.TryShutdownOn | packages/grpc-native-core/ext/server.cc:310-330 | a server already gone answers at once; otherwise one tag |
| NativeRuntime.Runtime.ShutdownServer | packages/grpc-native-core/ext/server.cc:198-220 | the wrapper always ends empty; one tag exactly if it held a server |
| NativeRuntime.Runtime.StartOtherOp | packages/grpc-native-core/ext/server.cc:255-272 | an operation of no call adds one tag and keeps the counters exact, or leaks its tag if core rejects it |
| NativeRuntime.Runtime.RunScript | packages/grpc-native-core/ext/call.cc:663-673 | any JavaScript code, with callbacks called at once nested in it, keeps the invariant, only adds tags and records no failed shutdown |
| NativeRuntime.Runtime.RunAction | packages/grpc-native-core/ext/call.cc:663-731 | what each call into the module hands to core, and that a callback called at once is run |
| NativeRuntime.Runtime.Retire | packages/grpc-native-core/ext/call.cc:476-495 | after the callback exactly the completed tag goes. The last outstanding batch of a call unrefs it exactly if it or an earlier one sent or received the status; any other records only its completion. A failed graceful shutdown changes no server; a successful one destroys the server unless it is gone; a forced one always does |
| NativeRuntime.Runtime.CompleteTag | packages/grpc-native-core/ext/completion_queue.cc:46-59 | one completion runs its callback, which may start anything on any call or server, and completes exactly its tag; it keeps the whole invariant and every other tag, and records no failed shutdown if it succeeded |
| NativeRuntime.Runtime.DrainQueue | packages/grpc-native-core/ext/completion_queue.cc:38-61 | draining completes what is there, starting with the first, and keeps the invariant over any number of completions |
| NativeRuntime.Runtime.RunTurn | packages/grpc-native-core/ext/completion_queue.cc:38-71 | a turn performs its script, or drains the queue while the prepare handle is active |
| NativeRuntime.Runtime.Run | packages/grpc-native-core/ext/completion_queue.cc:38-71 | over every run the global counter is the number of outstanding tags, which is the per-call counts plus call-free tags; the prepare handle is active iff it is positive; every call is unreffed at most once, never with a batch outstanding, and untouched afterwards; every server is destroyed at most once, only on request, and exactly once when all its shutdown tags have completed and no graceful one failed; no graceful shutdown fails unless a completion does |
| ClientReads.StatusEmitted | packages/grpc-native-core/src/client.js:243-262 | a status is emitted if and only if reading is over, the server's status is there and no error emission threw |
| ClientReads.SignalsMean | packages/grpc-native-core/src/client.js:211-262 | by value: the status is the parse failure if a message could not be parsed and else the server's, an error goes before it iff its code is not 0, and the call is cancelled first iff a message could not be parsed |
| ClientReads.PrefixMeans | packages/grpc-native-core/src/client.js:279-299 | the values pushed are those up to the first failure, end or parse failure, nulls passed over |
| ClientReads.NullSilences | packages/grpc-native-core/src/client.js:299-305 | after a message that became null nothing is signalled until another read comes back |
| ClientReads.PrefixSnoc | packages/grpc-native-core/src/client.js:295-299 | one more result extends the values before the first non-value by at most itself |
| ClientReads.EndsChangeNothing | packages/grpc-native-core/src/client.js:307-308 | end markers pushed by reads after the end alter neither pushed values, nor signals, nor started reads |
| ClientReads.ClientReadableStream.Push | packages/grpc-native-core/src/client.js:299-299 | reads nested in a push start nothing and change no field |
| ClientReads.ClientReadableStream.Read | packages/grpc-native-core/src/client.js:307-316 | a read starts exactly when none is in flight and reading is not over |
| ClientReads.ClientReadableStream.ReadFailed | packages/grpc-native-core/src/client.js:280-285 | a failed batch ends reading with status OK, so the server's status decides |
| ClientReads.ClientReadableStream.ReadsDone | packages/grpc-native-core/src/client.js:211-222 | called only with no reader status yet; cancels exactly on a failure, leaves the outputs exactly right, and leaves a status out exactly if one was due and emitting the error threw |
| ClientReads.ClientReadableStream.EmitStatusIfDone | packages/grpc-native-core/src/client.js:243-262 | nothing unless both statuses are there; then error (unless OK) and status, the reader's failure overriding the server; listeners may call _read, and status is missing exactly if emitting the error throws |
| ClientReads.ClientReadableStream.ReadCallback | packages/grpc-native-core/src/client.js:279-306 | each result is handled once, and another read is started exactly when it is a value and the consumer wants more |
| ClientReads.ClientReadableStream.OnRead | packages/grpc-native-core/src/client.js:271-317 | _read between events keeps at most one RECV_MESSAGE outstanding |
| ClientReads.ClientReadableStream.ReceiveStatus | packages/grpc-native-core/src/client.js:230-234 | the server's status is recorded and emitted exactly if reading is over, unless it is an error and its emission throws |
| ClientReads.ClientReadableStream.StatusBatchFailed | packages/grpc-native-core/src/client.js:698-702 | one error event, and no status from then on |
| ClientReads.ClientReadableStream.Handle | packages/grpc-native-core/src/client.js:211-317 | each event that can happen is acted on |
| ClientReads.ClientReadableStream.Run | packages/grpc-native-core/src/client.js:211-317 | over every run at most one read is outstanding, the pushed values are those before the first failure or end, and cancellation, error and status are one function of the results, the server's status and whether emitting the error threw, whichever came first; that takes an event whose reaction throws, so without one they depend on what came in alone; the status is emitted at most once, and never if the status batch failed; its value is the parse failure or the server's word |
| ServerSends.StatusAfterMeaning | packages/grpc-native-core/src/server.js:151-191 | the code is that of the last error, 2 if it has none, 0 without an error; the details are the error's own exactly if it has code and details, else its message, else 'Unknown Error'; the metadata is the last given to end() since, else the error's, else empty |
| ServerSends.LastError | packages/grpc-native-core/src/server.js:151-180 | the position of the last error, nothing but end() after it |
| ServerSends.ServerWritableStream.TerminateCall | packages/grpc-native-core/src/server.js:175-180 | an error becomes the pending status and ends the stream; after the status is out it has no effect on it |
| ServerSends.ServerWritableStream.End | packages/grpc-native-core/src/server.js:186-191 | trailing metadata replaces that of the pending status |
| ServerSends.ServerWritableStream.SendMetadata | packages/grpc-native-core/src/server.js:475-490 | only the first initial metadata is sent, and it is sent first |
| ServerSends.ServerWritableStream.Send | packages/grpc-native-core/src/server.js:131-142 | a batch brings the empty initial metadata along exactly if none went out, and keeps the order well formed |
| ServerSends.ServerWritableStream.WriteChunk | packages/grpc-native-core/src/server.js:304-334 | a serializable message is sent after all earlier ones; an unserializable one sends nothing and raises INTERNAL |
| ServerSends.ServerWritableStream.WriteCallback | packages/grpc-native-core/src/server.js:327-333 | a failed write raises its error, sends nothing and stays outstanding |
| ServerSends.ServerWritableStream.OnFinish | packages/grpc-native-core/src/server.js:130-144 | the status sent is the one that the errors and ends so far determine |
| ServerSends.ServerWritableStream.Conclude | packages/grpc-native-core/src/server.js:130-144 | conversely, from every state of an ended stream without a failed write the status can still be sent |
| ServerSends.ServerWritableStream.Handle | packages/grpc-native-core/src/server.js:122-192 | for each event exactly the operations it gives to startBatch and the errors it adds |
| ServerSends.ServerWritableStream.Run | packages/grpc-native-core/src/server.js:122-192 | over every run the operations are initial metadata once, the messages in order, and at most one status, last, carrying the last error before finish; after a failed write nothing more is sent, so no status; and a write fails only if its batch comes back with an error; until the status is out no error and no end is lost |
| CallLifecycle.TraceOrder | packages/grpc-js-core/src/call-stream.ts:119-124 | in a trace: one attachment and not after a status, no byte before it, nothing written after the end, one status |
| CallLifecycle.OfferMeans | packages/grpc-js-core/src/call-stream.ts:205-310 | the status that each event brings, by value |
| CallLifecycle.Http2CallStream.EndCall | packages/grpc-js-core/src/call-stream.ts:119-124 | the first status wins and is emitted once, even if listeners cancel again while it is emitted, each of which resets an attached stream |
| CallLifecycle.Http2CallStream.CancelWithStatus | packages/grpc-js-core/src/call-stream.ts:326-333 | never replaces a status, and resets an attached stream |
| CallLifecycle.Http2CallStream.AttachHttp2Stream | packages/grpc-js-core/src/call-stream.ts:138-323 | attaches, then sends the held write and then the held end; with a status already there it only resets the new stream |
| CallLifecycle.Http2CallStream.OnMetadata | packages/grpc-js-core/src/channel.ts:131-152 | attaches only without a status and with a connection, retries without a connection, stops once there is a status |
| CallLifecycle.Http2CallStream.WriteMessage | packages/grpc-js-core/src/call-stream.ts:381-390 | the encoded message follows all earlier ones, or is held; one too long changes nothing |
| CallLifecycle.Http2CallStream.OnFinal | packages/grpc-js-core/src/call-stream.ts:392-398 | the end follows every message, or is held |
| CallLifecycle.Http2CallStream.Handle | packages/grpc-js-core/src/call-stream.ts:185-310 | no event changes a status or a stream once there is one; without one, the call ends with the status that the event brings, and with no other; writes and the end are taken as they come, and a cancelled call always has a status |
| CallLifecycle.Http2CallStream.Run | packages/grpc-js-core/src/channel.ts:126-158 | over every run with any number of retries: at most one attachment, before any status; the bytes on the stream are the encoded messages in order, then at most one end; the final status is the first that reached endCall and was emitted exactly once |
| UnaryResponse.UnaryHandler.Handle | packages/grpc-js-core/src/client.ts:61-91 | the handlers keep the message of the last successful parse, and the callback has run at most once, as the first event that called for an end demands |
| UnaryResponse.AfterData | packages/grpc-js-core/src/client.ts:62-72 | what any sequence of messages leaves: the last value, or the failure that its first misplaced message calls for |
| UnaryResponse.DecidedStays | packages/grpc-js-core/src/call-stream.ts:119-124 | once the callback has run nothing changes what it was given |
| UnaryResponse.StatusAfterEnd | packages/grpc-js-core/src/client.ts:58-92 | with the status after the end: exactly which of the outcomes the callback gets, and success if and only if the messages were nulls and then one value and the status is OK |
| UnaryResponse.ExactlyOneMessage | packages/grpc-js-core/src/client.ts:78-84 | for deserializers that never yield null: success if and only if exactly one message came, parsed, with status OK, and then with that message; with another status, that failure |
| UnaryResponse.FailuresMean | packages/grpc-js-core/src/client.ts:62-77 | by value: which failure a second message, an exception or no message at all leads to, whatever else comes |
| UnaryResponse.NullThenValue | packages/grpc-js-core/src/client.ts:63-67 | two messages can still give success |
| UnaryResponse.StatusFirst | packages/grpc-js-core/src/client.ts:79-84 | if the status comes before the end: exactly which outcome the callback gets, and success if and only if nothing was wrong with the messages so far and the status is OK, with whatever has arrived, possibly nothing |
| Base64.OctetsSextets | packages/grpc-js-core/src/metadata.ts:174-176 | regrouping bits by six and back is the identity, for every length |
| Base64.DecodeEncode | packages/grpc-js-core/src/metadata.ts:192-199 | decoding undoes encoding for every byte string |
| Base64.Alphabet | packages/grpc-js-core/src/metadata.ts:174-176 | the alphabet of section 4 of RFC 4648, character by character |
| Base64.ReadAlphabet | packages/grpc-js-core/src/metadata.ts:192-199 | the decoder reads that alphabet, the two other characters of section 5, and nothing more |
| Base64.GroupValue | packages/grpc-js-core/src/metadata.ts:174-176 | three bytes and their four characters are the same 24-bit number |
| Base64.EncodeLength | packages/grpc-js-core/src/metadata.ts:174-176 | padding fills the last group of four |
| CallMetadata.KeysMean | packages/grpc-js-core/src/metadata.ts:24-34 | exactly which characters and keys are accepted, and which keys are binary |
| CallMetadata.LowerMeans | packages/grpc-js-core/src/metadata.ts:36-38 | what normalization does to each character that can end up in a legal key |
| CallMetadata.ValidateMeans | packages/grpc-js-core/src/metadata.ts:40-61 | which error is thrown: the key first, then the kind, then the characters |
| CallMetadata.LegalMeans | packages/grpc-js-core/src/metadata.ts:24-61 | what every reachable object keeps is exactly: lower-case legal keys, non-empty lists, buffers iff the key ends in -bin, printable strings otherwise |
| CallMetadata.HeaderValuesBack | packages/grpc-js-core/src/metadata.ts:168-210 | the values of one header read back as the values that were written |
| CallMetadata.HeadersMean | packages/grpc-js-core/src/metadata.ts:168-208 | binary values go through base64 both ways and the others as they are, and a single header value counts as a list of one |
| CallMetadata.HeadersAddUp | packages/grpc-js-core/src/metadata.ts:189-211 | headers whose keys differ in case only add up in their order |
| CallMetadata.AddAllFresh | packages/grpc-js-core/src/metadata.ts:89-97 | repeated add on a new key collects the values in order, or throws for an inherited key |
| CallMetadata.HeadersRoundTrip | packages/grpc-js-core/src/metadata.ts:168-211 | for every legal multimap and every key order fromHttp2Headers gives back the multimap, if and only if no key is `constructor` |
| CallMetadata.ConstructorBreaksRoundTrip | packages/grpc-js-core/src/metadata.ts:76-97 | the failing family is inhabited by every legal value |
| CallMetadata.MergedLegal | packages/grpc-js-core/src/metadata.ts:159-163 | merging keeps keys, kinds and non-emptiness legal |
| CallMetadata.Metadata.Set | packages/grpc-js-core/src/metadata.ts:76-80 | exactly the validation errors; replaces one key; stays legal |
| CallMetadata.Metadata.Add | packages/grpc-js-core/src/metadata.ts:89-97 | appends under the normalized key, or throws and changes nothing; stays legal |
| CallMetadata.Metadata.Remove | packages/grpc-js-core/src/metadata.ts:103-109 | removes exactly the normalized key; an illegal key throws |
| CallMetadata.Metadata.Get | packages/grpc-js-core/src/metadata.ts:116-124 | the values under the normalized key, or none |
| CallMetadata.Metadata.Clone | packages/grpc-js-core/src/metadata.ts:146-150 | a new object with the same contents |
| CallMetadata.Metadata.Merge | packages/grpc-js-core/src/metadata.ts:159-163 | per key this object's values then the other's, in whatever order keys come; throws exactly when it would append to the inherited `constructor`, and then has merged a part of the other without it |
| CallMetadata.Metadata.ToHttp2Headers | packages/grpc-js-core/src/metadata.ts:168-182 | one header per key with all its values in order |
| CallMetadata.Metadata.FromHttp2Headers | packages/grpc-js-core/src/metadata.ts:189-211 | computes FromHeaders, single or multiple values, errors included; the result is always legal |
| MetadataArray.ItemsOfProperty | packages/grpc-native-core/ext/call.cc:98-126 | where the values of each property sit in the flattened order |
| MetadataArray.Capacity | packages/grpc-native-core/ext/call.cc:86-95 | the first pass fails iff some value list is not an array, and else counts every value |
| MetadataArray.RightKind | packages/grpc-native-core/ext/call.cc:109-123 | a buffer exactly under a binary key, a string exactly under any other |
| MetadataArray.CreateMetadataArray | packages/grpc-native-core/ext/call.cc:84-128 | never writes past the capacity; succeeds iff every list is an array and every value has the right kind, with count equal to capacity and all values in order; on failure holds exactly the values before the offending one |
| MetadataArray.StoreAll | packages/grpc-native-core/ext/call.cc:98-127 | the second pass fills the array exactly, or stops with it holding exactly the values before the first of the wrong kind |
| MetadataArray.StoreList | packages/grpc-native-core/ext/call.cc:105-125 | one key's values are stored in place up to the first of the wrong kind |
| MetadataArray.ParseMetadata | packages/grpc-native-core/ext/call.cc:138-163 | every key that occurs, with all its values in order and no empty list, save that what came under `__proto__` has become the prototype |
| MetadataArray.RegroupFlattened | packages/grpc-native-core/ext/call.cc:84-163 | flattening and regrouping gives every list back but that of `__proto__` and invents no key; only keys with empty lists are lost if and only if nothing is under `__proto__` |
| MetadataArray.ProtoLost | packages/grpc-native-core/ext/call.cc:148-151 | any value under `__proto__` is flattened and then lost |
| Credentials.UnionValues | packages/grpc-js-core/src/call-credentials.ts:31-39 | each key's values are the leaves' values concatenated left to right, and a key occurs iff some leaf supplies it |
| Credentials.MergedAssociative | packages/grpc-js-core/src/metadata.ts:159-163 | merging is associative |
| Credentials.UnionAppend | packages/grpc-js-core/src/call-credentials.ts:35-37 | the union over a concatenation of leaves is the merge of the unions |
| Credentials.GenerateMeans | packages/grpc-js-core/src/call-credentials.ts:28-74 | every tree settles to the union of its leaves, whatever its shape, and rejects iff some leaf supplies nothing or something unmergeable |
| Credentials.ComposeLeaves | packages/grpc-js-core/src/call-credentials.ts:41-73 | composing concatenates the leaves, in all three classes |
| Credentials.TwoGenerators | packages/grpc-js-core/src/call-credentials.ts:31-63 | composing two generators gives the first one's values before the second one's |
| Credentials.ComposeAssociative | packages/grpc-js-core/src/call-credentials.ts:41-73 | composition is associative in what it generates |
| Credentials.ComposeEmpty | packages/grpc-js-core/src/call-credentials.ts:66-74 | empty credentials are neutral on the left, and on the right iff the other side is not a lone generator supplying `constructor` |
| Credentials.PromiseAll | packages/grpc-js-core/src/call-credentials.ts:33-34 | the results come by position whatever order they settle in, and one rejection rejects |
| Credentials.MergeGenerated | packages/grpc-js-core/src/call-credentials.ts:32-38 | merges into a fresh object in order, leaving the generated ones alone; fails exactly when a merge throws |
| Credentials.GenerateMetadata | packages/grpc-js-core/src/call-credentials.ts:28-74 | on a whole tree, whatever order the promises settle in at every node, the result is that of Generate, and so the union of the leaves from left to right, or a rejection |
| Credentials.GenerateAllByParts | packages/grpc-js-core/src/call-credentials.ts:31-39 | with all parts settled the composite settles to their merge in order |
| Credentials.GenerateAllRejects | packages/grpc-js-core/src/call-credentials.ts:33-34 | one part that rejects makes the composite reject |
| Deadline.CeilingDivides | packages/grpc-js-core/src/deadline-filter.ts:45-47 | the rounded-up count is not too short and too long by less than a unit |
| Deadline.EncodeTimeout | packages/grpc-js-core/src/deadline-filter.ts:42-50 | encodes iff under 10^8 hours; finest unit with a number below 10^8, duration in [t, t + unit) |
| Deadline.EncodingUnique | packages/grpc-js-core/src/deadline-filter.ts:44-49 | those conditions determine the header |
| Deadline.Precision | packages/grpc-js-core/src/deadline-filter.ts:7-8 | the relative error is at most one in 10^5 and the count at most 10^8 |
| Deadline.NineDigits | packages/grpc-js-core/src/deadline-filter.ts:45-47 | the count needs nine digits if and only if the time is above 10^8 - 1 of the chosen unit |
| Deadline.NineDigitsReached | packages/grpc-js-core/src/deadline-filter.ts:45-47 | times that do so in seconds, minutes and hours, and that none does in milliseconds |
| Deadline.Monotone | packages/grpc-js-core/src/deadline-filter.ts:44-49 | more time never encodes to less, across unit boundaries |
| Deadline.PastDeadline | packages/grpc-js-core/src/deadline-filter.ts:43-47 | a deadline in the past is sent as its negative milliseconds |
| Histogram.LogPow | test/performance/histogram.js:65-67 | the logarithm of a bucket's start is its index times that of the multiplier |
| Histogram.BucketSpan | test/performance/histogram.js:56-67 | every value from 1 up lies between its bucket's start and the next one's |
| Histogram.IndexInRange | test/performance/histogram.js:56-67 | a value has one of the first n buckets if and only if it is at least 1 and below the start of bucket n |
| Histogram.BucketMonotone | test/performance/histogram.js:56-58 | larger values never have smaller buckets, so none is past the bucket of the maximum |
| Histogram.SpreadExpanded | test/performance/histogram.js:77-78 | the sum of squared distances from any point in terms of the running sums |
| Histogram.VarianceMeaning | test/performance/histogram.js:101-107 | the formula over running sums is the mean squared distance from the mean |
| Histogram.Histogram.constructor | test/performance/histogram.js:35-49 | empty statistics, all buckets up to that of the maximum at zero |
| Histogram.Histogram.Add | test/performance/histogram.js:74-87 | for any value: sums, count, extremes and every bucket are those of the values added so far, and an index out of range disturbs no bucket |
| Histogram.BucketsAddUp | test/performance/histogram.js:74-87 | the buckets add up to the count if and only if every value was in [1, start of the bucket after the last), in particular for values in [1, max_possible] |
| Histogram.Histogram.Variance | test/performance/histogram.js:101-107 | the mean squared distance from the mean, never negative |

## Left out

- The gRPC C core, V8 handles, libuv, Node streams and http2: represented only as described under "How foreign code enters". Scripts and reactions are finite, so a callback chain that never returns is not modelled.
- ReadPath.CallReader and CallLifecycle.Http2CallStream are two halves of one source object, which share only whether a stream is attached; WholeCall.Call joins them for the order of its signals. The `response` handler and its metadata event are in neither.
- Wire.EncodeMessage: a message's flags object is not modelled; the compressed flag is always 0, as in the source.
- NativeRuntime.Runtime.StartBatchOn: how operations are parsed is not modelled, only that it can fail.
- NativeRuntime.Runtime.CompletionQueueNext: the counters are mathematical integers; overflow of the C `int` is not modelled.
- NativeRuntime.Runtime.StartOtherOp: stands for requestCall and watchConnectivityState alike; requestCall on a server that is already gone hands core a null pointer and is not modelled, and the call that a completed requestCall creates is a `NewCall` of the callback.
- ClientReads.ClientReadableStream.Run: the client's writing side is not modelled, nor what listeners do besides calling _read and throwing.
- ServerSends.ServerWritableStream.Run: metadata is opaque, so its conversion to core's form is the identity; write flags, the reading side, unary responses and handleError are not modelled.
- CallLifecycle.Http2CallStream.Run: tables that map HTTP/2 error codes and trailers to statuses are not modelled; the status is part of the event. Connectivity is only "connected" or "not ready" and no liveness is claimed for connecting.
- CallMetadata.Metadata.Set: setting `__proto__` replaces the prototype and adds no own key; lookups that later find something through that prototype are not modelled.
- CallMetadata.Metadata.Get: the source returns its own list, so a caller could change it behind the object's back; here it is a value. getMap, and null values passed to set or add, are not modelled.
- CallMetadata.Metadata.FromHttp2Headers: header values that are undefined or not strings are not modelled; characters outside ASCII are lower-cased only as far as it can make a legal key.
- Base64.DecodeEncode: Node's size computation for malformed input is not modelled; only text with the right padding is claimed to decode.
- MetadataArray.ParseMetadata: the UTF-8 conversion of strings to slices is not modelled.
- Credentials.GenerateMetadata: a new object with the same contents stands for the one a generator hands over.
- Deadline.EncodeTimeout: the decimal text of the count is not modelled, and the time left is a whole number of milliseconds.
- Histogram.Histogram.Add: the NaN that the source stores under an index out of range is not modelled. Arithmetic is over exact reals, and the logarithm enters as any strictly increasing function that turns products into sums. stddev, mean, percentile and merge are not modelled.
- Compression and credentials filters, protobuf reflection and generated code, TLS handling, logging, health checking, argument-overload sorting, benchmarks and interop tests: plumbing.
