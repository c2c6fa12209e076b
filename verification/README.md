# AIRE protocol core: a verified model

AIRE is an agent-to-agent protocol over QUIC. This project models the part of its
Go implementation whose correctness is not visible in any one function: the wire
codecs, the signed HELLO handshake, the replay cache, capability negotiation,
operation multiplexing and the node's task bookkeeping. Every main result is a
statement over all inputs, all runs or all reachable states.

`dafny verify dfyconfig.toml` checks the whole project.

## How the model reads

- A Go string is a byte sequence, so strings and byte slices share one type. Bit
  operations on bytes are written as division, remainder and addition. Numbers are
  unbounded integers; the places where the width matters (timestamps, durations,
  the 62-bit varint limit) are written out.
- Straight-line decoders are functions with early exits. Code that loops or updates
  state is a method or a class: base58, HELLO and BUDGET loops, capability
  indexing, the chunked `Reader`, `Verifier`, `Stream`, `Conn` and `Operation`. Each
  is proved equal to a function on values, and the results are proved about that
  function.
- A frame or HELLO that would make an encoder panic (a value above 2^62-1) is
  excluded by a precondition, as the panic is. Only receivers check `MaxFrameSize`, so
  senders here write larger frames too, and a reader that rejects one stays behind its
  header.
- The wire format is also written down as a grammar (`WireFormat`): which bytes spell
  which value, without any decoder. Each decoder is proved to accept exactly the grammar
  and each encoder to write the shortest spelling, so both are pinned to the format and
  not only to each other.
- Ed25519 and did:web lookup are function parameters. The assumption on Ed25519
  (`Handshake.Correct`) is that keys have 32 bytes and a check accepts what
  signing produced.
- Clock readings, nonces and the ephemeral signer are parameters. `Verify` reads the
  clock before it takes its lock, so the order of the locked sections need not be that
  of the clock readings. Where a result needs the two to agree it says so
  (`Replay.ClockOrdered`), and what happens otherwise is stated too.
- The protocol version is a parameter of each node instead of one global.
- Concurrent behaviour (operations on a connection, the tasks of a node) is a
  transition system over all interleavings of atomic steps. An end of a connection may
  also write bytes that no node of this code would write.

## Where the code and its documentation differ

The model follows the code, and the difference is stated exactly.

- `Verify` is documented to record a nonce on success. It records before the key is
  resolved and the signature checked, so a refused forgery uses up the nonce it copies and
  the genuine call is refused after it (`Replay.ForgeryBurnsNonce`). A genuine call is
  refused exactly when some recording call for its DID, accepted or not, still holds its
  nonce (`Replay.GenuineRefusedExactly`, for HELLOs `Handshake.HonestHelloRefusedExactly`).
- The timestamp window is exact except that a stamp 2^63 ns or more ahead of the
  clock passes under every window, because the difference saturates and the least
  duration is its own negation (`Replay.WindowCheckExactly`).
- No call is accepted twice, in every run in clock order, for every window a duration can
  express except the single largest one (`Replay.ReplaySafeExactly`).
- A call can be accepted twice when clock readings and locked sections fall in different
  orders (`Replay.InversionReplays`). Such a repetition always has a recording call in
  between whose clock reading is later than that of the repetition
  (`Replay.RepeatNeedsInversion`).
- `PeerNodeID` is documented as authenticated. A completed handshake authenticated it
  exactly when the peer's own HELLO states a minor of at least 2, whatever minor was
  negotiated (`Handshake.AuthenticatedExactly`, with what is then known in
  `Handshake.IdentityBinding`).
- `Recv` is documented to read the next frame of its operation. That holds in all runs exactly
  when senders keep to `MaxFrameSize`, which they do not check
  (`Multiplexing.IsolationExactly`): after a rejected larger frame the reader takes its
  payload for frames (`Multiplexing.StowawayReceived`).
- `RecvFrame` is documented to return io.EOF when the stream ends between frames. It
  also does at every boundary of the reader's own reads inside a frame
  (`Streaming.CutFrameEnd`).
- `Stop` waits for all tasks, but an admitted `Listen` call that has not yet returned
  can start the accept loop after `Stop` has returned; that is the only way
  (`NodeTasks.LateTasksExactly`).

## Model

| member | source | states |
|---|---|---|
| Varint.ReadEncodedVarint | frame.go:113-171 | Reading an encoded value followed by any bytes returns the value and its exact length |
| Varint.EncodingIsShortest | frame.go:113-171 | No byte string that reads as a value is shorter than the encoder's output for it |
| Varint.ReencodeExactly | frame.go:113-171 | Re-encoding a value gives back the bytes it was read from exactly when they were the shortest form |
| Varint.ReadVarintStable | frame.go:138-171 | A read depends only on the bytes it consumes |
| Varint.ReadEncodedString | handshake.go:176-192 | A length-prefixed string followed by any bytes reads back as itself |
| Varint.ReadStringStable | handshake.go:182-192 | A string read depends only on the bytes it consumes |
| Varint.ReencodeStringExactly | handshake.go:176-192 | Re-encoding a string gives back the very bytes exactly when its length was in the shortest form |
| WireFormat.ReadVarintExactly | frame.go:135-171 | On every input, the reader returns a value and size exactly when those bytes spell the value by section 16 of RFC 9000 |
| WireFormat.EncodeVarintExactly | frame.go:111-133 | The encoder writes the one shortest spelling of a value |
| WireFormat.ReadStringExactly | handshake.go:182-192 | A string is read exactly when a length, in any form, and that many bytes stand in front |
| Frames.DecodeEncodedFrame | frame.go:60-109 | An encoded frame followed by any bytes decodes to itself with its exact length |
| Frames.DecodeFrameStable | frame.go:72-109 | A successful decode ignores everything past its count |
| Frames.DecodeFrameSettles | frame.go:72-109 | Only ErrShortBuffer can change into another outcome when more bytes arrive |
| Frames.StrictPrefixIsShort | frame.go:60-109 | Every strict prefix of an encoded frame gives ErrShortBuffer |
| Frames.ReencodeFrame | frame.go:60-109 | Re-encoding a decoded frame is no longer than the bytes consumed and decodes to the same frame |
| Frames.ReencodeFrameExactly | frame.go:60-109 | It is byte-identical exactly when it has the same length, that is, when both varints were minimal |
| Frames.DecodeEncodedFrames | frame.go:60-109 | Decoding the concatenated encodings of any frame list, frame after frame, returns that list |
| WireFormat.DecodeFrameExactly | frame.go:68-109 | Exactly the spellings of frames of at most 1 MiB are accepted, exactly the inputs with a header announcing more are too large, all else is a short buffer |
| WireFormat.EncodeFrameExactly | frame.go:53-66 | The encoder writes the shortest spelling of every frame, oversize ones included |
| Streaming.Reader.ReadFull | conn.go:185-213 | Exactly the bytes asked for whatever the chunking, or an end-of-input error and an exhausted stream |
| Streaming.Reader.ReadVarintFrom | conn.go:217-240 | Same value and leftover as the buffer reader, with the exact end-of-input error |
| Streaming.Reader.ReadFrame | conn.go:185-213 | On every chunking: same success, frame and leftover as the buffer decoder, too-large for too-large, end of input for short buffer |
| Streaming.CutFrameEnd | conn.go:172-240 | A stream cut at byte k of a frame ends in plain io.EOF exactly for the listed k |
| WireFormat.CutTextEnd | conn.go:172-240 | The same for every spelling of a frame, with io.ErrUnexpectedEOF at all other cuts |
| Streaming.OversizeRejected | conn.go:185-213 | A frame above the limit is rejected whatever follows, with the reader left exactly at its payload |
| Base58.DecodeEncoded | identity.go:335-377 | Decoding an encoding returns every byte string, empty and with leading zeros included |
| Base58.EncodeDecoded | identity.go:335-377 | Decoding succeeds exactly over the alphabet, and encoding what was decoded returns the string |
| Base58.Base58Encode | identity.go:335-355 | The digit, padding and in-place reversal loops compute the change of base that keeps leading zeros |
| Base58.Base58Decode | identity.go:357-377 | The accumulation and padding loops compute its inverse, failing at the first foreign character |
| Base58.ReverseInPlace | identity.go:351-353 | The two-index swap loop reverses the buffer |
| Base58.AlphabetIs | identity.go:333-333 | The 58 characters, in order |
| Base58.EncodeExactly | identity.go:335-355 | The encoding is the one string over the alphabet with the same number and as many leading ones as the bytes have leading zeros |
| DidKey.MultibaseCanonical | identity.go:286-308 | A multibase string decodes to a key exactly when it is the encoding of that 32-byte key |
| DidKey.DidKeyCanonical | identity.go:312-323 | A did:key parses to key k exactly when it is the did:key of k and k has 32 bytes |
| DidKey.DidKeyShape | identity.go:284-315 | Every Ed25519 did:key has 56 characters and starts with did:key:z6Mk, being did:key:z and the base58 of 0xED 0x01 and the key |
| DidKey.CutDidKeyVmid | identity.go:325-329 | Cutting a did:key VMID at the first '#' returns the DID, because its text never holds one |
| DidKey.CutAtFirst | identity.go:214-214 | The cut of a DID without '#', then '#' and a fragment, is that DID and fragment |
| SignatureBlocks.DecodeEncodedBlock | identity.go:60-120 | A signature block followed by any bytes decodes to itself, negative timestamps included |
| SignatureBlocks.MetaBytesInjective | identity.go:67-77 | Equal covered metadata means equal algorithm, VMID, nonce and timestamp |
| WireFormat.DecodeBlockExactly | identity.go:79-120 | The block decoder accepts exactly algorithm, VMID, 16 nonce bytes, 8 bytes of two's complement timestamp, and signature |
| WireFormat.EncodeBlockExactly | identity.go:60-77 | The encoder writes the shortest spelling of a block |
| WireFormat.SignedMessageExactly | identity.go:122-131 | What a HELLO signature covers: AIRE-SIG-v1, 0x00, 0x01, the inner bytes, then algorithm, VMID, nonce and timestamp in shortest form |
| Capabilities.IndexCapabilities | capability.go:181-190 | The index of a list, or ErrMalformedHello exactly when a name repeats |
| Capabilities.NegotiateCapabilities | capability.go:139-179 | The loops compute the specification function, whose verdict and result the next three rows characterise |
| Capabilities.NegotiationVerdict | capability.go:129-179 | ErrMalformedHello exactly when a list repeats a name; otherwise ErrMissingRequiredCapability exactly when a required entry of either list has a name the other lacks; otherwise success |
| Capabilities.NegotiationResult | capability.go:129-179 | A successful negotiation holds exactly the common names at the lower minor, once each, in local order, none required |
| Capabilities.NegotiationSymmetric | capability.go:129-179 | Swapping the sides keeps success, the error class and the name-to-minor pairs |
| HelloCodec.EncodeHelloInner | handshake.go:69-85 | The encoding loop produces the specified layout |
| HelloCodec.DecodeHelloPayload | handshake.go:117-173 | The decoding loop agrees with the recursive decoder on every payload, errors included |
| HelloCodec.DecodeEncodedHello | handshake.go:69-173 | A HELLO followed by any trailer decodes to itself and leaves exactly the trailer |
| HelloCodec.DecodeHelloStable | handshake.go:117-173 | The HELLO decoder depends only on the bytes it consumes |
| HelloCodec.ReencodeHello | handshake.go:69-173 | Re-encoding a decoded HELLO is no longer than the bytes consumed, decodes to the same HELLO, and is those very bytes exactly when it has their length |
| WireFormat.DecodeHelloExactly | handshake.go:117-173 | The HELLO decoder accepts exactly version, node id, count and that many capabilities, each ending in a required byte 0 or 1; all else is malformed |
| WireFormat.EncodeHelloExactly | handshake.go:69-85 | The encoder writes the shortest spelling of a HELLO |
| HelloCodec.SignedMessageBinds | identity.go:122-131 | Two payloads that rebuild the same signed bytes agree on frame type, version, node id, capabilities, algorithm, VMID, nonce, timestamp and inner bytes; the bytes themselves are given by WireFormat.SignedMessageExactly |
| Replay.Verifier.Verify | identity.go:199-246 | One call, with its eviction loop, takes the cache and verdict of the step function, which the next two rows characterise |
| Replay.VerifyExactly | identity.go:199-246 | The verdict on every call in the code's order: algorithm 0x01, stamp in the window, a DID, a nonce not held, a key the VMID names, a signature that checks; each with its error |
| Replay.CacheExactly | identity.go:219-236 | The cache is unchanged unless the first four checks pass; then exactly the call's DID gains the nonce and loses the stamps below the millisecond cutoff |
| Replay.KeyOrigin | identity.go:248-282 | A VMID resolves to a key exactly when its DID is that key's did:key, or did:web lookup with a fragment returns it |
| Replay.CacheHoldsRetained | identity.go:219-236 | After any run, a DID's cache is what its recording calls stored and no later one evicted |
| Replay.CacheIsHistory | identity.go:219-236 | Right after a recording call, its DID's cache is exactly the recorded pairs at or above the current cutoff |
| Replay.RecordedTwice | identity.go:219-236 | In clock order, a nonce is recorded again for a DID only after its first timestamp fell below the cutoff, and never with the same timestamp |
| Replay.RepeatNeedsInversion | identity.go:204-236 | In any order, one DID, nonce and timestamp is recorded twice only around a recording call with a clock reading later than the repetition's |
| Replay.InversionReplays | identity.go:204-236 | Such an inversion is enough: under the default window the same call is accepted twice around one later reading |
| Replay.NoReplay | identity.go:194-246 | No two accepted calls of a run share DID, nonce and timestamp; sharing DID and nonce puts the first timestamp more than the window before the second clock |
| Replay.ReplaySafeExactly | identity.go:199-246 | Both statements hold of the accepted calls of all runs exactly when the window is not the largest duration |
| Replay.LargestWindowIsUnsafe | identity.go:204-236 | A run in 2027 under the largest window that accepts one call twice |
| Replay.LargestWindowReplays | identity.go:204-236 | Under the largest window, whatever the clock, any genuine call with a stamp older than the window is accepted, evicted by the next call for its DID and accepted again |
| Replay.CacheIgnoresSignature | identity.go:194-246 | The cache after a call does not depend on message, signature or key |
| Replay.ForgeryBurnsNonce | identity.go:194-246 | A forgery of an acceptable call is refused, and the call is then refused as a replay |
| Replay.GenuineRefusedExactly | identity.go:194-246 | After any run, a call that passes all other checks is refused exactly when a retained recording call for its DID, accepted or not, has its nonce |
| Replay.WindowCheckExactly | identity.go:204-212 | When the timestamp check passes, saturation included |
| Replay.FarFutureStampPasses | identity.go:204-212 | A stamp outside the default window that the check lets through |
| Replay.FreshIsAboveCutoff | identity.go:204-229 | A timestamp that passes the window check is not below the millisecond cutoff of the same moment |
| Handshake.DidKeySignerIsHonest | identity.go:140-164 | A did:key signer's VMID resolves under its own DID to the key that accepts its signatures |
| Handshake.HelloReopens | handshake.go:87-100 | A built HELLO, framed and decoded, yields the sender's fields, its block and byte for byte the signed message |
| Handshake.JudgeExactly | handshake.go:219-276 | The verdict on every first frame in the code's order, with the error of each check, the cache afterwards, and on success peer id, lower minor and negotiated set |
| WireFormat.CompletesExactly | handshake.go:219-276 | A handshake completes with a state exactly when the frame is a HELLO of the same major, by its own DID, in the window, unseen and signed from minor 2 on, and negotiates; the state holds node id, lower minor and negotiated set |
| Handshake.NegotiatedMinor | handshake.go:239-242 | For every peer frame that completes, the minor is at most either side's and equals one of them |
| WireFormat.OutcomeExactly | handshake.go:219-228 | On every byte sequence: a frame in front is judged, an oversize header is ErrFrameTooLarge, all else an end of input; only judging can change the cache |
| Handshake.CutGreeting | handshake.go:219-222 | A greeting cut at any byte gives the exact end-of-input error and leaves the cache |
| Handshake.OversizeGreeting | handshake.go:213-222 | A HELLO above 1 MiB is sent all the same and refused as too large |
| Handshake.HonestHelloAccepted | handshake.go:197-277 | An honest HELLO with a new nonce and a stamp in the window passes; only major version and negotiation decide |
| Handshake.HonestHelloRefusedExactly | handshake.go:244-276 | After any run of the verifier, an honest, timely, signed HELLO is refused as a replay exactly when its DID and nonce are still held, and is otherwise judged by negotiation alone |
| Handshake.CompletedHandshake | handshake.go:197-277 | A completed handshake with a node of this code reports that node's fields |
| Handshake.HandshakeAgreement | handshake.go:194-277 | If both sides complete they agree on minor, capability pairs and each other's DID; if both HELLOs verify, one completes exactly when the other does, with the same error class |
| Handshake.IdentityBinding | handshake.go:235-276 | For every frame with a HELLO of minor 2 or above, completing means a signature checked under the key of a VMID whose DID is the peer id, which is MakeDIDKey of the key for did:key, with a stamp in the window and a new nonce |
| Handshake.OldHelloUnverified | handshake.go:239-276 | In a HELLO below minor 2 any node id is reported without a signature and the cache is untouched |
| Handshake.AuthenticatedExactly | handshake.go:239-276 | A handshake that completed would also complete if no signature ever checked, exactly when the peer's HELLO has a minor below 2 |
| HandshakeRuns.CachesAgree | handshake.go:230-265 | Judging a run of HELLOs drives the replay cache like the corresponding run of Verify calls |
| HandshakeRuns.MessageAuthenticatesOnce | handshake.go:230-276 | Over every run, a signed HELLO message authenticates at most one handshake at a verifier |
| HandshakeRuns.ExampleHandshake | handshake.go:197-277 | The assumptions of these results can be met: two nodes with a did:web identity complete at minor 2 |
| Connection.Stream.SendFrame | conn.go:164-170 | Appends exactly the frame's encoding |
| Connection.Stream.RecvFrame | conn.go:172-176 | Reads as the buffer decoder would |
| Connection.GreetingCarries | handshake.go:87-100 | The HELLO written carries the version, the configured or else the ephemeral signer's DID and VMID, the configured capabilities, nonce and stamp, signed by that signer over the rebuilt message |
| Connection.DefaultWindow | handshake.go:205-207 | Without a configured verifier, an honest HELLO passes exactly when its stamp is at most 300 seconds off the receiver's clock, and is stale otherwise |
| Connection.RunHandshake | handshake.go:197-277 | Writes the greeting and returns the outcome on the peer's bytes that OutcomeExactly and JudgeExactly give, updating the verifier's cache accordingly |
| Connection.Conn.Handshake | handshake.go:279-312 | Refused once completed; otherwise records the control stream, stores the state on success and closes on error; the verifier's cache is that of the specified outcome, or untouched when no HELLO was read |
| Budgets.BudgetMeaning | budget.go:62-134 | A payload is accepted exactly when it is a non-empty entry list with distinct field ids and well-typed known values and no bytes left; the result holds each known value |
| WireFormat.DecodeBudgetExactly | budget.go:62-134 | A payload decodes to a budget exactly when it spells a non-empty list of entries with distinct ids that say that budget, field by field |
| WireFormat.EntriesExactly | budget.go:78-91 | The entry list of a payload is exactly the one it spells, with nothing left over |
| WireFormat.BudgetCutExactly | budget.go:68-134 | The failure wraps ErrShortBuffer exactly when the count, an entry's length or the number of a new field is cut off after good entries |
| Budgets.OrderIndependence | budget.go:62-134 | Payloads with distinct ids and the same known entries decode alike, in any order and around any unknown ids |
| Budgets.PermutedEntries | budget.go:62-134 | Reordering entries changes neither acceptance nor result |
| Budgets.WorkBound | budget.go:78-133 | At most 256 iterations, and at most half the bytes after the count, complete whatever count is declared; on success exactly the declared count does |
| Budgets.Encode | budget.go:33-60 | The entry list and the append loop produce the canonical encoding |
| WireFormat.EncodeBudgetExactly | budget.go:28-51 | An encoded budget holds exactly the entries of its present fields, by ascending id |
| WireFormat.EncodeEntriesExactly | budget.go:53-59 | The encoder writes the shortest spelling of an entry list |
| Budgets.Decode | budget.go:68-134 | The loop agrees with the specification on every payload and completes the specified number of iterations |
| BudgetRoundTrip.EntriesOfEncoded | budget.go:53-59 | Every encoded entry list reads back as itself |
| BudgetRoundTrip.DecodeEncodedBudget | budget.go:28-134 | A budget survives encode then decode exactly when it is non-empty and its currency is absent or three bytes long |
| BudgetRoundTrip.Normalisation | budget.go:28-134 | Re-encoding an accepted payload with a known field is no longer and decodes to the same budget |
| Operations.DecodeEncodedInvoke | node.go:210-232 | An INVOKE payload decodes to the agent id, operation and arguments it was built from |
| WireFormat.DecodeInvokeExactly | node.go:221-232 | An INVOKE payload decodes to a request exactly when it spells agent id, operation and arguments in that order |
| WireFormat.EncodeInvokeExactly | node.go:210-218 | The encoder writes the shortest spelling of a request |
| WireFormat.DispatchExactly | node.go:175-206 | An agent is called exactly for a frame of type 0x03 that spells a request to a registered id, and gets that request with the operation's id and the peer id |
| Operations.SentThenReceived | operation.go:70-89 | A frame sent on one operation and read on another keeps type, flags and payload when the ids agree and is a protocol violation when they differ |
| Operations.BindOperation | operation.go:30-68 | An operation exists only on a connection with a completed handshake and carries its peer id |
| Operations.Operation.Send | operation.go:70-75 | Writes the frame stamped with the operation's id |
| Operations.Operation.Recv | operation.go:77-89 | Returns the next frame, or a protocol violation when its id differs; on a failed read the exact error and the exact bytes left |
| Operations.Operation.SendInvoke | node.go:234-249 | Writes the INVOKE frame of a request on the operation |
| Operations.Operation.HandleOperation | node.go:175-208 | Gives an agent exactly the decoded request, operation id and peer id, and nothing when any check fails |
| Pipes.WritingKeeps | conn.go:164-170 | A written frame of any size keeps the bytes of a stream in line with the frames sent on it, and where the reader stands |
| Pipes.ReadingKeeps | conn.go:172-213 | A read takes the next frame sent, or goes out of step only past an oversize frame or foreign bytes |
| Pipes.FirstRead | node.go:175-180 | The first frame read from a stream is the first one sent on it, if anything was sent before foreign bytes |
| Pipes.OversizeDesync | conn.go:185-213 | After an oversize frame is rejected, the next read returns the frame encoded at the start of its payload |
| Multiplexing.NextKeeps | operation.go:30-89 | Every step at either end, foreign bytes and oversize frames included, keeps stream numbering, per-stream frame order and the record of calls |
| Multiplexing.OthersUntouched | operation.go:70-89 | In every run, a step leaves every other stream, and the other direction of its own, as they were |
| Multiplexing.OperationIdsDistinct | operation.go:30-68 | In every run, operation ids at an end are distinct and non-zero |
| Multiplexing.OperationIsolation | operation.go:70-89 | In every run, frames received on an operation agree with those its peer sent up to the first oversize frame or foreign byte; without either they are a prefix of those sent, all with its id, and no read fails |
| Multiplexing.NothingLost | operation.go:77-89 | When all bytes have arrived and a read would block, every frame sent before the first oversize one was received |
| Multiplexing.RecvReturnsNext | operation.go:77-89 | In every run of frames a receiver accepts, a read of a frame that has arrived returns the next one sent |
| Multiplexing.OpenCanBeAccepted | operation.go:30-68 | From every run, an end can open an operation with a new id 4n, or 4n + 1 for the server, that both ends come to hold |
| Multiplexing.SentCanArrive | operation.go:70-89 | From every run of deliverable frames, a frame sent has a continuation in which the peer has received everything sent before it and then that frame |
| Multiplexing.StowawayReceived | operation.go:70-89 | A run in which the reader rejects an oversize frame and then receives a frame that was never sent |
| Multiplexing.IsolationExactly | operation.go:70-89 | Over all runs of nodes that send payloads up to a limit, every reader receives a prefix of what was sent exactly when the limit is at most MaxFrameSize |
| Multiplexing.HandlerSeesRequest | node.go:175-249 | In every run, a handler called for an Invoke sees exactly what Invoke was given, with the peer id of the handshake |
| Multiplexing.HandlerIsCalled | node.go:175-206 | In every run, a readable request to a registered agent is handed to it, with its own id and the peer id of the handshake |
| Multiplexing.CalledExactly | node.go:175-206 | In every run, an unread operation calls an agent exactly when the arrived frame carries its id, is of type 0x03 and spells a request to a registered agent, whoever wrote it |
| Multiplexing.CallCanReach | node.go:175-249 | From every run, a call of deliverable size has a continuation in which its agent is handed that request |
| Multiplexing.HandlerSeesPeer | operation.go:15-28 | In every run, every handler call, however its frame was written, carries its operation's id and the peer id of its own end's handshake |
| Multiplexing.HandlerSeesVouchedDid | node.go:199-205 | Against any peer whose HELLO has minor 2 or above, the id every handler sees is a DID whose key's signature over that HELLO checked |
| Multiplexing.HandlerSeesCallerDid | node.go:199-205 | Between two nodes of this code, every handler call carries the DID of the node that opened the operation |
| NodeTasks.NextKeeps | node.go:90-173 | Every step keeps the WaitGroup equal to live tasks plus tasks counted but not yet started |
| NodeTasks.WaitGroupCounts | node.go:90-173 | So it is in every reachable state |
| NodeTasks.WaitGroupLedger | node.go:90-173 | In every run the WaitGroup equals the Adds less the Dones |
| NodeTasks.TaskLedger | node.go:142-173 | In every run the running tasks are those started less those ended |
| NodeTasks.AddFromZeroIsListen | node.go:109-172 | Only Listen ever raises the WaitGroup from zero |
| NodeTasks.StopIsFinal | node.go:122-140 | If no Listen was under way when Stop began, the first Stop returns with no task live and none ever starts again |
| NodeTasks.StopWaits | node.go:122-140 | In every run the first Stop returns only when no task runs or is about to |
| NodeTasks.StopCanReturn | node.go:122-173 | From every reachable state the tasks can end and Stop can return |
| NodeTasks.AnyLoad | node.go:142-173 | Every number of connection and operation tasks can be running at once |
| NodeTasks.FailedListenIsFinal | node.go:90-111 | After a Listen that failed to bind, no task ever runs and no Listen succeeds |
| NodeTasks.LateTasksExactly | node.go:90-140 | After Stop returns, a task can still start exactly when an admitted Listen had not returned |
| NodeTasks.StopCanOvertakeListen | node.go:90-140 | A run in which that happens |
| Conformance.VarintSamples | frame.go:113-171 | The short sample encodings of appendix A.1 of RFC 9000 |
| Conformance.LongVarintSample | frame.go:113-133 | The eight-byte sample of the same appendix |
| Conformance.InvokeFrameSample | testdata/vectors-v0.1.json:19-31 | The published INVOKE frame |
| Conformance.BudgetSample | testdata/vectors-v0.3.json:42-61 | The published tokens, cost and currency payload |
| Conformance.DeadlineSample | testdata/vectors-v0.3.json:62-78 | The published deadline payload |
| Conformance.HelloSample | testdata/vectors-v0.1.json:84-97 | The published HELLO payload with one capability |
| Conformance.SignedHelloSample | testdata/vectors-v0.2.json:6-40 | The published signed message, and the frame around any 64-byte signature |
| Conformance.DomainSeparatorSample | identity.go:20-22 | The bytes in front of every signed HELLO message |
| Conformance.Base58Sample | identity.go:331-355 | The alphabet and digit order on a one-byte input |
| Conformance.Base58LeadingZeroSample | identity.go:331-355 | The same with a leading zero byte |

## Left out

- QUIC, TLS, certificates, sockets and contexts: only reliable ordered byte streams and the stream-id rule are kept; transport errors, cancellation and half-close (FIN) are not modelled.
- Ed25519 internals, key generation and randomness: parameters with a stated assumption.
- addressing.go: an abstract lookup from a DID and fragment to a key stands for the HTTPS and JSON steps of did:web; handles, DNS records and dial targets play no part in the handshake or the streams.
- cancel.go: its codec is a short consequence of the varint and string results.
- Capability name validation and the reserved namespace test: neither the handshake nor negotiation calls them, so no result here depends on which names are valid.
- RegisterAgent: the agents registered when a frame is dispatched are a parameter of the step.
- Memory allocation, such as the capability slice sized from the declared count: sequences have no allocation failure.
- Error text, `String` methods and the demos: only the sentinel an error wraps is kept.
- Timing and liveness: continuations are shown to exist (`NodeTasks.StopCanReturn`, `Multiplexing.CallCanReach`, `Multiplexing.SentCanArrive`); that a schedule takes them is not claimed.
- NodeTasks.StopIsFinal: `Stop` calls after the first return at once and are not separate steps.
