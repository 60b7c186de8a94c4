# KOC Core, modelled and proved in Dafny

KOC Core is a Rust library and a set of tools that log in to a game, run its daily chores for many roles
and relay and inspect its traffic. This project models the parts of it whose correctness is decided by its
own code and proves what they promise, for all inputs and all runs.

| file | what it models |
|---|---|
| `Bytes.dfy`, `Sums.dfy` | bytes, UTF-8 with its lossy reading, byte order, sums over maps and lists |
| `BonWire.dfy` | the integers of the BON wire format and the reader and writer objects |
| `Base64.dfy` | the base64 encoder of `bon.rs` and the decoder of `protocol.rs` |
| `Bon.dfy`, `BonCoder.dfy` | the tagged codec as functions on values and states, and the encoder and decoder objects proved against them |
| `BonRoundTrip.dfy`, `BonTags.dfy`, `BonSafety.dfy`, `BonTexts.dfy` | decoding what was encoded; every tag, also those the encoder never writes; decoding arbitrary bytes, and how long the texts get |
| `Crypto.dfy` | the two masking schemes and the routing between them |
| `Packet.dfy` | the game packet: BON around base64 around BON, masked, parsed and unpacked |
| `Wildcard.dfy`, `Inspection.dfy`, `Redaction.dfy`, `Shapes.dfy`, `Catalog.dfy`, `LineReader.dfy` | the capture inspector |
| `Correlation.dfy` | what the inspector shows of a packet that was sent, and over a stream of records which response belongs to which request |
| `Relay.dfy`, `WebSocket.dfy`, `Scheduler.dfy` | three concurrent protocols as step systems |
| `Serialisability.dfy` | when a scheduler round ends as if the roles had run one after another |
| `Windows.dfy` | maintenance windows: parsing, normalising, the check per minute |
| `CarDispatch.dfy` | the car dispatch against arbitrary server replies |

An object whose methods change its fields is a class, and a loop over local variables is a method; each is
proved against a function on values, and the theorems are lemmas about that function. In the step systems
every read, write, timeout and scheduling choice is an action, a run is any sequence of actions each of which
is possible where it is taken, and the theorems hold after every run. Lengths, counters and times are
unbounded integers except where the code's width decides the result: the 7-bit, 32-bit and 64-bit wire
integers, the lengths cut to 32 bits, the request numbers that wrap at 2^32 and the `as i32` and `as u32`
casts of rewards are written out.

Where the code does less than it seems to promise, the exact condition is proved:

- The 64-bit integer coder changes exactly the negative multiples of 2^32 (`BonWire.I64RoundTrip`,
  `BonRoundTrip.NegativeMultipleIsChanged`); a packet's time is returned as sent exactly otherwise
  (`Packet.TimeSurvivesIff`).
- `wildcard_match` compares bytes before it looks for a star, so for a value with a star before its last
  byte some pattern is missed; it is right for every pattern exactly for the other values
  (`Wildcard.CompleteExactlyForStarFreeValues`).
- A returned request still has its pending entry exactly when its send failed and no frame had answered it
  (`WebSocket.FailedSendLeaks`).
- The calls started so far reach the wire in the order of their numbers, however things go on, exactly when at
  most one of them is still unsent (`WebSocket.WireOrderIsSettledIff`); a caller that starts no call while
  another is unsent keeps the order for good (`WebSocket.WireFollowsNumbers`).
- A further frame can be dispatched without anyone reading or closing the `messages` channel exactly unless
  it is open with 201 frames unread (`WebSocket.DispatchGoesOnIff`, `WebSocket.DispatchedIsBounded`). Nothing
  in the repository reads that channel, so a connection stops matching responses after 201 decoded frames
  (`WebSocket.StallsAfter201`).
- A round ends in the map of some serial order, whatever the plans and the server, exactly when the
  concurrency is at most one or no role key is repeated (`Serialisability.SerialisableIff`). A file listed
  twice in the configuration repeats its keys. With a concurrency of zero no role ever starts
  (`Scheduler.NoDeadlockIff`).
- Every car dispatch is bounded exactly when each reply that leaves a car waiting reports a refresh count of at
  least one (`CarDispatch.EndsIff`).

## Model

| member | source | states |
|---|---|---|
| BonWire.SevenBitRoundTrip | src/bon.rs:82-95 | every length, cut to 32 bits, is written in one to five bytes and read back before any following bytes |
| BonWire.I32RoundTrip | src/bon.rs:43-53 | every 32-bit integer is written in four bytes and read back before any following bytes |
| BonWire.I64RoundTrip | src/bon.rs:55-60 | eight bytes; what is read back is v, or v - 2^32 wrapped into 64 bits, and it is v exactly when v is not a negative multiple of 2^32 |
| BonWire.DataReader.Read7BitInt | src/bon.rs:82-95 | advances the reader past the integer, and gives nothing for an unfinished or over-wide one |
| BonWire.DataReader.ReadI64 | src/bon.rs:55-60 | reads the two halves, low one first and unsigned, and moves past them |
| BonWire.DataReader.ReadBytes | src/bon.rs:114-121 | gives the next bytes and moves past them, or gives nothing when they do not all exist |
| BonWire.DataWriter.Write7BitInt | src/bon.rs:163-170 | appends exactly the seven-bit groups, low ones first, of the value cut to 32 bits |
| BonWire.DataWriter.WriteI64 | src/bon.rs:148-155 | appends the low word and the complemented high word of the negation for negative values |
| Base64.EncodeLoop | src/bon.rs:482-502 | the loop over groups of three bytes gives the base64 text with padding |
| Base64.DecodeLoop | src/protocol.rs:173-202 | the loop over groups of four characters after trimming the padding; any character outside the alphabet or a lone last one fails |
| Base64.RoundTrip | src/protocol.rs:173-202 | every byte string is recovered from its base64 text (section 4 of RFC 4648) |
| Base64.EncodedText | src/bon.rs:482-502 | the text is ASCII and has four characters for every three bytes begun |
| Base64.DecodeChunksSucceeds | src/protocol.rs:173-202 | a trimmed text is accepted if and only if it is over the alphabet and its length is not 1 modulo 4 |
| BonCoder.BonEncoder.Write | src/bon.rs:212-259 | the recursive encoder object appends the encoding of the value and leaves the string table the functional encoding leaves |
| BonCoder.BonEncoder.WriteBinary | src/bon.rs:261-265 | appends the tag 7 blob and no string table entry |
| BonCoder.BonDecoder.DecodeNext | src/bon.rs:336-427 | the recursive decoder object does to its reader, string table and two budgets what the functional decoder does, on success and on failure |
| BonCoder.BonDecoder.ReadText | src/bon.rs:362-371 | a text is charged against the byte budgets, read lossily and added to the string table |
| BonCoder.BonDecoder.ReadBackReference | src/bon.rs:410-415 | a back-reference gives the table entry and is charged its length again; an unknown index or an exhausted budget fails |
| BonCoder.DecodeWithLimits | src/bon.rs:438-442 | a fresh decoder gives exactly the functional decoding of the bytes |
| BonRoundTrip.ValueRoundTrip | src/bon.rs:336-427 | from any encoder table and matching decoder table, decoding an encoding followed by anything gives the value with its integers' images, uses exactly its bytes, charges exactly its cost and leaves the tables matching, if the cost fits what is left; otherwise it fails |
| BonRoundTrip.DecodeOfEncode | src/bon.rs:430-442 | decoding an encoded value succeeds if and only if its depth, nodes with object keys, largest collection, longest text and total text bytes with back-references charged again fit the five limits |
| BonRoundTrip.RoundTripIff | src/bon.rs:212-259 | the same value comes back if and only if it fits and all its integers fit i64 and are not negative multiples of 2^32 |
| BonRoundTrip.DecodingInNumbers | src/bon.rs:279-303 | the default and the proxy limits as numbers: an encoded value is decoded exactly when its cost is within them |
| BonRoundTrip.ImageIsIdentityIff | src/bon.rs:219-232 | the image of a value under the integer coders is the value exactly when every integer in it survives |
| BonRoundTrip.NegativeMultipleIsChanged | src/bon.rs:148-155 | -2^32 is decoded as -2^33 |
| BonRoundTrip.TextRoundTrip | src/bon.rs:233-242 | a text is interned or referred back to, the decoder resolves it, and the two tables stay matched |
| BonTags.ScalarTags | src/bon.rs:336-427 | for any input: every node costs one node; tags 0, 1, 2, 3, 4, 6 and 10 read a fixed number of bytes as null, little-endian integers, floats (null when not finite) and booleans, 10 like 2, and any tag other than these, 5, 7, 8, 9 and 99 is refused |
| BonTags.LengthTags | src/bon.rs:362-382 | any bytes under tag 5 are charged, read lossily and remembered; under tag 7 they are charged and become their base64 text, which is not remembered; a length over either byte limit fails |
| BonTags.AnyKeyIsRead | src/bon.rs:388-397 | a map entry whose key is any encoded value comes back under the text itself or under the JSON text of the value, exactly when the cost fits |
| BonSafety.DecodeAtSafe | src/bon.rs:336-427 | on any state the decoder only moves forward inside its input, never raises a budget, and a value it returns respects depth and items, has at most as many nodes as were charged and as bytes were read |
| BonSafety.DecodedValueIsBounded | src/bon.rs:438-442 | a value decoded from arbitrary bytes respects the depth, item and node limits and has no more nodes than the input has bytes |
| BonTexts.DecodeAtMetered | src/bon.rs:362-415 | from any state, the texts a decoded value holds are at most four times the bytes charged for it, none longer than four times the limit for one value, and the string table stays as bounded |
| BonTexts.DecodedTextsAreBounded | src/bon.rs:438-442 | for arbitrary bytes every text of the value is at most four times max_value_bytes and all together at most four times max_total_value_bytes, keys made of JSON texts aside |
| BonSafety.DecodedValueIsWellFormed | src/bon.rs:336-427 | a value decoded from arbitrary bytes has valid UTF-8 texts, sorted maps, finite floats and integers in range |
| Utf8.LossyIsIdentityOnValid | src/bon.rs:102-112 | the lossy reading changes no valid UTF-8 text |
| Utf8.LossyIsValid | src/bon.rs:102-112 | the lossy reading of any bytes is valid UTF-8 |
| Utf8.ValidIff | src/bon.rs:102-112 | text is valid exactly when it is the encodings of Unicode scalar values one after another (section 3 of RFC 3629) |
| Utf8.LossyStep | src/bon.rs:102-112 | the lossy reading keeps each encoded scalar value and replaces by U+FFFD the longest run of bytes that still begins one, or else a single byte |
| Crypto.MaskRecovered | src/crypto.rs:193-207 | any mask is recovered from the two header bytes it is spread over, whatever their other bits |
| Crypto.XorIsBitwise | src/crypto.rs:29-32 | each bit of an exclusive or is set exactly when the two bits differ |
| Crypto.HeaderBits | src/crypto.rs:36-45 | the two header bytes hold the mask bits from the highest down at their even places and keep their own bits at the odd ones |
| Crypto.EncryptXInPlace | src/crypto.rs:18-47 | the buffer of prefix and data, masked and stamped in place, is the x packet |
| Crypto.DecryptXInPlace | src/crypto.rs:48-57 | unmasking in place gives the x payload, and nothing for fewer than four bytes |
| Crypto.DecryptOfEncryptX | src/crypto.rs:18-57 | for every mask and random prefix, decryption gives the data back |
| Crypto.EncryptXBytes | src/crypto.rs:18-47 | the x packet byte by byte: 112, 120, the two spread bytes, and each data byte masked |
| Crypto.EncryptFrameInPlace | src/crypto.rs:75-97 | masking the first hundred bytes and stamping the header in place gives the lx packet |
| Crypto.RepairFrameInPlace | src/crypto.rs:209-215 | unmasking and restoring the magic bytes in place gives the frame handed to the decompressor, and nothing for fewer than four bytes |
| Crypto.RepairOfEncryptedFrame | src/crypto.rs:209-215 | every frame that began with the LZ4 magic bytes is rebuilt exactly, shorter or longer than a hundred bytes |
| Crypto.EncryptFrameBytes | src/crypto.rs:75-97 | the lx packet byte by byte: 112, 108, the two spread bytes, bytes 4 to 99 masked and the rest as they were |
| Crypto.RepairFrameBytes | src/crypto.rs:209-215 | the repaired frame byte by byte: 4, 34, 77, 24, bytes 4 to 99 unmasked and the rest as they were |
| Crypto.AutoDecryptUndoesBoth | src/crypto.rs:115-142 | the routing recognises both schemes and gives the data back exactly when it is within the size limit, and data with neither header unchanged under the same limit |
| Crypto.RefusedPackets | src/crypto.rs:115-142 | fewer than four bytes under either header are refused as truncated, and an lx packet whose repaired frame does not decompress as corrupt |
| Packet.EncodeGamePacket | src/bon.rs:445-478 | the hand-written encoder gives cmd, ack, seq, time and the optional tag 7 body over one shared string table |
| Packet.PacketRoundTrip | src/protocol.rs:132-151 | for every command, ack, seq, time, body, mask and prefix: the encrypted packet is rejected for its size, its decrypted size or the five limits in exactly those cases, and otherwise cmd, ack, seq, the time's image and the body come back |
| Packet.BodyRoundTrip | src/protocol.rs:87-104 | unpacking the base64 body gives nothing for no body, the body's image when it fits the limits, and an error when it does not |
| Packet.DecodeOfPacket | src/bon.rs:445-478 | the packet decodes, before any following bytes, to the map of its fields with the body as base64 text, if and only if its cost fits |
| Packet.TimeSurvivesIff | src/protocol.rs:42-44 | a packet that parses returns the time it was given if and only if that is not a negative multiple of 2^32 |
| Packet.CodesAreRead | src/protocol.rs:48-53 | the code of a decoded map is the 32-bit integer under "code", and nothing for any other value |
| Packet.BodiesAreRead | src/protocol.rs:87-104 | the body of a decoded map is nothing if "body" is missing or null, itself if it is an object, what base64 and BON decoding give if it is a text, and an error otherwise |
| Wildcard.WildcardMatch | src/proxy_capture.rs:628-654 | the two-index loop terminates, is sound for all inputs and exact for values with no star before their last byte |
| Wildcard.MatchesIsSound | src/proxy_capture.rs:628-654 | whenever the matcher says yes the recursive glob relation holds |
| Wildcard.MatchesIsComplete | src/proxy_capture.rs:628-654 | for values with no star before the last byte, committing to the earliest match of each segment loses nothing |
| Wildcard.StarInValueIsMissed | src/proxy_capture.rs:635-638 | for any value with an earlier star, the pattern ending at that star should match and does not |
| Wildcard.CompleteExactlyForStarFreeValues | src/proxy_capture.rs:628-654 | the matcher decides every pattern rightly if and only if the value has no star before its last byte |
| Inspection.Inspector.Inspect | src/proxy_capture.rs:206-306 | the event of a record with its body redacted if asked, the pending table afterwards with its bound, and which request a response is matched with and how long after |
| Redaction.RedactValue | src/proxy_capture.rs:664-683 | the recursive replacement with its loops over fields and items |
| Redaction.RedactionHidesExactly | src/proxy_capture.rs:664-713 | two values look the same redacted if and only if they differ under sensitive keys only |
| Redaction.RedactionKeepsTheRest | src/proxy_capture.rs:664-713 | redaction changes no key and nothing outside the sensitive keys, under which it leaves the text [REDACTED] |
| Redaction.IsSensitiveIff | src/proxy_capture.rs:668-713 | a key is hidden exactly when it spells one of the twenty-four names, in any case and with underscores and hyphens anywhere |
| Inspection.BoundedRefinesUnbounded | src/proxy_capture.rs:274-298 | over any history the pending table is part of the one kept without eviction and holds at most 10,000 entries |
| Inspection.NoEvictionBelowTheBound | src/proxy_capture.rs:282-298 | while fewer than 10,000 requests are pending the two tables are the same |
| Inspection.MatchIsTheLatestRequest | src/proxy_capture.rs:274-280 | a match is the latest request with that connection and number since the last response to it, never another |
| Inspection.MatchedAtMostOnce | src/proxy_capture.rs:274-280 | no recorded request is matched by two responses |
| Correlation.FieldsAreShown | src/proxy_capture.rs:235-272 | the event of any decoded message has the message's own cmd up to 256 bytes, seq, ack, resp, code and body, and the payload's size |
| Correlation.OthersShowNothing | src/proxy_capture.rs:227-248 | a record that is no decodable message shows no field and leaves the pending table alone |
| Correlation.EncodingIsShown | src/proxy_capture.rs:656-662 | the encoding is told by the first two bytes |
| Correlation.SentPacketIsShown | src/proxy_capture.rs:206-272 | the event of an encrypted packet that fits has exactly the cmd, seq, ack, size, encoding and body image it was built with, no reply number and no code |
| Correlation.ServerMessageIsShown | src/proxy_capture.rs:262-265 | the event of any encrypted object that fits has its resp and its code |
| Correlation.PairIsMatched | src/proxy_capture.rs:274-298 | a response inspected after the request of the same connection and number is matched with its command, shows the time between them and ends the request |
| Correlation.ExchangeIsMatched | src/proxy_capture.rs:206-306 | the same for the bytes on the wire: the packet as built and encrypted, and any encrypted answer whose resp is the packet's seq |
| Correlation.EvictionIsExact | src/proxy_capture.rs:282-298 | a request that finds 10,000 pending drops exactly those older than ten minutes, and all if that does not help, and is then filed |
| Correlation.MatchesAreRight | src/proxy_capture.rs:274-298 | in any stream of records a matched response shows the open request of its connection and number, with its command and the time since |
| Correlation.OpenRequestsAreMatched | src/proxy_capture.rs:274-298 | while fewer than 10,000 are pending, a response is matched whenever a request of its connection and number is open |
| Shapes.ValueShape | src/proxy_capture.rs:715-758 | the recursive shape with its array and object loops is the shape function |
| Shapes.ShapeIsBounded | src/proxy_capture.rs:715-758 | every shape nests at most 16 levels with at most 17 variants per array and 257 fields per object |
| Shapes.ScalarShapes | src/proxy_capture.rs:716-723 | each scalar has the name of its kind, and anything sixteen levels down is "depth_limit" |
| Shapes.ArrayShapeHolds | src/proxy_capture.rs:724-738 | an array's shape lists, sorted by JSON text, exactly the different shapes of its first 256 elements, or the first sixteen and a marker if there is a seventeenth |
| Shapes.ObjectShapeHolds | src/proxy_capture.rs:739-755 | an object's shape has, under the shortened key of each of its first 256 fields, the shape of the last field with that key, and a mark if there are more fields |
| Shapes.ShortKeyHolds | src/proxy_capture.rs:742-749 | a key of more than 256 bytes is cut after its first 256 characters and gets an ellipsis |
| Shapes.ArrayShapesAreCanonical | src/proxy_capture.rs:724-738 | arrays whose first 256 elements have the same set of at most 16 shapes get equal shapes whatever the order and repetition |
| Shapes.ObjectShapeKeepsKeys | src/proxy_capture.rs:739-757 | an object of at most 256 fields with short keys keeps its keys in order, each with the shape of its value |
| Catalog.CommandCatalog.Observe | src/proxy_capture.rs:351-401 | one event's effect on all counters, codes and shape lists |
| Catalog.CommandCatalog.EnsureCommand | src/proxy_capture.rs:403-410 | a new command is created below the cap of 4096 and counted as overflow above it |
| Catalog.CommandCatalog.RecordShape | src/proxy_capture.rs:412-436 | a new shape is stored with its bytes unless a cap would break, which is counted globally and for the command |
| Catalog.AddCodeIsGood | src/proxy_capture.rs:760-765 | a reply's code is counted once unless it would be the 65th code; codes never count more than responses and pushes |
| Catalog.ObserveKeepsValid | src/proxy_capture.rs:351-436 | every event keeps all caps, distinct shapes per list, and the global counters equal to the sums over all commands |
| Catalog.ObserveCountsOnce | src/proxy_capture.rs:351-401 | an accepted event adds one to exactly the right one of requests, responses, pushes, unmatched and overflow; any other event changes nothing |
| Catalog.CatalogInvariant | src/proxy_capture.rs:351-436 | after any events the invariant holds and the five tallies add up to the accepted events |
| Catalog.ObserveIsExact | src/proxy_capture.rs:351-436 | an event counted under a command raises one counter and at most one code of that command only, and puts the shape of its body into the list of its kind, unless it is there or one of the four caps, as numbers, would break, which raises both overflow counters |
| Catalog.OthersStoreNothing | src/proxy_capture.rs:351-410 | any other event stores nothing and counts at most as unmatched or as a command too many |
| Catalog.StoredShapesWereSeen | src/proxy_capture.rs:351-436 | over any events every stored shape is the shape of the body of an earlier event of that command and kind |
| Catalog.SeenShapesAreStored | src/proxy_capture.rs:351-436 | over any events that overflowed nothing the shape of every counted body is stored under its command and kind |
| LineReader.ReadBoundedLine | src/proxy_capture.rs:778-808 | the line, the end, or the error depends on the bytes of the stream and not on how they are cut into chunks, and exactly the line is consumed |
| LineReader.LinesPartitionTheStream | src/proxy_capture.rs:778-808 | the lines put together are the stream, with a newline only at the end of each and missing at most from the last |
| LineReader.ReadLines | src/proxy_capture.rs:464-475 | the reading loop yields all lines if and only if the stream does not break and every line is short enough; otherwise it yields the first ones |
| Relay.CaptureSide.PrepareRecord | src/proxy.rs:397-442 | reserves one permit per byte and at least one, or counts the drop it falls under |
| Relay.CaptureSide.EnqueueRecord | src/proxy.rs:365-394 | queues the frame, or counts the drop and gives its permits back |
| Relay.StepKeepsBalance | src/proxy.rs:279-318 | every step keeps free permits plus permits of prepared, queued and analyzed frames equal to the budget |
| Relay.RunKeepsInvariant | src/proxy.rs:279-318 | after every interleaving of any number of connections: permits conserved, counters equal to the frames with those fates, queue within capacity and the end of what was accepted, indices unique per connection |
| Relay.EveryFrameIsAccountedFor | src/proxy.rs:397-442 | after any run a direction's frames are enqueued, counted queue-full, counted analyzer-closed or at most one in flight or lost; none is unobserved with a sender attached or too large below 2^32 bytes; what was sent is a prefix of what was read missing at most the last message |
| Relay.QueueIsForwarded | src/proxy.rs:309-312 | after any run the queue restricted to a direction is a subsequence of what that direction forwarded |
| Relay.StepKeepsIndices | src/proxy.rs:299 | no frame index of a connection is used twice by its two directions |
| Relay.StepRefinesPlain | src/proxy.rs:279-318 | leaving the capture out of any step leaves the step of a relay that has none |
| Relay.CaptureDoesNotInterfere | src/proxy.rs:279-354 | two runs with the same reader, writer and shutdown events forward and send the same messages in the same order whatever the capture does |
| Relay.CaptureNeverBlocks | src/proxy.rs:279-318 | for every run and any other capture, budget and queue capacity there is a run with the same reader, writer and shutdown events |
| Relay.ReadIsExact | src/proxy.rs:397-442 | reading a message counts it queue-full exactly when its permits exceed the free budget, analyzer-closed exactly when the receiver is gone, and otherwise takes one permit per byte and at least one from an observed frame |
| Relay.ForwardIsExact | src/proxy.rs:279-318 | a failed forward ends the direction and gives the permits back; a success goes on to the queue exactly when the frame holds permits |
| Relay.EnqueueIsExact | src/proxy.rs:365-394 | a frame joins the queue exactly when the receiver is open and the queue below capacity; otherwise it is counted and its permits come back |
| Relay.OtherStepsArePossible | src/proxy.rs:279-354 | a forward can end as already closed only for a Close, and a direction can be stopped exactly while it reads or forwards |
| Relay.AnalyzerIsExact | src/proxy.rs:365-394 | frames leave the queue in order, and closing the receiver gives back the permits of what was queued |
| Relay.DropsAreExact | src/proxy.rs:365-442 | over any run the two counters count exactly the reads that were short of permits or without receiver and the frames that met a full or closed queue |
| WebSocket.SeqsAreNeverReused | src/websocket.rs:165-168 | in every run of at most 2^32 calls no two calls get the same number |
| WebSocket.SeqRepeatsIff | src/websocket.rs:165-168 | in every run, however long, two calls carry the same number if and only if a multiple of 2^32 lies between them |
| WebSocket.RepliesAreOwn | src/websocket.rs:101-116 | a value or an error code comes from the first frame dispatched since registration that answers the call's own number, with code zero or with that code |
| WebSocket.TakingReturnsTheReply | src/websocket.rs:101-116 | in every run of at most 2^32 calls a request that takes its reply returns the first frame dispatched since it registered that answers its number: its value when the code is zero, and that code otherwise |
| WebSocket.OutcomesHaveCauses | src/websocket.rs:170-194 | in every run a call times out only after its timer elapsed and its entry was removed, fails only if its send was refused, and gives a reply only by taking one |
| WebSocket.AnswerReturns | src/websocket.rs:101-116 | a waiting request can be given the frame that answers it, and returns it by its code and leaves the map |
| WebSocket.WaitingCanEnd | src/websocket.rs:180-194 | a waiting request can take a reply exactly when it has one, can time out in any case, and then its entry is gone |
| WebSocket.CallStepsAreExact | src/websocket.rs:165-194 | an accepted send puts the number last on the wire, a refused one leaves the wire alone and ends the call, a timeout removes the entry |
| WebSocket.PendingKeysAreExplained | src/websocket.rs:171-194 | every pending key belongs to a registered, waiting, expired or send-failed request, and a listening request without reply is pending |
| WebSocket.OutcomeIsFinal | src/websocket.rs:180-194 | however a run goes on, a call that returned keeps its one outcome |
| WebSocket.StepKeepsInvariant | src/websocket.rs:79-194 | every step of callers, timers and read task keeps the matching invariant |
| WebSocket.DispatchedIsBounded | src/websocket.rs:118-126 | in every run, while the receiver is kept, at most 201 frames are dispatched beyond those drained, and the read task is stalled exactly when there are 201 |
| WebSocket.StalledUntilDrained | src/websocket.rs:118-126 | with a full channel and a frame waiting for it, any continuation of the run that neither drains nor closes the channel dispatches nothing more |
| WebSocket.DispatchGoesOnIff | src/websocket.rs:79-126 | from any reachable state a further frame can be dispatched without draining or closing the channel if and only if the read task is not stalled |
| WebSocket.StallsAfter201 | src/websocket.rs:58-126 | without draining any 201 frames can be dispatched, which stalls the read task, and no run dispatches a 202nd |
| WebSocket.FailedSendLeaks | src/websocket.rs:170-194 | in every run of at most 2^32 calls a returned request is still pending if and only if its send failed and no frame had answered it first |
| WebSocket.WireFollowsNumbers | src/websocket.rs:152-178 | in every run of fewer than 2^32 calls in which no call is started while another is unsent, the wire carries strictly ascending numbers |
| WebSocket.WireOrderCanDiffer | src/websocket.rs:152-178 | from any reachable state with two unsent calls some continuation puts the later number on the wire first |
| WebSocket.WireOrderIsSettledIff | src/websocket.rs:152-178 | the calls started so far reach the wire in the order of their numbers in every continuation if and only if at most one is unsent |
| Scheduler.RunAloneIs | src/scheduler.rs:199-356 | the sections of one task, one after another, amount to the refresh, then the daily, weekly and periodic parts that are planned, and to nothing when token or login fails |
| Scheduler.ConcurrencyIsBounded | src/scheduler.rs:585-611 | at no time do more roles run than the concurrency, whatever the keys |
| Scheduler.EveryRoleRunsOnce | src/scheduler.rs:596-617 | when all tasks are joined every planned role has run exactly once |
| Scheduler.RoundIsSerialisable | src/scheduler.rs:585-623 | with distinct keys any interleaving of the lock-protected sections ends in the map that running the roles one after another leaves |
| Scheduler.RoundsAreFinite | src/scheduler.rs:585-623 | a round takes at most twelve steps per role |
| Scheduler.NoDeadlockIff | src/scheduler.rs:585-611 | with at least one permit some step is possible until all are joined; with none no role ever starts |
| Serialisability.OnePermitIsSerial | src/scheduler.rs:585-617 | with one permit every joined round leaves the map of some serial order, whatever the keys |
| Serialisability.SafeRoundsAreSerial | src/scheduler.rs:585-623 | with at most one permit or distinct keys every joined round leaves the map of some serial order |
| Serialisability.SharedKeyLosesUpdate | src/scheduler.rs:234-277 | for any repeated key and two permits or more there are plans, sessions and a joined run from the start of the round whose map no serial order leaves |
| Serialisability.SerialisableIff | src/scheduler.rs:585-623 | for given keys and concurrency every joined round leaves the map of some serial order if and only if there is at most one permit or no key is repeated |
| Windows.BatchConfig.ParseMaintenanceWindows | src/config.rs:442-454 | the parsed windows in order, invalid ones left out |
| Windows.BatchConfig.MaintenanceHit | src/scheduler.rs:95-111 | the first window containing the moment is found, if and only if there is one |
| Windows.BatchConfig.NormalizeMaintenanceWindows | src/config.rs:456-541 | grouping, sorting, merging and writing back give the canonical windows or the defaults |
| Windows.MergeSpans | src/config.rs:507-521 | the merging loop over a day's sorted intervals |
| Windows.MergedCovers | src/config.rs:507-521 | merging sorted intervals leaves strict gaps and covers exactly the same minutes |
| Windows.HitIffCovered | src/scheduler.rs:74-111 | the check by hours and minutes is a hit exactly when a valid window covers that minute of the day |
| Windows.HitIff | src/scheduler.rs:74-111 | a moment is a hit exactly when some configured window names its weekday and two times between which it lies, the end excluded |
| Windows.NormalizingPreservesHits | src/config.rs:456-541 | with at least one valid window a moment is a hit after normalising exactly when it was before; with none the defaults are used |
| Windows.NormalizedIsSparse | src/config.rs:504-541 | the result reads back as windows sorted by day and minute with strict gaps |
| Windows.AtMostOneWindow | src/config.rs:504-541 | after normalising at most one window contains any minute |
| Windows.NormalizingIsIdempotent | src/config.rs:456-541 | normalising again changes nothing |
| Windows.TimeRoundTrip | src/config.rs:606-623 | every minute of the day written as HH:MM is parsed back |
| Windows.WeekdayRoundTrip | src/config.rs:581-604 | every short weekday name is parsed back |
| Windows.ParseWeekdayIff | src/config.rs:581-592 | a weekday is read from its full name, its first three letters or tues, thur and thurs, in any case, and from nothing else |
| Windows.ParseTimeIff | src/config.rs:606-617 | a time is read from a decimal numeral up to 23, a colon and one up to 59, each with any leading zeros and perhaps a plus sign, and from nothing else |
| CarDispatch.SmartSendCar | src/kpi.rs:3145-3283 | the loop over the cars with guardian choice and refresh loop is the dispatch function, and is skipped when all were sent today or none is waiting |
| CarDispatch.RunRefreshLoop | src/kpi.rs:3235-3282 | the refresh loop of one car against any replies |
| CarDispatch.BigPrizeIff | src/kpi.rs:1126-1164 | the seven prize thresholds come to five, with the truncating casts |
| CarDispatch.CastsKeepLowBits | src/kpi.rs:1157-1159 | the casts of type, item and amount keep the lowest 32 bits, signed or unsigned |
| CarDispatch.ShouldSendIff | src/kpi.rs:1166-1172 | a car is worth sending exactly when a reward is a big prize or, except on Wednesday, a positive amount of item 35002 of type 3, read without casts |
| CarDispatch.GuardianIsBest | src/kpi.rs:3198-3217 | the guardian is the first member of the greatest count among those helping fewer than four cars, and there is none only if nobody has quota left |
| CarDispatch.GuardianQuota | src/kpi.rs:3210-3217 | over a dispatch a member guards no more of the cars sent than its count rises by, and its count rises to four at most; one that starts with four or more guards none |
| CarDispatch.GuardiansAreDeserved | src/kpi.rs:3210-3217 | only waiting cars of colour five and more are sent under a guardian, who is a member |
| CarDispatch.TicketsAreConserved | src/kpi.rs:3262-3264 | paid refreshes and remaining tickets add up to the starting tickets |
| CarDispatch.TurnsEndOnce | src/kpi.rs:3202-3283 | each waiting car's turn ends at most once, by a send or a failed refresh, exactly once when the dispatch ends, and no other car is touched |
| CarDispatch.SentAtMostOnce | src/kpi.rs:3202-3283 | each waiting car is sent at most once and no other car is sent |
| CarDispatch.TurnIsExact | src/kpi.rs:3202-3283 | each waiting car is allotted its guardian, whose count alone rises by one, and takes exactly this turn: refreshes, paid when it shows a count, as long as its rewards are not worth sending, a refresh is free or a ticket is left, and the request succeeds; then it is sent under the guardian, or the failure or the missing reply ends it; any other car changes nothing |
| CarDispatch.RefreshesAreBounded | src/kpi.rs:3202-3283 | if every successful reply that leaves its car waiting carries a refresh count of at least one, successful refreshes are at most waiting cars plus tickets and the dispatch ends |
| CarDispatch.FreeRefreshesCanGoOn | src/kpi.rs:3235-3264 | any one reply that leaves a car waiting and carries no such count, repeated, refreshes a car for free every time, and the car is never sent |
| CarDispatch.EndsIff | src/kpi.rs:3202-3283 | for the set of replies a server may give, every dispatch is bounded if and only if each of them that leaves a car waiting carries a refresh count of at least one |

## Left out

- HTTP, TLS, sockets, handshakes, URL building, files and logging: input and output, or library behaviour.
- The LZ4 compressor and decompressor are a pair of functions with `decompress(compress(x)) = x` whose frames begin with the magic bytes; a corrupt stream that already exceeded the limit is reported as corrupt rather than oversize.
- The contents of floating-point numbers: an f64 is eight opaque bytes; widening an f32 (tag 3) and rounding an integer above i64::MAX (which the encoder writes as f64) are functions of a `Library` parameter, as is the JSON text of a value that is used as an object key or measured as a shape.
- JSON texts are taken to differ for different shapes of one array in `Shapes.ArrayShapesAreCanonical`; the text itself is not modelled.
- The debug build's panics on overflow: `write_i64` of i64::MIN and the request counter at 2^32 follow the release build, which wraps.
- u64 and usize counters of the catalog, the relay and the line reader do not overflow in the model.
- `BonTexts.DecodedTextsAreBounded`: says nothing of object keys that were not texts; their length is that of a JSON text, which is library behaviour.
- Error messages are enumerations without their texts.
- `Inspection.Inspector.Inspect`: does not model the base64 library that stores the payload in a capture record; the record's payload is the bytes it stands for.
- `LineReader.ReadLines`: reads the lines; checking that they are UTF-8, skipping blank ones and parsing each as a capture record is library work.
- `Relay.CaptureSide.EnqueueRecord`: does not model the log lines at the first and every hundredth drop.
- The Close frames the relay makes up itself at shutdown are not part of what a direction sends in the model.
- WebSocket acknowledgement numbers, heartbeats and the write task: they decide no matching. Dropping a caller's future before it returns is not modelled; the repository never does.
- `Scheduler.RunAloneIs`: what the game does during the daily, weekly and periodic tasks is given by functions of the role's copy; saving the state file and the planning of which roles are due are not modelled.
- Fairness and timing of the semaphore, the timers and the delays between spawns.
- `CarDispatch.SmartSendCar`: starts from the parsed car list, ticket count, helper counts and members; reading them from JSON and the report lines are left out. Its replies are those to refresh requests; a send's reply only feeds the report. A guardian is passed on by its id as text rather than parsed as a number.
- Liveness of response delivery and of the car loop beyond the stated conditions: the code guarantees neither.
- The command wrappers, daily, tower and study flows, the state thresholds, the HTTP rate limiter, the Hortor cipher, error code tables and server id parsing.
- Rate limiting of the daily tasks: the repository proposes it in a document, and the code does not implement it.
