# Verified model of the encrypted messenger's transfer, audio and relay logic

A Dafny model of the parts of the messenger whose correctness depends on more than one function,
with proofs of what they promise. `dafny verify dfyconfig.toml` checks everything.

## What is modelled

**Resumable file transfer** (`frames`, `line_limit`, `chunk_store`, `tcp_server`,
`upload_network`, `upload_progress`, `upload_client`, `file_receive`). The upload is a network of one
chunk store and any number of connections: the client's current one and those of earlier attempts,
whose handlers may still be running. Every await of the server's coroutine is a program point, so
handlers interleave between the disk write and the record, and between the record and the ACK. A
connection can break at any moment, losing any suffix of what is on its way in either direction and
cutting the last line anywhere; a handler can die at any program point. The client's `_upload_chunks`
is a method that runs against this network and may be overtaken by any of its steps whenever it waits.

- Safety: a normal return means exactly the records 0..n-1, no run loses or corrupts a record, and at
  most one frame is wasted by each attempt.
- Progress: the two sides never wait for each other, whatever other connections do, and every step of
  the handler a client waits for brings its next line nearer; every read of the client is proved to
  end on this ground. The first attempt during which nothing breaks, dies or is refused ends the
  upload, whatever went wrong in the attempts before it: normally if the reader's limit admits the
  HAVE line, and by an exception if not. So an upload of up to 12,773 chunks survives two broken attempts.
  If no earlier handler is at work, a calm upload sends exactly the missing chunks.
- Delivery: a download, with uploads going on between any two of its reads, over a connection that may
  itself be lost at any byte, gives the recipient the original bytes if all of it arrives and the
  store was complete as it began, and a failure otherwise.

Left alone, the handler of the network does what the sequential loop over the byte stream does
(`HandlerServes`), and that loop is proved on arbitrary byte streams, including streams that end
inside a frame.

**Jitter buffer and receive loop** (`jitter_buffer`, `jitter_order`, `jitter_runs`,
`audio_stream`). The buffer is a class; pushing then draining is proved lossless exactly when every
packet is preceded by fewer than `size` higher-numbered ones. The run theorems cover every sequence
of pushes and pops. Numbering and nonces of outgoing frames are proved distinct within 2^32 packed
frames. Sender and receiver are composed: frames sent in a row are heard in the order of capture
(`HeardInOrder`). Playing a frame may raise at any point of the receive loop.

**Token bucket** (`rate_limiter`, `rate_limiter_traces`). Over real arithmetic, a call is allowed
exactly when every window ending at it can bear one more; denied calls, other keys and the moment
of refilling never change a verdict.

**UDP relay** (`udp_relay`), **STUN** (`stun`), **offline queue and rooms** (`message_queue`) and
**safety numbers** (`safety_number`) complete the model. The STUN encoder is written from RFC 5389,
sections 6, 15, 15.1 and 15.2, and the parser is proved to invert it. For the queue each handler is
one atomic step: an enqueue landing between the read and the clear of a flush would be deleted
unsent, and the model does not contain that interleaving.

Supporting modules: `bytes` (packed integers), `text` (decimal printing, padding, splitting),
`sets` (sorted finite sets), `crypto` (an abstract suite: decryption undoes encryption, GCM keeps
lengths, a digest is 64 hexadecimal characters; `Clear` shows that these laws can be met).

## Where the code and its documentation differ

The model follows the code.

- The module docstring of client/handlers/file.py speaks of a 32-byte checksum; the frames carry 64
  characters (line 55).
- `add_chunk` is documented as writing `delivered=0`; it writes 1 (server/db/files.py:48-53).
- The client reads the HAVE line with the default 64 KiB limit of an asyncio reader. From 12,774
  consecutive records on (an upload interrupted after about 6.2 GiB) the line is longer, `readline`
  raises ValueError, and every resumption fails at once (`PrefixReadableIff`; client/handlers/file.py:471-476,
  not caught at line 514). `ReadableIff` and `UploadChunks` give the exact condition.
- Counting is not completeness: neither `is_complete` nor the upload loop looks at the indexes it
  counts (server/files.py:107-108, server/tcp_server.py:133). One frame numbered 1 for an upload of one
  chunk is answered with DONE while chunk 0 is missing (`OutOfRangeIsDone`). `CountIff` says exactly when
  the count is right, `FinishedIffInRange` exactly when DONE is.
- `JitterBuffer.pop` is documented as skipping when more than `size` packets are held; it skips at
  `size` (line 89). `size` does not bound the number of packets held, and a packet at most `2 * size`
  behind the head is stored, where it stays and switches skipping off (`LatePacketStalls`).
- Retrying covers everything after the connection is made; a refused connection ends the upload
  (client/handlers/file.py:471 stands outside the try).
- The audio nonce is called unique per packet. For one sender it repeats after 2^32 packed frames, and
  failed sends count (`FailedSendCountsToo`); `SameNumberIff` is the exact condition. Both ends of a call
  derive one key (client/handlers/call.py:46-71) and number from 0 (client/audio/stream.py:154), so
  the two of them share nonces from the first frame on (`FirstFramesCollide`); `TwoSendersIff` is the
  exact condition.
- The UDP relay does not check that a known sender belongs to the session it names: its datagram is
  sent to party a of that session (`ForeignSenderIsForwarded`). `Forwarding` says exactly when the
  target is the sender's peer.
- The STUN parser takes whichever address attribute comes first, so a MAPPED-ADDRESS in front hides
  an XOR-MAPPED-ADDRESS behind it (`ParseInvertsEncode`), and it does not look at the message type.
- An enqueue whose row id is already queued is dropped although the sender is told "queued"; `Lost`
  in `StepBalance` is the exact condition, `ReusedIdIsLost` an input.
- The receiver counts frames, not indexes: `total_chunks` intact frames of which two carry one index
  give a shorter file without an error (`RepeatedFrameCounts`; client/handlers/file.py:276-313); `ReceivedJoins` says what it is.
  The server never sends one index twice (`DownloadStopsAt`), and `Transfer` gives the file or a failure.
- A login whose reply or SYNC_RESPONSE cannot be sent leaves the user registered (server/ws_server.py:38-45);
  later sends to that dead socket fail and are queued, so `Conservation` still holds.

## Model

| member | source | states |
|---|---|---|
| Crypto.OpenSealed | client/handlers/file.py:288-292 | a payload is 12 bytes of nonce, 16 of tag and the ciphertext, and splitting and decrypting it as the receiver does gives back the plaintext |
| Frames.FrameLayout | client/handlers/file.py:487-496 | a frame on the wire: index and payload length as four bytes each in network order, 64 bytes of checksum, the payload |
| Frames.ReadEncoded | client/handlers/file.py:276-290 | one encoded frame followed by any bytes is read back, and exactly those bytes are left |
| Frames.ReadTruncated | server/tcp_server.py:134-159 | a frame cut anywhere by the end of the stream is never read |
| Frames.DecodePrefix | server/tcp_server.py:146-159 | any prefix of a stream of frames decodes to exactly the frames that lie wholly inside it |
| Frames.DecodeEncoded | server/tcp_server.py:233-235 | framing is self-delimiting: a list of encoded frames decodes to that list |
| Frames.HaveLooks | server/tcp_server.py:125-127 | the HAVE line as it is written: the indexes in increasing order, in decimal, between commas |
| Frames.HaveRoundTrip | client/handlers/file.py:478-481 | parsing a HAVE line gives back exactly the index set the server printed; whether the reader hands the line over is the next two rows |
| LineLimit.ReadableIff | client/handlers/file.py:476 | the reader hands over the HAVE line if and only if it has at most 65537 characters |
| LineLimit.PrefixReadableIff | client/handlers/file.py:471-476 | for records 0..n-1 that is so if and only if n is at most 12773 |
| LineLimit.BelowFits | client/handlers/file.py:471-476 | whatever is recorded of an upload of at most 12773 chunks, its HAVE line is readable |
| Frames.HaveTruncated | client/handlers/file.py:476-481 | a HAVE line cut anywhere still parses; cut by more than its newline it never names the last index, so the client cannot take it for complete |
| ChunkStore.PathsDistinct | server/files.py:27-28 | a path is "chunk_" and the index in at least four digits, and two indexes share one if and only if they are equal, above four digits too |
| ChunkStore.ChunkFiles.StoreChunk | server/files.py:67-87 | only this index's data and at most its own record change; the first checksum of an index stays |
| ChunkStore.ChunkFiles.GetChunk | server/files.py:90-99 | the latest data written for the index, or nothing |
| ChunkStore.CountIsComplete | server/db/files.py:85-93 | for records of honest frames the count never exceeds n, and reaches it exactly when the records are 0..n-1 |
| ChunkStore.CountIff | server/db/files.py:85-93 | for any store, counting decides completeness if and only if the count is short of n or every record is in range |
| ChunkStore.ChunkFiles.IsComplete | server/files.py:102-108 | true exactly when the count reaches the total, which is right if and only if the count is short of it or every record is in range |
| ChunkStore.WriteKeepsSound | server/files.py:77-79 | overwriting with another encryption of the same chunk, even if the record is never written, keeps every record consistent with the plaintext |
| ChunkStore.StoreKeepsSound | server/files.py:67-87 | storing an honest frame keeps every record consistent and adds exactly its index |
| TcpServer.ProcessUpload | server/tcp_server.py:122-172 | on any byte stream: the HAVE line, one ACK for each complete frame until the count reaches the total, then DONE, and the store those frames leave |
| TcpServer.ServeExact | server/tcp_server.py:133-172 | on any frames: an ACK for each of the first k, all ASCII and each found with too few records; then DONE exactly if there are now enough, the next frame refused exactly if its checksum is not ASCII, and otherwise no frame left |
| TcpServer.TakenStay | server/files.py:67-87 | what storing any frames leaves, repeated and out of order: for each index the first checksum ever recorded, stripped, and the last data; no other index is touched |
| TcpServer.ProcessDownload | server/tcp_server.py:220-236 | the bytes of one frame per record in index order, up to the first record without data or with a malformed checksum |
| TcpServer.DownloadStopsAt | server/tcp_server.py:220-236 | of any store the records in index order are sent up to the first without data or with a checksum that does not have 64 bytes, and nothing after it |
| TcpServer.Lockstep | server/tcp_server.py:125-172 | without breaks, after the first k owed frames the server has written HAVE and exactly k ACKs, DONE exactly when nothing is owed, and n minus the count equals the frames still owed |
| TcpServer.FinishedRecords | server/tcp_server.py:133-171 | a session that ends with DONE has recorded exactly the indexes of the frames it acknowledged, besides those it found |
| TcpServer.FinishedIffInRange | server/tcp_server.py:133-171 | on a store in range and for any frames, DONE means completeness if and only if every frame taken has an index below the total |
| TcpServer.OutOfRangeIsDone | server/tcp_server.py:133-171 | an input on which DONE is written without chunk 0 |
| UploadNetwork.StepKeeps | server/tcp_server.py:125-172 | every step of any handler, break or death keeps the protocol invariant, loses no record and leaves data that decrypts |
| UploadNetwork.Restarted | server/tcp_server.py:122-133 | a server that starts on a store meets the invariant if and only if its records are sound |
| UploadNetwork.RunKeeps | server/files.py:67-87 | the same over every run: re-uploading never corrupts the store |
| UploadNetwork.HandlerLive | server/tcp_server.py:133-136 | a handler that reads frames always lacks a chunk that it neither listed nor read, and one that awaits the identifier line will get it |
| UploadProgress.StarvedHandler | server/tcp_server.py:133-166 | a handler that waits for a frame has answered every frame, and some chunk was neither listed to the client nor sent by it |
| UploadProgress.DeadlockFree | client/handlers/file.py:476-511 | among any number of connections, a handler whose client waits for a line can always step |
| UploadProgress.RankFalls | server/tcp_server.py:125-172 | each such step writes the line or brings it nearer |
| UploadProgress.StepSteady | server/tcp_server.py:125-172 | while only handlers run, a connection carries HAVE, one ACK for each frame and a final DONE, and alone it accounts for every new record |
| UploadNetwork.HandlerServes | server/tcp_server.py:133-172 | left alone, the interleavable handler ends exactly where the sequential loop does |
| UploadClient.SplitConcat | client/handlers/file.py:129-134 | the chunks join to the file; all have 524288 bytes but the last, which is not empty unless the file is |
| UploadClient.ChunkCount | client/handlers/file.py:129-136 | a file has at most k chunks if and only if it has at most k * 524288 bytes |
| UploadClient.HeaderFits | client/handlers/file.py:54-55 | chunk numbers fit in uint32 exactly for files of up to 2^51 bytes, and payload lengths always |
| UploadClient.AckMeans | client/handlers/file.py:499-509 | a line read as ACK means the matching frame is recorded, one read as DONE that the store is complete, even when cut short |
| UploadClient.HaveMeans | client/handlers/file.py:476-482 | the set read from the first line holds everything recorded at the start and nothing unrecorded, or the connection is over and the last chunk is not in it |
| UploadClient.ReadLine | client/handlers/file.py:476-511 | whatever the network does meanwhile the wait ends, with the next line, the end of the stream, or an error; on a calm network with the line the protocol prescribes, unless it exceeds the limit |
| UploadClient.Await | client/handlers/file.py:476-511 | every wait ends because the handler it waits for keeps moving, without any assumption that the connection breaks |
| UploadClient.Exchange | client/handlers/file.py:490-503 | an ACK advances the attempt by this index with the network invariant kept; a DONE means completeness; on a calm network the answer is one of them, and ACK if no other handler is at work |
| UploadClient.SendMissing | client/handlers/file.py:484-509 | run to its end, an attempt has sent exactly the indexes missing from HAVE, in order, each acknowledged before the next; on a calm network it runs to its end unless another handler completes the store first |
| UploadClient.Attempt | client/handlers/file.py:472-513 | a return from inside the try means completeness; at most one frame is unacknowledged; on a calm network the attempt returns if and only if the HAVE line is readable, having sent a beginning of the missing chunks, all of them if no other handler is at work |
| UploadClient.UploadChunks | client/handlers/file.py:458-523 | from any store and leftovers of earlier uploads: a normal return means exactly records 0..n-1; no record is ever lost; frames sent are at most n minus those held at the start plus the attempts; it raises exactly after a failed third attempt or an uncaught error, and stops unconnected exactly at the first refused connection; the first calm attempt is the last, normal if and only if HAVE is readable; up to 12773 chunks survive two broken attempts |
| UploadClient.OnlyHaveOverlong | client/handlers/file.py:476-511 | no line of an upload but the first is ever too long, and that one only if the server printed it so, however it was cut |
| FileReceive.Receive | client/handlers/file.py:276-313 | the loop over the frames of any stream computes Received, which the next two rows determine |
| FileReceive.ReceivedIff | client/handlers/file.py:276-305 | a download succeeds if and only if total_chunks frames arrive and each decrypts to what its checksum says |
| FileReceive.ReceivedJoins | client/handlers/file.py:268-313 | the file is then the plaintexts joined by increasing index, whatever the order of the frames and whatever indexes they carry, the last frame of an index counting |
| FileReceive.RepeatedFrameCounts | client/handlers/file.py:276-313 | an input: one intact frame received twice is taken for a file of two chunks |
| FileReceive.HonestFramesGiveFile | client/handlers/file.py:276-313 | one honest frame per chunk gives back the file, in any order and whichever encryptions the frames carry |
| FileReceive.DeliveredIffComplete | server/tcp_server.py:218-236 | downloading an undisturbed sound store gives the file exactly when the upload is complete, and otherwise fails |
| FileReceive.DownloadsHonest | server/tcp_server.py:220-236 | whatever handlers, breaks and deaths happen between its reads, a download sends one honest frame for each chunk recorded as it began |
| FileReceive.UndisturbedDownload | server/tcp_server.py:220-236 | without steps in between, the interleaved download sends what the sequential loop sends |
| FileReceive.DeliveredOverWire | server/tcp_server.py:220-236 | under every such schedule and for every part of the bytes that arrives, the recipient gets the file exactly when all of it arrived and the store was complete as the download began, and otherwise a failure |
| FileReceive.Transfer | client/handlers/file.py:458-523 | upload, further network activity, download over a connection that may be cut: the file or a failure, the file after a normal return and a whole download, and a normal return for up to 12773 chunks in spite of two broken attempts, if no connection is refused |
| Jitter.JitterBuffer.Push | client/audio/jitter_buffer.py:42-73 | the whole new state, with anchoring, the late drop, the duplicate rule and the forced advance |
| Jitter.JitterBuffer.Pop | client/audio/jitter_buffer.py:75-98 | the whole new state and the frame delivered, if any |
| Jitter.JitterBuffer.Reset | client/audio/jitter_buffer.py:100-105 | back to the initial state |
| Jitter.JitterBuffer.AdvanceToEarliest | client/audio/jitter_buffer.py:120-126 | the head moves to the least buffered number if that is ahead, and nothing is removed |
| JitterOrder.LosslessIffBounded | client/audio/jitter_buffer.py:42-98 | with the head at h and nothing buffered, any permutation of a block is played whole and in order if and only if each packet is preceded by fewer than size higher-numbered ones |
| JitterOrder.LosslessFresh | client/audio/jitter_buffer.py:52-98 | on a fresh stream, if and only if moreover the lowest-numbered packet comes first |
| JitterOrder.LosslessWithLeftovers | client/audio/jitter_buffer.py:61-98 | with a packet left below the head every permutation is played whole, and the leftovers stay |
| JitterRuns.DeliveredOnceInOrder | client/audio/jitter_buffer.py:52-98 | over any run between resets delivered numbers strictly increase and each frame is the first ever pushed with its number |
| JitterRuns.PopExactly | client/audio/jitter_buffer.py:75-98 | a pop delivers if and only if the head is there, or size packets are held and all lie above it; it takes the least packet from the head on |
| JitterRuns.PushExactly | client/audio/jitter_buffer.py:61-73 | a push on a stream that has played stores a new packet up to 2 * size behind the head, and moves the head if and only if more than size packets are then held, all above it: to the least of them |
| JitterRuns.NeverStalls | client/audio/jitter_buffer.py:88-98 | if nothing arrives below the head, every push-then-drain ends with fewer than size packets, all above the head |
| JitterRuns.StallsOnceLate | client/audio/jitter_buffer.py:61-98 | once a packet below the head is stored it stays, and the head moves only by consecutive deliveries |
| JitterRuns.LatePacketStalls | client/audio/jitter_buffer.py:61-98 | one packet arriving at most 2 * size behind the head stays in the buffer for the whole run and ends all skipping; one further behind changes nothing |
| JitterRuns.HoldsEverything | client/audio/jitter_buffer.py:52-73 | before the first pop nothing is dropped and the head is the least number held |
| JitterRuns.SortsBlock | client/audio/jitter_buffer.py:52-98 | any permutation of a block pushed whole and popped comes out in order, for every size |
| AudioStream.SplitRoundTrip | client/audio/stream.py:289-294 | the receiver's split recovers number, nonce and ciphertext of every packed payload |
| AudioStream.PayloadLayout | client/audio/stream.py:237-243 | a payload on the wire: the number in four bytes, lowest first; those and eight zero bytes, which are the nonce; the ciphertext |
| AudioStream.NonceInjective | client/crypto/audio_crypto.py:23-38 | two numbers of the counter's range have the same nonce exactly when they are equal |
| AudioStream.Sender.SendFrame | client/audio/stream.py:235-267 | the counter moves for every packed frame, also when sending fails, and for no other |
| AudioStream.SendAll | client/audio/stream.py:235-267 | over any captures, what leaves is numbered by the packed captures before it |
| AudioStream.SameNumberIff | client/audio/stream.py:237-245 | two captures share number and nonce exactly when the packed ones from one to the other are a multiple of 2^32 |
| AudioStream.DistinctWithinSpan | client/audio/stream.py:237-245 | among at most 2^32 packed frames no number or nonce repeats |
| AudioStream.TwoSendersIff | client/audio/stream.py:154-245 | frames of the two ends of a call share a nonce exactly when their packed counts differ by a multiple of 2^32 |
| AudioStream.FirstFramesCollide | client/audio/stream.py:154-245 | the first frames of the two ends always do |
| AudioStream.FailedSendCountsToo | client/audio/stream.py:245-267 | counting delivered frames only, the claim is false, whatever the ciphertexts: with one failed send, 2^32 consecutively delivered frames repeat a number and a nonce |
| AudioStream.DrainAll | client/audio/stream.py:303-309 | the inner loop pops and plays until nothing comes or a frame cannot be played, and every popped frame but that one is heard |
| AudioStream.DrainStops | client/audio/stream.py:303-316 | the drain goes on past every frame that plays, stops at the first that does not, and otherwise only when the buffer has nothing to give |
| AudioStream.HeardExactly | client/audio/stream.py:303-316 | each exception costs exactly one frame: the others are heard in the order in which they were popped |
| AudioStream.DrainInParts | client/audio/stream.py:303-316 | an exception loses no frame but the one it hits: the rest of the drain is only put off |
| AudioStream.RecvLoop | client/audio/stream.py:280-316 | for all payloads and all exceptions of decoder and device, the buffer and the frames played are those that the packets carried by the payloads determine; if every payload is short or forged nothing is played and the buffer is as before |
| AudioStream.PayloadDecides | client/audio/stream.py:289-299 | a payload shorter than 16 bytes, or whose bytes 4 to 15 and 16 on do not decrypt, changes nothing wherever it arrives; any other is the packet it decrypts to, numbered by its first four bytes |
| AudioStream.AuthenticOnly | client/audio/stream.py:280-316 | all that is ever taken from the buffer for playing was decrypted from some payload that arrived, in strictly increasing order |
| AudioStream.HeardRises | client/audio/stream.py:280-316 | whatever fails to play, the packets taken from the buffer rise strictly in number and each is one that arrived |
| AudioStream.HeardInOrder | client/audio/stream.py:235-309 | what a sender packs, arriving with bounded reordering, is heard in the order of capture, every frame |
| AudioStream.HeardFromStart | client/audio/stream.py:235-309 | the same for a new stream whose first frame arrives first |
| RateLimiter.RateLimiter.Allow | server/rate_limiter.py:29-53 | the verdict and the whole new table, every other key's bucket unchanged; what the verdicts come to for rate and per is in the next rows |
| RateLimiter.RateLimiter.Reset | server/rate_limiter.py:55-57 | forgets this key and no other |
| RateLimiter.AllowedIffEveryWindowBears | server/rate_limiter.py:42-53 | for rate tokens per `per` seconds, a call is allowed if and only if every window ending at it stays within rate + elapsed * rate / per |
| RateLimiter.WindowBound | server/rate_limiter.py:42-53 | the calls allowed in any window number at most rate + elapsed * rate / per |
| RateLimiter.TokensInRange | server/rate_limiter.py:45-52 | tokens never leave [0, rate] |
| RateLimiter.BurstOfRate | server/rate_limiter.py:36-53 | of calls at one instant exactly the first `rate` pass |
| RateLimiter.SpacedCallsPass | server/rate_limiter.py:45-53 | a call at least per / rate after the previous one is never denied |
| RateLimiterTraces.LooksAreInvisible | server/rate_limiter.py:42-53 | lazy refill refines continuous refill: refilling at any other moments changes no verdict |
| RateLimiterTraces.DeniedCallsAreTransparent | server/rate_limiter.py:46-50 | deleting a denied call leaves every other verdict as it was |
| RateLimiterTraces.KeysAreIndependent | server/rate_limiter.py:37-57 | a key's verdicts are those of its own calls and resets alone |
| RateLimiterTraces.SameVerdicts | server/rate_limiter.py:29-53 | traces of touches and the window theorems speak of the same verdicts |
| RateLimiterTraces.WindowsBetweenResets | server/rate_limiter.py:37-57 | in any run over many keys, from one reset of a key to the next: its verdicts are those of a new key, each allowed exactly when every window since the reset bears it, and the window bound holds |
| UdpRelay.UdpRelay.DatagramReceived | server/udp_relay.py:120-156 | both maps after any datagram, and what is sent |
| UdpRelay.RunAgrees | server/udp_relay.py:132-143 | no run ever changes a registration, and it keeps the two maps in agreement and a different from b |
| UdpRelay.ReachableAgrees | server/udp_relay.py:110-156 | in every reachable state the two maps say the same and a and b differ |
| UdpRelay.RegisteredIff | server/udp_relay.py:120-146 | a datagram registers its sender, with the session it names, if and only if the sender is new and that session has a place left; it never registers anybody else |
| UdpRelay.Opened | server/udp_relay.py:132-143 | the first two senders of a new session become its parties, nothing is sent, no other session changes |
| UdpRelay.PartiesAreConnected | server/udp_relay.py:148-156 | once both parties of a session are registered, what either sends for it reaches the other unmodified |
| UdpRelay.Forwarding | server/udp_relay.py:148-156 | a datagram is forwarded if and only if it has 16 bytes, its sender is registered, and so are both parties of the session it names; it is unmodified and goes to the sender's peer exactly when the sender's own session is that one, otherwise to party a |
| UdpRelay.ForeignSenderIsForwarded | server/udp_relay.py:148-156 | a run in which a party of another session is forwarded |
| UdpRelay.SessionsDoNotInterfere | server/udp_relay.py:120-156 | if each address uses one session, the datagrams sent for a session are those of the run with only its datagrams |
| Stun.ParseXorMappedAddress | client/audio/nat.py:88-125 | the loop ends on every byte string, never reads out of range, and computes the specified parse |
| Stun.XorTwice | client/audio/nat.py:140-154 | masking twice gives the value back |
| Stun.ParseInvertsEncode | client/audio/nat.py:98-125 | every message built to RFC 5389 parses to the address of its first address attribute, whatever its type, padding and trailing bytes |
| Stun.AddressRoundTrip | client/audio/nat.py:128-175 | an IPv4 or IPv6 address and port carried by XOR-MAPPED-ADDRESS or MAPPED-ADDRESS after any other attributes is returned exactly |
| Stun.CutMessageIsSafe | client/audio/nat.py:98-175 | a response cut short anywhere yields that address or none |
| Stun.ForeignIsIgnored | client/audio/nat.py:88-175 | whatever bytes arrive, without the magic cookie and the request's transaction ID there is no answer, and an answer has 4 or 16 octets and a 16-bit port |
| Stun.RequestIsEncoded | client/audio/nat.py:67-85 | the request is the standard's empty Binding message, built exactly for 12-byte transaction ids |
| MessageQueue.MessageServer.Message | server/ws_server.py:131-151 | the packet goes live or to the queue, and the reply says which |
| MessageQueue.MessageServer.ToRoom | server/rooms.py:117-151 | the fan-out's whole effect, and the NOT_IN_ROOM and ignored cases |
| MessageQueue.MessageServer.OnAuthSuccess | server/ws_server.py:31-45 | registration, flush and clear; a failing send leaves the queue as it was |
| MessageQueue.MessageServer.JoinRoom | server/rooms.py:50-64 | afterwards the user is a member exactly when the reply is true, and nothing else changes |
| MessageQueue.MessageServer.LeaveRoom | server/rooms.py:67-74 | afterwards the user is not a member, and nothing else changes |
| MessageQueue.FanOutCounts | server/rooms.py:133-151 | each member but the sender gets the message once, live if its socket takes it, otherwise queued unless its row id is taken; nobody else gets it |
| MessageQueue.StepBalance | server/db/messages.py:5-28 | exact account of every step: a letter held or addressed is held afterwards or lost, and it is lost exactly when its row id was taken or a cleared row had no positive time |
| MessageQueue.ReusedIdIsLost | server/db/messages.py:5-11 | two packets with one id for offline users: the second is held nowhere |
| MessageQueue.TimedSurvives | server/db/messages.py:14-28 | a packet queued for an offline user survives to the next flush if and only if its time is positive |
| MessageQueue.FreshStepLosesNothing | server/rooms.py:147-151 | with an unused colon-free packet id and a positive clock no row id collides and nothing is lost |
| MessageQueue.Conservation | server/ws_server.py:131-151 | after any run with distinct ids every packet addressed to a user is in exactly one place, once, and nothing else is anywhere |
| MessageQueue.LoginDelivers | server/ws_server.py:31-45 | after a login whose sends succeed everything addressed to the user so far has been sent, and nothing of it is queued |
| MessageQueue.SentInOrder | server/ws_server.py:31-35 | live and synced packets keep the order in which they were sent, and a flush sends the rows in the order the database gives them |
| MessageQueue.OnlineIff | server/router.py:6-23 | after any run exactly those users are online who have logged in, even by a login whose sends failed, and not disconnected since |
| MessageQueue.MemberIff | server/rooms.py:30-85 | after any run exactly those users are members of a room who created it, or joined it when it existed, and have not left it since |
| SafetyNumbers.JoinedIsSymmetric | client/crypto/fingerprint.py:63-64 | the sorted concatenation does not depend on the order of the two keys |
| SafetyNumbers.BeforeIff | client/crypto/fingerprint.py:61-62 | the order of two keys: the first byte that differs decides, and a proper prefix comes first |
| SafetyNumbers.Symmetric | client/crypto/fingerprint.py:42-74 | both ends show the same number, for all byte strings |
| SafetyNumbers.ShapeAndValue | client/crypto/fingerprint.py:66-74 | five groups of four decimal digits, whose value in hexadecimal is the first 16 digits of the digest of the two keys in order |
| SafetyNumbers.SameNumberIff | client/crypto/fingerprint.py:66-74 | two pairs of keys show the same number exactly when the first 64 bits of their digests agree |
| SafetyNumbers.FormatKeepsText | client/crypto/fingerprint.py:25-39 | grouping loses nothing: dropping the spaces gives the text back, for every length |

## Left out

- UploadClient.ReadLine: a handler that can step is assumed to get its turn eventually; the reader raises for a line over its limit when the line has arrived, not already while it arrives.
- UploadClient.UploadChunks: the file is assumed unchanged between an upload and its resumption, so that all attempts upload the same chunks.
- UploadNetwork.StepKeeps: a process crash that leaves a chunk file half written is not modelled; a death between the disk write and the record is.
- RateLimiter.RateLimiter.Allow: token counts are reals, without floating-point rounding; the clock is a parameter.
- Jitter.JitterBuffer.Push: sequence numbers are naturals, and neither the code nor the model treats the wrap at 2^32 specially.
- Stun.ParseXorMappedAddress: the address is its octets; the text that inet_ntoa and inet_ntop make of them is library code.
- MessageQueue.Conservation: packets carry an id, handlers are atomic, and a user has one login at a time.
- Constructor errors: a jitter buffer size below one and a limiter with a rate or period that is not positive are preconditions.
- One file per store: the identifier line, the wait for the file's registration, expiry and deletion of files, FILE_DONE notices, progress callbacks and the client's own tables.
- int() on texts that only a foreign server would print (signs, underscores, other digits), white space outside ASCII, and the four separators that str.strip() drops and bytes.strip() keeps.
- Encryption, hashing and key derivation, SQL, sockets, asyncio scheduling, JSON and base64.
- The order in which packets queued within the same second come out of a flush: SQL leaves it open, and so does the model.
- Message edits and deletions, typing indicators and SYNC_REQUEST: other uses of the same queue with weaker guarantees.
- Calls, the WebSocket audio relay and the fallback packet relay.
- Terminal interface, configuration, reconnecting and the client's message history.
