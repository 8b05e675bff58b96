# Verified model of the proxy's stream stack, codecs, replay cache and health monitor

This project models the stateful core of an MTProto proxy in Dafny and proves what that core is for.
The program's objects are classes with the same fields and the same branches; each method is proved
against a specification, and the main results are statements about whole runs.

Sockets, clocks, random sources and the connection pool are parameters. A socket is a script of answers
(pending, so many bytes, zero bytes, an error) together with a ghost log, so every theorem holds for every
schedule of partial reads and writes. AES, SHA-256, HMAC and CRC are function parameters: CTR mode is
a fixed keystream per key (section 6.5 of NIST SP 800-38A), CBC mode works over a block function and its
inverse (section 6.2 of NIST SP 800-38A).

## Main results

| theorem | what it says |
|---|---|
| `Pipe.Run`, `Pipe.RunDry` | For every sequence of writes, flushes, network deliveries and reads, over plain sockets or FakeTLS, and every schedule of socket answers, the plaintext read is a prefix of the plaintext accepted, and after a successful flush the wire carries all of it. Nothing accepted is ever lost: after any run in which nothing failed, once both sockets only move bytes, a flush, a hand-over and enough reads give all of it. |
| `TlsReader.FakeTlsReader.PollRead` | Under any chunking, bytes delivered plus bytes held back are the application data of the records consumed. Each kind of answer is given if and only if its cause is there: pending, end of file, an alert, an error. Every poll terminates. |
| `DirectRelay.Run` | From a client's 64 handshake bytes on, under every schedule: the client decrypts the start of what Telegram wrote, and in fast mode its wire carries Telegram's own bytes, as many after a flush as the copy loop passed on. |
| `ReplaySpec.RememberedExactly`, `ReplayCheckers.Run` | A live key is remembered if and only if no call since its last touch found the shard full of other keys touched later and live at that moment. For every interleaving of calls over 64 shards each check answers exactly that, and a key accepted twice within the window had more than a 64th of the total capacity, less one, of other keys come between. |
| `RpcReaders.Transfer`, `RpcReaders.TransferUnaligned` | However the network cuts the ciphertext, the reader loop returns exactly the payloads sent, as long as all but the last are whole words; after one that is not, the next is lost. |
| `FrameCodecIo.DecodeChunks`, `RelayFraming.ReadAllPayloads` | Any chunking of encoded frames decodes to the same data and flags; the relay's second implementation agrees with the codec except where stated. |
| `AdaptiveFloors.AdaptiveFloor.ShouldReduce`, `HealthMonitors.Run` | Over every run of passes, mode switches and outages, each turn reduces the floor exactly after a quiet spell and makes exactly the attempts that are due by the history; attempts keep their exponential distance; the outages going on are those the turns say. |
| `ClientHelloBuilder.ReadOwnHello`, `ServerHellos.ParseInvertsBuild`, `Emulator.BuildEmulatedServerHello` | Hello parsing inverts hello building; the emulated response authenticates itself and carries the whole payload. |

## Where the code and expectations part

- An alert record does not end a FakeTLS stream: `FakeTlsReader` answers end-of-file once and the next poll
  goes on with the record after it (`TlsRecord.DataAfterAlert` is a wire where this shows). What is delivered is the
  data before the first alert if and only if no application data was read behind one
  (`FakeTlsReader.StopsAtAlert`).
- A zero-byte answer to the first write of a fresh TLS record is kept as pending, while the same answer during
  a flush is a `WriteZero` error.
- Whether a replay shard still remembers a key is *not* decided by counting the distinct keys touched since:
  `ReplaySpec.CountingTouchesIsNotEnough` is a run where it remembers a key after as many other keys as its
  capacity, one of them having expired in between. `ReplaySpec.RememberedExactly` gives the exact condition, and
  `ReplaySpec.CountingExact` says exactly when counting is right; it is never wrong on the safe side
  (`ReplaySpec.NeverMissed`).
- Before the clock has reached the window length, `checked_sub` falls back to `now` and every earlier entry
  counts as expired; `ReplaySpec.CutoffExact` says exactly when expiry means "older than the window".
- With a window of zero no expiry node is ever dropped: the queue grows with every insertion
  (`ReplayCheckers.ReplayChecker.QueueLength`), though the cache stays within its capacity.
- `RpcWriter` sends payloads of any length, but pads byte by byte. Behind a payload that is not whole words, one to
  three bytes of padding are read as the start of the next frame's length: the reader resumes at the next frame if
  and only if the payload was whole words (`FullFrame.ResumesAtNextFrame`), and drops everything it holds if
  and only if the misread length is over the limit (`RpcReaders.MisreadsNext`). `RpcReaders.TransferUnaligned` is a
  run in which the next payload vanishes without an error. Past that point the outcome depends on what the
  misread bytes and the checksum happen to be.
- `MtprotoFrameWriter` completes the last block, and agrees with `RpcWriter`, if and only if the message is whole
  words (`FullFrame.PaddedIsFilled`).
- `cbc_decrypt_inplace` hands on a zero IV for empty input, so it continues the chain if and only if there was
  data or the IV was zero (`RpcCodec.HandedOnChains`).
- The secure encoder accepts an empty payload whose frame the decoder then refuses; `FrameCodec.DecodesExactly`
  says which encoded frames come back.
- The relay passes over zero-length frames and refuses frames of one to three bytes, which the intermediate
  codec accepts (`RelayFraming.RelayVersusCodec`).
- A ClientHello for a host name of more than 65436 bytes has a wrapped extension length, and the name is not found in
  it; the record length is already wrong from 65382 bytes on (`ClientHelloBuilder.ReadOwnHello`,
  `ClientHelloBuilder.RecordLengthExact`).
- In `ensure_payload_capacity` the bookkeeping of the last record assumes it is at least 17 bytes long; sizes are
  clamped before, so this always holds in the program. `Emulator.Suffices` is the exact condition, and
  `Emulator.ShortLastRecord` an input that fails it.

## Model

| member | source | states |
|---|---|---|
| `Ctr.CipherConcat` | src/crypto/aes.rs:33-76 | encrypting a concatenation is encrypting the pieces with the keystream position carried on |
| `Ctr.CipherInvolutive` | src/crypto/aes.rs:33-76 | at the same position decryption undoes encryption |
| `Ctr.CipherBit` | src/crypto/aes.rs:61-75 | bit b of output byte i is the exclusive-or of bit b of input byte i and of keystream byte pos + i |
| `Ctr.AesCtr.Apply` | src/crypto/aes.rs:61-75 | output is the keystream from the current position applied to the data, and the position advances by exactly its length |
| `StreamBuffers.WriteBuffer.Extend` | src/stream/state.rs:287-294 | appends or refuses by the size limit, contents unchanged on refusal |
| `StreamBuffers.WriteBuffer.Advance` | src/stream/state.rs:301-310 | drops exactly the sent prefix of the pending bytes, also across the reset of an emptied buffer |
| `StreamBuffers.HeaderBuffer.Fill` | src/stream/state.rs:345-353 | a partial header read is appended to what was there before |
| `StreamBuffers.YieldBuffer.CopyTo` | src/stream/state.rs:421-427 | the chunk handed out followed by what remains is what there was |
| `TlsRecord.HeaderRoundTrip` | src/stream/tls_stream.rs:83-147 | header bytes parse back to the header if and only if the length fits in 16 bits |
| `TlsRecord.BuildRecordCarries` | src/stream/tls_stream.rs:625-636 | a record built from at most 2^14 + 256 bytes is one complete acceptable record carrying exactly them |
| `TlsRecord.AppendRecord` | src/stream/tls_stream.rs:625-636 | appending a built record to complete records appends its data to what the stream carries |
| `TlsRecord.CompleteAppend` | src/stream/tls_stream.rs:284-434 | what complete records carry does not depend on what follows them |
| `TlsRecord.AppPayloadMonotone` | src/stream/tls_stream.rs:284-434 | more wire bytes never change the data earlier bytes carried |
| `TlsRecord.FinishRecord` | src/stream/tls_stream.rs:340-420 | a header and a body of the announced length complete one record: application data adds its body, change-cipher and alert records add nothing |
| `TlsRecord.PartialCarriesNothing` | src/stream/tls_stream.rs:284-434 | a record under way, or one with a bad header or type, adds no data |
| `TlsRecord.AlertSplits` | src/stream/tls_stream.rs:407-412 | data behind an alert is carried like any other |
| `TlsRecord.AlertEndsStream` | src/stream/tls_stream.rs:407-412 | the stream carries just the data before its first alert if and only if no application data follows that alert |
| `TlsRecord.DataAfterAlert` | src/stream/tls_stream.rs:407-412 | a close alert followed by one record: the record's byte is carried |
| `TlsWriter.FakeTlsWriter.PollWrite` | src/stream/tls_stream.rs:671-763 | on success exactly the reported prefix became one record of the framed stream, whose sent part plus unsent rest is kept; pending and failure accept nothing; a non-empty write asks the socket; pending only if it blocked, failure only if it answered an error or moved nothing; with a socket that moves bytes it succeeds |
| `TlsWriter.FakeTlsWriter.PollFlush` | src/stream/tls_stream.rs:765-801 | success means every framed byte is on the wire as complete records; pending if and only if the socket blocked, failure if and only if it answered an error or moved nothing; with a socket that moves bytes it succeeds |
| `TlsWriter.FakeTlsWriter.Settle` | src/stream/tls_stream.rs:676-712 | a write first finishes the record under way or stays with it; a poisoned writer reports its stored error once and then a generic one |
| `TlsWriter.FakeTlsWriter.StartRecord` | src/stream/tls_stream.rs:714-762 | a new record is accepted whole whether the socket took all, part, none of it or was pending; it is refused if and only if the socket answered an error |
| `AsyncSinks.AsyncSink.OnWireIsPrefix` | src/stream/tls_stream.rs:671-801 | what the wire carries is always a prefix of what was accepted, over FakeTLS or a plain socket |
| `AsyncSources.AsyncSource.GivenIsPrefix` | src/stream/tls_stream.rs:284-434 | what was handed out is always a prefix of what the arrived bytes carry |
| `CryptoWriters.PendingCiphertext.CompactConsumedPrefix` | src/stream/crypto_stream.rs:342-355 | compaction keeps the pending bytes and frees the consumed ones |
| `CryptoWriters.PendingCiphertext.Advance` | src/stream/crypto_stream.rs:357-370 | drops exactly the sent prefix across reset and compaction, within the limit |
| `CryptoWriters.PendingCiphertext.PushEncrypted` | src/stream/crypto_stream.rs:383-408 | appends the ciphertext of the plaintext or refuses without moving the keystream, exactly by the limit |
| `CryptoWriters.CryptoWriter.PollFlushPending` | src/stream/crypto_stream.rs:551-601 | terminates; moves pending ciphertext to the upstream without changing what was accepted or the keystream position; pending keeps the state, an error or zero write poisons |
| `CryptoWriters.CryptoWriter.PollWrite` | src/stream/crypto_stream.rs:605-708 | keeps the run invariant (upstream bytes plus pending ciphertext are the accepted plaintext under the keystream from the start, the position is start plus bytes accepted, pending stays within the limit); reports exactly the accepted prefix; a non-empty write makes progress; pending only when the buffer is full |
| `CryptoWriters.CryptoWriter.PollFlush` | src/stream/crypto_stream.rs:710-725 | success means the socket was flushed and the wire carries the ciphertext of everything accepted; failure only if the socket refused or the FakeTLS layer had given up; with a socket that moves bytes it succeeds |
| `CryptoWriters.EffectiveLimit` | src/stream/crypto_stream.rs:454-465 | the pending limit is the configured one, 64 KiB for zero and never below 4 KiB |
| `CryptoWriters.CryptoWriter.SixForOne` | src/stream/crypto_stream.rs:311-408 | what was sent and what is still to be sent is at most six wire bytes for each accepted byte |
| `CryptoWriters.CryptoWriter.AcceptIntoPending` | src/stream/crypto_stream.rs:624-660 | while upstream is pending, plaintext is accepted up to the free room and refused only when there is none |
| `CryptoWriters.CryptoWriter.WriteThrough` | src/stream/crypto_stream.rs:660-707 | from idle, one encrypted chunk is offered to the upstream and accepted whole whatever part of it is taken; refused only if the socket refused |
| `TlsReader.PollHeader` | src/stream/tls_stream.rs:438-476 | bytes read go into the header in order, none lost on pending; it stops for exactly the reason the socket's last answer gives; clean end of file only before the first byte |
| `TlsReader.PollBody` | src/stream/tls_stream.rs:479-515 | bytes read extend the body in order, none lost on pending; done exactly at the announced length, otherwise stopped for exactly the reason the socket's last answer gives |
| `TlsReader.FakeTlsReader.DeliversPayload` | src/stream/tls_stream.rs:284-434 | at every moment delivered plus held-back bytes are the application data of all records consumed |
| `TlsReader.FakeTlsReader.StopsAtAlert` | src/stream/tls_stream.rs:284-434 | what was delivered or is held back is the data before the first alert if and only if no application data was read behind one |
| `TlsReader.FakeTlsReader.PollRead` | src/stream/tls_stream.rs:284-434 | keeps that invariant and terminates; pending if and only if the socket just blocked; an error if and only if the socket failed, ended inside a record, or the record has an invalid header or is complete and of an unknown kind, with the matching error; no bytes if and only if the socket ended between records or an alert was passed; otherwise bytes, fewer than asked only when none are held back; every such answer brings the end nearer |
| `TlsReader.FakeTlsReader.PoisonedExactly` | src/stream/tls_stream.rs:354-372 | a reader has given up if and only if one of those causes is there |
| `TlsReader.FakeTlsReader.NeverPoisoned` | src/stream/tls_stream.rs:284-434 | on the start of a wire of complete records, with a socket that neither fails nor ends inside one, no poll fails |
| `TlsReader.FakeTlsReader.Step` | src/stream/tls_stream.rs:300-433 | each internal transition consumes input or moves to a later state, so skipped records cannot loop forever |
| `CryptoReaders.CryptoReader.PollRead` | src/stream/crypto_stream.rs:164-232 | keeps: everything delivered or held back is the decryption from the start of everything the upstream gave, the keystream position equals those bytes; pending if and only if the socket just blocked, an error if and only if the upstream failed, no bytes if and only if the stream ended or an alert was passed; on a plain socket exactly as many bytes as it moved |
| `Pipe.EndToEnd` | src/stream/crypto_stream.rs:12-19 | in every state reachable by joined ends the delivered plaintext is a prefix of the accepted plaintext |
| `Pipe.NothingLost` | src/stream/crypto_stream.rs:12-19 | once flushed, delivered and drained, every accepted byte has been delivered |
| `Pipe.HandedOn` | src/stream/crypto_stream.rs:164-232 | a reader that found nothing more to read has given the decryption of everything its socket handed over |
| `Pipe.Run` | src/stream/crypto_stream.rs:605-725 | over every run of writes, flushes, deliveries and reads and every schedule of socket answers: what was read is a prefix of what was accepted; a non-empty write makes progress and is put off only after the pending limit's worth of bytes was accepted; after a flush the wire carries all of it; a read that finds nothing more has given everything handed over; flushed, handed over and read dry, everything accepted was given |
| `Pipe.RunDry` | src/stream/crypto_stream.rs:12-19 | after any run in which nothing failed, once both sockets only move bytes, a flush succeeds and, the rest handed over, as many reads as there are wire bytes give all that was accepted |
| `Pipe.FlushAll` | src/stream/crypto_stream.rs:710-725 | a flush on a socket that only moves bytes sends everything accepted, in at most six wire bytes for each |
| `Pipe.ReadOn` | src/stream/crypto_stream.rs:164-232 | enough reads on a socket that only moves bytes leave nothing on its way, and none fails |
| `ReplaySpec.NeverMissed` | src/stats/mod.rs:765-826 | a key inserted within the window with fewer than capacity other keys touched since is remembered |
| `ReplaySpec.RememberedExactly` | src/stats/mod.rs:765-826 | a live key is remembered if and only if no call since its last touch found capacity keys, its own included, touched after it and live at that moment |
| `ReplaySpec.LiveInFront` | src/stats/mod.rs:807-821 | a key touched after a remembered key and still within the window is remembered too |
| `ReplaySpec.AheadIsLiveSince` | src/stats/mod.rs:765-826 | the cache entries in front of a remembered key are exactly the keys touched since that are still live |
| `ReplaySpec.CountingExact` | src/stats/mod.rs:765-826 | counting the keys touched since is right if and only if they are fewer than capacity or some call found capacity of them live at once |
| `ReplaySpec.ExactWhenNoneOlder` | src/stats/mod.rs:765-826 | when no key touched since is an older entry, a live key is remembered if and only if fewer than capacity other keys were touched since |
| `ReplaySpec.CountingTouchesIsNotEnough` | src/stats/mod.rs:765-826 | a concrete history where counting touched keys gives the wrong answer |
| `ReplaySpec.KeptInFront` | src/stats/mod.rs:807-821 | a key touched later and inserted no earlier than a remembered key is remembered too |
| `ReplaySpec.FewSince` | src/stats/mod.rs:807-821 | a remembered key has fewer than capacity other keys after it, none of them older |
| `ReplaySpec.InsertedTwice` | src/stats/mod.rs:856-869 | two insertions of a key are more than the window apart or at least capacity other keys of its shard were touched between |
| `ReplaySpec.CutoffExact` | src/stats/mod.rs:785-793 | expiry means older than the window if and only if the window is zero, the clock is past it, or the entry is of this very moment |
| `ReplaySpec.ForgottenNearOrigin` | src/stats/mod.rs:789-789 | before that, exactly the entries of the current moment survive |
| `ReplayShards.ReplayShard.Cleanup` | src/stats/mod.rs:785-805 | removes exactly the expired entries in order; ghost nodes remove nothing; the queue stays sorted by time and sequence and every entry keeps its own node; the queue is left no longer than the insertions within the window, and a zero window drops nothing |
| `ReplayShards.ReplayShard.PopFront` | src/stats/mod.rs:791-804 | dropping the oldest node never changes what is unexpired |
| `ReplayShards.ReplayShard.Check` | src/stats/mod.rs:807-811 | answers whether an unexpired entry exists and makes it most recent |
| `ReplayShards.ReplayShard.Add` | src/stats/mod.rs:813-821 | the key becomes most recent with a fresh node, the least recent entry beyond capacity goes; the queue holds no more than the insertions within the window |
| `ReplayShards.RemoveExpired` | src/stats/mod.rs:797-803 | removing an expired entry changes nothing a cleanup would keep |
| `ReplayShards.OwnNode` | src/stats/mod.rs:797-803 | equal sequence numbers mean the same node |
| `ReplayRefinement.AheadIsBefore` | src/stats/mod.rs:765-826 | the keys in front of an entry in the cache are exactly those the history puts ahead |
| `ReplayRefinement.AfterCleanup` | src/stats/mod.rs:785-805 | a cleaned cache holds exactly the keys the history says are remembered and live |
| `ReplayRefinement.CheckStep` | src/stats/mod.rs:807-811 | a check refines the history specification, both directions |
| `ReplayRefinement.AddStep` | src/stats/mod.rs:813-821 | an insertion refines it, evictions included |
| `ReplayRefinement.CheckOrAddStep` | src/stats/mod.rs:856-869 | an atomic check refines the history specification whichever way it answers |
| `ReplayRefinement.KnownExactly` | src/stats/mod.rs:807-811 | past the clock's origin the answer is the exact condition, told without replaying the cache |
| `ReplayRefinement.Swept` | src/stats/mod.rs:913-941 | a periodic sweep refines it |
| `ReplayCheckers.ReplayChecker.CheckAndAdd` | src/stats/mod.rs:856-869 | true exactly when the history says the key is remembered and live, and past the clock's origin exactly when it was inserted within the window and not crowded out since; otherwise the key is inserted; checks plus unconditional additions equal hits plus additions |
| `ReplayCheckers.ReplayChecker.AddOnly` | src/stats/mod.rs:871-876 | inserts unconditionally and counts it |
| `ReplayCheckers.ReplayChecker.CleanShard` | src/stats/mod.rs:913-941 | a sweep of one shard keeps all shards in agreement with the common history |
| `ReplayCheckers.ReplayChecker.QueueLength` | src/stats/mod.rs:785-788 | with a zero window the expiry queue is as long as the number of insertions into its shard, and never longer otherwise |
| `ReplayCheckers.AnswersAreExact` | src/stats/mod.rs:828-876 | every answer of a run past the clock's origin is the exact condition on the calls before it |
| `ReplayCheckers.NoReplay` | src/stats/mod.rs:828-876 | in any answered history, no two acceptances of a key within the window without capacity other keys between |
| `ReplayCheckers.ShardShare` | src/stats/mod.rs:829-832 | a shard's capacity is a 64th of the total rounded down, and one below that |
| `ReplayCheckers.LetInTwiceNeedsOthers` | src/stats/mod.rs:828-876 | a key let in twice within the window had at least one other key, and more than its shard's share of the total less one, come between |
| `ReplayCheckers.Run` | src/stats/mod.rs:828-876 | over every interleaving of calls and sweeps on all shards: every answer is the one the history demands, past the clock's origin exactly the non-recursive condition, no replay is let through, and what a second acceptance within the window takes is told from the total capacity alone |
| `Cbc.DecryptInvertsEncrypt` | src/crypto/aes.rs:151-208 | decryption inverts encryption on all block-aligned data |
| `Cbc.EncryptConcat` | src/crypto/aes.rs:151-177 | encryption splits at any block, the last ciphertext block becoming the next IV |
| `Cbc.DecryptConcat` | src/crypto/aes.rs:182-208 | likewise decryption |
| `Cbc.AesCbc.EncryptCopy` | src/crypto/aes.rs:151-177 | the block loop computes the recursive definition; unaligned data is refused |
| `Cbc.AesCbc.DecryptCopy` | src/crypto/aes.rs:182-208 | likewise |
| `Cbc.AesCbc.EncryptInPlace` | src/crypto/aes.rs:211-240 | overwriting the buffer gives the same bytes as the copying form; unaligned data is left alone |
| `Cbc.AesCbc.DecryptInPlace` | src/crypto/aes.rs:244-276 | likewise, though each ciphertext block is overwritten before it is chained |
| `FullFrame.PadIsFillers` | src/transport/middle_proxy/codec.rs:223-232 | the byte-wise pad of one writer is the run of filler words of the other |
| `FullFrame.PaddedIsFilled` | src/stream/frame_stream.rs:395-428 | both writers' paddings agree, and the filler words complete a block, if and only if the message is whole words |
| `FullFrame.ParseAcceptsFrame` | src/stream/frame_stream.rs:320-380 | every frame of a valid message parses to the message and leaves what follows |
| `FullFrame.ParseAcceptsOnlyFrames` | src/stream/frame_stream.rs:320-380 | and whatever parses is such a frame: length, sequence number, CRC and payload are determined |
| `FullFrame.ReadableExactly` | src/stream/frame_stream.rs:320-380 | a written frame is read back if and only if its message is whole words and within the limit |
| `FullFrame.FrameIsNoFiller` | src/stream/frame_stream.rs:322-339 | a frame of any message is never mistaken for padding |
| `FullFrame.SkipsExactly` | src/stream/frame_stream.rs:322-331 | all filler words and nothing else are skipped |
| `FullFrame.AdvanceCounts` | src/stream/frame_stream.rs:402-402 | after n frames the number is the first one plus n modulo 2^32 |
| `FullFrame.NumbersDiffer` | src/stream/frame_stream.rs:402-402 | fewer than 2^32 consecutive frames carry different numbers |
| `FullFrame.ResumesAtNextFrame` | src/transport/middle_proxy/codec.rs:223-232 | behind a payload's padding, skipping filler words ends at the next frame if and only if the payload was whole words |
| `FrameStream.MtprotoFrameReader.ReadFrame` | src/stream/frame_stream.rs:320-380 | the skip loop and sequential reads compute the parse of the remaining input, with the same error for each failure; after a frame the expected number is one more modulo 2^32 |
| `FrameStream.MtprotoFrameWriter.WriteFrame` | src/stream/frame_stream.rs:395-428 | appends the frame and whole filler words; what is appended fills its last block, and equals the byte-wise padded frame, if and only if the message is whole words; the number is one more modulo 2^32 |
| `FrameStream.ReadBack` | src/stream/frame_stream.rs:320-428 | the reader returns any list of valid messages from the writer's output, which is 16-aligned after every frame |
| `RpcCodec.CbcEncryptPadded` | src/transport/middle_proxy/codec.rs:174-196 | the ciphertext of the padded plaintext, and the IV that continues the chain |
| `RpcCodec.HandedOnChains` | src/transport/middle_proxy/codec.rs:198-212 | the handed-on IV continues the chain if and only if there was data or the IV was zero |
| `RpcCodec.CbcDecryptInPlace` | src/transport/middle_proxy/codec.rs:198-212 | the buffer holds the decryption; the handed-on IV is taken from the ciphertext before it is overwritten |
| `RpcCodec.DecryptPieces` | src/transport/middle_proxy/codec.rs:198-212 | any split into non-empty aligned pieces decrypts to the decryption of the whole |
| `RpcCodec.RpcWriter.Send` | src/transport/middle_proxy/codec.rs:214-243 | keeps: bytes sent are one CBC encryption of all padded frames under the initial IV; the number is the first one plus the payloads sent modulo 2^32; IV and number advance even when the connection fails |
| `RpcCodec.SendAndReceive` | src/transport/middle_proxy/codec.rs:174-243 | every aligned split of the ciphertext decrypts, in any non-empty pieces, and parses back to the payloads |
| `RpcCodec.ReadPlainFrame` | src/transport/middle_proxy/codec.rs:55-87 | sequential reads compute the plaintext frame at the start of the input, with each error case told apart |
| `RpcCodec.PlainFrameRoundTrip` | src/transport/middle_proxy/codec.rs:44-87 | a frame built in CRC32 mode is read back with its number and payload if and only if it is within the length limit |
| `RpcCodec.PlainFrameOnlyFrames` | src/transport/middle_proxy/codec.rs:55-87 | whatever is accepted is such a frame |
| `RpcReaders.RpcReader.Absorb` | src/transport/middle_proxy/reader.rs:41-71 | whole blocks are decrypted in the running chain, the rest waits, nothing is lost |
| `RpcReaders.TakesOnlyFrames` | src/transport/middle_proxy/reader.rs:73-110 | whatever the loop takes is a frame with the expected number and checksum |
| `RpcReaders.TakesFrame` | src/transport/middle_proxy/reader.rs:73-110 | a frame is taken as soon as it is complete, and not before |
| `RpcReaders.NextStep` | src/transport/middle_proxy/reader.rs:73-110 | on any prefix of a run of padded frames, all but the last of whole words, the loop waits, skips one filler or takes the next payload; it never fails |
| `RpcReaders.Transfer` | src/transport/middle_proxy/reader.rs:41-110 | payloads of which all but the last are whole words come back unchanged through writer, arbitrary network chunks and reader loop |
| `RpcReaders.MisreadsNext` | src/transport/middle_proxy/reader.rs:73-83 | with one to three bytes of padding left in front of a frame, the loop drops all it holds if and only if the misread length is over the limit, and skips a word if and only if it reads as a filler |
| `RpcReaders.LosesNext` | src/transport/middle_proxy/reader.rs:73-83 | a one-byte payload is taken and what follows is dropped, whatever the checksum, unless the next frame's length is a multiple of 256 |
| `RpcReaders.TransferUnaligned` | src/transport/middle_proxy/reader.rs:41-110 | a one-byte payload and a short one sent: however the ciphertext is cut, exactly the first arrives and no error is reported |
| `FrameCodec.HeaderRoundTrip` | src/stream/frame_codec.rs:83-337 | length and quick-ack flag survive the header in all three framings |
| `FrameCodec.DecodesWire` | src/stream/frame_codec.rs:83-337 | an encoded frame decodes to its data, flag and padding, consuming exactly the frame |
| `FrameCodec.DecodesExactly` | src/stream/frame_codec.rs:83-337 | of all frames the encoders produce, exactly those within the limit and, in secure framing, not empty come back |
| `FrameCodec.WaitsForRest` | src/stream/frame_codec.rs:83-337 | every strict prefix of a frame asks for more and consumes nothing |
| `FrameCodec.SecureEmptyIsRejected` | src/stream/frame_codec.rs:252-337 | an empty secure payload encodes to a frame the decoder refuses |
| `FrameCodec.SecurePadding` | src/protocol/constants.rs:162-183 | the random tails drawn are those of one to three bytes; none leaves a frame a whole number of words, and all are cut off by length alone |
| `FrameCodecIo.DecodeAbridged` | src/stream/frame_codec.rs:83-136 | the buffer-consuming decoder agrees with the format specification, contents untouched unless a frame is returned |
| `FrameCodecIo.DecodeIntermediate` | src/stream/frame_codec.rs:191-225 | likewise |
| `FrameCodecIo.DecodeSecure` | src/stream/frame_codec.rs:252-298 | likewise, padding cut off by length alone |
| `FrameCodecIo.EncodeAbridged` | src/stream/frame_codec.rs:138-187 | appends the wire form, refuses exactly unaligned or oversized data, simple acks reversed |
| `FrameCodecIo.EncodeWide` | src/stream/frame_codec.rs:227-337 | appends the wire form of intermediate and secure frames, refuses exactly unaligned secure data |
| `FrameCodecIo.NextDecode` | src/stream/frame_codec.rs:56-79 | on any cut of a run of frames the decoder returns the next frame or waits; it never errs |
| `FrameCodecIo.DecodeChunks` | src/stream/frame_codec.rs:56-79 | any chunking of the encodings of valid frames decodes to the same data and flags in order |
| `RelayFraming.WriteClientPayload` | src/proxy/middle_relay.rs:583-674 | emits the codec's bytes for the same padding and refuses what the codec refuses |
| `RelayFraming.ReadClientPayload` | src/proxy/middle_relay.rs:473-581 | the read loop agrees with the relay's read specification, closed and broken streams told apart |
| `RelayFraming.RelayVersusCodec` | src/proxy/middle_relay.rs:473-581 | on a complete frame of at least four bytes the relay returns the codec's result; zero-length frames are passed over; one to three bytes are refused |
| `RelayFraming.ReadAllPayloads` | src/proxy/middle_relay.rs:473-581 | any stream of valid frames mixed with zero-length ones gives exactly the non-empty payloads and flags, then closed |
| `AdaptiveFloors.AdaptiveFloor.ShouldReduce` | src/transport/middle_proxy/health.rs:290-327 | true if and only if an evaluation at least the idle duration ago began a quiet spell after the grace period; then the last bound observation is at least grace plus idle old |
| `AdaptiveFloors.AdaptiveFloor.ForgetAll` | src/transport/middle_proxy/health.rs:107-110 | a static floor mode starts every key afresh |
| `AdaptiveFloors.GoesIdle` | src/transport/middle_proxy/health.rs:317-327 | the kept timestamps stay those the history determines when a key is idle past its grace |
| `AdaptiveFloors.StillInGrace` | src/transport/middle_proxy/health.rs:317-322 | and when it is still within it |
| `Backoffs.DoublingIsPower` | src/transport/middle_proxy/health.rs:266-273 | saturating capped doubling step by step is min(base * 2^k, cap) |
| `Backoffs.SpacedSnoc` | src/transport/middle_proxy/health.rs:202-286 | an attempt at least the stored delay after the last keeps every pair of attempts spaced |
| `Backoffs.Backoff.Schedule` | src/transport/middle_proxy/health.rs:251-273 | after k consecutive failures the stored delay is min(base * 2^k, cap), the next attempt is due that delay and the jitter later, and all attempts of a key keep that distance |
| `Backoffs.Backoff.DueExactly` | src/transport/middle_proxy/health.rs:204-209 | an attempt is due if and only if the delay for its consecutive failures and the jitter have passed since the last one in the history |
| `HealthMonitors.HealthMonitor.CheckDc` | src/transport/middle_proxy/health.rs:124-287 | the floor is reduced exactly after a quiet spell; a due turn tries exactly the writers missing from the full floor, after a quiet spell only those missing from the reduced one, and nothing beyond; in outage mode exactly one attempt for a single dead endpoint; histories and transition counts go on accordingly; nothing stays in flight |
| `HealthMonitors.HealthMonitor.RecoverOutage` | src/transport/middle_proxy/health.rs:338-441 | an outage attempt exactly when due, recorded with its result |
| `HealthMonitors.HealthMonitor.RestoreFloor` | src/transport/middle_proxy/health.rs:202-286 | tries exactly the missing writers, restores as many as connect, in-flight count balanced |
| `HealthMonitors.HealthMonitor.LeaveOutage` | src/transport/middle_proxy/health.rs:168-184 | leaving drops the outage timer and adaptive state of that key only |
| `HealthMonitors.Run` | src/transport/middle_proxy/health.rs:68-288 | over every run of passes: each turn's floor answer and attempts, and how many writers it tries for which floor, are those the steps so far determine, across mode switches and outages; the keys down are those whose last turn found them down; enters and exits count the transitions and differ by the outages going on; attempts are spaced by their backoff, in outage mode too |
| `Handshake.TagRoundTrip` | src/protocol/constants.rs:84-101 | four bytes name a framing if and only if they are its tag |
| `Handshake.GenerateTgNonce` | src/proxy/handshake.rs:336-381 | the first random draw not looking like another protocol is used and keeps every byte outside tag and datacenter, in fast mode also outside key and IV; decryption key the reversed encryption key; in fast mode the client's own key |
| `Handshake.EncryptTgNonce` | src/proxy/handshake.rs:384-403 | 56 bytes in the clear, the rest encrypted at its offset; the returned encryptor stands at 64, the decryptor at 0 |
| `Handshake.ReceiverRecovers` | src/proxy/handshake.rs:384-403 | a peer taking key and IV from bytes 8..56 recovers tag and datacenter and continues at keystream offset 64 together with the sender |
| `Handshake.AcceptHandshake` | src/proxy/handshake.rs:218-333 | accepts exactly if not replayed and some user's secret opens it; the first such user, with decryptor at 64 and encryptor at 0 |
| `Handshake.ClientIsRecognised` | src/proxy/handshake.rs:233-328 | a client's handshake made with a secret is recognised with that secret and its datacenter recovered |
| `DirectRelay.AcceptClient` | src/proxy/handshake.rs:218-333 | a client writer exists exactly if the handshake is accepted, encrypting from the start under the key derived from the reversed handshake key and the user's secret |
| `DirectRelay.ReachTelegram` | src/proxy/direct_relay.rs:148-186 | the nonce passes tag and datacenter on, the reader decrypts from the start under its reversed key, in fast mode the client's own |
| `DirectRelay.Connect` | src/proxy/direct_relay.rs:20-78 | both ends of a relay follow from the client's handshake and the random draws, or none exactly when replayed, unrecognised or without a usable draw; in fast mode both ciphers are one keystream |
| `DirectRelay.ClientReadsPrefix` | src/proxy/relay.rs:391-410 | whatever was read and written when, the client decrypts the start of what Telegram wrote |
| `DirectRelay.FastModeIsTransparent` | src/proxy/handshake.rs:358-402 | under one keystream the client's wire carries Telegram's own bytes |
| `DirectRelay.Run` | src/proxy/direct_relay.rs:20-186 | from the client's 64 bytes through any schedule of arrivals, reads, partial writes and flushes: the client reads the start of what Telegram wrote; in fast mode its wire is a prefix of Telegram's bytes, after a flush as long as what was passed on |
| `Hello.ItemsOfList` | src/protocol/tls.rs:509-537 | walking a well-formed extension, name or protocol list gives its items back |
| `Hello.NextItem` | src/protocol/tls.rs:509-515 | one step of a walk stays in bounds on every byte string, and takes the next item or stops where it is cut off |
| `Hello.FirstUsable` | src/protocol/tls.rs:521-534 | none exactly if no name is a usable host name, otherwise the first that is |
| `Hello.ShortHoldsNoName` | src/protocol/tls.rs:516-516 | the length guard of five bytes hides no name |
| `Hello.ExtractSni` | src/protocol/tls.rs:465-540 | on every byte string: the first usable name over all server-name extensions, none when the hello does not parse |
| `Hello.ExtractAlpn` | src/protocol/tls.rs:543-586 | on every byte string: the names of the first ALPN extension in the order offered |
| `Hello.HelloExtensions` | src/protocol/tls.rs:465-507 | the walk finds exactly the extensions of a well-formed ClientHello, whatever follows it |
| `Hello.HelloRange` | src/protocol/tls.rs:465-507 | the walk finds the extension bytes of a hello cut to what their sixteen-bit length says |
| `Hello.SniWithin` | src/protocol/tls.rs:509-537 | a returned name is never longer than the extensions or than sixteen bits can say |
| `Hello.NamesOfWellFormed` | src/protocol/tls.rs:465-540 | the names chosen from are those of its server-name list, wherever that extension stands |
| `Hello.ProtocolsOfWellFormed` | src/protocol/tls.rs:543-586 | the ALPN result is its offered list |
| `ClientHelloBuilder.BuildClientHello` | src/tls_front/fetcher.rs:96-209 | for a name of any length the appended bytes are record header, handshake header and hello with all extensions, each length field keeping its low bits |
| `ClientHelloBuilder.IsWellFormed` | src/tls_front/fetcher.rs:96-209 | with a name of at most 65436 bytes that is a well-formed ClientHello |
| `ClientHelloBuilder.RecordLengthExact` | src/tls_front/fetcher.rs:200-208 | the record's length field is right if and only if the name has at most 65381 bytes |
| `ClientHelloBuilder.ReadOwnHello` | src/tls_front/fetcher.rs:96-209 | the proxy's extractors read back the name it was built for if and only if that is usable and has at most 65436 bytes, and then the one protocol |
| `ServerHellos.ParseServerHello` | src/tls_front/fetcher.rs:229-283 | total on every byte string and equal to the parse specification |
| `ServerHellos.ParseInvertsBuild` | src/protocol/tls.rs:206-254 | parsing a built ServerHello gives all its fields and extensions back |
| `Emulator.Jittered` | src/tls_front/emulator.rs:11-28 | sizes end within 64..16640 and within the jitter of their clamped value |
| `Emulator.JitterRangeRounds` | src/tls_front/emulator.rs:16-16 | the jitter is the nearest whole number to three per cent |
| `Emulator.JitterReaches` | src/tls_front/emulator.rs:20-25 | every size within the jitter and the bounds is reached by some draw |
| `Emulator.EnsurePayloadCapacity` | src/tls_front/emulator.rs:34-59 | terminates with sizes in bounds; the payload fits if and only if the last record was as long as its trailer or the added records overshoot enough; nothing is changed needlessly and the overshoot is less than the smallest record |
| `Emulator.ShortLastRecord` | src/tls_front/emulator.rs:44-49 | an empty last record grown for five bytes does not hold them |
| `Emulator.RecordBody` | src/tls_front/emulator.rs:209-233 | a body of exactly the record size: the next piece of the payload, random filler, the type marker, sixteen random bytes |
| `Emulator.BuildAppData` | src/tls_front/emulator.rs:201-235 | read back record by record, the bodies have the given sizes and are the payload in order followed by filler, filling exactly the capacity |
| `Emulator.BuildRecords` | src/tls_front/emulator.rs:176-235 | the records have the cached sizes, clamped and jittered; only for a payload that would not fit is the last one longer or are there more |
| `Emulator.Seal` | src/tls_front/emulator.rs:252-265 | zeroing bytes 11..43 of the response reproduces what the digest was computed over |
| `Emulator.BuildEmulatedServerHello` | src/tls_front/emulator.rs:99-266 | the response is sealed, its ServerHello parses back with the digest as random, the records behind it have the imitated and the ticket lengths and carry the whole payload |

## Left out

- `poll_shutdown` of both writers: best effort by design, it discards an unsent remainder.
- `read_exact` helpers and the decrypt-in-place convenience readers of the stream wrappers: loops over the modelled polls.
- Error texts, logging, statistics behind telemetry levels, and counters other than those of the replay checker and the outage transitions.
- Internals of AES, SHA-256, HMAC, CRC and random numbers: parameters. The CTR counter wrapping after 2^128 blocks is not modelled.
- Wrap-around of 64-bit counters (replay sequence numbers and statistics): natural numbers in the model.
- The legacy abridged, intermediate and secure readers and writers of src/stream/frame_stream.rs: the codec version of those framings is modelled.
- Dispatch of received RPC payloads, end of file and cancellation in the reader loop of src/transport/middle_proxy/reader.rs.
- maybe_rotate_single_endpoint_shadow: shadow writer rotation, which only decides when to open a replacement writer and touches no state modelled here except its own deadline.
- `MePool`, the connection registry and the upstream manager: their answers are inputs of each health-monitor step; the random jitter added to a delay is a natural number input.
- The random choice of a padding length in secure framing: the padding is an input of one to three bytes.
- Certificate fetching, DNS, sockets, configuration, metrics and command line.
- build_server_hello of src/protocol/tls.rs as a whole: its message, digest and extraction parts are covered by the members shared with the emulated response; its single random certificate record adds nothing further.
- build_compact_cert_info_payload: text formatting; the selected payload is an input.
- Handshake.GenerateTgNonce: the random draws are a finite list and `None` stands for drawing on; the program loops until a draw is usable.
- Emulator.Jittered: the three per cent is taken over the reals, not in double precision; the two agree, because the double nearest 0.03 is off by less than half a unit in the last place of the product.
- The client-to-server direction of a relay, idle timeouts and shutdown in src/proxy/relay.rs: the ciphers it uses are those of `Handshake.AcceptHandshake` and `Handshake.ReceiverRecovers`.
