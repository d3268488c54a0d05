# Data streams, region cache and clock UUID: a verified model

This project models, in Dafny 4.11, the parts of the LiveKit Rust SDKs where the logic is densest, and proves what
they promise:

- **The data-stream protocol** (`livekit-data-stream`). A sender splits text, bytes or a file into chunks and sends a
  header, numbered chunks and a trailer. A receiver keeps one map of open streams and feeds one channel per stream.
- **The UTF-8 aware chunker** inside it.
- **The region cache** and its `max-age` parser (`livekit-api`).
- **The clock-derived UUID** (`libwebrtc`).

| file | content |
|---|---|
| `Base.dfy`, `Protocol.dfy` | shared vocabulary, packets, errors, header conversion |
| `Utf8.dfy` | encoding table and byte grammar of RFC 3629, sections 3 and 4 |
| `Utf8Chunks.dfy` | the chunker: when it ends, what it yields, that it is optimal |
| `StreamMachine.dfy` | what one stream id goes through at the receiver, and what every run keeps |
| `FirstDeviation.dfy` | the same told without a machine: the first packet out of step decides |
| `IncomingManager.dfy` | the shared map, refining one machine per id |
| `Readers.dfy` | `read_all` of both readers |
| `Outgoing.dfy` | raw stream, writers, sessions of clones, one-shot sends |
| `EndToEnd.dfy` | in-order delivery after any pattern of failed sends; the programs put together |
| `HostileNetwork.dfy` | drops, repeats, reordering, relabelling, other streams, departing readers |
| `Sessions.dfy` | whole sessions of writers, delivered in order; chunks behind the trailer |
| `WrittenPrefix.dfy` | exactly when a reader's data is a prefix of what was written, over any network |
| `Region.dfy`, `MaxAge.dfy` | the cache against its history; the parser against a printer |
| `Uuid.dfy` | well-formed always; exactly which clock readings collide |

Verify everything with `dafny verify dfyconfig.toml`.

## How to read the model

- A Rust `str` or `String` is a Dafny `string`: the sequence of its scalar values. Its bytes are `Encode` of it, and
  `String::from_utf8` is `Decode`.
- A send that the transport acknowledges puts its packet on the wire, and any other does not. The answers of the
  transport are a script (`seq<SendOutcome>`), so a statement about every script is one about every pattern of
  failures. `hasRuntime` says whether a dropped stream finds a runtime to send its trailer from.
- Clones of a writer share one stream behind a mutex that is held for a whole write, so what clones do is a sequence of
  whole operations in some order (`Session`). A `Log` records such a sequence: each operation with the number of its
  chunks that were acknowledged and with its result.
- A channel is the sequence of what was sent on it and two flags for its ends. `channels` of the manager holds every
  channel ever made, in the order the readers were announced; a descriptor refers to one by position. A reader that is
  dropped, or that closes its half after a decoding error, is the event `ReaderGone`.
- Iterators over chunks and the reads of a file are drained before the sends; a failed send only cuts the sequence short.
- Clocks are arguments. Counters are unbounded naturals. The masks and shifts of the UUID are remainders and quotients.

## Findings

- The chunker accepts any byte slice but does not end on all of them: after a byte followed by `chunk_size` continuation
  bytes it yields empty chunks for ever (`StallExample`). `EndsIffNoLongRun` gives the exact condition; every text meets it.
- A text stream is read only if each chunk is UTF-8 by itself; the bytes together being UTF-8 is not enough
  (`SplitCharacterExample`, `TextReadIffEachChunkDecodes`).
- A file that changes between its metadata and its reading is sent without complaint (`FileChangedExample`); the reader
  gets it exactly when its length stayed the declared one (`FileRoundTripIff`).
- Clock UUIDs of different readings can be equal, but only for equal nanoseconds and seconds that differ by a multiple
  of 2^53 (`CollisionExample`, `CollideIff`).
- A write that fails does not end its stream. If a later write gets through and the stream is closed, a reader of a
  stream without a declared length returns data with a hole in it and no error (`SkippedWriteExample`). For one session
  without a declared length, its readers return only prefixes of what was written exactly when no trailer without a
  reason goes out, or the session is `Seamless`: no write failed, or what got through after the first that did goes on
  where that one was cut (`PrefixOfWrittenIff`, `TextPrefixOfWrittenIff`, `CleanTrailerIff`). What a caller can keep to
  does not depend on the data: over all sessions that go the same way with other data, readers return only prefixes
  exactly when no trailer without a reason goes out, or nothing gets through after a failed write
  (`ReadersWhateverTheDataIff`, `TextReadersWhateverTheTextIff`).
- `write_chunk` does not test whether the stream is closed, so a clone can send chunks after the trailer
  (`LateChunkExample`). It happens exactly when a write after a successful close gets a chunk acknowledged
  (`LateChunkIff`); a write that gets all through reports success, and the data never reaches a reader to which
  everything is delivered in order
  (`LateChunksIgnored`, `SessionOutcome`).

## Model

| member | source | states |
|---|---|---|
| `Utf8.DecodeIffEncoded` | livekit-data-stream/src/incoming.rs:171-177 | decoding accepts exactly the encodings of strings and gives the string back: no overlong form, no surrogate, nothing missed |
| `Utf8.KnownEncodings` | livekit-data-stream/src/incoming.rs:171-177 | one character of each length, byte by byte |
| `Utf8.DecodeConcat` | livekit-data-stream/src/incoming.rs:155-160 | the decodings of two buffers, put together, are the decoding of the buffers put together |
| `Utf8.EncodePrefixIff` | livekit-data-stream/src/incoming.rs:153-183 | one text is a prefix of another if and only if its bytes are of the other's |
| `Utf8Chunks.Utf8AwareChunks.Next` | livekit-data-stream/src/utf8_chunk.rs:33-56 | on every buffer, UTF-8 or not: nothing at the end, else the prefix up to the last boundary within the limit, and the rest stays |
| `Utf8Chunks.EndsIffNoLongRun` | livekit-data-stream/src/utf8_chunk.rs:33-56 | the iterator ends if and only if the buffer has no run of `chunk_size` continuation bytes after its first byte |
| `Utf8Chunks.StallExample` | livekit-data-stream/src/utf8_chunk.rs:44-55 | a buffer of five bytes on which it never ends |
| `Utf8Chunks.TextHasNoLongRun` | livekit-data-stream/src/outgoing.rs:118-124 | no text has such a run for sizes from 4, so writing text always ends |
| `Utf8Chunks.TextChunksCorrect` | livekit-data-stream/src/utf8_chunk.rs:20-57 | for every text and size from 4: chunks are encodings of non-empty strings that concatenate to the text; all but the last have `size - 3` to `size` bytes |
| `Utf8Chunks.ChunkerIsOptimal` | livekit-data-stream/src/utf8_chunk.rs:33-56 | no split of the text on character boundaries into pieces of at most `size` bytes has fewer pieces |
| `StreamMachine.EveryRunReachable` | livekit-data-stream/src/incoming.rs:257-379 | after every run: each channel is chunks and then at most one error, which ends it; a live stream's counters equal what its reader was sent; a declared length is never exceeded and is met exactly by a stream that ended without an error |
| `StreamMachine.ChannelsAreFinal` | livekit-data-stream/src/incoming.rs:358-379 | whatever happens later, sent items stay, and a channel that ended or lost its reader gets nothing more |
| `FirstDeviation.FirstDeviationDecides` | livekit-data-stream/src/incoming.rs:300-355 | for every sequence of chunks and trailers after a header: the reader gets the chunks that are in step, then the error (or end) that the first event out of step calls for, and later events change nothing |
| `FirstDeviation.EveryReaderHears` | livekit-data-stream/src/incoming.rs:257-379 | for every sequence of events whatsoever after a header that opens a stream, repeated headers, later streams of the id and departing readers included: its reader has the chunks in step, then what the first chunk or trailer out of step calls for, all cut off where it departs; and its stream is open exactly while all is in step and, once the reader has departed, no chunk or trailer has arrived |
| `FirstDeviation.NextHeaderOpens` | livekit-data-stream/src/incoming.rs:275-289 | after every run, once a trailer, or a chunk that finds no reader, has arrived, no stream is open, and the next valid header opens a new one with a new reader |
| `FirstDeviation.HeaderIgnoredIff` | livekit-data-stream/src/incoming.rs:264-278 | a header changes nothing if and only if it has no content header or a stream of its id is open |
| `IncomingManager.IncomingStreamManager.HandleHeader` | livekit-data-stream/src/incoming.rs:257-290 | opens the stream of its id as the machine of that id does, with one new channel that carries what the header says, and touches no other id; a header without content, or for an open id, changes nothing |
| `IncomingManager.IncomingStreamManager.IsInternal` | livekit-data-stream/src/incoming.rs:295-297 | true exactly for an id with an open stream whose topic is reserved |
| `IncomingManager.IncomingStreamManager.HandleChunk` | livekit-data-stream/src/incoming.rs:300-333 | as the machine of that id, and no other id changes |
| `IncomingManager.IncomingStreamManager.AcceptChunk` | livekit-data-stream/src/incoming.rs:320-331 | a chunk in step moves the counters, and then is one too many or goes to the reader, as the machine says |
| `IncomingManager.IncomingStreamManager.HandleTrailer` | livekit-data-stream/src/incoming.rs:336-355 | as the machine of that id, no other id changes, and the id is open no more, whether its reader is there or not |
| `IncomingManager.IncomingStreamManager.YieldChunk` | livekit-data-stream/src/incoming.rs:359-367 | sends to the reader, or closes the stream when the reader is gone |
| `IncomingManager.IncomingStreamManager.CloseStream` | livekit-data-stream/src/incoming.rs:369-372 | ends the channel without an error |
| `IncomingManager.IncomingStreamManager.CloseStreamWithError` | livekit-data-stream/src/incoming.rs:374-378 | ends the channel with an error, which a departed reader does not get |
| `IncomingManager.IncomingStreamManager.HandleAll` | livekit-data-stream/src/incoming.rs:257-379 | for any interleaving of packets and departing readers, each id ends up where a machine fed only that id's events does: streams do not interfere |
| `Readers.ReadAllBytes` | livekit-data-stream/src/incoming.rs:75-84 | the first error, else all chunks concatenated once the sender is gone, else waiting |
| `Readers.ReadAllText` | livekit-data-stream/src/incoming.rs:153-183 | the same with each chunk decoded by itself and a decoding error where that fails |
| `Readers.BytesReadIs` | livekit-data-stream/src/incoming.rs:75-84 | told item by item: the first error decides at once, chunks alone leave the reader waiting while the sender is there, and else are all returned |
| `Readers.TextReadIs` | livekit-data-stream/src/incoming.rs:153-183 | the same for text, where the first chunk that is not UTF-8 decides like an error, the stream ended or not and whatever follows |
| `Readers.ReadAny` | livekit-data-stream/src/incoming.rs:207-217 | a text header gets a text reader and a bytes header a byte reader |
| `Readers.TextReadIffEachChunkDecodes` | livekit-data-stream/src/incoming.rs:153-183 | a stream that ended without an error reads if and only if each chunk decodes, and then as the decoding of all bytes |
| `EndToEnd.SplitCharacterExample` | livekit-data-stream/src/incoming.rs:171-177 | a header, two chunks that together are one UTF-8 character, and a trailer, all delivered in order: the byte reader returns both bytes and the text reader a decoding error |
| `Outgoing.NumbersAreConsecutive` | livekit-data-stream/src/outgoing.rs:165-171 | chunks on a well-numbered wire carry 0, 1, 2, ... without gap or repeat |
| `Outgoing.NumberFindsChunk` | livekit-data-stream/src/outgoing.rs:193-234 | every packet has the stream's id, and a chunk's number is its place among the chunks sent |
| `Outgoing.RawStream.Opened` | livekit-data-stream/src/outgoing.rs:150-163 | an opened stream has only its header on the wire |
| `Outgoing.RawStream.SendPacket` | livekit-data-stream/src/outgoing.rs:183-191 | a packet is on the wire exactly when acknowledged; a refusal and a closed request channel are told apart |
| `Outgoing.RawStream.WriteChunk` | livekit-data-stream/src/outgoing.rs:165-171 | the counters equal the number and size of acknowledged chunks, before and after, success or not |
| `Outgoing.RawStream.Close` | livekit-data-stream/src/outgoing.rs:173-181 | a closed stream refuses; otherwise it is closed exactly when the trailer was acknowledged |
| `Outgoing.RawStream.Drop` | livekit-data-stream/src/outgoing.rs:237-253 | sends the trailer if still due and a runtime is there; at most one trailer in all |
| `Outgoing.ByteChunksCorrect` | livekit-data-stream/src/outgoing.rs:76-82 | full chunks but for the last, none empty, nothing lost |
| `Outgoing.WriteBytes` | livekit-data-stream/src/outgoing.rs:76-82 | one contiguous block of chunks, cut at the first failed send, whose error is returned |
| `Outgoing.WriteText` | livekit-data-stream/src/outgoing.rs:118-124 | the same for the chunks of a text |
| `Outgoing.WriteFileContents` | livekit-data-stream/src/outgoing.rs:95-107 | the same for the reads of a file, with an I/O error when reading breaks off |
| `Outgoing.Session` | livekit-data-stream/src/outgoing.rs:54-181 | over the whole life of a stream, any operations of any clones, failures and retries: every count and result is what the answers of the transport call for, an error as the answer has it; numbering, final counters, chunk sizes 1 to 15000, blocks and trailer on the wire in the order of the operations, at most one trailer; the trailer of the drop exactly when the stream is unclosed, a runtime is there and the next send is acknowledged |
| `Outgoing.LogIsDetermined` | livekit-data-stream/src/outgoing.rs:76-181 | the answers of the transport and the operations leave counts and results no choice |
| `Outgoing.NothingFailsIff` | livekit-data-stream/src/outgoing.rs:76-181 | no operation fails, but for closing twice, if and only if every send is acknowledged; and then every write gets all through |
| `Outgoing.WirePayload` | livekit-data-stream/src/outgoing.rs:76-171 | the chunks of a session are the blocks its writes got through, one after the other |
| `Outgoing.ThroughFits` | livekit-data-stream/src/outgoing.rs:76-124 | none of them is empty or too large, and without byte writes each is UTF-8 by itself |
| `Outgoing.OfferedIsFull` | livekit-data-stream/src/outgoing.rs:76-124 | every chunk but the last of a write has 15000 bytes, or for text 14997 to 15000 |
| `Outgoing.NothingLost` | livekit-data-stream/src/outgoing.rs:76-124 | if no write failed the wire carries exactly what was written |
| `Outgoing.SentWireShape` | livekit-data-stream/src/outgoing.rs:386-400 | a one-shot send leaves the header, a prefix of its pieces and at most one trailer, numbered in order |
| `Outgoing.SentByFirstFailure` | livekit-data-stream/src/outgoing.rs:359-499 | result and wire of a one-shot send, by the position of the first send that is not acknowledged and the answer to the next, which is the trailer of the drop: header, piece, close or I/O error |
| `Outgoing.SendText` | livekit-data-stream/src/outgoing.rs:359-401 | result and wire for every text and every transport; the first packet is a header of kind text with the id, the topic and the number of bytes |
| `Outgoing.SendBytes` | livekit-data-stream/src/outgoing.rs:411-453 | result and wire for every input and every transport; the first packet is a header of kind bytes with the id, the topic and the number of bytes |
| `Outgoing.SendFile` | livekit-data-stream/src/outgoing.rs:455-499 | result and wire for every file, schedule of short reads, I/O error and transport; the header declares what the metadata said |
| `Outgoing.FileChunksFit` | livekit-data-stream/src/outgoing.rs:95-107 | chunks of a file are its short reads, 1 to 8192 bytes, within the chunk limit |
| `EndToEnd.AfterChunks` | livekit-data-stream/src/incoming.rs:300-333 | the receiver after a header and any number of chunks in order, with or without a declared length |
| `EndToEnd.CloseReachesReader` | livekit-data-stream/src/outgoing.rs:126-132 | a header, any chunks and a close, delivered in order, with or without a declared length: all data, or too much, or too little, or the reason given; `Sessions.OpenPart` and `Sessions.ClosedPart` bring every session to this shape |
| `EndToEnd.SendBytesOutcome` | livekit-data-stream/src/outgoing.rs:411-453 | for every pattern of failed sends, delivered in order: no reader without the header; all data exactly when every chunk and a trailer were acknowledged; `Incomplete` when only a trailer was; open when no trailer was; success means the data is read |
| `EndToEnd.SendTextOutcome` | livekit-data-stream/src/outgoing.rs:359-401 | the same for text, read back as the text |
| `EndToEnd.SendFileOutcome` | livekit-data-stream/src/outgoing.rs:455-499 | the same for files, whose declared length may be wrong by the time they are read: too much and too little are told apart, and no reader without the header |
| `EndToEnd.FileRoundTripIff` | livekit-data-stream/src/outgoing.rs:460-496 | a successfully sent file is read back if and only if it had its declared length |
| `EndToEnd.FileChangedExample` | livekit-data-stream/src/outgoing.rs:460-496 | two successful sends of a file that is not read back: one that shrank and one that grew |
| `EndToEnd.TransferText` | livekit-data-stream/src/outgoing.rs:359-401 | sender, manager and the reader the header asks for composed: result and outcome by the position of the first send that fails and the answer to the next |
| `EndToEnd.TransferBytes` | livekit-data-stream/src/outgoing.rs:411-453 | the same for bytes |
| `EndToEnd.DeliverAndRead` | livekit-data-stream/src/incoming.rs:207-355 | any wire delivered in order to a fresh manager is read by the reader its header asks for |
| `HostileNetwork.EveryRunSourced` | livekit-data-stream/src/incoming.rs:300-333 | over every run of a hostile network, chunk `i` of any reader is chunk `i` of the sender |
| `HostileNetwork.ReadsAPrefix` | livekit-data-stream/src/incoming.rs:300-355 | what a reader returns is the first acknowledged chunks up to some point, with or without a declared length |
| `HostileNetwork.NeverWrongBytes` | livekit-data-stream/src/incoming.rs:257-355 | a reader of `send_bytes` that returns data returns exactly what was sent, whatever network and transport do |
| `HostileNetwork.NeverWrongText` | livekit-data-stream/src/incoming.rs:257-355 | the same for `send_text` |
| `HostileNetwork.NeverWrongFile` | livekit-data-stream/src/incoming.rs:257-355 | a reader of `send_file` that returns data returns the first bytes of the file, as many as were declared |
| `HostileNetwork.ReceiveText` | livekit-data-stream/src/incoming.rs:227-379 | the same for the whole manager, with other ids interleaved at will |
| `Sessions.LateChunkIff` | livekit-data-stream/src/outgoing.rs:165-181 | a chunk is on the wire behind a trailer if and only if a write after a close that succeeded got a chunk acknowledged |
| `Sessions.LateChunkExample` | livekit-data-stream/src/outgoing.rs:165-181 | a stream closed and then written to, both with success, leaves the chunk behind the trailer |
| `Sessions.LateChunksIgnored` | livekit-data-stream/src/incoming.rs:300-355 | delivered in order, what is behind the first trailer changes nothing at the receiver |
| `Sessions.OpenPart` | livekit-data-stream/src/outgoing.rs:150-171 | until a close succeeds, any session has put its header and the chunks that got through on the wire, in order, and nothing else |
| `Sessions.ClosedPart` | livekit-data-stream/src/outgoing.rs:165-181 | up to its first trailer, a session's wire is that of the operations before the first close that succeeded, and the reason of that close |
| `Sessions.SessionOutcome` | livekit-data-stream/src/outgoing.rs:54-181 | for every session, with and without a declared length, what in-order delivery of its whole wire leaves the byte reader with: what got through before the first successful close or the drop, or too much, too little, the reason, or still waiting; and all that was written, if no write before the close failed |
| `Sessions.SessionTextOutcome` | livekit-data-stream/src/outgoing.rs:110-132 | the same for the text reader of a session of text writes |
| `Sessions.TransferSession` | livekit-data-stream/src/outgoing.rs:54-181 | session, manager and the reader the header asks for composed, for every list of operations and every transport |
| `WrittenPrefix.PrefixIff` | livekit-data-stream/src/outgoing.rs:76-124 | the wire of a session carries a prefix of what was written if and only if what got through after the first failed write goes on where that write was cut |
| `WrittenPrefix.StopsMeansSeamless` | livekit-data-stream/src/outgoing.rs:76-124 | which it does when nothing gets through after a failed write |
| `WrittenPrefix.PrefixWhateverTheDataIff` | livekit-data-stream/src/outgoing.rs:76-124 | among all sessions with the same numbers of chunks offered and acknowledged, every one carries a prefix of what was written if and only if nothing got through after a failed write |
| `WrittenPrefix.ReadsAPrefixOfWritten` | livekit-data-stream/src/incoming.rs:300-355 | over every run of a hostile network, with or without a declared length, what a byte reader of a seamless session returns is a prefix of all that was written |
| `WrittenPrefix.AllowedPrefixesIff` | livekit-data-stream/src/incoming.rs:300-355 | for every session, with or without a declared length: every attached reader of every run returns only prefixes of what was written if and only if no clean trailer went out or the first chunks, as many as make up the declared length, are such a prefix |
| `WrittenPrefix.PrefixOfWrittenIff` | livekit-data-stream/src/incoming.rs:300-355 | without a declared length, every attached reader of every run returns only prefixes of what was written if and only if no clean trailer went out or the session is seamless |
| `WrittenPrefix.CleanTrailerIff` | livekit-data-stream/src/outgoing.rs:173-253 | a clean trailer goes out if and only if a close without a reason succeeds or the drop sends one |
| `WrittenPrefix.ReadersWhateverTheDataIff` | livekit-data-stream/src/outgoing.rs:76-253 | without a declared length: for all sessions with the same operations, closes, numbers of chunks and acknowledgements but any data, every attached reader of every run returns only prefixes of what was written if and only if no clean trailer goes out or nothing gets through after a failed write |
| `WrittenPrefix.ReadsATextPrefix` | livekit-data-stream/src/incoming.rs:153-183 | for sessions of text writes: the text of the first acknowledged chunks up to some point, and a prefix of the concatenated texts if the session is seamless |
| `WrittenPrefix.TextPrefixOfWrittenIff` | livekit-data-stream/src/incoming.rs:153-183 | and exactly under the condition that holds for bytes |
| `WrittenPrefix.TextReadersWhateverTheTextIff` | livekit-data-stream/src/outgoing.rs:110-253 | the same for text readers of sessions of text writes, over all texts |
| `WrittenPrefix.SkippedWriteExample` | livekit-data-stream/src/outgoing.rs:165-191 | a refused write of one byte, a successful write of another and a close: the reader returns the second byte alone, with success |
| `Region.RegionCache.Get` | livekit-api/src/region.rs:107-114 | fresh, stale or miss as the history of the cache says |
| `Region.RegionCache.Insert` | livekit-api/src/region.rs:119-125 | the cache still knows, for every host, exactly what its history says |
| `Region.RegionCache.MarkFailed` | livekit-api/src/region.rs:132-140 | the same after pruning, the emptied entry gone |
| `Region.RegionCache.Invalidate` | livekit-api/src/region.rs:144-146 | the same after dropping a host |
| `Region.RegionCache.Clear` | livekit-api/src/region.rs:150-152 | the same after dropping all |
| `Region.AfterChange` | livekit-api/src/region.rs:119-152 | the last inserted list minus the failures since changes with one more event as the cache does |
| `Region.LastInsertIff` | livekit-api/src/region.rs:119-152 | an insertion counts for a host if and only if no later insertion or invalidation of the host and no clearing follows it |
| `Region.FailedSinceIff` | livekit-api/src/region.rs:132-140 | a URL has failed for a host if and only if it was marked for that host since |
| `Region.MissIff` | livekit-api/src/region.rs:107-140 | a miss if and only if nothing was inserted since the last wipe or failures emptied the list |
| `Region.FoundIs` | livekit-api/src/region.rs:107-140 | what is found is the last inserted list in its order, each URL as often as inserted unless marked failed since; fresh strictly before insertion time plus lifetime, the server's lifetime before the default; empty if and only if inserted empty with nothing marked since |
| `Region.FreshIff` | livekit-api/src/region.rs:107-125 | corollary: fresh if and only if found before its expiry, and never with a lifetime of zero |
| `Region.NeverEmpty` | livekit-api/src/region.rs:127-140 | corollary: if only non-empty lists are inserted, no lookup returns an empty one |
| `Region.OnlyShrinks` | livekit-api/src/region.rs:127-146 | without an insertion an entry keeps its age and lifetime, its URLs shrink to a subsequence, and it does not come back |
| `Region.StaleStaysStale` | livekit-api/src/region.rs:107-140 | with a clock that does not go back, a stale host stays stale or is missed until the next insertion |
| `MaxAge.SplitJoin` | livekit-api/src/region.rs:60 | splitting undoes joining |
| `MaxAge.JoinSplit` | livekit-api/src/region.rs:60 | joining undoes splitting, and no piece holds a separator |
| `MaxAge.ParseU64Iff` | livekit-api/src/region.rs:63 | a value is read as `v` if and only if `v` is at most 18446744073709551615 and the value is `v` in decimal, with or without a plus sign and leading zeros |
| `MaxAge.ParseDirectiveIff` | livekit-api/src/region.rs:60-64 | a directive is read as `v` if and only if it is the seven characters of `max-age`, each letter in either case, an equals sign and a numeral of `v`, with any of the 25 white-space characters around name and value, and `v` fits 64 bits |
| `MaxAge.ParseMaxAgeIff` | livekit-api/src/region.rs:59-65 | a header is read as `v` if and only if the first of its comma-separated parts that is such a directive of any number is one of `v` |
| `MaxAge.ParseUndoesPrinting` | livekit-api/src/region.rs:59-65 | such a directive, after parts that are none and before anything, parses to its number; one that overflows is passed over |
| `MaxAge.PlainExample` | livekit-api/src/region.rs:172 | `max-age=300` |
| `MaxAge.SpacedExample` | livekit-api/src/region.rs:57 | `public, max-age=300` |
| `MaxAge.UpperExample` | livekit-api/src/region.rs:174 | `MAX-AGE=0, no-cache` |
| `MaxAge.AbsentExample` | livekit-api/src/region.rs:175-177 | `no-store` and the empty header |
| `MaxAge.NotANumberExample` | livekit-api/src/region.rs:176 | `max-age=notanumber` |
| `Uuid.AlwaysWellFormed` | libwebrtc/src/lib.rs:86-101 | every clock reading gives 36 characters in 8-4-4-4-12 form with version digit 4 and variant digit 8, 9, a or b |
| `Uuid.FieldsHold` | libwebrtc/src/lib.rs:86-101 | which bits of the nanosecond count and of the seconds each of the five fields holds, read back from the text |
| `Uuid.CollideIff` | libwebrtc/src/lib.rs:86-101 | two readings share a text if and only if their nanoseconds are equal and their seconds agree modulo 2^53 |
| `Uuid.NeverCollides` | libwebrtc/src/lib.rs:86-101 | different readings below 2^53 seconds have different texts |
| `Uuid.CollisionExample` | libwebrtc/src/lib.rs:86-101 | two readings that share a text |

## Left out

- Tokio tasks, wakers, the internals of channels and the cancellation of futures: runtime, not protocol.
- Dropping the whole manager: it closes open channels without an error, so the statements about readers do not hold across it.
- `write_to_file` and the file system itself: I/O; a file is the sequence of its short reads.
- Timestamps, MIME types, attributes, names, destination identities and the text header's own fields: copied through unread.
- `StreamProgress::percentage`: floating point, unused.
- Wrap-around of the 64-bit counters: unreachable in practice, modelled as unbounded.
- `is_cloud_host`, the region response types and the network fetch: two suffix tests and plumbing.
- Access tokens, webhooks, HTTP clients, media and native wrappers, generated bindings: thin layers with no logic of their own.
- `RawStream::drop` is modelled as its effect on the wire; what it spawns may run later, but nothing else of that stream can.
- HostileNetwork.NeverWrongBytes: speaks of a reader that is still attached when its result is read off, which is how `read_all` works; a reader that was dropped earlier returns nothing.
- Uuid: the random version-4 identifiers of the data-stream crate come from a library and are arguments here.
