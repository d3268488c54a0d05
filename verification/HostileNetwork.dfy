/** A network that may drop, repeat, reorder and relabel packets and mix in other streams, with readers that
    come and go: what a reader can still be sure of. */
module HostileNetwork {
  import opened Base
  import opened Utf8
  import opened Protocol
  import opened Utf8Chunks
  import opened StreamMachine
  import opened IncomingManager
  import opened Readers
  import opened Outgoing
  import opened EndToEnd

  /** Anything that can happen to a stream whose sender put `w` on the wire: any of its packets arrives, as often
      as you like and under any encryption label, or a reader goes away. */
  predicate FromWire(e: Event, w: Wire) {
    e.ReaderGone? || e.packet in Packets(w)
  }

  predicate AllFromWire(events: seq<Event>, w: Wire) {
    forall i | 0 <= i < |events| :: FromWire(events[i], w)
  }

  /** Chunk `i` of the channel is chunk `i` of the sender. */
  predicate Sourced(c: Channel, chunks: seq<seq<byte>>, total: Option<nat>) {
    && c.info.totalLength == total
    && forall i | 0 <= i < |c.items| && c.items[i].Data? :: i < |chunks| && c.items[i].bytes == chunks[i]
  }

  predicate AllSourced(s: Stream, chunks: seq<seq<byte>>, total: Option<nat>) {
    forall n | 0 <= n < |s.readers| :: Sourced(s.readers[n], chunks, total)
  }

  lemma ChunkSourced(s: Stream, index: nat, content: seq<byte>, encryption: Encryption, chunks: seq<seq<byte>>,
                     total: Option<nat>)
    requires s.Fed() && AllSourced(s, chunks, total)
    requires s.live.Some? ==> s.live.value.progress.chunkIndex == |s.Current().items|
    requires index < |chunks| && chunks[index] == content
    ensures AllSourced(OnChunk(s, index, content, encryption), chunks, total)
  {
  }

  lemma TrailerSourced(s: Stream, reason: string, chunks: seq<seq<byte>>, total: Option<nat>)
    requires s.Fed() && AllSourced(s, chunks, total)
    ensures AllSourced(OnTrailer(s, reason), chunks, total)
  {
  }

  lemma StepSourced(s: Stream, e: Event, w: Wire, header: Header, reserved: seq<string>)
    requires Reachable(s, reserved) && WellNumbered(w, header) && FromWire(e, w)
    requires AllSourced(s, Payload(w), header.totalLength)
    ensures AllSourced(Step(s, e, reserved), Payload(w), header.totalLength)
  {
    if e.Arrival? {
      NumberFindsChunk(w, header, e.packet);
    }
    match e
    case ReaderGone(_, _) =>
    case Arrival(HeaderPacket(_), _, _) =>
    case Arrival(ChunkPacket(_, index, content), encryption, _) =>
      ChunkSourced(s, index, content, encryption, Payload(w), header.totalLength);
    case Arrival(TrailerPacket(_, reason), _, _) =>
      TrailerSourced(s, reason, Payload(w), header.totalLength);
  }

  lemma {:induction false} EveryRunSourced(events: seq<Event>, w: Wire, header: Header, reserved: seq<string>)
    requires WellNumbered(w, header) && AllFromWire(events, w)
    ensures Reachable(Run(Idle, events, reserved), reserved)
    ensures AllSourced(Run(Idle, events, reserved), Payload(w), header.totalLength)
  {
    if events != [] {
      var init := events[..|events| - 1];
      EveryRunSourced(init, w, header, reserved);
      StepKeepsReachable(Run(Idle, init, reserved), events[|events| - 1], reserved);
      StepSourced(Run(Idle, init, reserved), events[|events| - 1], w, header, reserved);
    }
  }

  /** What a byte reader returns, if anything, is the first `k` chunks. */
  lemma SourcedReadIsPrefix(c: Channel, chunks: seq<seq<byte>>, total: Option<nat>) returns (k: nat)
    requires Sourced(c, chunks, total)
    requires BytesRead(c).Finished? && BytesRead(c).result.Success?
    ensures k <= |chunks| && BytesRead(c).result.value == Flatten(chunks[..k])
    ensures !c.senderOpen && AllData(c.items) && Contents(c.items) == chunks[..k]
  {
    k := |c.items|;
    assert FirstBad(c.items, false) == k;
    ContentsOfData(c.items);
    if k > 0 {
      assert Sourced(c, chunks, total) && c.items[k - 1].Data?;
    }
    assert Contents(c.items) == chunks[..k];
  }

  /** Over every run, with or without a declared length, what a byte reader returns is the first chunks acknowledged
      to the sender, up to some point. */
  lemma ReadsAPrefix(w: Wire, header: Header, events: seq<Event>, reserved: seq<string>, n: nat) returns (k: nat)
    requires WellNumbered(w, header) && AllFromWire(events, w)
    requires n < |Run(Idle, events, reserved).readers|
    requires var c := Run(Idle, events, reserved).readers[n]; BytesRead(c).Finished? && BytesRead(c).result.Success?
    ensures var bytes := BytesRead(Run(Idle, events, reserved).readers[n]).result.value;
            k <= |Payload(w)| && bytes == Flatten(Payload(w)[..k]) && bytes <= Flatten(Payload(w))
  {
    EveryRunSourced(events, w, header, reserved);
    k := SourcedReadIsPrefix(Run(Idle, events, reserved).readers[n], Payload(w), header.totalLength);
    FlattenPrefix(Payload(w), k);
  }

  lemma SourcedTextIsPrefix(c: Channel, chunks: seq<seq<byte>>, total: Option<nat>) returns (k: nat)
    requires Sourced(c, chunks, total) && EachIsText(chunks)
    requires TextRead(c).Finished? && TextRead(c).result.Success?
    ensures k <= |chunks| && TextRead(c).result.value == Flatten(Texts(chunks)[..k])
    ensures TextRead(c).result.value <= Flatten(Texts(chunks))
  {
    TextReadsLikeBytes(c);
    k := SourcedReadIsPrefix(c, chunks, total);
    DecodeByChunk(chunks[..k]);
    assert Texts(chunks[..k]) == Texts(chunks)[..k];
    FlattenPrefix(Texts(chunks), k);
  }

  /** A prefix of the pieces that has the length of all of them is all of them. */
  lemma FullLengthMeansAll(c: Channel, pieces: seq<seq<byte>>, sent: nat)
    requires sent <= |pieces| && Sourced(c, pieces[..sent], Some(TotalSize(pieces))) && LengthKept(c)
    requires c.readerOpen && BytesRead(c).Finished? && BytesRead(c).result.Success?
    ensures BytesRead(c).result.value == Flatten(pieces)
  {
    var k := SourcedReadIsPrefix(c, pieces[..sent], Some(TotalSize(pieces)));
    assert pieces[..sent][..k] == pieces[..k];
    FlattenPrefix(pieces, k);
  }

  /** With the length declared, whatever arrives: all the data or none. */
  lemma DeclaredReadIsAll(w: Wire, header: Header, pieces: seq<seq<byte>>, sent: nat, events: seq<Event>,
                          reserved: seq<string>, n: nat)
    requires WellNumbered(w, header) && AllFromWire(events, w)
    requires sent <= |pieces| && Payload(w) == pieces[..sent] && header.totalLength == Some(TotalSize(pieces))
    requires n < |Run(Idle, events, reserved).readers|
    requires var c := Run(Idle, events, reserved).readers[n];
             c.readerOpen && BytesRead(c).Finished? && BytesRead(c).result.Success?
    ensures BytesRead(Run(Idle, events, reserved).readers[n]) == Finished(Success(Flatten(pieces)))
  {
    EveryRunSourced(events, w, header, reserved);
    FullLengthMeansAll(Run(Idle, events, reserved).readers[n], pieces, sent);
  }

  /** `send_bytes` never makes a reader return wrong data, whatever the network and the transport do. */
  lemma NeverWrongBytes(data: seq<byte>, id: string, topic: string, transport: seq<SendOutcome>, hasRuntime: bool,
                        events: seq<Event>, reserved: seq<string>, n: nat)
    requires AllFromWire(events, SentWire(BytesHeader(|data|, id, topic), ByteChunks(data, CHUNK_SIZE), false,
                                          transport, hasRuntime))
    requires n < |Run(Idle, events, reserved).readers|
    requires var c := Run(Idle, events, reserved).readers[n];
             c.readerOpen && BytesRead(c).Finished? && BytesRead(c).result.Success?
    ensures BytesRead(Run(Idle, events, reserved).readers[n]) == Finished(Success(data))
  {
    var header, pieces := BytesHeader(|data|, id, topic), ByteChunks(data, CHUNK_SIZE);
    ByteChunksCorrect(data, CHUNK_SIZE);
    ReaderMeansHeader(header, pieces, false, transport, hasRuntime, events, reserved);
    SentWireShape(header, pieces, false, transport, hasRuntime);
    var w := SentWire(header, pieces, false, transport, hasRuntime);
    DeclaredReadIsAll(w, header, pieces, Acks(transport, 1, |pieces|), events, reserved, n);
  }

  /** Nor does `send_text`. */
  lemma NeverWrongText(text: string, id: string, topic: string, transport: seq<SendOutcome>, hasRuntime: bool,
                       events: seq<Event>, reserved: seq<string>, n: nat)
    requires AllFromWire(events, SentWire(TextHeader(text, id, topic), TextChunks(text, CHUNK_SIZE), false, transport,
                                          hasRuntime))
    requires n < |Run(Idle, events, reserved).readers|
    requires var c := Run(Idle, events, reserved).readers[n];
             c.readerOpen && TextRead(c).Finished? && TextRead(c).result.Success?
    ensures TextRead(Run(Idle, events, reserved).readers[n]) == Finished(Success(text))
  {
    var header, pieces := TextHeader(text, id, topic), TextChunks(text, CHUNK_SIZE);
    OfferedFits(PutText(text));
    OfferedIsInput(PutText(text));
    ReaderMeansHeader(header, pieces, false, transport, hasRuntime, events, reserved);
    SentWireShape(header, pieces, false, transport, hasRuntime);
    EveryRunSourced(events, SentWire(header, pieces, false, transport, hasRuntime), header, reserved);
    FullLengthMeansText(Run(Idle, events, reserved).readers[n], pieces, Acks(transport, 1, |pieces|), text);
  }

  lemma FullLengthMeansText(c: Channel, pieces: seq<seq<byte>>, sent: nat, text: string)
    requires sent <= |pieces| && Sourced(c, pieces[..sent], Some(TotalSize(pieces))) && LengthKept(c)
    requires EachIsText(pieces) && Flatten(pieces) == Encode(text)
    requires c.readerOpen && TextRead(c).Finished? && TextRead(c).result.Success?
    ensures TextRead(c).result.value == text
  {
    TextReadsLikeBytes(c);
    FullLengthMeansAll(c, pieces, sent);
    DecodeEncode(text);
  }

  /** And a reader of `send_file` that returns data returns the first bytes of the file, as many as were declared. */
  lemma NeverWrongFile(size: nat, file: FileReads, id: string, topic: string, transport: seq<SendOutcome>,
                       hasRuntime: bool, events: seq<Event>, reserved: seq<string>, n: nat)
    requires AllFromWire(events, SentWire(BytesHeader(size, id, topic), file.pieces, file.broken, transport,
                                          hasRuntime))
    requires n < |Run(Idle, events, reserved).readers|
    requires var c := Run(Idle, events, reserved).readers[n];
             c.readerOpen && BytesRead(c).Finished? && BytesRead(c).result.Success?
    ensures size <= |Flatten(file.pieces)|
    ensures BytesRead(Run(Idle, events, reserved).readers[n]) == Finished(Success(Flatten(file.pieces)[..size]))
  {
    var header, k := BytesHeader(size, id, topic), Acks(transport, 1, |file.pieces|);
    ReaderMeansHeader(header, file.pieces, file.broken, transport, hasRuntime, events, reserved);
    SentWireShape(header, file.pieces, file.broken, transport, hasRuntime);
    var w := SentWire(header, file.pieces, file.broken, transport, hasRuntime);
    DeclaredReadIsFirst(w, header, size, events, reserved, n);
    FlattenPrefix(file.pieces, k);
    assert Flatten(file.pieces[..k])[..size] == Flatten(file.pieces)[..size];
  }

  lemma DeclaredReadIsFirst(w: Wire, header: Header, size: nat, events: seq<Event>, reserved: seq<string>, n: nat)
    requires WellNumbered(w, header) && AllFromWire(events, w) && header.totalLength == Some(size)
    requires n < |Run(Idle, events, reserved).readers|
    requires var c := Run(Idle, events, reserved).readers[n];
             c.readerOpen && BytesRead(c).Finished? && BytesRead(c).result.Success?
    ensures size <= |Flatten(Payload(w))|
    ensures BytesRead(Run(Idle, events, reserved).readers[n]) == Finished(Success(Flatten(Payload(w))[..size]))
  {
    EveryRunSourced(events, w, header, reserved);
    DeclaredPrefix(Run(Idle, events, reserved).readers[n], Payload(w), size);
  }

  lemma DeclaredPrefix(c: Channel, chunks: seq<seq<byte>>, size: nat)
    requires Sourced(c, chunks, Some(size)) && LengthKept(c)
    requires c.readerOpen && BytesRead(c).Finished? && BytesRead(c).result.Success?
    ensures size <= |Flatten(chunks)| && BytesRead(c).result.value == Flatten(chunks)[..size]
  {
    var k := SourcedReadIsPrefix(c, chunks, Some(size));
    FlattenPrefix(chunks, k);
    assert |Flatten(chunks[..k])| == size;
    assert Flatten(chunks)[..size] == Flatten(chunks[..k]);
  }

  /** No reader without a header. */
  lemma {:induction false} ReaderMeansHeader(header: Header, pieces: seq<seq<byte>>, broken: bool,
                                             transport: seq<SendOutcome>, hasRuntime: bool, events: seq<Event>,
                                             reserved: seq<string>)
    requires AllFromWire(events, SentWire(header, pieces, broken, transport, hasRuntime))
    requires Run(Idle, events, reserved).readers != []
    ensures Answer(transport, 0) == Acknowledged
  {
    if SentWire(header, pieces, broken, transport, hasRuntime) == Silent {
      NothingSent(events, reserved);
    }
  }

  lemma {:induction false} NothingSent(events: seq<Event>, reserved: seq<string>)
    requires AllFromWire(events, Silent)
    ensures Run(Idle, events, reserved) == Idle
  {
    if events != [] {
      NothingSent(events[..|events| - 1], reserved);
      assert FromWire(events[|events| - 1], Silent);
    }
  }

  /** The whole receiver under attack: other streams may do what they like, and the readers of this one still
      return the text that was sent, or no text. */
  method ReceiveText(m: IncomingStreamManager, events: seq<Event>, text: string, id: string, topic: string,
                     transport: seq<SendOutcome>, hasRuntime: bool)
    requires m.Valid() && forall other :: m.View(other) == Idle
    requires AllFromWire(EventsOf(events, id),
                         SentWire(TextHeader(text, id, topic), TextChunks(text, CHUNK_SIZE), false, transport,
                                  hasRuntime))
    modifies m
    ensures m.Valid()
    ensures forall n | 0 <= n < |m.View(id).readers| && m.View(id).readers[n].readerOpen ::
              TextRead(m.View(id).readers[n]).Finished? && TextRead(m.View(id).readers[n]).result.Success? ==>
                TextRead(m.View(id).readers[n]).result.value == text
  {
    m.HandleAll(events);
    forall n | 0 <= n < |m.View(id).readers| && m.View(id).readers[n].readerOpen
               && TextRead(m.View(id).readers[n]).Finished? && TextRead(m.View(id).readers[n]).result.Success?
      ensures TextRead(m.View(id).readers[n]).result.value == text
    {
      NeverWrongText(text, id, topic, transport, hasRuntime, EventsOf(events, id), m.reservedTopics, n);
    }
  }
}
