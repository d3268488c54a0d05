/** Sender and receiver together: what a reader makes of what was sent when all that was acknowledged arrives in
    order. */
module EndToEnd {
  import opened Base
  import opened Utf8
  import opened Protocol
  import opened Utf8Chunks
  import opened StreamMachine
  import opened IncomingManager
  import opened Readers
  import opened Outgoing

  // ---- Text is read as its bytes are ----

  /** When every chunk is text by itself, the text reader and the byte reader agree. */
  lemma TextReadsLikeBytes(c: Channel)
    requires forall i | 0 <= i < |c.items| && c.items[i].Data? :: Decode(c.items[i].bytes).Some?
    ensures match BytesRead(c)
            case Waiting => TextRead(c) == Waiting
            case Finished(Failure(e)) => TextRead(c) == Finished(Failure(e))
            case Finished(Success(bytes)) =>
              Decode(bytes).Some? && TextRead(c) == Finished(Success(Decode(bytes).value))
  {
    FirstBadIs(c.items, FirstBad(c.items, false), true);
    if FirstBad(c.items, false) == |c.items| {
      ContentsOfData(c.items);
      DecodeByChunk(Contents(c.items));
    }
  }

  // ---- In-order delivery ----

  /** Every acknowledged packet arrives, in order, under one encryption type. */
  function InOrder(w: Wire, encryption: Encryption, identity: string): seq<Event> {
    match w
    case Silent => []
    case Sent(w', p) => InOrder(w', encryption, identity) + [Arrival(p, encryption, identity)]
  }

  /** The receiving machine after all of a wire has arrived in order. */
  function Arrived(w: Wire, encryption: Encryption, identity: string, reserved: seq<string>): (s: Stream)
    ensures s.Fed()
  {
    match w
    case Silent => Idle
    case Sent(w', p) => Step(Arrived(w', encryption, identity, reserved), Arrival(p, encryption, identity), reserved)
  }

  lemma {:induction false} ArrivedIsRun(w: Wire, encryption: Encryption, identity: string, reserved: seq<string>)
    ensures Arrived(w, encryption, identity, reserved) == Run(Idle, InOrder(w, encryption, identity), reserved)
  {
    match w
    case Silent =>
    case Sent(w', p) =>
      ArrivedIsRun(w', encryption, identity, reserved);
      RunSnoc(Idle, InOrder(w', encryption, identity), Arrival(p, encryption, identity), reserved);
  }

  function DataItems(pieces: seq<seq<byte>>): seq<Item> {
    seq(|pieces|, i requires 0 <= i < |pieces| => Data(pieces[i]))
  }

  /** A stream `h` opened, whose reader was sent `pieces`, and which is still open. */
  function Feeding(h: Header, pieces: seq<seq<byte>>, encryption: Encryption, identity: string,
                   reserved: seq<string>): Stream
    requires h.content.Some?
  {
    var info := StreamInfo(h.streamId, h.topic, h.totalLength, h.content.value, encryption);
    Stream([Channel(info, identity, DataItems(pieces), true, true)],
           Some(Descriptor(Progress(|pieces|, TotalSize(pieces), h.totalLength), encryption, h.topic in reserved)))
  }

  /** The one reader of a stream was told that more than the declared length arrived. */
  predicate Overrun(s: Stream) {
    && s.live.None? && |s.readers| == 1
    && var c := s.readers[0];
       && !c.senderOpen && c.readerOpen && c.items != []
       && AllData(c.items[..|c.items| - 1]) && c.items[|c.items| - 1] == Error(LengthExceeded)
  }

  lemma SizeOfPrefix(pieces: seq<seq<byte>>, k: nat)
    requires k < |pieces|
    ensures pieces[..k + 1] == pieces[..k] + [pieces[k]]
    ensures TotalSize(pieces[..k + 1]) == TotalSize(pieces[..k]) + |pieces[k]|
  {
    assert pieces[..k + 1] == pieces[..k] + [pieces[k]];
    FlattenSnoc(pieces[..k], pieces[k]);
  }

  lemma DataItemsSnoc(pieces: seq<seq<byte>>, piece: seq<byte>)
    ensures DataItems(pieces + [piece]) == DataItems(pieces) + [Data(piece)]
  {
  }

  /** The next chunk in order is taken, ... */
  lemma FeedOne(h: Header, pieces: seq<seq<byte>>, piece: seq<byte>, encryption: Encryption, identity: string,
                reserved: seq<string>)
    requires h.content.Some? && !Exceeds(h.totalLength, TotalSize(pieces) + |piece|)
    ensures OnChunk(Feeding(h, pieces, encryption, identity, reserved), |pieces|, piece, encryption)
         == Feeding(h, pieces + [piece], encryption, identity, reserved)
  {
    FlattenSnoc(pieces, piece);
    DataItemsSnoc(pieces, piece);
  }

  /** ... or is the one too many. */
  lemma FeedTooMuch(h: Header, pieces: seq<seq<byte>>, piece: seq<byte>, encryption: Encryption, identity: string,
                    reserved: seq<string>)
    requires h.content.Some? && Exceeds(h.totalLength, TotalSize(pieces) + |piece|)
    ensures Overrun(OnChunk(Feeding(h, pieces, encryption, identity, reserved), |pieces|, piece, encryption))
  {
    var items := DataItems(pieces);
    assert (items + [Error(LengthExceeded)])[..|items|] == items;
  }

  /** The state after a header and `k` chunks. */
  lemma {:induction false} AfterChunks(h: Header, pieces: seq<seq<byte>>, k: nat, encryption: Encryption,
                                       identity: string, reserved: seq<string>)
    requires h.content.Some? && k <= |pieces|
    ensures var s := Arrived(DataWire(h, pieces, k, false), encryption, identity, reserved);
            if Exceeds(h.totalLength, TotalSize(pieces[..k])) then Overrun(s)
            else s == Feeding(h, pieces[..k], encryption, identity, reserved)
  {
    if k == 0 {
      assert pieces[..0] == [] && DataItems([]) == [];
    } else {
      AfterChunks(h, pieces, k - 1, encryption, identity, reserved);
      BlockPayload(Sent(Silent, HeaderPacket(h)), h.streamId, pieces, k - 1);
      SizeOfPrefix(pieces, k - 1);
      if Exceeds(h.totalLength, TotalSize(pieces[..k])) {
        if !Exceeds(h.totalLength, TotalSize(pieces[..k - 1])) {
          FeedTooMuch(h, pieces[..k - 1], pieces[k - 1], encryption, identity, reserved);
        }
      } else {
        FeedOne(h, pieces[..k - 1], pieces[k - 1], encryption, identity, reserved);
      }
    }
  }

  lemma ReadItems(c: Channel, pieces: seq<seq<byte>>, last: seq<Item>)
    requires c.items == DataItems(pieces) + last && |last| <= 1 && (last != [] ==> last[0].Error?)
    ensures BytesRead(c) == if last != [] then Finished(Failure(last[0].error))
                            else if c.senderOpen then Waiting else Finished(Success(Flatten(pieces)))
  {
    FirstBadIs(c.items, |pieces|, false);
    if last == [] {
      ContentsOfData(c.items);
      assert Contents(c.items) == pieces;
    }
  }

  /** What is left of `got`, the bytes that arrived, under a declared length or none: an excess comes first, then
      that the stream has not ended, a shortfall, the reason it ended for, and last the data. */
  function Verdict(total: Option<nat>, got: seq<byte>, ended: bool, reason: Option<string>): Outcome<seq<byte>> {
    if total.Some? && |got| > total.value then Finished(Failure(LengthExceeded))
    else if !ended then Waiting
    else if total.Some? && |got| < total.value then Finished(Failure(Incomplete))
    else if reason.Some? && reason.value != "" then Finished(Failure(AbnormalEnd(reason.value)))
    else Finished(Success(got))
  }

  lemma OverrunIsRead(s: Stream)
    requires Overrun(s)
    ensures BytesRead(s.readers[0]) == Finished(Failure(LengthExceeded))
  {
    FirstBadIs(s.readers[0].items, |s.readers[0].items| - 1, false);
  }

  lemma CloseFed(h: Header, pieces: seq<seq<byte>>, reason: string, encryption: Encryption, identity: string,
                 reserved: seq<string>)
    requires h.content.Some? && !Exceeds(h.totalLength, TotalSize(pieces))
    ensures var s := OnTrailer(Feeding(h, pieces, encryption, identity, reserved), reason);
            && |s.readers| == 1 && s.readers[0].readerOpen && s.live.None?
            && BytesRead(s.readers[0]) == Verdict(h.totalLength, Flatten(pieces), true, Some(reason))
  {
    var c := OnTrailer(Feeding(h, pieces, encryption, identity, reserved), reason).readers[0];
    assert c.items == DataItems(pieces) + c.items[|pieces|..];
    ReadItems(c, pieces, c.items[|pieces|..]);
  }

  /** The outcome of reading what arrives in order: the first `k` of the pieces, ... */
  lemma OpenOutcome(h: Header, pieces: seq<seq<byte>>, k: nat, encryption: Encryption, identity: string,
                    reserved: seq<string>)
    requires h.content.Some? && k <= |pieces|
    ensures var s := Arrived(DataWire(h, pieces, k, false), encryption, identity, reserved);
            var got := Flatten(pieces[..k]);
            && |s.readers| == 1 && (s.live.Some? <==> !Exceeds(h.totalLength, |got|))
            && BytesRead(s.readers[0]) == Verdict(h.totalLength, got, false, None)
  {
    AfterChunks(h, pieces, k, encryption, identity, reserved);
    var s := Arrived(DataWire(h, pieces, k, false), encryption, identity, reserved);
    if Overrun(s) {
      OverrunIsRead(s);
    } else {
      assert s.readers[0].items == DataItems(pieces[..k]) + [];
      ReadItems(s.readers[0], pieces[..k], []);
    }
  }

  /** ... and then a trailer with a reason or none. */
  lemma ClosedOutcome(h: Header, pieces: seq<seq<byte>>, k: nat, reason: Option<string>, encryption: Encryption,
                      identity: string, reserved: seq<string>)
    requires h.content.Some? && k <= |pieces|
    ensures var w := Sent(DataWire(h, pieces, k, false), Trailer(h.streamId, reason));
            var s := Arrived(w, encryption, identity, reserved);
            && |s.readers| == 1 && s.readers[0].readerOpen && s.live.None?
            && BytesRead(s.readers[0]) == Verdict(h.totalLength, Flatten(pieces[..k]), true, reason)
  {
    AfterChunks(h, pieces, k, encryption, identity, reserved);
    var s := Arrived(DataWire(h, pieces, k, false), encryption, identity, reserved);
    if Overrun(s) {
      OverrunIsRead(s);
    } else {
      CloseFed(h, pieces[..k], Trailer(h.streamId, reason).reason, encryption, identity, reserved);
    }
  }

  lemma DataOutcome(h: Header, pieces: seq<seq<byte>>, k: nat, trailer: bool, encryption: Encryption, identity: string,
                    reserved: seq<string>)
    requires h.content.Some? && k <= |pieces|
    ensures var s := Arrived(DataWire(h, pieces, k, trailer), encryption, identity, reserved);
            var got := Flatten(pieces[..k]);
            && |s.readers| == 1 && (s.live.Some? <==> !trailer && !Exceeds(h.totalLength, |got|))
            && BytesRead(s.readers[0]) == Verdict(h.totalLength, got, trailer, None)
  {
    if trailer {
      ClosedOutcome(h, pieces, k, None, encryption, identity, reserved);
    } else {
      OpenOutcome(h, pieces, k, encryption, identity, reserved);
    }
  }

  /** A writer that closes its stream, in order, with or without a reason and with or without a declared length:
      the reader gets all that was sent, or hears that it is too much or too little, or hears the reason. */
  lemma CloseReachesReader(h: Header, pieces: seq<seq<byte>>, reason: Option<string>, encryption: Encryption,
                           identity: string, reserved: seq<string>)
    requires h.content.Some?
    ensures var w := Sent(DataWire(h, pieces, |pieces|, false), Trailer(h.streamId, reason));
            var s := Run(Idle, InOrder(w, encryption, identity), reserved);
            && |s.readers| == 1 && s.readers[0].readerOpen && s.live.None?
            && BytesRead(s.readers[0]) == Verdict(h.totalLength, Flatten(pieces), true, reason)
  {
    assert pieces[..|pieces|] == pieces;
    ClosedOutcome(h, pieces, |pieces|, reason, encryption, identity, reserved);
    var w := Sent(DataWire(h, pieces, |pieces|, false), Trailer(h.streamId, reason));
    ArrivedIsRun(w, encryption, identity, reserved);
  }

  /** And one that has not closed it leaves the reader waiting, unless it wrote too much. */
  lemma OpenKeepsReaderWaiting(h: Header, pieces: seq<seq<byte>>, encryption: Encryption, identity: string,
                               reserved: seq<string>)
    requires h.content.Some?
    ensures var s := Run(Idle, InOrder(DataWire(h, pieces, |pieces|, false), encryption, identity), reserved);
            && |s.readers| == 1 && (s.live.Some? <==> !Exceeds(h.totalLength, TotalSize(pieces)))
            && BytesRead(s.readers[0]) == Verdict(h.totalLength, Flatten(pieces), false, None)
  {
    assert pieces[..|pieces|] == pieces;
    OpenOutcome(h, pieces, |pieces|, encryption, identity, reserved);
    ArrivedIsRun(DataWire(h, pieces, |pieces|, false), encryption, identity, reserved);
  }

  /** The bytes of a stream may be UTF-8 although the stream does not read: here a sender cuts a character in two.
      Every packet arrives, in order, and the byte reader gets both bytes. */
  lemma SplitCharacterExample(id: string, topic: string, encryption: Encryption, identity: string,
                              reserved: seq<string>)
    ensures var start := Sent(Silent, HeaderPacket(Header(id, topic, Some(2), Some(Text))));
            var first := Sent(start, ChunkPacket(id, 0, [0xC3]));
            var second := Sent(first, ChunkPacket(id, 1, [0xA9]));
            var s := Run(Idle, InOrder(Sent(second, TrailerPacket(id, "")), encryption, identity), reserved);
            && |s.readers| == 1
            && BytesRead(s.readers[0]) == Finished(Success([0xC3, 0xA9]))
            && Decode([0xC3, 0xA9]) == Some([0xE9 as char])
            && TextRead(s.readers[0]) == Finished(Failure(StreamError.Utf8))
  {
    var first: seq<byte>, second: seq<byte> := [0xC3], [0xA9];
    assert first + second == [0xC3, 0xA9];
    TwoPiecesRead(Header(id, topic, Some(2), Some(Text)), first, second, encryption, identity, reserved);
    AccentedE();
    FirstBadIs([Data([0xC3]), Data([0xA9])], 0, true);
  }

  lemma TwoPiecesRead(h: Header, first: seq<byte>, second: seq<byte>, encryption: Encryption, identity: string,
                      reserved: seq<string>)
    requires h.content.Some? && h.totalLength == Some(|first| + |second|)
    ensures var w := Sent(Sent(Sent(Silent, HeaderPacket(h)), ChunkPacket(h.streamId, 0, first)),
                          ChunkPacket(h.streamId, 1, second));
            var s := Run(Idle, InOrder(Sent(w, TrailerPacket(h.streamId, "")), encryption, identity), reserved);
            && |s.readers| == 1 && s.readers[0].items == [Data(first), Data(second)]
            && BytesRead(s.readers[0]) == Finished(Success(first + second))
  {
    var pieces := [first, second];
    TwoPieces(h, first, second);
    AfterChunks(h, pieces, 2, encryption, identity, reserved);
    CloseFed(h, pieces, "", encryption, identity, reserved);
    ArrivedIsRun(Sent(DataWire(h, pieces, 2, false), TrailerPacket(h.streamId, "")), encryption, identity, reserved);
  }

  lemma TwoPieces(h: Header, first: seq<byte>, second: seq<byte>)
    ensures [first, second][..2] == [first, second] && Flatten([first, second]) == first + second
    ensures DataWire(h, [first, second], 2, false)
         == Sent(Sent(Sent(Silent, HeaderPacket(h)), ChunkPacket(h.streamId, 0, first)),
                 ChunkPacket(h.streamId, 1, second))
  {
    var start, pieces := Sent(Silent, HeaderPacket(h)), [first, second];
    assert Payload(Silent) == [] && Payload(start) == [] && Block(start, h.streamId, pieces, 0) == start;
    assert Block(start, h.streamId, pieces, 1) == Sent(start, ChunkPacket(h.streamId, 0, first));
    FlattenSnoc([], first);
    FlattenSnoc([first], second);
  }

  // ---- What becomes of a one-shot send ----

  lemma FewerPiecesFewerBytes(pieces: seq<seq<byte>>, k: nat)
    requires k <= |pieces| && forall i | 0 <= i < |pieces| :: 0 < |pieces[i]|
    ensures TotalSize(pieces[..k]) <= TotalSize(pieces)
    ensures TotalSize(pieces[..k]) == TotalSize(pieces) <==> k == |pieces|
  {
    FlattenPrefix(pieces, k);
    if k < |pieces| {
      assert pieces[k..][0] == pieces[k];
    } else {
      assert pieces[..k] == pieces;
    }
  }

  /** What a reader finds when the acknowledged packets of a send of `size` bytes in `pieces` arrive in order. */
  function Expected(w: Wire, pieces: seq<seq<byte>>): Outcome<seq<byte>> {
    if TrailerCount(w) == 0 then Waiting
    else if Payload(w) == pieces then Finished(Success(Flatten(pieces)))
    else Finished(Failure(Incomplete))
  }

  /** A send of `pieces` under `h` has the outcome its wire calls for. */
  predicate Settled(s: Stream, w: Wire, pieces: seq<seq<byte>>) {
    && (w == Silent ==> s == Idle)
    && (w != Silent ==> |s.readers| == 1 && BytesRead(s.readers[0]) == Expected(w, pieces))
    && (s.live.Some? <==> w != Silent && TrailerCount(w) == 0)
  }

  lemma PiecesOutcome(h: Header, pieces: seq<seq<byte>>, transport: seq<SendOutcome>, hasRuntime: bool,
                      encryption: Encryption, identity: string, reserved: seq<string>)
    requires h.content.Some? && h.totalLength == Some(TotalSize(pieces))
    requires forall i | 0 <= i < |pieces| :: 0 < |pieces[i]|
    ensures var w := SentWire(h, pieces, false, transport, hasRuntime);
            Settled(Arrived(w, encryption, identity, reserved), w, pieces)
  {
    if Answer(transport, 0) == Acknowledged {
      var w := SentWire(h, pieces, false, transport, hasRuntime);
      var k := Acks(transport, 1, |pieces|);
      SentWireShape(h, pieces, false, transport, hasRuntime);
      FewerPiecesFewerBytes(pieces, k);
      assert k == |pieces| ==> pieces[..k] == pieces;
      DataOutcome(h, pieces, k, TrailerCount(w) == 1, encryption, identity, reserved);
    }
  }

  lemma SuccessMeansAll(h: Header, pieces: seq<seq<byte>>, transport: seq<SendOutcome>, hasRuntime: bool)
    requires SentResult(pieces, false, transport).Success?
    ensures var w := SentWire(h, pieces, false, transport, hasRuntime);
            w != Silent && Expected(w, pieces) == Finished(Success(Flatten(pieces)))
  {
    SentWireShape(h, pieces, false, transport, hasRuntime);
    assert pieces[..|pieces|] == pieces;
  }

  /** For every pattern of failed sends, the trailer sent on drop included: no reader if the header failed; else
      all the data exactly when every chunk and a trailer were acknowledged, `Incomplete` when a trailer was
      but not every chunk, and a stream left open when no trailer was. */
  lemma SendBytesOutcome(data: seq<byte>, id: string, topic: string, transport: seq<SendOutcome>, hasRuntime: bool,
                         encryption: Encryption, identity: string, reserved: seq<string>)
    ensures var pieces := ByteChunks(data, CHUNK_SIZE);
            var w := SentWire(BytesHeader(|data|, id, topic), pieces, false, transport, hasRuntime);
            && Flatten(pieces) == data
            && Settled(Run(Idle, InOrder(w, encryption, identity), reserved), w, pieces)
            && (SentResult(pieces, false, transport).Success? ==>
                  w != Silent && Expected(w, pieces) == Finished(Success(data)))
  {
    var h, pieces := BytesHeader(|data|, id, topic), ByteChunks(data, CHUNK_SIZE);
    ByteChunksCorrect(data, CHUNK_SIZE);
    PiecesOutcome(h, pieces, transport, hasRuntime, encryption, identity, reserved);
    ArrivedIsRun(SentWire(h, pieces, false, transport, hasRuntime), encryption, identity, reserved);
    if SentResult(pieces, false, transport).Success? {
      SuccessMeansAll(h, pieces, transport, hasRuntime);
    }
  }

  /** The same for text, which is read back as text. */
  lemma SendTextOutcome(text: string, id: string, topic: string, transport: seq<SendOutcome>, hasRuntime: bool,
                        encryption: Encryption, identity: string, reserved: seq<string>)
    ensures var pieces := TextChunks(text, CHUNK_SIZE);
            var w := SentWire(TextHeader(text, id, topic), pieces, false, transport, hasRuntime);
            var s := Run(Idle, InOrder(w, encryption, identity), reserved);
            && Settled(s, w, pieces)
            && (w != Silent ==>
                  TextRead(s.readers[0]) == if TrailerCount(w) == 0 then Waiting
                                            else if Payload(w) == pieces then Finished(Success(text))
                                            else Finished(Failure(Incomplete)))
            && (SentResult(pieces, false, transport).Success? ==>
                  w != Silent && TextRead(s.readers[0]) == Finished(Success(text)))
  {
    var h, pieces := TextHeader(text, id, topic), TextChunks(text, CHUNK_SIZE);
    var w := SentWire(h, pieces, false, transport, hasRuntime);
    OfferedFits(PutText(text));
    OfferedIsInput(PutText(text));
    PiecesOutcome(h, pieces, transport, hasRuntime, encryption, identity, reserved);
    ArrivedIsRun(w, encryption, identity, reserved);
    if w != Silent {
      SentWireShape(h, pieces, false, transport, hasRuntime);
      OnlyPieces(h, pieces, Acks(transport, 1, |pieces|), TrailerCount(w) == 1, encryption, identity, reserved);
      TextReadsLikeBytes(Arrived(w, encryption, identity, reserved).readers[0]);
      DecodeEncode(text);
    }
    if SentResult(pieces, false, transport).Success? {
      SuccessMeansAll(h, pieces, transport, hasRuntime);
    }
  }

  /** A reader of a send that keeps its declared length is sent pieces of it and nothing else. */
  lemma OnlyPieces(h: Header, pieces: seq<seq<byte>>, k: nat, trailer: bool, encryption: Encryption, identity: string,
                   reserved: seq<string>)
    requires h.content.Some? && h.totalLength == Some(TotalSize(pieces)) && k <= |pieces|
    ensures var s := Arrived(DataWire(h, pieces, k, trailer), encryption, identity, reserved);
            && |s.readers| == 1
            && forall i | 0 <= i < |s.readers[0].items| && s.readers[0].items[i].Data? ::
                 i < |pieces| && s.readers[0].items[i].bytes == pieces[i]
  {
    FlattenPrefix(pieces, k);
    AfterChunks(h, pieces, k, encryption, identity, reserved);
  }

  /** A file is sent as it reads, in short reads of any length. Its declared length is what its metadata said
      earlier, so a file that changes in between is caught: too much is an error, and so is too little. */
  lemma SendFileOutcome(size: nat, file: FileReads, id: string, topic: string, transport: seq<SendOutcome>,
                        hasRuntime: bool, encryption: Encryption, identity: string, reserved: seq<string>)
    ensures var w := SentWire(BytesHeader(size, id, topic), file.pieces, file.broken, transport, hasRuntime);
            var s := Run(Idle, InOrder(w, encryption, identity), reserved);
            var got := Flatten(Payload(w));
            && got <= Flatten(file.pieces)
            && (w == Silent <==> Answer(transport, 0) != Acknowledged)
            && (w == Silent ==> s == Idle)
            && (w != Silent ==>
                  && |s.readers| == 1
                  && BytesRead(s.readers[0]) == Verdict(Some(size), got, TrailerCount(w) == 1, None))
            && (s.live.Some? <==> w != Silent && |got| <= size && TrailerCount(w) == 0)
  {
    if Answer(transport, 0) == Acknowledged {
      var h := BytesHeader(size, id, topic);
      var w := SentWire(h, file.pieces, file.broken, transport, hasRuntime);
      var k := Acks(transport, 1, |file.pieces|);
      SentWireShape(h, file.pieces, file.broken, transport, hasRuntime);
      FlattenPrefix(file.pieces, k);
      DataOutcome(h, file.pieces, k, TrailerCount(w) == 1, encryption, identity, reserved);
      ArrivedIsRun(w, encryption, identity, reserved);
    }
  }

  /** A successful send of a file is read back exactly when the file had its declared length. */
  lemma FileRoundTripIff(size: nat, file: FileReads, id: string, topic: string, transport: seq<SendOutcome>,
                         hasRuntime: bool, encryption: Encryption, identity: string, reserved: seq<string>)
    requires SentResult(file.pieces, file.broken, transport).Success?
    ensures var w := SentWire(BytesHeader(size, id, topic), file.pieces, file.broken, transport, hasRuntime);
            var s := Run(Idle, InOrder(w, encryption, identity), reserved);
            && |s.readers| == 1
            && BytesRead(s.readers[0]) == Verdict(Some(size), Flatten(file.pieces), true, None)
            && (BytesRead(s.readers[0]) == Finished(Success(Flatten(file.pieces))) <==> |Flatten(file.pieces)| == size)
  {
    AllSent(BytesHeader(size, id, topic), file, transport, hasRuntime);
    SendFileOutcome(size, file, id, topic, transport, hasRuntime, encryption, identity, reserved);
  }

  lemma AllSent(h: Header, file: FileReads, transport: seq<SendOutcome>, hasRuntime: bool)
    requires SentResult(file.pieces, file.broken, transport).Success?
    ensures var w := SentWire(h, file.pieces, file.broken, transport, hasRuntime);
            w != Silent && Payload(w) == file.pieces && TrailerCount(w) == 1
  {
    SentWireShape(h, file.pieces, file.broken, transport, hasRuntime);
    assert file.pieces[..|file.pieces|] == file.pieces;
  }

  /** A file of one byte whose metadata said two, and one whose metadata said none: both sends succeed, and
      neither file is read back. */
  lemma FileChangedExample(id: string, topic: string, hasRuntime: bool, encryption: Encryption, identity: string,
                           reserved: seq<string>)
    ensures var file, transport := FileReads([[0x41]], false), [Acknowledged, Acknowledged, Acknowledged];
            var shrunk := SentWire(BytesHeader(2, id, topic), file.pieces, file.broken, transport, hasRuntime);
            var grown := SentWire(BytesHeader(0, id, topic), file.pieces, file.broken, transport, hasRuntime);
            var s := Run(Idle, InOrder(shrunk, encryption, identity), reserved);
            var g := Run(Idle, InOrder(grown, encryption, identity), reserved);
            && file.Plausible() && SentResult(file.pieces, file.broken, transport).Success?
            && |s.readers| == 1 && BytesRead(s.readers[0]) == Finished(Failure(Incomplete))
            && |g.readers| == 1 && BytesRead(g.readers[0]) == Finished(Failure(LengthExceeded))
  {
    var file, transport := FileReads([[0x41]], false), [Acknowledged, Acknowledged, Acknowledged];
    AcksIs(transport, 1, 1, 1);
    FlattenSnoc([], [0x41]);
    assert [] + [[0x41]] == file.pieces;
    FileRoundTripIff(2, file, id, topic, transport, hasRuntime, encryption, identity, reserved);
    FileRoundTripIff(0, file, id, topic, transport, hasRuntime, encryption, identity, reserved);
  }

  // ---- The three programs put together ----

  lemma {:induction false} InOrderIsOfOneId(w: Wire, header: Header, encryption: Encryption, identity: string)
    requires WellNumbered(w, header)
    ensures EventsOf(InOrder(w, encryption, identity), header.streamId) == InOrder(w, encryption, identity)
  {
    EventsSnoc(InOrder(w.earlier, encryption, identity), Arrival(w.packet, encryption, identity), header.streamId);
    if w.earlier != Silent {
      InOrderIsOfOneId(w.earlier, header, encryption, identity);
    }
  }

  lemma BodyKeepsInfo(s: Stream, p: Packet, encryption: Encryption, identity: string, reserved: seq<string>)
    requires s.Fed() && !p.HeaderPacket?
    ensures var s' := Step(s, Arrival(p, encryption, identity), reserved);
            && |s'.readers| == |s.readers|
            && forall n | 0 <= n < |s.readers| :: s'.readers[n].info == s.readers[n].info
  {
  }

  predicate ReadersOf(s: Stream, info: StreamInfo) {
    forall n | 0 <= n < |s.readers| :: s.readers[n].info == info
  }

  /** Every reader of a wire has what its header says. */
  lemma {:induction false} ReadersAreOfHeader(w: Wire, header: Header, encryption: Encryption, identity: string,
                                              reserved: seq<string>)
    requires WellNumbered(w, header)
    ensures var s := Arrived(w, encryption, identity, reserved);
            if header.content.None? then s == Idle
            else ReadersOf(s, StreamInfo(header.streamId, header.topic, header.totalLength, header.content.value,
                                         encryption))
  {
    if w.earlier == Silent {
      assert Arrived(w.earlier, encryption, identity, reserved) == Idle;
    } else {
      ReadersAreOfHeader(w.earlier, header, encryption, identity, reserved);
      BodyKeepsInfo(Arrived(w.earlier, encryption, identity, reserved), w.packet, encryption, identity, reserved);
    }
  }

  /** Deliver a wire in order to a fresh manager and read the stream it opens, as its header says. */
  method DeliverAndRead(w: Wire, header: Header, encryption: Encryption, identity: string, reserved: seq<string>)
    returns (read: AnyRead)
    requires WellNumbered(w, header) && |Run(Idle, InOrder(w, encryption, identity), reserved).readers| == 1
    ensures var c := Run(Idle, InOrder(w, encryption, identity), reserved).readers[0];
            && (header.content == Some(Text) ==> read == AsText(TextRead(c)))
            && (header.content == Some(Bytes) ==> read == AsBytes(BytesRead(c)))
  {
    InOrderIsOfOneId(w, header, encryption, identity);
    ReadersAreOfHeader(w, header, encryption, identity, reserved);
    ArrivedIsRun(w, encryption, identity, reserved);
    var manager := new IncomingStreamManager(reserved);
    manager.HandleAll(InOrder(w, encryption, identity));
    assert manager.View(header.streamId) == Run(Idle, InOrder(w, encryption, identity), reserved);
    var reader := Locate(manager.channels, header.streamId, 0);
    ReplaceOne(manager.channels, reader, manager.channels[reader], header.streamId);
    read := ReadAny(manager.channels[reader]);
  }

  /** What becomes of a send of `n` chunks when send `f` is the first to fail: the header is send 0 and the close send
      `n + 1`. `onDrop` says that the trailer the drop sends then is acknowledged. */
  function Expects<T>(f: nat, n: nat, onDrop: bool, data: T): Option<Outcome<T>> {
    if f == 0 then None
    else if f > n + 1 then Some(Finished(Success(data)))
    else if !onDrop then Some(Waiting)
    else if f <= n then Some(Finished(Failure(Incomplete)))
    else Some(Finished(Success(data)))
  }

  lemma ExpectedByFirstFailure(header: Header, pieces: seq<seq<byte>>, transport: seq<SendOutcome>, hasRuntime: bool)
    ensures var w, f := SentWire(header, pieces, false, transport, hasRuntime), FirstFailure(transport, 0);
            var e := Expects(f, |pieces|, hasRuntime && Answer(transport, f + 1) == Acknowledged, Flatten(pieces));
            if w == Silent then e.None? else e == Some(Expected(w, pieces))
  {
    var f := FirstFailure(transport, 0);
    SentByFirstFailure(header, pieces, false, transport, hasRuntime);
    if f > 0 {
      SentWireShape(header, pieces, false, transport, hasRuntime);
      AcksIs(transport, 1, |pieces|, if f <= |pieces| then f - 1 else |pieces|);
      assert pieces[..|pieces|] == pieces;
    }
  }

  /** Send a text, deliver what was acknowledged to a fresh manager, and read the stream if one opened. */
  method TransferText(text: string, id: string, topic: string, transport: seq<SendOutcome>, hasRuntime: bool,
                      encryption: Encryption, identity: string, reserved: seq<string>)
    returns (r: Result<(), StreamError>, outcome: Option<AnyRead>)
    ensures var f, n := FirstFailure(transport, 0), |TextChunks(text, 15000)|;
            var e := Expects(f, n, hasRuntime && Answer(transport, f + 1) == Acknowledged, text);
            && (f <= n + 1 ==> Reported(Answer(transport, f), r)) && (f > n + 1 ==> r == Success(()))
            && outcome == if e.None? then None else Some(AsText(e.value))
  {
    var w;
    r, w := SendText(text, id, topic, transport, hasRuntime);
    var pieces, h := TextChunks(text, CHUNK_SIZE), Header(id, topic, Some(|Encode(text)|), Some(Text));
    SendTextOutcome(text, id, topic, transport, hasRuntime, encryption, identity, reserved);
    ExpectedByFirstFailure(h, pieces, transport, hasRuntime);
    SentByFirstFailure(h, pieces, false, transport, hasRuntime);
    if w == Silent {
      return r, None;
    }
    SentWireShape(h, pieces, false, transport, hasRuntime);
    var read := DeliverAndRead(w, h, encryption, identity, reserved);
    outcome := Some(read);
  }

  /** The same with bytes. */
  method TransferBytes(data: seq<byte>, id: string, topic: string, transport: seq<SendOutcome>, hasRuntime: bool,
                       encryption: Encryption, identity: string, reserved: seq<string>)
    returns (r: Result<(), StreamError>, outcome: Option<AnyRead>)
    ensures var f, n := FirstFailure(transport, 0), |ByteChunks(data, 15000)|;
            var e := Expects(f, n, hasRuntime && Answer(transport, f + 1) == Acknowledged, data);
            && (f <= n + 1 ==> Reported(Answer(transport, f), r)) && (f > n + 1 ==> r == Success(()))
            && outcome == if e.None? then None else Some(AsBytes(e.value))
  {
    var w;
    r, w := SendBytes(data, id, topic, transport, hasRuntime);
    var pieces, h := ByteChunks(data, CHUNK_SIZE), Header(id, topic, Some(|data|), Some(Bytes));
    SendBytesOutcome(data, id, topic, transport, hasRuntime, encryption, identity, reserved);
    ExpectedByFirstFailure(h, pieces, transport, hasRuntime);
    SentByFirstFailure(h, pieces, false, transport, hasRuntime);
    if w == Silent {
      return r, None;
    }
    SentWireShape(h, pieces, false, transport, hasRuntime);
    var read := DeliverAndRead(w, h, encryption, identity, reserved);
    outcome := Some(read);
  }
}
