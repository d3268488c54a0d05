/** What one stream id goes through at the receiver: a machine on its own, with no other stream in sight.

    A reader stays attached to its channel; an id whose stream has ended can be opened again, so a
    machine keeps the channels of all its readers, the last one being fed while the stream is live. */
module StreamMachine {
  import opened Base
  import opened Protocol

  datatype Item = Data(bytes: seq<byte>) | Error(error: StreamError)

  /** An unbounded channel from the manager to a reader: what was sent on it and which ends are still there. */
  datatype Channel = Channel(info: StreamInfo, identity: string, items: seq<Item>, senderOpen: bool, readerOpen: bool) {
    /** A send succeeds only while the reader is there. */
    function Send(item: Item): Channel {
      if readerOpen then this.(items := items + [item]) else this
    }

    function CloseSender(): Channel {
      this.(senderOpen := false)
    }

    function CloseReader(): Channel {
      this.(readerOpen := false)
    }
  }

  function NewChannel(info: StreamInfo, identity: string): Channel {
    Channel(info, identity, [], true, true)
  }

  datatype Descriptor = Descriptor(progress: Progress, encryption: Encryption, isInternal: bool)

  datatype Stream = Stream(readers: seq<Channel>, live: Option<Descriptor>) {
    predicate Fed() {
      live.Some? ==> readers != []
    }

    function Current(): Channel
      requires readers != []
    {
      readers[|readers| - 1]
    }

    function Update(c: Channel, live: Option<Descriptor>): Stream
      requires readers != []
    {
      Stream(readers[|readers| - 1 := c], live)
    }
  }

  const Idle := Stream([], None)

  datatype Event =
    | Arrival(packet: Packet, encryption: Encryption, identity: string)
    | ReaderGone(streamId: string, nth: nat)
  {
    function StreamId(): string {
      match this
      case Arrival(p, _, _) => p.StreamId()
      case ReaderGone(id, _) => id
    }
  }

  function OnHeader(s: Stream, h: Header, encryption: Encryption, identity: string, reserved: seq<string>): Stream {
    var info := InfoFromHeader(h, encryption);
    if info.Failure? || s.live.Some? then s
    else
      Stream(s.readers + [NewChannel(info.value, identity)],
             Some(Descriptor(Progress(0, 0, h.totalLength), encryption, h.topic in reserved)))
  }

  function CloseWithError(s: Stream, e: StreamError): Stream
    requires s.readers != []
  {
    s.Update(s.Current().Send(Error(e)).CloseSender(), None)
  }

  function Close(s: Stream): Stream
    requires s.readers != []
  {
    s.Update(s.Current().CloseSender(), None)
  }

  predicate Exceeds(total: Option<nat>, processed: nat) {
    total.Some? && processed > total.value
  }

  function OnChunk(s: Stream, index: nat, content: seq<byte>, encryption: Encryption): Stream
    requires s.Fed()
  {
    if s.live.None? then s
    else
      var d := s.live.value;
      var p := Progress(d.progress.chunkIndex + 1, d.progress.bytesProcessed + |content|, d.progress.bytesTotal);
      if d.encryption != encryption then CloseWithError(s, EncryptionTypeMismatch)
      else if d.progress.chunkIndex != index then CloseWithError(s, MissedChunk)
      else if Exceeds(p.bytesTotal, p.bytesProcessed) then CloseWithError(s, LengthExceeded)
      else if !s.Current().readerOpen then Close(s)
      else s.Update(s.Current().Send(Data(content)), Some(d.(progress := p)))
  }

  function OnTrailer(s: Stream, reason: string): Stream
    requires s.Fed()
  {
    if s.live.None? then s
    else
      var p := s.live.value.progress;
      if p.bytesTotal.Some? && p.bytesProcessed < p.bytesTotal.value then CloseWithError(s, Incomplete)
      else if reason != "" then CloseWithError(s, AbnormalEnd(reason))
      else Close(s)
  }

  function OnReaderGone(s: Stream, nth: nat): Stream {
    if nth < |s.readers| then s.(readers := s.readers[nth := s.readers[nth].CloseReader()]) else s
  }

  function Step(s: Stream, e: Event, reserved: seq<string>): (s': Stream)
    requires s.Fed()
    ensures s'.Fed()
  {
    match e
    case ReaderGone(_, nth) => OnReaderGone(s, nth)
    case Arrival(HeaderPacket(h), encryption, identity) => OnHeader(s, h, encryption, identity, reserved)
    case Arrival(ChunkPacket(_, index, content), encryption, _) => OnChunk(s, index, content, encryption)
    case Arrival(TrailerPacket(_, reason), _, _) => OnTrailer(s, reason)
  }

  /** A whole run, oldest event first. */
  function Run(s: Stream, events: seq<Event>, reserved: seq<string>): (s': Stream)
    requires s.Fed()
    ensures s'.Fed()
  {
    if events == [] then s
    else Step(Run(s, events[..|events| - 1], reserved), events[|events| - 1], reserved)
  }

  lemma RunSnoc(s: Stream, events: seq<Event>, e: Event, reserved: seq<string>)
    requires s.Fed()
    ensures Run(s, events + [e], reserved) == Step(Run(s, events, reserved), e, reserved)
  {
    assert (events + [e])[..|events|] == events;
  }

  // ---- What every reachable state keeps ----

  predicate AllData(items: seq<Item>) {
    forall i | 0 <= i < |items| :: items[i].Data?
  }

  /** The chunks among `items`, in order. */
  function Contents(items: seq<Item>): seq<seq<byte>> {
    if items == [] then []
    else
      var last := items[|items| - 1];
      Contents(items[..|items| - 1]) + (if last.Data? then [last.bytes] else [])
  }

  lemma ContentsSnoc(items: seq<Item>, item: Item)
    ensures Contents(items + [item]) == Contents(items) + (if item.Data? then [item.bytes] else [])
    ensures TotalSize(Contents(items + [item])) == TotalSize(Contents(items)) + (if item.Data? then |item.bytes| else 0)
  {
    assert (items + [item])[..|items|] == items;
    if item.Data? {
      FlattenSnoc(Contents(items), item.bytes);
    } else {
      assert Contents(items) + [] == Contents(items);
    }
  }

  lemma {:induction false} ContentsOfData(items: seq<Item>)
    requires AllData(items)
    ensures |Contents(items)| == |items|
    ensures forall i | 0 <= i < |items| :: Contents(items)[i] == items[i].bytes
  {
    if items != [] {
      ContentsOfData(items[..|items| - 1]);
    }
  }

  /** Chunks, then at most one error, and the error ends the channel. */
  predicate ChannelShape(c: Channel) {
    && (forall i | 0 <= i < |c.items| - 1 :: c.items[i].Data?)
    && (c.items != [] && c.items[|c.items| - 1].Error? ==> !c.senderOpen)
  }

  /** Never more bytes than declared; and exactly as many when the channel ended without an error on its reader. */
  predicate LengthKept(c: Channel) {
    c.info.totalLength.Some? ==>
      && TotalSize(Contents(c.items)) <= c.info.totalLength.value
      && (!c.senderOpen && c.readerOpen && AllData(c.items) ==>
            TotalSize(Contents(c.items)) == c.info.totalLength.value)
  }

  /** The bookkeeping of a live stream agrees with what its reader was sent. */
  predicate LiveAgrees(d: Descriptor, c: Channel, reserved: seq<string>) {
    && c.senderOpen
    && AllData(c.items)
    && d.progress == Progress(|c.items|, TotalSize(Contents(c.items)), c.info.totalLength)
    && d.encryption == c.info.encryption
    && d.isInternal == (c.info.topic in reserved)
  }

  predicate Reachable(s: Stream, reserved: seq<string>) {
    && s.Fed()
    && (forall n | 0 <= n < |s.readers| :: ChannelShape(s.readers[n]) && LengthKept(s.readers[n]))
    && (forall n | 0 <= n < |s.readers| :: s.readers[n].senderOpen ==> s.live.Some? && n == |s.readers| - 1)
    && (s.live.Some? ==> LiveAgrees(s.live.value, s.Current(), reserved))
  }

  lemma FailureKeepsReachable(s: Stream, e: StreamError, reserved: seq<string>)
    requires Reachable(s, reserved) && s.live.Some?
    ensures Reachable(CloseWithError(s, e), reserved)
  {
    var c := s.Current();
    var c' := c.Send(Error(e)).CloseSender();
    ContentsSnoc(c.items, Error(e));
    if c.readerOpen {
      assert c'.items[|c.items|].Error?;
    }
    assert ChannelShape(c') && LengthKept(c');
  }

  lemma AcceptKeepsReachable(s: Stream, content: seq<byte>, p: Progress, reserved: seq<string>)
    requires Reachable(s, reserved) && s.live.Some? && s.Current().readerOpen
    requires var q := s.live.value.progress;
             p == Progress(q.chunkIndex + 1, q.bytesProcessed + |content|, q.bytesTotal)
    requires !Exceeds(p.bytesTotal, p.bytesProcessed)
    ensures Reachable(s.Update(s.Current().Send(Data(content)), Some(s.live.value.(progress := p))), reserved)
  {
    var c := s.Current();
    var c' := c.Send(Data(content));
    ContentsSnoc(c.items, Data(content));
    assert ChannelShape(c') && LengthKept(c');
  }

  lemma ChunkKeepsReachable(s: Stream, index: nat, content: seq<byte>, encryption: Encryption, reserved: seq<string>)
    requires Reachable(s, reserved)
    ensures Reachable(OnChunk(s, index, content, encryption), reserved)
  {
    if s.live.Some? {
      var d := s.live.value;
      var p := Progress(d.progress.chunkIndex + 1, d.progress.bytesProcessed + |content|, d.progress.bytesTotal);
      FailureKeepsReachable(s, EncryptionTypeMismatch, reserved);
      FailureKeepsReachable(s, MissedChunk, reserved);
      FailureKeepsReachable(s, LengthExceeded, reserved);
      if s.Current().readerOpen {
        if !Exceeds(p.bytesTotal, p.bytesProcessed) {
          AcceptKeepsReachable(s, content, p, reserved);
        }
      } else {
        DepartureKeepsReachable(s, reserved);
      }
    }
  }

  lemma DepartureKeepsReachable(s: Stream, reserved: seq<string>)
    requires Reachable(s, reserved) && s.live.Some? && !s.Current().readerOpen
    ensures Reachable(Close(s), reserved)
  {
    assert LengthKept(s.Current().CloseSender());
  }

  lemma TrailerKeepsReachable(s: Stream, reason: string, reserved: seq<string>)
    requires Reachable(s, reserved)
    ensures Reachable(OnTrailer(s, reason), reserved)
  {
    if s.live.Some? {
      FailureKeepsReachable(s, Incomplete, reserved);
      FailureKeepsReachable(s, AbnormalEnd(reason), reserved);
    }
  }

  lemma StepKeepsReachable(s: Stream, e: Event, reserved: seq<string>)
    requires Reachable(s, reserved)
    ensures Reachable(Step(s, e, reserved), reserved)
  {
    match e
    case ReaderGone(_, nth) =>
    case Arrival(HeaderPacket(h), encryption, identity) =>
    case Arrival(ChunkPacket(_, index, content), encryption, _) =>
      ChunkKeepsReachable(s, index, content, encryption, reserved);
    case Arrival(TrailerPacket(_, reason), _, _) =>
      TrailerKeepsReachable(s, reason, reserved);
  }

  /** Channel shape, bookkeeping and exact length hold after every run whatsoever. */
  lemma {:induction false} EveryRunReachable(events: seq<Event>, reserved: seq<string>)
    ensures Reachable(Run(Idle, events, reserved), reserved)
  {
    if events != [] {
      EveryRunReachable(events[..|events| - 1], reserved);
      StepKeepsReachable(Run(Idle, events[..|events| - 1], reserved), events[|events| - 1], reserved);
    }
  }

  // ---- Channels only grow, and an ended one is final ----

  predicate Later(c: Channel, c': Channel) {
    && c'.info == c.info && c'.identity == c.identity
    && c.items <= c'.items
    && (!c.senderOpen ==> !c'.senderOpen && c'.items == c.items)
    && (!c.readerOpen ==> !c'.readerOpen && c'.items == c.items)
  }

  predicate AllLater(s: Stream, s': Stream) {
    |s.readers| <= |s'.readers| && forall n | 0 <= n < |s.readers| :: Later(s.readers[n], s'.readers[n])
  }

  lemma ChunkIsLater(s: Stream, index: nat, content: seq<byte>, encryption: Encryption)
    requires s.Fed() && (s.live.Some? ==> s.Current().senderOpen)
    ensures AllLater(s, OnChunk(s, index, content, encryption))
  {
  }

  lemma TrailerIsLater(s: Stream, reason: string)
    requires s.Fed() && (s.live.Some? ==> s.Current().senderOpen)
    ensures AllLater(s, OnTrailer(s, reason))
  {
  }

  lemma StepIsLater(s: Stream, e: Event, reserved: seq<string>)
    requires Reachable(s, reserved)
    ensures AllLater(s, Step(s, e, reserved))
  {
    match e
    case ReaderGone(_, nth) =>
    case Arrival(HeaderPacket(h), encryption, identity) =>
    case Arrival(ChunkPacket(_, index, content), encryption, _) =>
      ChunkIsLater(s, index, content, encryption);
    case Arrival(TrailerPacket(_, reason), _, _) =>
      TrailerIsLater(s, reason);
  }

  /** Whatever happens next, what a reader was sent stays, and an error or a close is the last of it. */
  lemma {:induction false} ChannelsAreFinal(s: Stream, events: seq<Event>, reserved: seq<string>)
    requires Reachable(s, reserved)
    ensures Reachable(Run(s, events, reserved), reserved) && AllLater(s, Run(s, events, reserved))
  {
    if events != [] {
      var s' := Run(s, events[..|events| - 1], reserved);
      ChannelsAreFinal(s, events[..|events| - 1], reserved);
      StepKeepsReachable(s', events[|events| - 1], reserved);
      StepIsLater(s', events[|events| - 1], reserved);
    }
  }
}
