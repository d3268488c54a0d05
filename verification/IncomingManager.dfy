/** The receiving end: one map of open streams shared by all ids, and the channels to all readers.

    A channel is named by its position in `channels`, which stands for the two halves that the sender and the
    reader hold. The store is shared by all streams: that no handler ever uses the position of another stream's
    channel is part of what is proved. */
module IncomingManager {
  import opened Base
  import opened Protocol
  import opened StreamMachine

  datatype Slot = Slot(descriptor: Descriptor, chunkTx: nat)

  /** A chunk in step first moves the counters and then is sent, or is the one too many. */
  function Accepted(s: Stream, content: seq<byte>): Stream
    requires s.live.Some? && s.readers != []
  {
    var p := s.live.value.progress;
    var moved := Progress(p.chunkIndex + 1, p.bytesProcessed + |content|, p.bytesTotal);
    var s' := s.(live := Some(s.live.value.(progress := moved)));
    if Exceeds(moved.bytesTotal, moved.bytesProcessed) then CloseWithError(s', LengthExceeded)
    else if s'.Current().readerOpen then s'.Update(s'.Current().Send(Data(content)), s'.live)
    else Close(s')
  }

  lemma InStepChunk(s: Stream, index: nat, content: seq<byte>, encryption: Encryption)
    requires s.live.Some? && s.readers != []
    requires s.live.value.encryption == encryption && s.live.value.progress.chunkIndex == index
    ensures OnChunk(s, index, content, encryption) == Accepted(s, content)
  {
  }

  class IncomingStreamManager {
    const reservedTopics: seq<string>
    var openStreams: map<string, Slot>
    /** Every channel made, in the order its reader was announced. */
    var channels: seq<Channel>

    /** An open stream feeds the newest channel of its own id, and is internal exactly when its topic is reserved. */
    ghost predicate Valid()
      reads this
    {
      forall id | id in openStreams ::
        var tx := openStreams[id].chunkTx;
        && tx < |channels|
        && channels[tx].info.id == id
        && openStreams[id].descriptor.isInternal == (channels[tx].info.topic in reservedTopics)
        && forall j | tx < j < |channels| :: channels[j].info.id != id
    }

    /** What one id looks like when every other id is left out. */
    ghost function View(id: string): Stream
      reads this
    {
      Stream(ChannelsOf(channels, id), if id in openStreams then Some(openStreams[id].descriptor) else None)
    }

    constructor (reservedTopics: seq<string>)
      ensures this.reservedTopics == reservedTopics
      ensures Valid() && forall id :: View(id) == Idle
    {
      this.reservedTopics := reservedTopics;
      openStreams := map[];
      channels := [];
    }

    method HandleHeader(header: Header, identity: string, encryption: Encryption)
      requires Valid()
      modifies this
      ensures Valid()
      ensures View(header.streamId)
           == OnHeader(old(View(header.streamId)), header, encryption, identity, reservedTopics)
      ensures forall id | id != header.streamId :: View(id) == old(View(id))
      ensures header.content.None? || header.streamId in old(openStreams) ==>
                channels == old(channels) && openStreams == old(openStreams)
      ensures header.content.Some? && header.streamId !in old(openStreams) ==>
                && header.streamId in openStreams
                && channels == old(channels)
                   + [Channel(StreamInfo(header.streamId, header.topic, header.totalLength, header.content.value,
                                         encryption), identity, [], true, true)]
    {
      var isInternal := header.topic in reservedTopics;
      var info := InfoFromHeader(header, encryption);
      if info.Failure? {
        return;
      }
      var id := info.value.id;
      if id in openStreams {
        return;
      }
      channels := channels + [NewChannel(info.value, identity)];
      ghost var before := old(channels);
      assert channels[..|before|] == before;
      var descriptor := Descriptor(Progress(0, 0, info.value.totalLength), info.value.encryption, isInternal);
      openStreams := openStreams[id := Slot(descriptor, |channels| - 1)];
    }

    method IsInternal(streamId: string) returns (r: bool)
      requires Valid()
      ensures View(streamId).Fed()
      ensures r <==> View(streamId).live.Some? && View(streamId).Current().info.topic in reservedTopics
    {
      OpenMeansFed(streamId);
      return streamId in openStreams && openStreams[streamId].descriptor.isInternal;
    }

    method HandleChunk(id: string, chunkIndex: nat, content: seq<byte>, encryption: Encryption)
      requires Valid()
      modifies this
      ensures Valid()
      ensures old(View(id)).Fed()
      ensures View(id) == OnChunk(old(View(id)), chunkIndex, content, encryption)
      ensures forall other | other != id :: View(other) == old(View(other))
    {
      OpenMeansFed(id);
      if id !in openStreams {
        return;
      }
      var slot := openStreams[id];
      if slot.descriptor.encryption != encryption {
        CloseStreamWithError(id, EncryptionTypeMismatch);
        return;
      }
      var progress := slot.descriptor.progress;
      if progress.chunkIndex != chunkIndex {
        CloseStreamWithError(id, MissedChunk);
        return;
      }
      InStepChunk(View(id), chunkIndex, content, encryption);
      AcceptChunk(id, content);
    }

    /** The rest of `handle_chunk`, once the chunk is in step. */
    method AcceptChunk(id: string, content: seq<byte>)
      requires Valid() && id in openStreams
      modifies this
      ensures Valid()
      ensures old(View(id)).live.Some? && old(View(id)).readers != []
      ensures View(id) == Accepted(old(View(id)), content)
      ensures forall other | other != id :: View(other) == old(View(other))
    {
      OpenMeansFed(id);
      var progress := openStreams[id].descriptor.progress;
      progress := Progress(progress.chunkIndex + 1, progress.bytesProcessed + |content|, progress.bytesTotal);
      SetProgress(id, progress);
      if Exceeds(progress.bytesTotal, progress.bytesProcessed) {
        CloseStreamWithError(id, LengthExceeded);
        return;
      }
      YieldChunk(id, content);
    }

    method SetProgress(id: string, progress: Progress)
      requires Valid() && id in openStreams
      modifies this`openStreams
      ensures Valid() && id in openStreams
      ensures var s := old(View(id)); View(id) == s.(live := Some(s.live.value.(progress := progress)))
      ensures forall other | other != id :: View(other) == old(View(other))
    {
      var slot := openStreams[id];
      openStreams := openStreams[id := slot.(descriptor := slot.descriptor.(progress := progress))];
    }

    method HandleTrailer(id: string, reason: string)
      requires Valid()
      modifies this
      ensures Valid()
      ensures old(View(id)).Fed()
      ensures View(id) == OnTrailer(old(View(id)), reason)
      ensures id !in openStreams
      ensures forall other | other != id :: View(other) == old(View(other))
    {
      OpenMeansFed(id);
      if id !in openStreams {
        return;
      }
      var progress := openStreams[id].descriptor.progress;
      if progress.bytesTotal.Some? && progress.bytesProcessed < progress.bytesTotal.value {
        CloseStreamWithError(id, Incomplete);
        return;
      }
      if reason != "" {
        CloseStreamWithError(id, AbnormalEnd(reason));
        return;
      }
      CloseStream(id);
    }

    method YieldChunk(id: string, chunk: seq<byte>)
      requires Valid()
      modifies this
      ensures Valid()
      ensures old(View(id)).Fed()
      ensures var s := old(View(id));
              View(id) == if s.live.None? then s
                          else if s.Current().readerOpen then s.Update(s.Current().Send(Data(chunk)), s.live)
                          else Close(s)
      ensures forall other | other != id :: View(other) == old(View(other))
    {
      OpenMeansFed(id);
      if id !in openStreams {
        return;
      }
      var tx := openStreams[id].chunkTx;
      if channels[tx].readerOpen {
        Replace(id, channels[tx].Send(Data(chunk)));
      } else {
        CloseStream(id);
      }
    }

    method CloseStream(id: string)
      requires Valid()
      modifies this
      ensures Valid()
      ensures old(View(id)).Fed()
      ensures var s := old(View(id));
              View(id) == if s.live.None? then s else Close(s)
      ensures id !in openStreams
      ensures forall other | other != id :: View(other) == old(View(other))
    {
      OpenMeansFed(id);
      if id in openStreams {
        Replace(id, channels[openStreams[id].chunkTx].CloseSender());
        openStreams := openStreams - {id};
      }
    }

    method CloseStreamWithError(id: string, error: StreamError)
      requires Valid()
      modifies this
      ensures Valid()
      ensures old(View(id)).Fed()
      ensures var s := old(View(id));
              View(id) == if s.live.None? then s else CloseWithError(s, error)
      ensures id !in openStreams
      ensures forall other | other != id :: View(other) == old(View(other))
    {
      OpenMeansFed(id);
      if id in openStreams {
        Replace(id, channels[openStreams[id].chunkTx].Send(Error(error)).CloseSender());
        openStreams := openStreams - {id};
      }
    }

    /** Puts a new value into the channel an open stream feeds. */
    method Replace(id: string, c: Channel)
      requires Valid() && id in openStreams && c.info == channels[openStreams[id].chunkTx].info
      modifies this`channels
      ensures Valid()
      ensures old(View(id)).readers != [] && View(id) == old(View(id)).Update(c, old(View(id)).live)
      ensures forall other | other != id :: View(other) == old(View(other))
    {
      var tx := openStreams[id].chunkTx;
      ghost var before := channels;
      LastOfId(before, tx);
      channels := channels[tx := c];
      forall other
        ensures ChannelsOf(channels, other)
             == if other == id then ChannelsOf(before, id)[Rank(before, tx) := c] else ChannelsOf(before, other)
      {
        ReplaceOne(before, tx, c, other);
      }
    }

    /** The reader named by a position is dropped, or closes its half of the channel. */
    method DropReader(h: nat)
      requires Valid() && h < |channels|
      modifies this`channels
      ensures Valid()
      ensures var c := old(channels)[h];
              View(c.info.id) == OnReaderGone(old(View(c.info.id)), Rank(old(channels), h))
      ensures forall other | other != old(channels)[h].info.id :: View(other) == old(View(other))
    {
      ghost var before := channels;
      var c := channels[h].CloseReader();
      ReplaceOne(before, h, c, c.info.id);
      channels := channels[h := c];
      forall other
        ensures ChannelsOf(channels, other)
             == if other == c.info.id then ChannelsOf(before, c.info.id)[Rank(before, h) := c]
                else ChannelsOf(before, other)
      {
        ReplaceOne(before, h, c, other);
      }
    }

    /** Whatever arrives next: a packet from the transport or word of a reader that is gone. */
    method Handle(e: Event)
      requires Valid()
      modifies this
      ensures Valid()
      ensures old(View(e.StreamId())).Fed()
      ensures View(e.StreamId()) == Step(old(View(e.StreamId())), e, reservedTopics)
      ensures forall id | id != e.StreamId() :: View(id) == old(View(id))
    {
      OpenMeansFed(e.StreamId());
      match e
      case ReaderGone(id, nth) =>
        if nth < |ChannelsOf(channels, id)| {
          var h := Locate(channels, id, nth);
          DropReader(h);
        }
      case Arrival(HeaderPacket(header), encryption, identity) =>
        HandleHeader(header, identity, encryption);
      case Arrival(ChunkPacket(id, index, content), encryption, _) =>
        HandleChunk(id, index, content, encryption);
      case Arrival(TrailerPacket(id, reason), _, _) =>
        HandleTrailer(id, reason);
    }

    /** Any interleaving of packets and departing readers: the shared map behaves, for every id, like a machine
        that is fed that id's events and no others. */
    method HandleAll(events: seq<Event>)
      requires Valid() && forall id :: View(id) == Idle
      modifies this
      ensures Valid()
      ensures forall id :: View(id) == Run(Idle, EventsOf(events, id), reservedTopics)
    {
      var i := 0;
      while i < |events|
        invariant 0 <= i <= |events| && Valid()
        invariant forall id :: View(id) == Run(Idle, EventsOf(events[..i], id), reservedTopics)
      {
        assert events[..i + 1] == events[..i] + [events[i]];
        forall id
          ensures Run(Idle, EventsOf(events[..i + 1], id), reservedTopics)
               == if id == events[i].StreamId()
                  then Step(Run(Idle, EventsOf(events[..i], id), reservedTopics), events[i], reservedTopics)
                  else Run(Idle, EventsOf(events[..i], id), reservedTopics)
        {
          EventsSnoc(events[..i], events[i], id);
          if id == events[i].StreamId() {
            RunSnoc(Idle, EventsOf(events[..i], id), events[i], reservedTopics);
          } else {
            assert EventsOf(events[..i], id) + [] == EventsOf(events[..i], id);
          }
        }
        Handle(events[i]);
        i := i + 1;
      }
      assert events[..|events|] == events;
    }

    lemma OpenMeansFed(id: string)
      requires Valid()
      ensures View(id).Fed()
      ensures id in openStreams ==> View(id).Current() == channels[openStreams[id].chunkTx]
    {
      if id in openStreams {
        LastOfId(channels, openStreams[id].chunkTx);
      }
    }
  }

  /** The channels of one id, oldest first. */
  function ChannelsOf(channels: seq<Channel>, id: string): seq<Channel> {
    if channels == [] then []
    else
      var last := channels[|channels| - 1];
      ChannelsOf(channels[..|channels| - 1], id) + (if last.info.id == id then [last] else [])
  }

  /** How many channels of the same id came before. */
  function Rank(channels: seq<Channel>, h: nat): nat
    requires h < |channels|
  {
    |ChannelsOf(channels[..h], channels[h].info.id)|
  }

  /** Changing one channel changes one entry of one id, and nothing of any other id. */
  lemma {:induction false} ReplaceOne(channels: seq<Channel>, h: nat, c: Channel, id: string)
    requires h < |channels| && c.info.id == channels[h].info.id
    ensures id != c.info.id ==> ChannelsOf(channels[h := c], id) == ChannelsOf(channels, id)
    ensures id == c.info.id ==>
              && Rank(channels, h) < |ChannelsOf(channels, id)|
              && ChannelsOf(channels, id)[Rank(channels, h)] == channels[h]
              && ChannelsOf(channels[h := c], id) == ChannelsOf(channels, id)[Rank(channels, h) := c]
  {
    var init := channels[..|channels| - 1];
    if h == |channels| - 1 {
      assert channels[h := c][..h] == init;
    } else {
      ReplaceOne(init, h, c, id);
      assert channels[h := c][..|channels| - 1] == init[h := c];
      assert init[..h] == channels[..h];
    }
  }

  /** The newest channel of an id comes last among its channels. */
  lemma {:induction false} LastOfId(channels: seq<Channel>, h: nat)
    requires h < |channels|
    requires forall j | h < j < |channels| :: channels[j].info.id != channels[h].info.id
    ensures var own := ChannelsOf(channels, channels[h].info.id);
            own != [] && Rank(channels, h) == |own| - 1 && own[|own| - 1] == channels[h]
  {
    if h < |channels| - 1 {
      LastOfId(channels[..|channels| - 1], h);
      assert channels[..|channels| - 1][..h] == channels[..h];
    }
  }

  /** Where the `nth` channel of an id is. */
  function Locate(channels: seq<Channel>, id: string, nth: nat): (h: nat)
    requires nth < |ChannelsOf(channels, id)|
    ensures h < |channels| && channels[h].info.id == id && Rank(channels, h) == nth
  {
    var n := |channels| - 1;
    if nth < |ChannelsOf(channels[..n], id)| then
      var h := Locate(channels[..n], id, nth);
      assert channels[..n][..h] == channels[..h];
      h
    else n
  }

  /** The events of one id, oldest first. */
  function EventsOf(events: seq<Event>, id: string): seq<Event> {
    if events == [] then []
    else
      var last := events[|events| - 1];
      EventsOf(events[..|events| - 1], id) + (if last.StreamId() == id then [last] else [])
  }

  lemma EventsSnoc(events: seq<Event>, e: Event, id: string)
    ensures EventsOf(events + [e], id) == EventsOf(events, id) + (if e.StreamId() == id then [e] else [])
  {
    assert (events + [e])[..|events|] == events;
  }
}
