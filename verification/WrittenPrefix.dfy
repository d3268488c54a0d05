/** How much of what a session wrote its readers can count on, over any network: exactly when what they return is
    a prefix of what was written. */
module WrittenPrefix {
  import opened Base
  import opened Utf8
  import opened Utf8Chunks
  import opened Protocol
  import opened StreamMachine
  import opened Readers
  import opened Outgoing
  import opened EndToEnd
  import opened HostileNetwork
  import opened Sessions

  // ---- On the wire ----

  /** What was done after the first write that did not get everything through. */
  function AfterCut(log: Log): Log {
    match log
    case Begun => Begun
    case Then(before, op, count, result) => if HasCut(before) then Then(AfterCut(before), op, count, result) else Begun
  }

  /** What got through up to the first cut, ... */
  function KeptAtCut(log: Log): seq<byte>
    requires Accounted(log)
  {
    if log.Then? && HasCut(log.before) then KeptAtCut(log.before) else Flatten(Through(log))
  }

  /** ... and what the write that was cut still had to send. */
  function LostAtCut(log: Log): seq<byte>
    requires Accounted(log)
  {
    match log
    case Begun => []
    case Then(before, op, count, _) => if HasCut(before) then LostAtCut(before) else Flatten(Offered(op)[count..])
  }

  /** What gets through after the first write that failed goes on where that write was cut. */
  predicate Seamless(log: Log)
    requires Accounted(log)
  {
    AccountedAfterCut(log);
    HasCut(log) ==> Flatten(Through(AfterCut(log))) <= LostAtCut(log) + Inputs(AfterCut(log))
  }

  /** Nothing gets through after a write that failed. */
  predicate StopsAtCut(log: Log) {
    log.Then? ==> StopsAtCut(log.before) && (HasCut(log.before) ==> log.count == 0)
  }

  lemma {:induction false} AccountedAfterCut(log: Log)
    requires Accounted(log)
    ensures Accounted(AfterCut(log))
  {
    if log.Then? {
      AccountedAfterCut(log.before);
    }
  }

  lemma BlockAfter(a: seq<byte>, chunks: seq<seq<byte>>, later: seq<seq<byte>>, block: seq<seq<byte>>)
    requires Flatten(chunks) == a + Flatten(later)
    ensures Flatten(chunks + block) == a + Flatten(later + block)
  {
    FlattenConcat(chunks, block);
    FlattenConcat(later, block);
    Associates(a, Flatten(later), Flatten(block));
  }

  lemma {:induction false} CutThrough(log: Log)
    requires Accounted(log) && HasCut(log)
    ensures Accounted(AfterCut(log)) && Flatten(Through(log)) == KeptAtCut(log) + Flatten(Through(AfterCut(log)))
  {
    AccountedAfterCut(log);
    if HasCut(log.before) {
      CutThrough(log.before);
      BlockAfter(KeptAtCut(log.before), Through(log.before), Through(AfterCut(log.before)),
                 Offered(log.op)[..log.count]);
    } else {
      assert KeptAtCut(log) + [] == KeptAtCut(log);
    }
  }

  lemma {:induction false} CutInputs(log: Log)
    requires Accounted(log) && HasCut(log)
    ensures Inputs(log) == KeptAtCut(log) + (LostAtCut(log) + Inputs(AfterCut(log)))
  {
    if HasCut(log.before) {
      CutInputs(log.before);
      Regroup(KeptAtCut(log), LostAtCut(log), Inputs(AfterCut(log.before)), Input(log.op));
    } else {
      NothingLost(log.before);
      FlattenConcat(Through(log.before), Offered(log.op)[..log.count]);
      OfferedIsInput(log.op);
      FlattenPrefix(Offered(log.op), log.count);
      Associates(Inputs(log.before), Flatten(Offered(log.op)[..log.count]), LostAtCut(log));
      assert AfterCut(log) == Begun && LostAtCut(log) + [] == LostAtCut(log);
    }
  }

  /** The wire carries a prefix of what was written exactly when the first cut, if any, is seamless. */
  lemma PrefixIff(log: Log)
    requires Accounted(log)
    ensures Flatten(Through(log)) <= Inputs(log) <==> Seamless(log)
  {
    if HasCut(log) {
      CutThrough(log);
      CutInputs(log);
      PrefixCancels(KeptAtCut(log), Flatten(Through(AfterCut(log))), LostAtCut(log) + Inputs(AfterCut(log)));
    } else {
      NothingLost(log);
    }
  }

  lemma {:induction false} NothingAfterCut(log: Log)
    requires Accounted(log) && StopsAtCut(log)
    ensures Accounted(AfterCut(log)) && Through(AfterCut(log)) == []
  {
    AccountedAfterCut(log);
    if log.Then? {
      NothingAfterCut(log.before);
    }
  }

  /** Giving up after a failed write is enough. */
  lemma StopsMeansSeamless(log: Log)
    requires Accounted(log) && StopsAtCut(log)
    ensures Seamless(log)
  {
    NothingAfterCut(log);
  }

  // ---- Whatever the data ----

  /** As many operations, each of as many chunks, as many of them acknowledged. */
  predicate SameShape(log: Log, log': Log) {
    match log
    case Begun => log'.Begun?
    case Then(before, op, count, _) =>
      log'.Then? && SameShape(before, log'.before) && |Offered(log'.op)| == |Offered(op)| && log'.count == count
  }

  /** And operations of the same kinds, the closes alike in reason and result. */
  predicate SameKinds(log: Log, log': Log) {
    match log
    case Begun => log'.Begun?
    case Then(before, op, _, result) =>
      && log'.Then? && SameKinds(before, log'.before)
      && (op.PutBytes? <==> log'.op.PutBytes?)
      && (op.End? ==> log'.op == op && log'.result == result)
      && (log'.op.End? ==> op.End?)
  }

  lemma {:induction false} ShapeDecides(log: Log, log': Log)
    requires SameShape(log, log')
    ensures (HasCut(log) <==> HasCut(log')) && (StopsAtCut(log) <==> StopsAtCut(log'))
  {
    if log.Then? {
      ShapeDecides(log.before, log'.before);
    }
  }

  predicate AllAre(bytes: seq<byte>, b: byte) {
    forall i | 0 <= i < |bytes| :: bytes[i] == b
  }

  function Fill(chunks: nat, b: byte): seq<byte> {
    seq(chunks * CHUNK_SIZE, i => b)
  }

  lemma {:induction false} FullChunks(bytes: seq<byte>, k: nat)
    requires |bytes| == k * CHUNK_SIZE
    ensures |ByteChunks(bytes, CHUNK_SIZE)| == k
    decreases k
  {
    if k > 1 {
      FullChunks(bytes[CHUNK_SIZE..], k - 1);
    }
  }

  function FillText(chunks: nat, b: byte): string {
    seq(chunks * CHUNK_SIZE, i => b as char)
  }

  lemma {:induction false} EncodePlain(text: string, b: byte)
    requires b < 0x80 && forall i | 0 <= i < |text| :: text[i] == b as char
    ensures |Encode(text)| == |text| && AllAre(Encode(text), b)
  {
    if text != [] {
      EncodePlain(text[1..], b);
      assert EncodeChar(text[0]) == [b];
    }
  }

  lemma {:induction false} FullTextChunks(bytes: seq<byte>, b: byte, k: nat)
    requires |bytes| == k * CHUNK_SIZE && b < 0x80 && AllAre(bytes, b) && !HasLongRun(bytes, CHUNK_SIZE)
    ensures |Chunks(bytes, CHUNK_SIZE)| == k
    decreases k
  {
    if k > 0 {
      assert Cut(bytes, CHUNK_SIZE) == CHUNK_SIZE by {
        if k > 1 {
          ScanBackUnique(bytes, CHUNK_SIZE, CHUNK_SIZE);
        }
      }
      CutWithoutRun(bytes, CHUNK_SIZE);
      FullTextChunks(bytes[CHUNK_SIZE..], b, k - 1);
    }
  }

  /** A write of the same kind and as many chunks, of one byte value throughout. */
  function Uniform(op: Operation, b: byte): Operation {
    match op
    case PutBytes(_) => PutBytes(Fill(|Offered(op)|, b))
    case PutText(_) => PutText(FillText(|Offered(op)|, b))
    case End(_) => op
  }

  lemma UniformShape(op: Operation, b: byte)
    requires b < 0x80
    ensures |Offered(Uniform(op, b))| == |Offered(op)| && AllAre(Input(Uniform(op, b)), b)
  {
    var k := |Offered(op)|;
    match op
    case PutBytes(_) =>
      FullChunks(Fill(k, b), k);
    case PutText(_) =>
      EncodePlain(FillText(k, b), b);
      TextHasNoLongRun(FillText(k, b), CHUNK_SIZE);
      FullTextChunks(Encode(FillText(k, b)), b, k);
    case End(_) =>
  }

  /** A log of the same kinds and shape that tells lost bytes from later ones: zeros up to the cut, ones behind it. */
  function Telling(log: Log): Log {
    match log
    case Begun => Begun
    case Then(before, op, count, result) =>
      Then(Telling(before), Uniform(op, if HasCut(before) then 1 else 0), count, result)
  }

  lemma {:induction false} TellingShape(log: Log)
    requires Accounted(log)
    ensures SameShape(log, Telling(log)) && SameKinds(log, Telling(log)) && Accounted(Telling(log))
  {
    if log.Then? {
      TellingShape(log.before);
      UniformShape(log.op, if HasCut(log.before) then 1 else 0);
    }
  }

  lemma BlockOfOneByte(op: Operation, count: nat, b: byte)
    requires count <= |Offered(op)| && AllAre(Input(op), b)
    ensures AllAre(Flatten(Offered(op)[..count]), b) && AllAre(Flatten(Offered(op)[count..]), b)
    ensures count > 0 ==> Flatten(Offered(op)[..count]) != []
    ensures count < |Offered(op)| ==> Flatten(Offered(op)[count..]) != []
  {
    OfferedIsInput(op);
    OfferedFits(op);
    FlattenPrefix(Offered(op), count);
    var head, tail := Flatten(Offered(op)[..count]), Flatten(Offered(op)[count..]);
    assert forall i | 0 <= i < |head| :: head[i] == Input(op)[i];
    assert forall i | 0 <= i < |tail| :: tail[i] == Input(op)[|head| + i];
  }

  lemma {:induction false} TellingLost(log: Log)
    requires Accounted(log) && Accounted(Telling(log)) && SameShape(log, Telling(log)) && HasCut(log)
    ensures LostAtCut(Telling(log)) != [] && AllAre(LostAtCut(Telling(log)), 0)
  {
    ShapeDecides(log.before, Telling(log.before));
    if HasCut(log.before) {
      TellingLost(log.before);
    } else {
      UniformShape(log.op, 0);
      BlockOfOneByte(Telling(log).op, log.count, 0);
    }
  }

  lemma {:induction false} TellingAfter(log: Log)
    requires Accounted(log) && Accounted(Telling(log)) && SameShape(log, Telling(log))
    ensures Accounted(AfterCut(Telling(log))) && AllAre(Flatten(Through(AfterCut(Telling(log)))), 1)
    ensures !StopsAtCut(log) ==> Flatten(Through(AfterCut(Telling(log)))) != []
  {
    AccountedAfterCut(Telling(log));
    if log.Then? {
      TellingAfter(log.before);
      ShapeDecides(log.before, Telling(log.before));
      if HasCut(log.before) {
        var op := Telling(log).op;
        UniformShape(log.op, 1);
        BlockOfOneByte(op, log.count, 1);
        FlattenConcat(Through(AfterCut(Telling(log.before))), Offered(op)[..log.count]);
      }
    }
  }

  lemma {:induction false} StopsWithoutCut(log: Log)
    requires !HasCut(log)
    ensures StopsAtCut(log)
  {
    if log.Then? {
      StopsWithoutCut(log.before);
    }
  }

  lemma TellingFails(log: Log)
    requires Accounted(log) && !StopsAtCut(log)
    ensures SameShape(log, Telling(log)) && SameKinds(log, Telling(log)) && Accounted(Telling(log))
    ensures !Seamless(Telling(log))
  {
    if !HasCut(log) {
      StopsWithoutCut(log);
    }
    TellingShape(log);
    TellingLost(log);
    TellingAfter(log);
    ShapeDecides(log, Telling(log));
    DifferAtOnce(Flatten(Through(AfterCut(Telling(log)))), LostAtCut(Telling(log)), Inputs(AfterCut(Telling(log))));
  }

  lemma DifferAtOnce(after: seq<byte>, lost: seq<byte>, due: seq<byte>)
    requires after != [] && AllAre(after, 1) && lost != [] && AllAre(lost, 0)
    ensures !(after <= lost + due)
  {
    assert after[0] != (lost + due)[0];
  }

  /** The wire carries a prefix of what was written, whatever the data, exactly when nothing gets through after a
      write that failed. */
  lemma PrefixWhateverTheDataIff(log: Log)
    requires Accounted(log)
    ensures (forall log' | SameShape(log, log') && Accounted(log') :: Flatten(Through(log')) <= Inputs(log'))
       <==> StopsAtCut(log)
  {
    if StopsAtCut(log) {
      forall log' | SameShape(log, log') && Accounted(log')
        ensures Flatten(Through(log')) <= Inputs(log')
      {
        ShapeDecides(log, log');
        StopsMeansSeamless(log');
        PrefixIff(log');
      }
    } else {
      TellingFails(log);
      PrefixIff(Telling(log));
    }
  }

  // ---- Over every run ----

  /** Whatever a byte reader that is still attached returns is a prefix of `written`. */
  predicate ReadsPrefix(c: Channel, written: seq<byte>) {
    c.readerOpen && BytesRead(c).Finished? && BytesRead(c).result.Success? ==> BytesRead(c).result.value <= written
  }

  predicate ReadsTextPrefix(c: Channel, written: string) {
    c.readerOpen && TextRead(c).Finished? && TextRead(c).result.Success? ==> TextRead(c).result.value <= written
  }

  /** Every attached byte reader of every run of `w` returns only prefixes of `written`. */
  ghost predicate OnlyPrefixes(w: Wire, written: seq<byte>, reserved: seq<string>) {
    forall events, n | AllFromWire(events, w) && 0 <= n < |Run(Idle, events, reserved).readers| ::
      ReadsPrefix(Run(Idle, events, reserved).readers[n], written)
  }

  /** Every attached text reader of every run of `w` returns only prefixes of `written`. */
  ghost predicate OnlyTextPrefixes(w: Wire, written: string, reserved: seq<string>) {
    forall events, n | AllFromWire(events, w) && 0 <= n < |Run(Idle, events, reserved).readers| ::
      ReadsTextPrefix(Run(Idle, events, reserved).readers[n], written)
  }

  /** Over every run of a hostile network, what a reader returns is a prefix of what was written, if the session was
      seamless: no write failed, or nothing got through after one that did, or it made good for what was lost. */
  lemma ReadsAPrefixOfWritten(w: Wire, header: Header, log: Log, events: seq<Event>,
                              reserved: seq<string>, n: nat)
    requires WellNumbered(w, header) && AllFromWire(events, w)
    requires Accounted(log) && Payload(w) == Through(log) && Seamless(log)
    requires n < |Run(Idle, events, reserved).readers|
    requires var c := Run(Idle, events, reserved).readers[n]; BytesRead(c).Finished? && BytesRead(c).result.Success?
    ensures BytesRead(Run(Idle, events, reserved).readers[n]).result.value <= Inputs(log)
  {
    var _ := ReadsAPrefix(w, header, events, reserved, n);
    PrefixIff(log);
  }

  /** An attached reader whose stream ended without an error owes that to a trailer without a reason. */
  predicate EndsByTrailer(s: Stream, w: Wire, id: string) {
    forall n | 0 <= n < |s.readers| ::
      s.readers[n].readerOpen && !s.readers[n].senderOpen && AllData(s.readers[n].items) ==>
        TrailerPacket(id, "") in Packets(w)
  }

  lemma FailureEnds(s: Stream, e: StreamError, w: Wire, id: string)
    requires s.readers != [] && EndsByTrailer(s, w, id)
    ensures EndsByTrailer(CloseWithError(s, e), w, id)
  {
    var c := s.Current().Send(Error(e)).CloseSender();
    assert c.readerOpen ==> c.items[|c.items| - 1].Error?;
  }

  lemma StepEnds(s: Stream, e: Event, w: Wire, header: Header, reserved: seq<string>)
    requires s.Fed() && (s.live.Some? ==> s.Current().senderOpen)
    requires WellNumbered(w, header) && FromWire(e, w) && EndsByTrailer(s, w, header.streamId)
    ensures EndsByTrailer(Step(s, e, reserved), w, header.streamId)
  {
    if e.Arrival? {
      NumberFindsChunk(w, header, e.packet);
      if s.live.Some? && !e.packet.HeaderPacket? {
        FailureEnds(s, EncryptionTypeMismatch, w, header.streamId);
        FailureEnds(s, MissedChunk, w, header.streamId);
        FailureEnds(s, LengthExceeded, w, header.streamId);
        FailureEnds(s, Incomplete, w, header.streamId);
        if e.packet.TrailerPacket? {
          FailureEnds(s, AbnormalEnd(e.packet.reason), w, header.streamId);
        }
      }
    }
  }

  lemma {:induction false} EveryRunEnds(events: seq<Event>, w: Wire, header: Header, reserved: seq<string>)
    requires WellNumbered(w, header) && AllFromWire(events, w)
    ensures EndsByTrailer(Run(Idle, events, reserved), w, header.streamId)
  {
    if events != [] {
      var init := events[..|events| - 1];
      EveryRunEnds(init, w, header, reserved);
      EveryRunReachable(init, reserved);
      StepEnds(Run(Idle, init, reserved), events[|events| - 1], w, header, reserved);
    }
  }

  /** All of a wire's chunks are on it under their numbers. */
  lemma {:induction false} ChunkOnWire(w: Wire, header: Header, i: nat)
    requires WellNumbered(w, header) && i < |Payload(w)|
    ensures HeaderPacket(header) in Packets(w) && ChunkPacket(header.streamId, i, Payload(w)[i]) in Packets(w)
  {
    if w.earlier != Silent && i < |Payload(w.earlier)| {
      ChunkOnWire(w.earlier, header, i);
    } else {
      HeaderOnWire(w, header);
    }
  }

  lemma {:induction false} HeaderOnWire(w: Wire, header: Header)
    requires WellNumbered(w, header)
    ensures HeaderPacket(header) in Packets(w)
  {
    if w.earlier != Silent {
      HeaderOnWire(w.earlier, header);
    }
  }

  lemma {:induction false} BlockFromWire(w: Wire, header: Header, k: nat, encryption: Encryption, identity: string)
    requires WellNumbered(w, header) && k <= |Payload(w)|
    ensures AllFromWire(InOrder(DataWire(header, Payload(w), k, false), encryption, identity), w)
  {
    if k == 0 {
      HeaderOnWire(w, header);
      assert InOrder(Silent, encryption, identity) == [];
    } else {
      BlockFromWire(w, header, k - 1, encryption, identity);
      BlockPayload(Sent(Silent, HeaderPacket(header)), header.streamId, Payload(w), k - 1);
      ChunkOnWire(w, header, k - 1);
    }
  }

  /** A total length, if declared, is met. */
  predicate Allows(total: Option<nat>, size: nat) {
    total.Some? ==> size == total.value
  }

  /** The first chunks, however many make up the declared length, are a prefix of `written`. */
  predicate AllowedArePrefixes(chunks: seq<seq<byte>>, total: Option<nat>, written: seq<byte>) {
    forall k | 0 <= k <= |chunks| && Allows(total, TotalSize(chunks[..k])) :: Flatten(chunks[..k]) <= written
  }

  /** A run that hands a reader the first `k` chunks on the wire: header, chunks and trailer in order, nothing else. */
  lemma FirstAreReadable(w: Wire, header: Header, k: nat, encryption: Encryption, identity: string,
                         reserved: seq<string>)
    returns (events: seq<Event>)
    requires WellNumbered(w, header) && header.content.Some? && TrailerPacket(header.streamId, "") in Packets(w)
    requires k <= |Payload(w)| && Allows(header.totalLength, TotalSize(Payload(w)[..k]))
    ensures AllFromWire(events, w)
    ensures var s := Run(Idle, events, reserved);
            && |s.readers| == 1 && s.readers[0].readerOpen
            && BytesRead(s.readers[0]) == Finished(Success(Flatten(Payload(w)[..k])))
  {
    var closed := Sent(DataWire(header, Payload(w), k, false), Trailer(header.streamId, None));
    BlockFromWire(w, header, k, encryption, identity);
    ClosedOutcome(header, Payload(w), k, None, encryption, identity, reserved);
    ArrivedIsRun(closed, encryption, identity, reserved);
    events := InOrder(closed, encryption, identity);
  }

  /** Every run of any session, with or without a declared length: readers return only prefixes of what was written
      exactly when no clean trailer ever goes out, or when the first chunks, as many as make up the declared length,
      are one. */
  lemma AllowedPrefixesIff(w: Wire, header: Header, log: Log, reserved: seq<string>)
    requires WellNumbered(w, header) && header.content.Some? && Accounted(log) && Payload(w) == Through(log)
    ensures OnlyPrefixes(w, Inputs(log), reserved)
       <==> (|| TrailerPacket(header.streamId, "") !in Packets(w)
             || AllowedArePrefixes(Payload(w), header.totalLength, Inputs(log)))
  {
    if && TrailerPacket(header.streamId, "") in Packets(w)
       && !AllowedArePrefixes(Payload(w), header.totalLength, Inputs(log)) {
      var k :| 0 <= k <= |Payload(w)| && Allows(header.totalLength, TotalSize(Payload(w)[..k]))
               && !(Flatten(Payload(w)[..k]) <= Inputs(log));
      var events := FirstAreReadable(w, header, k, Plain, "", reserved);
      assert !ReadsPrefix(Run(Idle, events, reserved).readers[0], Inputs(log));
    } else {
      forall events, n | AllFromWire(events, w) && 0 <= n < |Run(Idle, events, reserved).readers|
        ensures ReadsPrefix(Run(Idle, events, reserved).readers[n], Inputs(log))
      {
        RunReadsAllowed(w, header, log, events, reserved, n);
      }
    }
  }

  lemma RunReadsAllowed(w: Wire, header: Header, log: Log, events: seq<Event>, reserved: seq<string>, n: nat)
    requires WellNumbered(w, header) && AllFromWire(events, w) && Accounted(log)
    requires || TrailerPacket(header.streamId, "") !in Packets(w)
             || AllowedArePrefixes(Payload(w), header.totalLength, Inputs(log))
    requires n < |Run(Idle, events, reserved).readers|
    ensures ReadsPrefix(Run(Idle, events, reserved).readers[n], Inputs(log))
  {
    var c := Run(Idle, events, reserved).readers[n];
    if c.readerOpen && BytesRead(c).Finished? && BytesRead(c).result.Success? {
      EveryRunEnds(events, w, header, reserved);
      EveryRunSourced(events, w, header, reserved);
      var k := SourcedReadIsPrefix(c, Payload(w), header.totalLength);
      assert LengthKept(c) && Sourced(c, Payload(w), header.totalLength);
      assert Allows(header.totalLength, TotalSize(Payload(w)[..k]));
      assert TrailerPacket(header.streamId, "") in Packets(w);
      assert Flatten(Payload(w)[..k]) <= Inputs(log);
    }
  }

  /** Without a declared length, readers return only prefixes of what was written exactly when no clean trailer ever
      goes out or the session was seamless. */
  lemma PrefixOfWrittenIff(w: Wire, header: Header, log: Log, reserved: seq<string>)
    requires WellNumbered(w, header) && header.content.Some? && header.totalLength.None?
    requires Accounted(log) && Payload(w) == Through(log)
    ensures OnlyPrefixes(w, Inputs(log), reserved)
       <==> TrailerPacket(header.streamId, "") !in Packets(w) || Seamless(log)
  {
    PrefixIff(log);
    AllowedPrefixesIff(w, header, log, reserved);
    assert Payload(w)[..|Payload(w)|] == Payload(w);
    forall k | 0 <= k <= |Payload(w)|
      ensures Flatten(Payload(w)[..k]) <= Flatten(Payload(w))
    {
      FlattenPrefix(Payload(w), k);
    }
  }

  /** Some close without a reason has succeeded. */
  predicate ClosedCleanly(log: Log) {
    log.Then? && (ClosedCleanly(log.before) || (Closes(log.op, log.result) && log.op.reason in {None, Some("")}))
  }

  /** And a clean trailer goes out exactly when a close without a reason succeeds, or else on drop. */
  lemma {:induction false} CleanTrailerIff(header: Header, log: Log, trailerOnDrop: bool)
    requires Accounted(log)
    ensures TrailerPacket(header.streamId, "") in Packets(SessionWire(header, log, trailerOnDrop))
       <==> ClosedCleanly(log) || trailerOnDrop
    decreases log
  {
    if log.Then? {
      CleanTrailerIff(header, log.before, false);
      BlockHasNoTrailer(WireOf(header, log.before), header.streamId, Offered(log.op), log.count);
    }
  }

  lemma {:induction false} BlockHasNoTrailer(start: Wire, id: string, pieces: seq<seq<byte>>, k: nat)
    requires k <= |pieces|
    ensures TrailerPacket(id, "") in Packets(Block(start, id, pieces, k)) <==> TrailerPacket(id, "") in Packets(start)
  {
    if k > 0 {
      BlockHasNoTrailer(start, id, pieces, k - 1);
    }
  }

  // ---- What a caller can keep to ----

  /** A session that may have gone the same way with other data. */
  predicate Alike(log: Log, log': Log) {
    SameShape(log, log') && SameKinds(log, log') && Accounted(log')
  }

  lemma {:induction false} KindsDecide(log: Log, log': Log)
    requires SameKinds(log, log')
    ensures (ClosedCleanly(log) <==> ClosedCleanly(log')) && (TextOnly(log) <==> TextOnly(log'))
  {
    if log.Then? {
      KindsDecide(log.before, log'.before);
    }
  }

  lemma SessionPrefixesIff(header: Header, log: Log, trailerOnDrop: bool, reserved: seq<string>)
    requires header.content.Some? && header.totalLength.None? && Accounted(log)
    ensures OnlyPrefixes(SessionWire(header, log, trailerOnDrop), Inputs(log), reserved)
       <==> !(ClosedCleanly(log) || trailerOnDrop) || Seamless(log)
  {
    LogWellNumbered(header, log);
    WirePayload(header, log);
    PrefixOfWrittenIff(SessionWire(header, log, trailerOnDrop), header, log, reserved);
    CleanTrailerIff(header, log, trailerOnDrop);
  }

  /** What a caller without a declared length can keep to: whatever the data, every attached reader of every run
      returns only prefixes of what was written exactly when the session sends no clean trailer or lets nothing
      through after a write that failed. */
  lemma ReadersWhateverTheDataIff(header: Header, log: Log, trailerOnDrop: bool, reserved: seq<string>)
    requires header.content.Some? && header.totalLength.None? && Accounted(log)
    ensures (forall log' | Alike(log, log') ::
               OnlyPrefixes(SessionWire(header, log', trailerOnDrop), Inputs(log'), reserved))
       <==> !(ClosedCleanly(log) || trailerOnDrop) || StopsAtCut(log)
  {
    if !(ClosedCleanly(log) || trailerOnDrop) || StopsAtCut(log) {
      forall log' | Alike(log, log')
        ensures OnlyPrefixes(SessionWire(header, log', trailerOnDrop), Inputs(log'), reserved)
      {
        AlikeIsSafe(log, log', trailerOnDrop);
        SessionPrefixesIff(header, log', trailerOnDrop, reserved);
      }
    } else {
      TellingFails(log);
      KindsDecide(log, Telling(log));
      SessionPrefixesIff(header, Telling(log), trailerOnDrop, reserved);
      assert Alike(log, Telling(log));
    }
  }

  lemma AlikeIsSafe(log: Log, log': Log, trailerOnDrop: bool)
    requires Accounted(log) && Alike(log, log') && (!(ClosedCleanly(log) || trailerOnDrop) || StopsAtCut(log))
    ensures !(ClosedCleanly(log') || trailerOnDrop) || Seamless(log')
  {
    KindsDecide(log, log');
    ShapeDecides(log, log');
    if StopsAtCut(log') {
      StopsMeansSeamless(log');
    }
  }

  // ---- The same for text ----

  lemma TextPrefixIffBytesPrefix(c: Channel, chunks: seq<seq<byte>>, total: Option<nat>, written: string)
    requires Sourced(c, chunks, total) && EachIsText(chunks)
    ensures ReadsTextPrefix(c, written) <==> ReadsPrefix(c, Encode(written))
  {
    SourcedReadsAsText(c, chunks, total);
    if TextRead(c).Finished? && TextRead(c).result.Success? {
      EncodePrefixIff(TextRead(c).result.value, written);
    }
  }

  /** A text reader returns the text of the first chunks acknowledged, up to some point, and so a prefix of the text
      that was written, if the session was seamless. */
  lemma ReadsATextPrefix(w: Wire, header: Header, log: Log, events: seq<Event>,
                         reserved: seq<string>, n: nat) returns (k: nat)
    requires WellNumbered(w, header) && AllFromWire(events, w)
    requires Accounted(log) && Payload(w) == Through(log) && TextOnly(log)
    requires n < |Run(Idle, events, reserved).readers|
    requires var c := Run(Idle, events, reserved).readers[n]; TextRead(c).Finished? && TextRead(c).result.Success?
    ensures EachIsText(Payload(w))
    ensures var text := TextRead(Run(Idle, events, reserved).readers[n]).result.value;
            && k <= |Payload(w)| && text == Flatten(Texts(Payload(w))[..k])
            && (Seamless(log) ==> text <= WrittenText(log))
  {
    var c := Run(Idle, events, reserved).readers[n];
    ThroughFits(log);
    EveryRunSourced(events, w, header, reserved);
    k := SourcedTextIsPrefix(c, Payload(w), header.totalLength);
    SourcedReadsAsText(c, Payload(w), header.totalLength);
    if Seamless(log) {
      ReadsAPrefixOfWritten(w, header, log, events, reserved, n);
      InputsAreText(log);
      EncodePrefixIff(TextRead(c).result.value, WrittenText(log));
    }
  }

  /** And the exact condition is the same. */
  lemma TextPrefixOfWrittenIff(w: Wire, header: Header, log: Log, reserved: seq<string>)
    requires WellNumbered(w, header) && header.content.Some? && header.totalLength.None?
    requires Accounted(log) && Payload(w) == Through(log) && TextOnly(log)
    ensures OnlyTextPrefixes(w, WrittenText(log), reserved)
       <==> TrailerPacket(header.streamId, "") !in Packets(w) || Seamless(log)
  {
    PrefixOfWrittenIff(w, header, log, reserved);
    InputsAreText(log);
    ThroughFits(log);
    forall events, n | AllFromWire(events, w) && 0 <= n < |Run(Idle, events, reserved).readers|
      ensures var c := Run(Idle, events, reserved).readers[n];
              ReadsTextPrefix(c, WrittenText(log)) <==> ReadsPrefix(c, Inputs(log))
    {
      EveryRunSourced(events, w, header, reserved);
      var c := Run(Idle, events, reserved).readers[n];
      TextPrefixIffBytesPrefix(c, Payload(w), header.totalLength, WrittenText(log));
    }
  }

  lemma SessionTextPrefixesIff(header: Header, log: Log, trailerOnDrop: bool, reserved: seq<string>)
    requires header.content.Some? && header.totalLength.None? && Accounted(log) && TextOnly(log)
    ensures OnlyTextPrefixes(SessionWire(header, log, trailerOnDrop), WrittenText(log), reserved)
       <==> !(ClosedCleanly(log) || trailerOnDrop) || Seamless(log)
  {
    LogWellNumbered(header, log);
    WirePayload(header, log);
    TextPrefixOfWrittenIff(SessionWire(header, log, trailerOnDrop), header, log, reserved);
    CleanTrailerIff(header, log, trailerOnDrop);
  }

  /** And what a caller who writes text can keep to is the same, whatever the texts. */
  lemma TextReadersWhateverTheTextIff(header: Header, log: Log, trailerOnDrop: bool, reserved: seq<string>)
    requires header.content.Some? && header.totalLength.None? && Accounted(log) && TextOnly(log)
    ensures (forall log' | Alike(log, log') ::
               OnlyTextPrefixes(SessionWire(header, log', trailerOnDrop), WrittenText(log'), reserved))
       <==> !(ClosedCleanly(log) || trailerOnDrop) || StopsAtCut(log)
  {
    if !(ClosedCleanly(log) || trailerOnDrop) || StopsAtCut(log) {
      forall log' | Alike(log, log')
        ensures OnlyTextPrefixes(SessionWire(header, log', trailerOnDrop), WrittenText(log'), reserved)
      {
        AlikeIsSafe(log, log', trailerOnDrop);
        KindsDecide(log, log');
        SessionTextPrefixesIff(header, log', trailerOnDrop, reserved);
      }
    } else {
      TellingFails(log);
      KindsDecide(log, Telling(log));
      SessionTextPrefixesIff(header, Telling(log), trailerOnDrop, reserved);
      assert Alike(log, Telling(log));
    }
  }

  /** A write of one byte that is refused, ... */
  function Refused(a: byte): Log {
    Then(Begun, PutBytes([a]), 0, Failure(SendFailed))
  }

  /** ... then one that gets through, ... */
  function RefusedThenSent(a: byte, b: byte): Log {
    Then(Refused(a), PutBytes([b]), 1, Success(()))
  }

  /** ... and a close. */
  function Skipping(a: byte, b: byte): Log {
    Then(RefusedThenSent(a, b), End(None), 0, Success(()))
  }

  lemma OneByteOffered(a: byte)
    ensures Offered(PutBytes([a])) == [[a]]
  {
  }

  lemma RefusedWire(header: Header, a: byte)
    ensures Accounted(Refused(a)) && Inputs(Refused(a)) == [a] && Through(Refused(a)) == []
    ensures WireOf(header, Refused(a)) == Sent(Silent, HeaderPacket(header))
  {
    OneByteOffered(a);
    assert Inputs(Begun) + [a] == [a];
  }

  lemma RefusedThenSentWire(header: Header, a: byte, b: byte)
    ensures var log := RefusedThenSent(a, b);
            && Accounted(log) && Inputs(log) == [a, b] && Through(log) == [[b]]
            && WireOf(header, log) == DataWire(header, [[b]], 1, false)
  {
    RefusedWire(header, a);
    OneByteOffered(b);
    assert [a] + [b] == [a, b] && [[b]][..1] == [[b]] && [] + [[b]] == [[b]];
  }

  lemma SkippingWire(header: Header, a: byte, b: byte)
    ensures Accounted(Skipping(a, b)) && Inputs(Skipping(a, b)) == [a, b] && Through(Skipping(a, b)) == [[b]]
    ensures SessionWire(header, Skipping(a, b), false)
         == Sent(DataWire(header, [[b]], 1, false), TrailerPacket(header.streamId, ""))
  {
    RefusedThenSentWire(header, a, b);
    assert [a, b] + [] == [a, b] && [[b]] + [] == [[b]];
  }

  lemma SkippingRead(header: Header, a: byte, b: byte, encryption: Encryption, identity: string, reserved: seq<string>)
    requires header.content.Some? && header.totalLength.None?
    ensures var w := Sent(DataWire(header, [[b]], 1, false), TrailerPacket(header.streamId, ""));
            var s := Run(Idle, InOrder(w, encryption, identity), reserved);
            |s.readers| == 1 && BytesRead(s.readers[0]) == Finished(Success([b]))
    ensures Accounted(Skipping(a, b)) && (Seamless(Skipping(a, b)) <==> a == b)
  {
    FlattenSnoc([], [b]);
    assert [] + [[b]] == [[b]] && [] + [b] == [b];
    CloseReachesReader(header, [[b]], None, encryption, identity, reserved);
    SkippingWire(header, a, b);
    PrefixIff(Skipping(a, b));
    assert [b] <= [a, b] <==> a == b by {
      assert [a, b][0] == a;
    }
  }

  /** A refused write, one that gets through and a close, on a real stream. */
  method SkipOne(header: Header) returns (results: seq<Result<(), StreamError>>, wire: Wire)
    ensures results == [Failure(SendFailed), Success(()), Success(())]
    ensures wire == Sent(DataWire(header, [[0x42]], 1, false), TrailerPacket(header.streamId, ""))
  {
    var stream := new RawStream.Opened(header, [Acknowledged, Rejected, Acknowledged, Acknowledged]);
    AcksIs(stream.transport, 1, 1, 0);
    AcksIs(stream.transport, 2, 1, 1);
    OneByteOffered(0x41);
    OneByteOffered(0x42);
    var first := WriteBytes(stream, [0x41]);
    var second := WriteBytes(stream, [0x42]);
    var last := stream.Close(None);
    results, wire := [first, second, last], stream.wire;
  }

  /** Going on after a failed write does happen: the first write is refused, the second gets through, the stream is
      closed, everything arrives in order, and the reader returns what is no prefix of what was written. */
  method SkippedWriteExample(header: Header, encryption: Encryption, identity: string, reserved: seq<string>)
    returns (results: seq<Result<(), StreamError>>, wire: Wire)
    requires header.content.Some? && header.totalLength.None?
    ensures results == [Failure(SendFailed), Success(()), Success(())]
    ensures var log := Skipping(0x41, 0x42);
            && Accounted(log) && wire == SessionWire(header, log, false)
            && var s := Run(Idle, InOrder(wire, encryption, identity), reserved);
               && |s.readers| == 1 && BytesRead(s.readers[0]) == Finished(Success([0x42]))
               && Inputs(log) == [0x41, 0x42] && !Seamless(log)
  {
    results, wire := SkipOne(header);
    SkippingWire(header, 0x41, 0x42);
    SkippingRead(header, 0x41, 0x42, encryption, identity, reserved);
  }
}
