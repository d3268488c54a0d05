/** Whole sessions of writers, delivered in order: chunks behind the trailer, and what the reader is left with. */
module Sessions {
  import opened Base
  import opened Utf8
  import opened Protocol
  import opened StreamMachine
  import opened IncomingManager
  import opened Readers
  import opened Outgoing
  import opened EndToEnd
  import opened HostileNetwork

  // ---- Chunks behind the trailer ----

  /** Some chunk is on the wire behind a trailer. */
  predicate HasLateChunk(w: Wire) {
    match w
    case Silent => false
    case Sent(w', p) => HasLateChunk(w') || (p.ChunkPacket? && TrailerCount(w') > 0)
  }

  /** The wire up to its first trailer, and with it. */
  function UpToTrailer(w: Wire): Wire {
    match w
    case Silent => Silent
    case Sent(w', _) => if TrailerCount(w') > 0 then UpToTrailer(w') else w
  }

  /** A write after a close that succeeded got something through. */
  predicate HasLateWrite(log: Log) {
    log.Then? && (HasLateWrite(log.before) || (log.count > 0 && Closed(log.before)))
  }

  lemma {:induction false} BlockLate(start: Wire, id: string, pieces: seq<seq<byte>>, k: nat)
    requires k <= |pieces|
    ensures TrailerCount(Block(start, id, pieces, k)) == TrailerCount(start)
    ensures HasLateChunk(Block(start, id, pieces, k)) <==> HasLateChunk(start) || (k > 0 && TrailerCount(start) > 0)
    ensures TrailerCount(start) > 0 ==> UpToTrailer(Block(start, id, pieces, k)) == UpToTrailer(start)
  {
    if k > 0 {
      BlockLate(start, id, pieces, k - 1);
    }
  }

  lemma {:induction false} LogTrailers(header: Header, log: Log)
    requires Accounted(log)
    ensures TrailerCount(WireOf(header, log)) > 0 <==> Closed(log)
    ensures HasLateChunk(WireOf(header, log)) <==> HasLateWrite(log)
  {
    if log.Then? {
      LogTrailers(header, log.before);
      BlockLate(WireOf(header, log.before), header.streamId, Offered(log.op), log.count);
    }
  }

  /** A chunk goes out behind the trailer exactly when a write after a close that succeeded gets one acknowledged. */
  lemma LateChunkIff(header: Header, log: Log, trailerOnDrop: bool)
    requires Accounted(log)
    ensures HasLateChunk(SessionWire(header, log, trailerOnDrop)) <==> HasLateWrite(log)
  {
    LogTrailers(header, log);
  }

  /** It does happen: a clone writes after another has closed. */
  method LateChunkExample(header: Header)
    returns (closed: Result<(), StreamError>, written: Result<(), StreamError>, wire: Wire)
    ensures closed.Success? && written.Success?
    ensures wire == Sent(Sent(Sent(Silent, HeaderPacket(header)), TrailerPacket(header.streamId, "")),
                         ChunkPacket(header.streamId, 0, [0x41]))
    ensures HasLateChunk(wire)
  {
    var transport := [Acknowledged, Acknowledged, Acknowledged];
    var stream := new RawStream.Opened(header, transport);
    closed := stream.Close(None);
    assert Payload(Sent(Silent, HeaderPacket(header))) == Payload(Silent) == [];
    written := stream.WriteChunk([0x41]);
    wire := stream.wire;
  }

  lemma {:induction false} TrailerEnds(w: Wire, h: Header, encryption: Encryption, identity: string,
                                       reserved: seq<string>)
    requires WellNumbered(w, h) && TrailerCount(w) > 0
    ensures Arrived(w, encryption, identity, reserved).live.None?
  {
    if TrailerCount(w.earlier) > 0 {
      TrailerEnds(w.earlier, h, encryption, identity, reserved);
    }
  }

  /** The receiver does not notice: in order, what is behind the trailer changes nothing. */
  lemma {:induction false} LateChunksIgnored(w: Wire, h: Header, encryption: Encryption, identity: string,
                                             reserved: seq<string>)
    requires WellNumbered(w, h)
    ensures WellNumbered(UpToTrailer(w), h)
    ensures Run(Idle, InOrder(w, encryption, identity), reserved)
         == Run(Idle, InOrder(UpToTrailer(w), encryption, identity), reserved)
  {
    if TrailerCount(w.earlier) > 0 {
      LateChunksIgnored(w.earlier, h, encryption, identity, reserved);
      TrailerEnds(w.earlier, h, encryption, identity, reserved);
      ArrivedIsRun(w.earlier, encryption, identity, reserved);
      RunSnoc(Idle, InOrder(w.earlier, encryption, identity), Arrival(w.packet, encryption, identity), reserved);
    }
  }

  // ---- What in-order delivery of a session leaves the reader with ----

  /** The part of a log before the first close that succeeded, or all of it. */
  function BeforeClose(log: Log): Log {
    match log
    case Begun => Begun
    case Then(before, op, _, result) =>
      if Closed(before) then BeforeClose(before) else if Closes(op, result) then before else log
  }

  /** The reason given by the first close that succeeded. */
  function CloseReason(log: Log): Option<string> {
    match log
    case Begun => None
    case Then(before, op, _, result) =>
      if Closed(before) then CloseReason(before) else if Closes(op, result) then op.reason else None
  }

  lemma {:induction false} BlockSnoc(start: Wire, id: string, pieces: seq<seq<byte>>, piece: seq<byte>, k: nat)
    requires k <= |pieces|
    ensures Block(start, id, pieces + [piece], k) == Block(start, id, pieces, k)
  {
    if k > 0 {
      BlockSnoc(start, id, pieces, piece, k - 1);
    }
  }

  /** A wire without a trailer is a header and its chunks in order. */
  lemma {:induction false} OpenWireShape(w: Wire, h: Header)
    requires WellNumbered(w, h) && TrailerCount(w) == 0
    ensures w == DataWire(h, Payload(w), |Payload(w)|, false)
  {
    if w.earlier != Silent {
      OpenWireShape(w.earlier, h);
      BlockSnoc(Sent(Silent, HeaderPacket(h)), h.streamId, Payload(w.earlier), w.packet.content, |Payload(w.earlier)|);
    }
  }

  lemma {:induction false} LogWellNumbered(header: Header, log: Log)
    requires Accounted(log)
    ensures WellNumbered(WireOf(header, log), header)
  {
    if log.Then? {
      LogWellNumbered(header, log.before);
      BlockWellNumbered(WireOf(header, log.before), header, Offered(log.op), log.count);
    }
  }

  /** Until a close succeeds a session puts a header and the chunks that get through on the wire. */
  lemma OpenPart(header: Header, log: Log)
    requires Accounted(log) && !Closed(log)
    ensures WireOf(header, log) == DataWire(header, Through(log), |Through(log)|, false)
  {
    LogWellNumbered(header, log);
    LogTrailers(header, log);
    OpenWireShape(WireOf(header, log), header);
    WirePayload(header, log);
  }

  lemma {:induction false} ClosedPart(header: Header, log: Log)
    requires Accounted(log)
    ensures Accounted(BeforeClose(log)) && !Closed(BeforeClose(log))
    ensures if Closed(log)
            then UpToTrailer(WireOf(header, log))
              == Sent(WireOf(header, BeforeClose(log)), Trailer(header.streamId, CloseReason(log)))
            else BeforeClose(log) == log && CloseReason(log).None?
  {
    if log.Then? {
      ClosedPart(header, log.before);
      LogTrailers(header, log.before);
      BlockLate(WireOf(header, log.before), header.streamId, Offered(log.op), log.count);
    }
  }

  /** `s` is the receiver after a stream that got `got` through, and `ended` for `reason` or did not. */
  predicate LeftWith(s: Stream, total: Option<nat>, got: seq<byte>, ended: bool, reason: Option<string>) {
    && |s.readers| == 1
    && BytesRead(s.readers[0]) == Verdict(total, got, ended, reason)
    && (s.live.Some? <==> !ended && !Exceeds(total, |got|))
  }

  lemma ClosedSession(header: Header, log: Log, encryption: Encryption, identity: string, reserved: seq<string>)
    requires header.content.Some? && Accounted(log) && Closed(log) && Accounted(BeforeClose(log))
    ensures LeftWith(Run(Idle, InOrder(WireOf(header, log), encryption, identity), reserved), header.totalLength,
                     Flatten(Through(BeforeClose(log))), true, CloseReason(log))
  {
    ClosedPart(header, log);
    OpenPart(header, BeforeClose(log));
    LogWellNumbered(header, log);
    LateChunksIgnored(WireOf(header, log), header, encryption, identity, reserved);
    CloseReachesReader(header, Through(BeforeClose(log)), CloseReason(log), encryption, identity, reserved);
  }

  lemma OpenSession(header: Header, log: Log, trailerOnDrop: bool, encryption: Encryption, identity: string,
                    reserved: seq<string>)
    requires header.content.Some? && Accounted(log) && !Closed(log)
    ensures LeftWith(Run(Idle, InOrder(SessionWire(header, log, trailerOnDrop), encryption, identity), reserved),
                     header.totalLength, Flatten(Through(log)), trailerOnDrop, None)
  {
    OpenPart(header, log);
    CloseReachesReader(header, Through(log), None, encryption, identity, reserved);
    OpenKeepsReaderWaiting(header, Through(log), encryption, identity, reserved);
  }

  /** Every session, with and without a declared length, whatever failed in it: its reader is left with what got
      through before the first close that succeeded, or before the drop's trailer, or still waiting. If no write before
      the close failed, what got through is what was written. */
  lemma SessionOutcome(header: Header, log: Log, trailerOnDrop: bool, encryption: Encryption, identity: string,
                       reserved: seq<string>)
    requires header.content.Some? && Accounted(log) && (trailerOnDrop ==> !Closed(log))
    ensures Accounted(BeforeClose(log))
    ensures var got := Flatten(Through(BeforeClose(log)));
            && LeftWith(Run(Idle, InOrder(SessionWire(header, log, trailerOnDrop), encryption, identity), reserved),
                        header.totalLength, got, Closed(log) || trailerOnDrop, CloseReason(log))
            && (!HasCut(BeforeClose(log)) ==> got == Inputs(BeforeClose(log)))
  {
    ClosedPart(header, log);
    if Closed(log) {
      ClosedSession(header, log, encryption, identity, reserved);
    } else {
      OpenSession(header, log, trailerOnDrop, encryption, identity, reserved);
    }
    if !HasCut(BeforeClose(log)) {
      NothingLost(BeforeClose(log));
    }
  }

  // ---- Text ----

  /** All the text that was to be written. */
  function WrittenText(log: Log): string {
    match log
    case Begun => ""
    case Then(before, PutText(text), _, _) => WrittenText(before) + text
    case Then(before, _, _, _) => WrittenText(before)
  }

  lemma {:induction false} InputsAreText(log: Log)
    requires TextOnly(log)
    ensures Inputs(log) == Encode(WrittenText(log))
  {
    if log.Then? {
      InputsAreText(log.before);
      if log.op.PutText? {
        EncodeConcat(WrittenText(log.before), log.op.text);
      } else {
        assert Inputs(log.before) + [] == Inputs(log.before);
      }
    }
  }

  lemma {:induction false} TextBeforeClose(log: Log)
    requires TextOnly(log)
    ensures TextOnly(BeforeClose(log))
  {
    if log.Then? && Closed(log.before) {
      TextBeforeClose(log.before);
    }
  }

  lemma {:induction false} InOrderFromWire(w: Wire, encryption: Encryption, identity: string)
    ensures AllFromWire(InOrder(w, encryption, identity), w)
  {
    if w.Sent? {
      InOrderFromWire(w.earlier, encryption, identity);
    }
  }

  /** What a text reader finds where a byte reader finds `outcome`. */
  predicate SameAsText(outcome: Outcome<seq<byte>>, text: Outcome<string>) {
    match outcome
    case Waiting => text == Waiting
    case Finished(Failure(e)) => text == Finished(Failure(e))
    case Finished(Success(bytes)) => text.Finished? && text.result.Success? && Encode(text.result.value) == bytes
  }

  lemma SourcedReadsAsText(c: Channel, chunks: seq<seq<byte>>, total: Option<nat>)
    requires Sourced(c, chunks, total) && EachIsText(chunks)
    ensures SameAsText(BytesRead(c), TextRead(c))
  {
    TextReadsLikeBytes(c);
    if BytesRead(c).Finished? && BytesRead(c).result.Success? {
      EncodeDecode(BytesRead(c).result.value);
    }
  }

  /** Every session of text writers, delivered in order: the text reader is left with the same, as text; and with the
      text written before the close, if no write of it failed. */
  lemma SessionTextOutcome(header: Header, log: Log, trailerOnDrop: bool, encryption: Encryption, identity: string,
                           reserved: seq<string>)
    requires header.content.Some? && Accounted(log) && TextOnly(log) && (trailerOnDrop ==> !Closed(log))
    ensures Accounted(BeforeClose(log))
    ensures var got := Flatten(Through(BeforeClose(log)));
            var s := Run(Idle, InOrder(SessionWire(header, log, trailerOnDrop), encryption, identity), reserved);
            && |s.readers| == 1
            && SameAsText(Verdict(header.totalLength, got, Closed(log) || trailerOnDrop, CloseReason(log)),
                          TextRead(s.readers[0]))
            && (!HasCut(BeforeClose(log)) ==> got == Encode(WrittenText(BeforeClose(log))))
  {
    var w := SessionWire(header, log, trailerOnDrop);
    SessionOutcome(header, log, trailerOnDrop, encryption, identity, reserved);
    LogWellNumbered(header, log);
    WirePayload(header, log);
    ThroughFits(log);
    InOrderFromWire(w, encryption, identity);
    EveryRunSourced(InOrder(w, encryption, identity), w, header, reserved);
    var s := Run(Idle, InOrder(w, encryption, identity), reserved);
    SourcedReadsAsText(s.readers[0], Payload(w), header.totalLength);
    TextBeforeClose(log);
    InputsAreText(BeforeClose(log));
  }

  /** Run a session, deliver what was acknowledged to a fresh manager, and read the stream if one opened, as the header
      says. */
  method TransferSession(header: Header, transport: seq<SendOutcome>, ops: seq<Operation>, hasRuntime: bool,
                         encryption: Encryption, identity: string, reserved: seq<string>)
    returns (opening: Result<(), StreamError>, log: Log, trailerOnDrop: bool, outcome: Option<AnyRead>)
    requires header.content.Some?
    ensures Reported(Answer(transport, 0), opening) && (outcome.None? <==> opening.Failure?)
    ensures outcome.Some? ==>
              && Operations(log) == ops && AsAnswered(log, transport) && Accounted(log) && Accounted(BeforeClose(log))
              && (trailerOnDrop <==> !Closed(log) && hasRuntime && Answer(transport, Attempts(log)) == Acknowledged)
              && var v := Verdict(header.totalLength, Flatten(Through(BeforeClose(log))), Closed(log) || trailerOnDrop,
                                  CloseReason(log));
                 && (header.content == Some(Bytes) ==> outcome.value == AsBytes(v))
                 && (header.content == Some(Text) && TextOnly(log) ==>
                       outcome.value.AsText? && SameAsText(v, outcome.value.text))
  {
    var w, progress;
    opening, w, progress, log, trailerOnDrop := Session(header, transport, ops, hasRuntime);
    if w == Silent {
      return opening, log, trailerOnDrop, None;
    }
    SessionOutcome(header, log, trailerOnDrop, encryption, identity, reserved);
    if TextOnly(log) {
      SessionTextOutcome(header, log, trailerOnDrop, encryption, identity, reserved);
    }
    var read := DeliverAndRead(w, header, encryption, identity, reserved);
    outcome := Some(read);
  }
}
