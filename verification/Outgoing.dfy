/** The sending end: a raw stream, the writers that share it, and the one-shot sends built on them.

    The transport answers every send; its answers are a script, so a contract that holds for every
    `transport` holds for every pattern of failures. A packet is on the wire exactly when its send was
    acknowledged. */
module Outgoing {
  import opened Base
  import opened Utf8
  import opened Protocol
  import opened Utf8Chunks

  /** Maximum number of bytes in a chunk. */
  const CHUNK_SIZE: nat := 15000

  /** Size of the buffer a file is read through. */
  const FILE_BUFFER: nat := 8192

  datatype SendOutcome = Acknowledged | Rejected | Disconnected

  /** The answer to send number `n`; past the end of the script the transport is gone. */
  function Answer(transport: seq<SendOutcome>, n: nat): SendOutcome {
    if n < |transport| then transport[n] else Disconnected
  }

  function Report(o: SendOutcome): Result<(), StreamError> {
    match o
    case Acknowledged => Success(())
    case Rejected => Failure(SendFailed)
    case Disconnected => Failure(Internal)
  }

  // ---- The wire ----

  /** The packets acknowledged for one stream, the latest on the outside. */
  datatype Wire = Silent | Sent(earlier: Wire, packet: Packet)

  /** The packets in the order they were sent. */
  function Packets(w: Wire): seq<Packet> {
    match w
    case Silent => []
    case Sent(w', p) => Packets(w') + [p]
  }

  /** The chunks on the wire, in order. */
  function Payload(w: Wire): seq<seq<byte>> {
    match w
    case Silent => []
    case Sent(w', p) => if p.ChunkPacket? then Payload(w') + [p.content] else Payload(w')
  }

  /** The numbers the chunks carry, in the same order. */
  function Numbers(w: Wire): seq<nat> {
    match w
    case Silent => []
    case Sent(w', p) => if p.ChunkPacket? then Numbers(w') + [p.chunkIndex] else Numbers(w')
  }

  function TrailerCount(w: Wire): nat {
    match w
    case Silent => 0
    case Sent(w', p) => TrailerCount(w') + (if p.TrailerPacket? then 1 else 0)
  }

  /** One header, first; every packet under its id; and every chunk numbered by the chunks before it. */
  predicate WellNumbered(w: Wire, header: Header) {
    match w
    case Silent => false
    case Sent(Silent, p) => p == HeaderPacket(header)
    case Sent(w', p) =>
      && WellNumbered(w', header)
      && !p.HeaderPacket? && p.StreamId() == header.streamId
      && (p.ChunkPacket? ==> p.chunkIndex == |Payload(w')|)
  }

  /** Chunks carry the numbers 0, 1, 2, ... without gap or repeat. */
  lemma {:induction false} NumbersAreConsecutive(w: Wire, header: Header)
    requires WellNumbered(w, header)
    ensures |Numbers(w)| == |Payload(w)|
    ensures forall i | 0 <= i < |Numbers(w)| :: Numbers(w)[i] == i
  {
    if w.earlier != Silent {
      NumbersAreConsecutive(w.earlier, header);
    }
  }

  /** So the number of a chunk finds its content. */
  lemma {:induction false} NumberFindsChunk(w: Wire, header: Header, p: Packet)
    requires WellNumbered(w, header) && p in Packets(w)
    ensures p.StreamId() == header.streamId
    ensures p.HeaderPacket? ==> p == HeaderPacket(header)
    ensures p.ChunkPacket? ==> p.chunkIndex < |Payload(w)| && Payload(w)[p.chunkIndex] == p.content
  {
    if w.earlier != Silent && p in Packets(w.earlier) {
      NumberFindsChunk(w.earlier, header, p);
    }
  }

  /** The wire after the first `k` of `pieces` went out in one block. */
  function Block(start: Wire, id: string, pieces: seq<seq<byte>>, k: nat): Wire
    requires k <= |pieces|
  {
    if k == 0 then start
    else
      var w := Block(start, id, pieces, k - 1);
      Sent(w, ChunkPacket(id, |Payload(w)|, pieces[k - 1]))
  }

  lemma {:induction false} BlockPayload(start: Wire, id: string, pieces: seq<seq<byte>>, k: nat)
    requires k <= |pieces|
    ensures Payload(Block(start, id, pieces, k)) == Payload(start) + pieces[..k]
  {
    if k > 0 {
      BlockPayload(start, id, pieces, k - 1);
      assert pieces[..k] == pieces[..k - 1] + [pieces[k - 1]];
    }
  }

  lemma {:induction false} BlockWellNumbered(start: Wire, header: Header, pieces: seq<seq<byte>>, k: nat)
    requires k <= |pieces| && WellNumbered(start, header)
    ensures WellNumbered(Block(start, header.streamId, pieces, k), header)
    ensures TrailerCount(Block(start, header.streamId, pieces, k)) == TrailerCount(start)
  {
    if k > 0 {
      BlockWellNumbered(start, header, pieces, k - 1);
    }
  }

  /** How many of `n` sends in a row are acknowledged before the first that is not. */
  function Acks(transport: seq<SendOutcome>, from: nat, n: nat): (k: nat)
    ensures k <= n
    ensures forall i | from <= i < from + k :: Answer(transport, i) == Acknowledged
    ensures k < n ==> Answer(transport, from + k) != Acknowledged
    decreases n
  {
    if n == 0 || Answer(transport, from) != Acknowledged then 0 else 1 + Acks(transport, from + 1, n - 1)
  }

  lemma {:induction false} AcksIs(transport: seq<SendOutcome>, from: nat, n: nat, k: nat)
    requires k <= n
    requires forall i | from <= i < from + k :: Answer(transport, i) == Acknowledged
    requires k < n ==> Answer(transport, from + k) != Acknowledged
    ensures Acks(transport, from, n) == k
    decreases k
  {
    if k > 0 {
      assert Answer(transport, from) == Acknowledged;
      AcksIs(transport, from + 1, n - 1, k - 1);
    }
  }

  // ---- The raw stream ----

  class RawStream {
    const header: Header
    const transport: seq<SendOutcome>
    var progress: Progress
    var isClosed: bool
    var attempts: nat
    var wire: Wire

    /** The counters tell the truth about the wire, and a stream is closed exactly when its one trailer is out. */
    ghost predicate Valid()
      reads this
    {
      && WellNumbered(wire, header)
      && progress == Progress(|Payload(wire)|, TotalSize(Payload(wire)), header.totalLength)
      && TrailerCount(wire) == if isClosed then 1 else 0
    }

    /** `open`, once the header has been acknowledged. */
    constructor Opened(header: Header, transport: seq<SendOutcome>)
      requires Answer(transport, 0) == Acknowledged
      ensures this.header == header && this.transport == transport
      ensures Valid() && !isClosed && attempts == 1 && wire == Sent(Silent, HeaderPacket(header))
    {
      this.header := header;
      this.transport := transport;
      progress := Progress(0, 0, header.totalLength);
      isClosed := false;
      attempts := 1;
      wire := Sent(Silent, HeaderPacket(header));
    }

    method SendPacket(p: Packet) returns (r: Result<(), StreamError>)
      modifies this`attempts, this`wire
      ensures attempts == old(attempts) + 1
      ensures r == Report(Answer(transport, old(attempts)))
      ensures Answer(transport, old(attempts)) == Rejected ==> r == Failure(SendFailed)
      ensures Answer(transport, old(attempts)) == Disconnected ==> r == Failure(Internal)
      ensures wire == if Answer(transport, old(attempts)) == Acknowledged then Sent(old(wire), p) else old(wire)
    {
      r := Report(Answer(transport, attempts));
      attempts := attempts + 1;
      if r.Success? {
        wire := Sent(wire, p);
      }
    }

    /** A closed stream is not refused here: the chunk goes out after the trailer. */
    method WriteChunk(bytes: seq<byte>) returns (r: Result<(), StreamError>)
      requires Valid()
      modifies this
      ensures Valid() && isClosed == old(isClosed)
      ensures attempts == old(attempts) + 1
      ensures r == Report(Answer(transport, old(attempts)))
      ensures wire == if r.Success? then Sent(old(wire), ChunkPacket(header.streamId, |Payload(old(wire))|, bytes))
                      else old(wire)
    {
      var p := ChunkPacket(header.streamId, progress.chunkIndex, bytes);
      FlattenSnoc(Payload(wire), bytes);
      r := SendPacket(p);
      if r.Failure? {
        return;
      }
      progress := progress.(bytesProcessed := progress.bytesProcessed + |bytes|);
      progress := progress.(chunkIndex := progress.chunkIndex + 1);
    }

    method Close(reason: Option<string>) returns (r: Result<(), StreamError>)
      requires Valid()
      modifies this
      ensures Valid()
      ensures old(isClosed) ==>
                r == Failure(AlreadyClosed) && isClosed && attempts == old(attempts) && wire == old(wire)
      ensures !old(isClosed) ==>
                && r == Report(Answer(transport, old(attempts))) && attempts == old(attempts) + 1
                && isClosed == r.Success?
                && wire == if r.Success? then Sent(old(wire), Trailer(header.streamId, reason)) else old(wire)
    {
      if isClosed {
        return Failure(AlreadyClosed);
      }
      var p := Trailer(header.streamId, reason);
      r := SendPacket(p);
      if r.Success? {
        isClosed := true;
      }
    }

    /** The last handle goes away. Without a runtime to send from, the trailer is skipped. */
    method Drop(hasRuntime: bool)
      requires Valid()
      modifies this`attempts, this`wire
      ensures WellNumbered(wire, header) && TrailerCount(wire) <= 1
      ensures wire == if !isClosed && hasRuntime && Answer(transport, old(attempts)) == Acknowledged
                      then Sent(old(wire), Trailer(header.streamId, None)) else old(wire)
    {
      if isClosed {
        return;
      }
      var p := Trailer(header.streamId, None);
      if hasRuntime {
        var _ := SendPacket(p);
      }
    }
  }

  function Trailer(id: string, reason: Option<string>): Packet {
    TrailerPacket(id, if reason.Some? then reason.value else "")
  }

  // ---- Writers ----

  /** `slice::chunks`. */
  function ByteChunks(bytes: seq<byte>, size: nat): (chunks: seq<seq<byte>>)
    requires size > 0
  {
    if bytes == [] then []
    else if |bytes| <= size then [bytes]
    else [bytes[..size]] + ByteChunks(bytes[size..], size)
  }

  /** Nothing is lost, and every chunk but the last is full. */
  lemma {:induction false} ByteChunksCorrect(bytes: seq<byte>, size: nat)
    requires size > 0
    ensures var chunks := ByteChunks(bytes, size);
            && Flatten(chunks) == bytes
            && (forall i | 0 <= i < |chunks| :: 0 < |chunks[i]| <= size)
            && (forall i | 0 <= i < |chunks| - 1 :: |chunks[i]| == size)
  {
    if |bytes| > size {
      ByteChunksCorrect(bytes[size..], size);
      var rest := ByteChunks(bytes[size..], size);
      var chunks := [bytes[..size]] + rest;
      assert chunks[1..] == rest && bytes == bytes[..size] + bytes[size..];
      assert forall i | 0 < i < |chunks| :: chunks[i] == rest[i - 1];
    } else if bytes != [] {
      FlattenSnoc([], bytes);
    }
  }

  /** What a writer leaves behind after offering `pieces`: one block, cut at the first failed send. */
  ghost predicate Wrote(stream: RawStream, from: nat, start: Wire, pieces: seq<seq<byte>>, r: Result<(), StreamError>)
    reads stream
  {
    var k := Acks(stream.transport, from, |pieces|);
    && stream.wire == Block(start, stream.header.streamId, pieces, k)
    && stream.attempts == from + (if k == |pieces| then k else k + 1)
    && r == (if k == |pieces| then Success(()) else Report(Answer(stream.transport, from + k)))
  }

  /** The writers' common loop: one chunk after another, until one fails. */
  method WriteAll(stream: RawStream, pieces: seq<seq<byte>>) returns (r: Result<(), StreamError>)
    requires stream.Valid()
    modifies stream
    ensures stream.Valid() && stream.isClosed == old(stream.isClosed)
    ensures Wrote(stream, old(stream.attempts), old(stream.wire), pieces, r)
  {
    ghost var from, start := stream.attempts, stream.wire;
    for k := 0 to |pieces|
      invariant stream.Valid() && stream.isClosed == old(stream.isClosed)
      invariant stream.attempts == from + k
      invariant forall i | from <= i < from + k :: Answer(stream.transport, i) == Acknowledged
      invariant stream.wire == Block(start, stream.header.streamId, pieces, k)
    {
      r := stream.WriteChunk(pieces[k]);
      if r.Failure? {
        AcksIs(stream.transport, from, |pieces|, k);
        return;
      }
    }
    AcksIs(stream.transport, from, |pieces|, |pieces|);
    r := Success(());
  }

  method WriteBytes(stream: RawStream, bytes: seq<byte>) returns (r: Result<(), StreamError>)
    requires stream.Valid()
    modifies stream
    ensures stream.Valid() && stream.isClosed == old(stream.isClosed)
    ensures Wrote(stream, old(stream.attempts), old(stream.wire), ByteChunks(bytes, CHUNK_SIZE), r)
  {
    r := WriteAll(stream, ByteChunks(bytes, CHUNK_SIZE));
  }

  /** Drains the chunker. */
  method CollectChunks(text: string, chunkSize: nat) returns (chunks: seq<seq<byte>>)
    requires chunkSize >= 4
    ensures chunks == TextChunks(text, chunkSize)
  {
    TextHasNoLongRun(text, chunkSize);
    var chunker := new Utf8AwareChunks(Encode(text), chunkSize);
    chunks := [];
    while true
      invariant chunker.chunkSize == chunkSize && !HasLongRun(chunker.bytes, chunkSize)
      invariant chunks + Chunks(chunker.bytes, chunkSize) == TextChunks(text, chunkSize)
      decreases |chunker.bytes|
    {
      ghost var before := chunker.bytes;
      if before != [] {
        CutWithoutRun(before, chunkSize);
      }
      var chunk := chunker.Next();
      if chunk.None? {
        assert chunks + [] == chunks;
        return;
      }
      Associates(chunks, [chunk.value], Chunks(chunker.bytes, chunkSize));
      chunks := chunks + [chunk.value];
    }
  }

  method WriteText(stream: RawStream, text: string) returns (r: Result<(), StreamError>)
    requires stream.Valid()
    modifies stream
    ensures stream.Valid() && stream.isClosed == old(stream.isClosed)
    ensures Wrote(stream, old(stream.attempts), old(stream.wire), TextChunks(text, CHUNK_SIZE), r)
  {
    var chunks := CollectChunks(text, CHUNK_SIZE);
    r := WriteAll(stream, chunks);
  }

  // ---- Sessions: what the clones of a writer can do to one stream ----

  datatype Operation = PutBytes(bytes: seq<byte>) | PutText(text: string) | End(reason: Option<string>)

  /** What an operation offers for sending. */
  function Offered(op: Operation): seq<seq<byte>> {
    match op
    case PutBytes(bytes) => ByteChunks(bytes, CHUNK_SIZE)
    case PutText(text) => TextChunks(text, CHUNK_SIZE)
    case End(_) => []
  }

  /** Chunks of at least one byte and at most 15000. */
  predicate Fits(chunks: seq<seq<byte>>) {
    forall i | 0 <= i < |chunks| :: 0 < |chunks[i]| <= 15000
  }

  /** Every chunk but the last of a write is full: 15000 bytes, or for text what whole characters leave of that. */
  lemma OfferedIsFull(op: Operation, i: nat)
    requires i < |Offered(op)| - 1
    ensures op.PutBytes? ==> |Offered(op)[i]| == 15000
    ensures op.PutText? ==> 14997 <= |Offered(op)[i]| <= 15000
  {
    match op
    case PutBytes(bytes) => ByteChunksCorrect(bytes, CHUNK_SIZE);
    case PutText(text) => var _ := TextChunksCorrect(text, CHUNK_SIZE);
  }

  predicate EachIsText(chunks: seq<seq<byte>>) {
    forall i | 0 <= i < |chunks| :: Decode(chunks[i]).Some?
  }

  lemma OfferedFits(op: Operation)
    ensures Fits(Offered(op))
    ensures !op.PutBytes? ==> EachIsText(Offered(op))
  {
    match op
    case PutBytes(bytes) => ByteChunksCorrect(bytes, CHUNK_SIZE);
    case PutText(text) =>
      var parts := TextChunksCorrect(text, CHUNK_SIZE);
      forall i | 0 <= i < |Offered(op)|
        ensures Decode(Offered(op)[i]).Some?
      {
        DecodeEncode(parts[i]);
      }
    case End(_) =>
  }

  /** What was done to a stream, the latest on the outside: each operation with how many of its chunks were
      acknowledged and what it returned. */
  datatype Log = Begun | Then(before: Log, op: Operation, count: nat, result: Result<(), StreamError>)

  function Operations(log: Log): seq<Operation> {
    match log
    case Begun => []
    case Then(before, op, _, _) => Operations(before) + [op]
  }

  /** How many sends a log took, the header's included. */
  function Attempts(log: Log): (n: nat)
    ensures n >= 1
  {
    match log
    case Begun => 1
    case Then(before, op, count, _) =>
      Attempts(before)
      + (if op.End? then if Closed(before) then 0 else 1
         else if count == |Offered(op)| then count
         else count + 1)
  }

  /** What a caller is told about the answer to its send. */
  predicate Reported(o: SendOutcome, r: Result<(), StreamError>) {
    && (o == Acknowledged ==> r == Success(()))
    && (o == Rejected ==> r == Failure(SendFailed))
    && (o == Disconnected ==> r == Failure(Internal))
  }

  /** What the answers make of a write that offers `n` chunks from send `from` on: the chunks before the first that is
      not acknowledged get through, and that answer is reported. */
  predicate WriteAnswered(transport: seq<SendOutcome>, from: nat, n: nat, count: nat, r: Result<(), StreamError>) {
    && count <= n
    && (forall i | from <= i < from + count :: Answer(transport, i) == Acknowledged)
    && (count == n ==> r == Success(()))
    && (count < n ==> Answer(transport, from + count) != Acknowledged && Reported(Answer(transport, from + count), r))
  }

  /** A log in which every count and every result is what the answers of the transport call for. */
  predicate AsAnswered(log: Log, transport: seq<SendOutcome>) {
    match log
    case Begun => true
    case Then(before, End(_), count, result) =>
      && AsAnswered(before, transport) && count == 0
      && if Closed(before) then result == Failure(AlreadyClosed)
         else Reported(Answer(transport, Attempts(before)), result)
    case Then(before, op, count, result) =>
      AsAnswered(before, transport) && WriteAnswered(transport, Attempts(before), |Offered(op)|, count, result)
  }

  /** Transport and operations leave a log no choice. */
  lemma {:induction false} LogIsDetermined(log: Log, log': Log, transport: seq<SendOutcome>)
    requires AsAnswered(log, transport) && AsAnswered(log', transport) && Operations(log) == Operations(log')
    ensures log == log'
  {
    if log.Then? {
      assert |Operations(log)| == |Operations(log')|;
      assert log'.Then?;
      assert Operations(log.before) == Operations(log)[..|Operations(log)| - 1];
      assert Operations(log'.before) == Operations(log')[..|Operations(log')| - 1];
      assert log.op == Operations(log)[|Operations(log)| - 1] && log'.op == Operations(log')[|Operations(log)| - 1];
      LogIsDetermined(log.before, log'.before, transport);
      if !log.op.End? {
        WriteIsDetermined(transport, Attempts(log.before), |Offered(log.op)|, log.count, log.result,
                          log'.count, log'.result);
      }
    }
  }

  lemma WriteIsDetermined(transport: seq<SendOutcome>, from: nat, n: nat, count: nat, r: Result<(), StreamError>,
                          count': nat, r': Result<(), StreamError>)
    requires WriteAnswered(transport, from, n, count, r) && WriteAnswered(transport, from, n, count', r')
    ensures count == count' && r == r'
  {
    assert !(count < count') && !(count' < count);
  }

  /** No operation failed, but for closes of a closed stream. */
  predicate NothingFailed(log: Log) {
    log.Then? ==> NothingFailed(log.before) && (log.result.Success? || (log.op.End? && Closed(log.before)))
  }

  predicate AllAcknowledged(transport: seq<SendOutcome>, n: nat) {
    forall i | 1 <= i < n :: Answer(transport, i) == Acknowledged
  }

  /** Nothing fails exactly when every send a session makes is acknowledged; and then everything gets through. */
  lemma {:induction false} NothingFailsIff(log: Log, transport: seq<SendOutcome>)
    requires AsAnswered(log, transport)
    ensures NothingFailed(log) <==> AllAcknowledged(transport, Attempts(log))
    ensures NothingFailed(log) ==> !HasCut(log)
  {
    if log.Then? {
      NothingFailsIff(log.before, transport);
      var n := Attempts(log.before);
      assert !log.op.End? && log.count < |Offered(log.op)| ==> Answer(transport, n + log.count) != Acknowledged;
    }
  }

  /** A log that follows the answers accounts for its chunks and closes once. */
  lemma {:induction false} AnsweredIsAccounted(log: Log, transport: seq<SendOutcome>)
    requires AsAnswered(log, transport)
    ensures Accounted(log) && ClosesOnce(log)
  {
    if log.Then? {
      AnsweredIsAccounted(log.before, transport);
    }
  }

  /** Every write got all its chunks through, or failed and got a part of them through. */
  predicate Accounted(log: Log) {
    match log
    case Begun => true
    case Then(before, op, count, result) =>
      && Accounted(before) && count <= |Offered(op)|
      && (!op.End? ==> (result.Success? <==> count == |Offered(op)|))
  }

  /** The chunks that got through: block after block, each the first chunks of its operation. */
  function Through(log: Log): seq<seq<byte>>
    requires Accounted(log)
  {
    match log
    case Begun => []
    case Then(before, op, count, _) => Through(before) + Offered(op)[..count]
  }

  /** What one operation adds to the wire: a block of its chunks, or the trailer of a close that succeeded. */
  function Performed(w: Wire, id: string, op: Operation, count: nat, result: Result<(), StreamError>): Wire
    requires count <= |Offered(op)|
  {
    match op
    case End(reason) => if result.Success? then Sent(w, Trailer(id, reason)) else w
    case _ => Block(w, id, Offered(op), count)
  }

  /** The wire a log leaves: the header, and what each operation adds. */
  function WireOf(header: Header, log: Log): Wire
    requires Accounted(log)
  {
    match log
    case Begun => Sent(Silent, HeaderPacket(header))
    case Then(before, op, count, result) => Performed(WireOf(header, before), header.streamId, op, count, result)
  }

  /** And after the drop of the stream, which may still have to send the trailer. */
  function SessionWire(header: Header, log: Log, trailerOnDrop: bool): Wire
    requires Accounted(log)
  {
    var w := WireOf(header, log);
    if trailerOnDrop then Sent(w, Trailer(header.streamId, None)) else w
  }

  /** The chunks of a session are the blocks its operations got through, one after the other, and nothing else. */
  lemma {:induction false} WirePayload(header: Header, log: Log)
    requires Accounted(log)
    ensures Payload(WireOf(header, log)) == Through(log)
  {
    if log.Then? {
      WirePayload(header, log.before);
      BlockPayload(WireOf(header, log.before), header.streamId, Offered(log.op), log.count);
      assert Through(log.before) + [] == Through(log.before);
    }
  }

  predicate TextOnly(log: Log) {
    log.Then? ==> !log.op.PutBytes? && TextOnly(log.before)
  }

  /** No chunk of a session is empty or too large, and without byte writes each is text by itself. */
  lemma {:induction false} ThroughFits(log: Log)
    requires Accounted(log)
    ensures Fits(Through(log))
    ensures TextOnly(log) ==> EachIsText(Through(log))
  {
    if log.Then? {
      ThroughFits(log.before);
      OfferedFits(log.op);
    }
  }

  /** The bytes an operation was asked to write. */
  function Input(op: Operation): seq<byte> {
    match op
    case PutBytes(bytes) => bytes
    case PutText(text) => Encode(text)
    case End(_) => []
  }

  /** All the bytes that were to be written. */
  function Inputs(log: Log): seq<byte> {
    match log
    case Begun => []
    case Then(before, op, _, _) => Inputs(before) + Input(op)
  }

  lemma OfferedIsInput(op: Operation)
    ensures Flatten(Offered(op)) == Input(op)
  {
    match op
    case PutBytes(bytes) => ByteChunksCorrect(bytes, CHUNK_SIZE);
    case PutText(text) => var _ := TextChunksCorrect(text, CHUNK_SIZE);
    case End(_) =>
  }

  /** Some write did not get everything through. */
  predicate HasCut(log: Log) {
    log.Then? && (HasCut(log.before) || log.count < |Offered(log.op)|)
  }

  /** When no write failed, the wire holds all that was written. */
  lemma {:induction false} NothingLost(log: Log)
    requires Accounted(log) && !HasCut(log)
    ensures Flatten(Through(log)) == Inputs(log)
  {
    if log.Then? {
      NothingLost(log.before);
      assert Offered(log.op)[..log.count] == Offered(log.op);
      FlattenConcat(Through(log.before), Offered(log.op));
      OfferedIsInput(log.op);
    }
  }

  predicate Closes(op: Operation, result: Result<(), StreamError>) {
    op.End? && result.Success?
  }

  /** Some close has succeeded. */
  predicate Closed(log: Log) {
    log.Then? && (Closed(log.before) || Closes(log.op, log.result))
  }

  /** After a close that succeeded every close is refused. */
  predicate ClosesOnce(log: Log) {
    log.Then? ==>
      && ClosesOnce(log.before)
      && (log.op.End? && Closed(log.before) ==> log.result == Failure(AlreadyClosed))
  }

  /** What the answers make of one operation on a stream that is closed or not: its count and result, and the number of
      sends it takes. */
  predicate OperationAnswered(transport: seq<SendOutcome>, from: nat, closed: bool, op: Operation, count: nat,
                              r: Result<(), StreamError>, taken: nat)
  {
    if op.End? && closed then count == 0 && r == Failure(AlreadyClosed) && taken == 0
    else if op.End? then count == 0 && Reported(Answer(transport, from), r) && taken == 1
    else
      && WriteAnswered(transport, from, |Offered(op)|, count, r)
      && taken == if count == |Offered(op)| then count else count + 1
  }

  method Perform(stream: RawStream, op: Operation) returns (r: Result<(), StreamError>, count: nat)
    requires stream.Valid()
    modifies stream
    ensures stream.Valid() && count <= |Offered(op)| && old(stream.attempts) <= stream.attempts
    ensures stream.wire == Performed(old(stream.wire), stream.header.streamId, op, count, r)
    ensures OperationAnswered(stream.transport, old(stream.attempts), old(stream.isClosed), op, count, r,
                              stream.attempts - old(stream.attempts))
    ensures stream.isClosed <==> old(stream.isClosed) || Closes(op, r)
  {
    count := Acks(stream.transport, stream.attempts, |Offered(op)|);
    match op
    case PutBytes(bytes) =>
      r := WriteBytes(stream, bytes);
    case PutText(text) =>
      r := WriteText(stream, text);
    case End(reason) =>
      r := stream.Close(reason);
  }

  lemma OneMoreAnswered(log: Log, transport: seq<SendOutcome>, op: Operation, count: nat, r: Result<(), StreamError>,
                        taken: nat)
    requires AsAnswered(log, transport) && Accounted(log)
    requires OperationAnswered(transport, Attempts(log), Closed(log), op, count, r, taken)
    ensures var log' := Then(log, op, count, r);
            AsAnswered(log', transport) && Accounted(log') && Attempts(log') == Attempts(log) + taken
  {
  }

  method PerformAll(stream: RawStream, ops: seq<Operation>) returns (log: Log)
    requires stream.Valid() && !stream.isClosed && stream.attempts == 1
    requires stream.wire == Sent(Silent, HeaderPacket(stream.header))
    modifies stream
    ensures stream.Valid() && Accounted(log) && Operations(log) == ops
    ensures AsAnswered(log, stream.transport) && stream.attempts == Attempts(log)
    ensures stream.wire == WireOf(stream.header, log) && (stream.isClosed <==> Closed(log))
  {
    log := Begun;
    for i := 0 to |ops|
      invariant stream.Valid() && Accounted(log) && Operations(log) == ops[..i]
      invariant AsAnswered(log, stream.transport) && stream.attempts == Attempts(log)
      invariant stream.wire == WireOf(stream.header, log) && (stream.isClosed <==> Closed(log))
    {
      assert ops[..i + 1] == ops[..i] + [ops[i]];
      ghost var from := stream.attempts;
      var r, count := Perform(stream, ops[i]);
      OneMoreAnswered(log, stream.transport, ops[i], count, r, stream.attempts - from);
      log := Then(log, ops[i], count, r);
    }
  }

  /** The whole life of a stream: opened, then any operations by any clones in any order, failures and
      retries included, then dropped. */
  method Session(header: Header, transport: seq<SendOutcome>, ops: seq<Operation>, hasRuntime: bool)
    returns (opening: Result<(), StreamError>, wire: Wire, progress: Progress, log: Log, trailerOnDrop: bool)
    ensures Reported(Answer(transport, 0), opening) && (wire == Silent <==> opening.Failure?)
    ensures wire != Silent ==>
              && WellNumbered(wire, header)
              && progress == Progress(|Payload(wire)|, TotalSize(Payload(wire)), header.totalLength)
              && Operations(log) == ops && AsAnswered(log, transport) && Accounted(log)
              && wire == SessionWire(header, log, trailerOnDrop)
              && Payload(wire) == Through(log)
              && Fits(Payload(wire))
              && TrailerCount(wire) <= 1
              && ClosesOnce(log) && (Closed(log) ==> TrailerCount(wire) == 1)
              && (trailerOnDrop <==> !Closed(log) && hasRuntime && Answer(transport, Attempts(log)) == Acknowledged)
  {
    opening, log, trailerOnDrop := Report(Answer(transport, 0)), Begun, false;
    if opening.Failure? {
      return opening, Silent, Progress(0, 0, header.totalLength), log, trailerOnDrop;
    }
    var stream := new RawStream.Opened(header, transport);
    log := PerformAll(stream, ops);
    AnsweredIsAccounted(log, transport);
    ThroughFits(log);
    WirePayload(header, log);
    trailerOnDrop := !stream.isClosed && hasRuntime && Answer(transport, stream.attempts) == Acknowledged;
    stream.Drop(hasRuntime);
    wire, progress := stream.wire, stream.progress;
  }

  // ---- One-shot sends ----

  /** The header, `k` of the pieces, and a trailer or not. */
  function DataWire(header: Header, pieces: seq<seq<byte>>, k: nat, trailer: bool): Wire
    requires k <= |pieces|
  {
    var w := Block(Sent(Silent, HeaderPacket(header)), header.streamId, pieces, k);
    if trailer then Sent(w, TrailerPacket(header.streamId, "")) else w
  }

  /** What a one-shot send puts on the wire. Pieces go out until one fails; `broken` says that the pieces ran
      out because their source failed. A send that ends early, or whose close fails, leaves the trailer to
      the drop of the stream. */
  function SentWire(header: Header, pieces: seq<seq<byte>>, broken: bool, transport: seq<SendOutcome>,
                    hasRuntime: bool): Wire
  {
    if Answer(transport, 0) != Acknowledged then Silent
    else
      var k := Acks(transport, 1, |pieces|);
      var next := if k < |pieces| then k + 2 else k + 1;
      var trailer :=
        if k < |pieces| || broken then hasRuntime && Answer(transport, next) == Acknowledged
        else Answer(transport, next) == Acknowledged || (hasRuntime && Answer(transport, next + 1) == Acknowledged);
      DataWire(header, pieces, k, trailer)
  }

  /** A one-shot send numbers its chunks like any stream and sends a prefix of its pieces and at most one trailer. */
  lemma SentWireShape(header: Header, pieces: seq<seq<byte>>, broken: bool, transport: seq<SendOutcome>,
                      hasRuntime: bool)
    requires Answer(transport, 0) == Acknowledged
    ensures var w := SentWire(header, pieces, broken, transport, hasRuntime);
            var k := Acks(transport, 1, |pieces|);
            && WellNumbered(w, header)
            && Payload(w) == pieces[..k]
            && TrailerCount(w) <= 1
            && w == DataWire(header, pieces, k, TrailerCount(w) == 1)
  {
    var start := Sent(Silent, HeaderPacket(header));
    var k := Acks(transport, 1, |pieces|);
    BlockWellNumbered(start, header, pieces, k);
    BlockPayload(start, header.streamId, pieces, k);
  }

  function SentResult(pieces: seq<seq<byte>>, broken: bool, transport: seq<SendOutcome>): Result<(), StreamError> {
    var k := Acks(transport, 1, |pieces|);
    if Answer(transport, 0) != Acknowledged then Report(Answer(transport, 0))
    else if k < |pieces| then Report(Answer(transport, k + 1))
    else if broken then Failure(Io)
    else Report(Answer(transport, k + 1))
  }

  /** The first send from `from` on that is not acknowledged. Past the end of the script none is. */
  function FirstFailure(transport: seq<SendOutcome>, from: nat): (f: nat)
    ensures from <= f && Answer(transport, f) != Acknowledged
    ensures forall i | from <= i < f :: Answer(transport, i) == Acknowledged
    decreases |transport| - from
  {
    if Answer(transport, from) != Acknowledged then from else FirstFailure(transport, from + 1)
  }

  /** A one-shot send told by the first send that fails, and by the one after it, which is the trailer of the drop.
      Send 0 is the header, sends 1 to `n` are the pieces, and the next is the close. */
  lemma SentByFirstFailure(header: Header, pieces: seq<seq<byte>>, broken: bool, transport: seq<SendOutcome>,
                           hasRuntime: bool)
    ensures var w, r := SentWire(header, pieces, broken, transport, hasRuntime), SentResult(pieces, broken, transport);
            var f, n := FirstFailure(transport, 0), |pieces|;
            var last := if f <= n || !broken then f else n;
            var onDrop := hasRuntime && Answer(transport, last + 1) == Acknowledged;
            && (f == 0 ==> w == Silent && Reported(Answer(transport, 0), r))
            && (1 <= f <= n ==> w == DataWire(header, pieces, f - 1, onDrop) && Reported(Answer(transport, f), r))
            && (f > n && broken ==> w == DataWire(header, pieces, n, onDrop) && r == Failure(Io))
            && (f == n + 1 && !broken ==> w == DataWire(header, pieces, n, onDrop) && Reported(Answer(transport, f), r))
            && (f > n + 1 && !broken ==> w == DataWire(header, pieces, n, true) && r == Success(()))
  {
    var f, n := FirstFailure(transport, 0), |pieces|;
    if f > 0 {
      AcksIs(transport, 1, n, if f <= n then f - 1 else n);
    }
  }

  /** The packet a wire starts with. */
  function FirstPacket(w: Wire): Packet
    requires w.Sent?
  {
    if w.earlier == Silent then w.packet else FirstPacket(w.earlier)
  }

  lemma SentHeaderFirst(header: Header, pieces: seq<seq<byte>>, broken: bool, transport: seq<SendOutcome>,
                        hasRuntime: bool)
    ensures var w := SentWire(header, pieces, broken, transport, hasRuntime);
            w != Silent ==> FirstPacket(w) == HeaderPacket(header)
  {
    if Answer(transport, 0) == Acknowledged {
      SentWireShape(header, pieces, broken, transport, hasRuntime);
      HeaderComesFirst(SentWire(header, pieces, broken, transport, hasRuntime), header);
    }
  }

  lemma {:induction false} HeaderComesFirst(w: Wire, header: Header)
    requires WellNumbered(w, header)
    ensures FirstPacket(w) == HeaderPacket(header)
  {
    if w.earlier != Silent {
      HeaderComesFirst(w.earlier, header);
    }
  }

  /** What remains once the pieces have been offered: close if all went well, and let go of the stream. */
  method Finish(stream: RawStream, written: Result<(), StreamError>, hasRuntime: bool)
    returns (r: Result<(), StreamError>)
    requires stream.Valid() && !stream.isClosed
    modifies stream
    ensures r == if written.Failure? then written else Report(Answer(stream.transport, old(stream.attempts)))
    ensures var n := old(stream.attempts);
            var next := if written.Success? then n + 1 else n;
            stream.wire == if (written.Success? && Answer(stream.transport, n) == Acknowledged)
                              || (hasRuntime && Answer(stream.transport, next) == Acknowledged)
                           then Sent(old(stream.wire), TrailerPacket(stream.header.streamId, "")) else old(stream.wire)
  {
    r := written;
    if r.Success? {
      r := stream.Close(None);
    }
    stream.Drop(hasRuntime);
  }

  function TextHeader(text: string, id: string, topic: string): Header {
    Header(id, topic, Some(|Encode(text)|), Some(Text))
  }

  function BytesHeader(size: nat, id: string, topic: string): Header {
    Header(id, topic, Some(size), Some(Bytes))
  }

  method SendText(text: string, id: string, topic: string, transport: seq<SendOutcome>, hasRuntime: bool)
    returns (r: Result<(), StreamError>, wire: Wire)
    ensures r == SentResult(TextChunks(text, CHUNK_SIZE), false, transport)
    ensures wire == SentWire(TextHeader(text, id, topic), TextChunks(text, CHUNK_SIZE), false, transport, hasRuntime)
    ensures wire != Silent ==>
              FirstPacket(wire) == HeaderPacket(Header(id, topic, Some(|Encode(text)|), Some(Text)))
  {
    var header := TextHeader(text, id, topic);
    SentHeaderFirst(header, TextChunks(text, CHUNK_SIZE), false, transport, hasRuntime);
    if Answer(transport, 0) != Acknowledged {
      return Report(Answer(transport, 0)), Silent;
    }
    var stream := new RawStream.Opened(header, transport);
    r := WriteText(stream, text);
    r := Finish(stream, r, hasRuntime);
    wire := stream.wire;
  }

  method SendBytes(data: seq<byte>, id: string, topic: string, transport: seq<SendOutcome>, hasRuntime: bool)
    returns (r: Result<(), StreamError>, wire: Wire)
    ensures r == SentResult(ByteChunks(data, CHUNK_SIZE), false, transport)
    ensures wire == SentWire(BytesHeader(|data|, id, topic), ByteChunks(data, CHUNK_SIZE), false, transport, hasRuntime)
    ensures wire != Silent ==> FirstPacket(wire) == HeaderPacket(Header(id, topic, Some(|data|), Some(Bytes)))
  {
    var header := BytesHeader(|data|, id, topic);
    SentHeaderFirst(header, ByteChunks(data, CHUNK_SIZE), false, transport, hasRuntime);
    if Answer(transport, 0) != Acknowledged {
      return Report(Answer(transport, 0)), Silent;
    }
    var stream := new RawStream.Opened(header, transport);
    r := WriteBytes(stream, data);
    r := Finish(stream, r, hasRuntime);
    wire := stream.wire;
  }

  /** How a file reads: short reads of any length up to the buffer, then its end or an I/O error. */
  datatype FileReads = FileReads(pieces: seq<seq<byte>>, broken: bool) {
    predicate Plausible() {
      forall i | 0 <= i < |pieces| :: 0 < |pieces[i]| <= FILE_BUFFER
    }
  }

  method WriteFileContents(stream: RawStream, file: FileReads) returns (r: Result<(), StreamError>)
    requires stream.Valid()
    modifies stream
    ensures stream.Valid() && stream.isClosed == old(stream.isClosed)
    ensures Wrote(stream, old(stream.attempts), old(stream.wire), file.pieces,
                  if r == Failure(Io) && file.broken then Success(()) else r)
    ensures r.Success? ==> !file.broken
  {
    r := WriteAll(stream, file.pieces);
    if r.Success? && file.broken {
      r := Failure(Io);
    }
  }

  /** `size` is what the file's metadata said before it was opened; nothing if that failed. */
  method SendFile(size: Option<nat>, file: FileReads, id: string, topic: string, transport: seq<SendOutcome>,
                  hasRuntime: bool)
    returns (r: Result<(), StreamError>, wire: Wire)
    ensures size.None? ==> r == Failure(Io) && wire == Silent
    ensures size.Some? ==>
              && r == SentResult(file.pieces, file.broken, transport)
              && wire == SentWire(BytesHeader(size.value, id, topic), file.pieces, file.broken, transport, hasRuntime)
    ensures wire != Silent ==> FirstPacket(wire) == HeaderPacket(Header(id, topic, size, Some(Bytes)))
  {
    if size.None? {
      return Failure(Io), Silent;
    }
    var header := BytesHeader(size.value, id, topic);
    SentHeaderFirst(header, file.pieces, file.broken, transport, hasRuntime);
    if Answer(transport, 0) != Acknowledged {
      return Report(Answer(transport, 0)), Silent;
    }
    var stream := new RawStream.Opened(header, transport);
    r := WriteFileContents(stream, file);
    r := Finish(stream, r, hasRuntime);
    wire := stream.wire;
  }

  /** Whatever is sent of a file is what single reads returned: never empty and never more than the buffer of 8192. */
  lemma FileChunksFit(header: Header, file: FileReads, transport: seq<SendOutcome>, hasRuntime: bool)
    requires forall i | 0 <= i < |file.pieces| :: 0 < |file.pieces[i]| <= 8192
    ensures file.Plausible()
    ensures var chunks := Payload(SentWire(header, file.pieces, file.broken, transport, hasRuntime));
            Fits(chunks) && forall i | 0 <= i < |chunks| :: |chunks[i]| <= 8192
  {
    if Answer(transport, 0) == Acknowledged {
      SentWireShape(header, file.pieces, file.broken, transport, hasRuntime);
    }
  }
}
