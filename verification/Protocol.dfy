/** The packets of the data-stream protocol and the types both of its ends share. */
module Protocol {
  import opened Base

  datatype StreamError =
    | AlreadyClosed
    | AbnormalEnd(reason: string)
    | Utf8
    | InvalidHeader
    | MissedChunk
    | LengthExceeded
    | Incomplete
    | SendFailed
    | Io
    | Internal
    | EncryptionTypeMismatch

  datatype Encryption = Plain | Gcm | Custom

  datatype Kind = Text | Bytes

  /** `content` is the content header: absent in a malformed packet. */
  datatype Header = Header(streamId: string, topic: string, totalLength: Option<nat>, content: Option<Kind>)

  datatype Packet =
    | HeaderPacket(header: Header)
    | ChunkPacket(chunkStreamId: string, chunkIndex: nat, content: seq<byte>)
    | TrailerPacket(trailerStreamId: string, reason: string)
  {
    function StreamId(): string {
      match this
      case HeaderPacket(h) => h.streamId
      case ChunkPacket(id, _, _) => id
      case TrailerPacket(id, _) => id
    }
  }

  datatype StreamInfo =
    StreamInfo(id: string, topic: string, totalLength: Option<nat>, kind: Kind, encryption: Encryption)

  /** A header says whether text or bytes follow; one that says neither is invalid. */
  function InfoFromHeader(h: Header, encryption: Encryption): Result<StreamInfo, StreamError> {
    match h.content
    case None => Failure(InvalidHeader)
    case Some(kind) => Success(StreamInfo(h.streamId, h.topic, h.totalLength, kind, encryption))
  }

  datatype Progress = Progress(chunkIndex: nat, bytesProcessed: nat, bytesTotal: Option<nat>)

  /** Total size of a list of chunks. */
  function TotalSize(chunks: seq<seq<byte>>): nat {
    |Flatten(chunks)|
  }
}
