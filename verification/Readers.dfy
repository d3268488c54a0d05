/** Reading a whole stream: `read_all` of the byte reader and of the text reader. */
module Readers {
  import opened Base
  import opened Utf8
  import opened Protocol
  import opened StreamMachine

  /** A reader waits while nothing is left to take and the sender is still there. */
  datatype Outcome<+T> = Waiting | Finished(result: Result<T, StreamError>)

  /** The position of the first item a reader cannot use, or the number of items. */
  function FirstBad(items: seq<Item>, asText: bool): (f: nat)
    ensures f <= |items|
    ensures forall i | 0 <= i < f :: Usable(items[i], asText)
    ensures f < |items| ==> !Usable(items[f], asText)
  {
    if items == [] || !Usable(items[0], asText) then 0 else 1 + FirstBad(items[1..], asText)
  }

  /** The text reader decodes every chunk by itself. */
  predicate Usable(item: Item, asText: bool) {
    item.Data? && (asText ==> Decode(item.bytes).Some?)
  }

  function Complaint(item: Item): StreamError {
    match item
    case Error(e) => e
    case Data(_) => StreamError.Utf8
  }

  function Texts(chunks: seq<seq<byte>>): seq<string>
    requires forall i | 0 <= i < |chunks| :: Decode(chunks[i]).Some?
  {
    seq(|chunks|, i requires 0 <= i < |chunks| => Decode(chunks[i]).value)
  }

  function BytesRead(c: Channel): Outcome<seq<byte>> {
    var f := FirstBad(c.items, false);
    if f < |c.items| then Finished(Failure(Complaint(c.items[f])))
    else if c.senderOpen then Waiting
    else Finished(Success(Flatten(Contents(c.items))))
  }

  function TextRead(c: Channel): Outcome<string> {
    var f := FirstBad(c.items, true);
    if f < |c.items| then Finished(Failure(Complaint(c.items[f])))
    else if c.senderOpen then Waiting
    else
      ContentsOfData(c.items);
      Finished(Success(Flatten(Texts(Contents(c.items)))))
  }

  /** `read_all` of the byte reader on what its channel holds. */
  method ReadAllBytes(c: Channel) returns (r: Outcome<seq<byte>>)
    ensures r == BytesRead(c)
  {
    var buffer: seq<byte> := [];
    var i := 0;
    ghost var pieces: seq<seq<byte>> := [];
    while i < |c.items|
      invariant 0 <= i <= |c.items|
      invariant forall j | 0 <= j < i :: Usable(c.items[j], false)
      invariant |pieces| == i && forall j | 0 <= j < i :: pieces[j] == c.items[j].bytes
      invariant buffer == Flatten(pieces)
    {
      match c.items[i]
      case Error(e) =>
        FirstBadIs(c.items, i, false);
        return Finished(Failure(e));
      case Data(bytes) =>
        FlattenSnoc(pieces, bytes);
        pieces := pieces + [bytes];
        buffer := buffer + bytes;
        i := i + 1;
    }
    BytesArePieces(c, pieces);
    return if c.senderOpen then Waiting else Finished(Success(buffer));
  }

  lemma BytesArePieces(c: Channel, pieces: seq<seq<byte>>)
    requires |pieces| == |c.items|
    requires forall j | 0 <= j < |pieces| :: Usable(c.items[j], false) && pieces[j] == c.items[j].bytes
    ensures BytesRead(c) == if c.senderOpen then Waiting else Finished(Success(Flatten(pieces)))
  {
    FirstBadIs(c.items, |c.items|, false);
    ContentsOfData(c.items);
    assert pieces == Contents(c.items);
  }

  /** The first items decode, one by one, to `pieces`. */
  predicate DecodeTo(items: seq<Item>, pieces: seq<string>) {
    && |pieces| <= |items|
    && forall j | 0 <= j < |pieces| :: Usable(items[j], true) && pieces[j] == Decode(items[j].bytes).value
  }

  /** `read_all` of the text reader. */
  method ReadAllText(c: Channel) returns (r: Outcome<string>)
    ensures r == TextRead(c)
  {
    var text := "";
    var i := 0;
    ghost var pieces: seq<string> := [];
    while i < |c.items|
      invariant i == |pieces| && DecodeTo(c.items, pieces)
      invariant text == Flatten(pieces)
    {
      match c.items[i]
      case Error(e) =>
        FirstBadIs(c.items, i, true);
        return Finished(Failure(e));
      case Data(bytes) =>
        var content := Decode(bytes);
        if content.None? {
          FirstBadIs(c.items, i, true);
          return Finished(Failure(StreamError.Utf8));
        }
        DecodeOneMore(c.items, pieces, content.value);
        FlattenSnoc(pieces, content.value);
        pieces := pieces + [content.value];
        text := text + content.value;
        i := i + 1;
    }
    TextIsPieces(c, pieces);
    return if c.senderOpen then Waiting else Finished(Success(text));
  }

  lemma DecodeOneMore(items: seq<Item>, pieces: seq<string>, content: string)
    requires DecodeTo(items, pieces) && |pieces| < |items|
    requires Usable(items[|pieces|], true) && content == Decode(items[|pieces|].bytes).value
    ensures DecodeTo(items, pieces + [content])
  {
    forall j | 0 <= j < |pieces + [content]|
      ensures Usable(items[j], true) && (pieces + [content])[j] == Decode(items[j].bytes).value
    {
      if j < |pieces| {
        assert Usable(items[j], true) && (pieces + [content])[j] == pieces[j];
      } else {
        assert j == |pieces| && (pieces + [content])[j] == content;
      }
    }
  }

  lemma TextIsPieces(c: Channel, pieces: seq<string>)
    requires DecodeTo(c.items, pieces) && |pieces| == |c.items|
    ensures TextRead(c) == if c.senderOpen then Waiting else Finished(Success(Flatten(pieces)))
  {
    FirstBadIs(c.items, |c.items|, true);
    ContentsOfData(c.items);
    assert pieces == Texts(Contents(c.items));
  }

  lemma FirstBadIs(items: seq<Item>, f: nat, asText: bool)
    requires f <= |items|
    requires forall i | 0 <= i < f :: Usable(items[i], asText)
    requires f < |items| ==> !Usable(items[f], asText)
    ensures FirstBad(items, asText) == f
  {
    var f' := FirstBad(items, asText);
    assert !(f < f') && !(f' < f);
  }

  /** Decoding chunk by chunk, when it works, spells what the whole spells. */
  lemma {:induction false} DecodeByChunk(chunks: seq<seq<byte>>)
    requires forall i | 0 <= i < |chunks| :: Decode(chunks[i]).Some?
    ensures Decode(Flatten(chunks)) == Some(Flatten(Texts(chunks)))
  {
    if chunks != [] {
      DecodeByChunk(chunks[1..]);
      assert Texts(chunks)[1..] == Texts(chunks[1..]);
      DecodeConcat(chunks[0], Flatten(chunks[1..]));
    }
  }

  /** A text stream that ended without an error is read exactly when each of its chunks is UTF-8 by itself,
      whoever sent it, and then it reads as its bytes taken together. */
  lemma TextReadIffEachChunkDecodes(c: Channel)
    requires !c.senderOpen && AllData(c.items)
    ensures (exists text :: TextRead(c) == Finished(Success(text)))
       <==> forall i | 0 <= i < |c.items| :: Decode(c.items[i].bytes).Some?
    ensures forall text :: TextRead(c) == Finished(Success(text)) ==> Decode(Flatten(Contents(c.items))) == Some(text)
  {
    var f := FirstBad(c.items, true);
    if f == |c.items| {
      ContentsOfData(c.items);
      DecodeByChunk(Contents(c.items));
      assert TextRead(c) == Finished(Success(Flatten(Texts(Contents(c.items)))));
    } else {
      assert Decode(c.items[f].bytes).None?;
    }
  }

  /** Bytes, one item after another: the first error decides, at once; else nothing is known until the sender is gone;
      and then it is all of them. */
  lemma BytesReadIs(c: Channel, k: nat)
    requires k <= |c.items| && forall i | 0 <= i < k :: c.items[i].Data?
    ensures k < |c.items| && c.items[k].Error? ==> BytesRead(c) == Finished(Failure(c.items[k].error))
    ensures k == |c.items| && c.senderOpen ==> BytesRead(c) == Waiting
    ensures k == |c.items| && !c.senderOpen ==> BytesRead(c) == Finished(Success(Flatten(Contents(c.items))))
  {
    if k == |c.items| || c.items[k].Error? {
      FirstBadIs(c.items, k, false);
    }
  }

  /** Text likewise, where the first chunk that is not UTF-8 decides as an error does, the stream ended or not, and
      whatever follows. */
  lemma TextReadIs(c: Channel, k: nat)
    requires k <= |c.items| && forall i | 0 <= i < k :: c.items[i].Data? && Decode(c.items[i].bytes).Some?
    ensures k < |c.items| && c.items[k].Error? ==> TextRead(c) == Finished(Failure(c.items[k].error))
    ensures k < |c.items| && c.items[k].Data? && Decode(c.items[k].bytes).None? ==>
              TextRead(c) == Finished(Failure(StreamError.Utf8))
    ensures k == |c.items| && c.senderOpen ==> TextRead(c) == Waiting
    ensures k == |c.items| && !c.senderOpen ==>
              && Decode(Flatten(Contents(c.items))).Some?
              && TextRead(c) == Finished(Success(Decode(Flatten(Contents(c.items))).value))
  {
    if k == |c.items| {
      FirstBadIs(c.items, k, true);
      ContentsOfData(c.items);
      DecodeByChunk(Contents(c.items));
    } else if c.items[k].Error? || Decode(c.items[k].bytes).None? {
      FirstBadIs(c.items, k, true);
    }
  }

  // ---- Whichever reader the header asked for ----

  datatype AnyRead = AsBytes(bytes: Outcome<seq<byte>>) | AsText(text: Outcome<string>)

  method ReadAny(c: Channel) returns (r: AnyRead)
    ensures c.info.kind == Text ==> r == AsText(TextRead(c))
    ensures c.info.kind == Bytes ==> r == AsBytes(BytesRead(c))
  {
    match c.info.kind
    case Bytes =>
      var bytes := ReadAllBytes(c);
      r := AsBytes(bytes);
    case Text =>
      var text := ReadAllText(c);
      r := AsText(text);
  }

  lemma AccentedE()
    ensures Decode([0xC3, 0xA9]) == Some([0xE9 as char]) && Decode([0xC3]).None?
  {
    var s: seq<byte> := [0xC3, 0xA9];
    assert DecodeFirst(s) == Some((0xE9 as char, 2)) && s[2..] == [];
    assert Decode(s[2..]) == Some([]) && [0xE9 as char] + [] == [0xE9 as char];
    assert DecodeFirst([0xC3]).None?;
  }
}
