/** The UTF-8 aware chunker: an iterator that cuts a byte buffer into pieces of bounded size and
    scans back from the size limit so as not to cut a character in two. */
module Utf8Chunks {
  import opened Base
  import opened Utf8

  class Utf8AwareChunks {
    var bytes: seq<byte>
    const chunkSize: nat

    constructor (bytes: seq<byte>, chunkSize: nat)
      requires chunkSize >= 4
      ensures this.bytes == bytes && this.chunkSize == chunkSize
    {
      this.bytes := bytes;
      this.chunkSize := chunkSize;
    }

    /** Total on every buffer, UTF-8 or not. */
    method Next() returns (chunk: Option<seq<byte>>)
      modifies this
      ensures old(bytes) == [] ==> chunk == None && bytes == []
      ensures old(bytes) != [] ==>
                var k := Cut(old(bytes), chunkSize);
                chunk == Some(old(bytes)[..k]) && bytes == old(bytes)[k..]
    {
      if bytes == [] {
        return None;
      }
      if |bytes| <= chunkSize {
        chunk := Some(bytes);
        assert bytes[..|bytes|] == bytes;
        bytes := [];
        return;
      }
      var k := chunkSize;
      while k > 0
        invariant 0 <= k <= chunkSize
        invariant forall j | k < j <= chunkSize :: IsContinuation(bytes[j])
      {
        if !IsContinuation(bytes[k]) {
          break;
        }
        k := k - 1;
      }
      ScanBackUnique(bytes, chunkSize, k);
      chunk := Some(bytes[..k]);
      bytes := bytes[k..];
    }
  }

  /** The last position at or below `k` that does not hold a continuation byte; position 0 always stops the scan. */
  function ScanBack(bytes: seq<byte>, k: nat): (b: nat)
    requires k < |bytes|
    ensures b <= k
    ensures b > 0 ==> !IsContinuation(bytes[b])
    ensures forall j | b < j <= k :: IsContinuation(bytes[j])
  {
    if k == 0 || !IsContinuation(bytes[k]) then k else ScanBack(bytes, k - 1)
  }

  lemma ScanBackUnique(bytes: seq<byte>, k: nat, b: nat)
    requires b <= k < |bytes|
    requires b > 0 ==> !IsContinuation(bytes[b])
    requires forall j | b < j <= k :: IsContinuation(bytes[j])
    ensures ScanBack(bytes, k) == b
  {
    var b' := ScanBack(bytes, k);
    assert !(b < b') && !(b' < b);
  }

  /** How many bytes the next chunk takes. */
  function Cut(bytes: seq<byte>, chunkSize: nat): (k: nat)
    ensures k <= |bytes| && k <= chunkSize
  {
    if |bytes| <= chunkSize then |bytes| else ScanBack(bytes, chunkSize)
  }

  /** Draining the iterator gives `chunks` and then ends. */
  ghost predicate Yields(bytes: seq<byte>, chunkSize: nat, chunks: seq<seq<byte>>)
    decreases |chunks|
  {
    if bytes == [] then chunks == []
    else
      var k := Cut(bytes, chunkSize);
      chunks != [] && chunks[0] == bytes[..k] && Yields(bytes[k..], chunkSize, chunks[1..])
  }

  /** The iterator reaches its end after finitely many chunks. */
  ghost predicate Ends(bytes: seq<byte>, chunkSize: nat) {
    exists chunks: seq<seq<byte>> :: Yields(bytes, chunkSize, chunks)
  }

  /** Past position `q` there are `chunkSize` continuation bytes in a row. */
  predicate RunAfter(bytes: seq<byte>, chunkSize: nat, q: nat) {
    q + chunkSize < |bytes| && forall j | q < j <= q + chunkSize :: IsContinuation(bytes[j])
  }

  predicate HasLongRun(bytes: seq<byte>, chunkSize: nat) {
    exists q | 0 <= q < |bytes| :: RunAfter(bytes, chunkSize, q)
  }

  /** The iterator cannot get past a run of `chunkSize` continuation bytes: it never ends. */
  lemma {:induction false} LongRunNeverEnds(bytes: seq<byte>, chunkSize: nat, q: nat, chunks: seq<seq<byte>>)
    requires RunAfter(bytes, chunkSize, q)
    ensures !Yields(bytes, chunkSize, chunks)
    decreases |chunks|
  {
    var k := Cut(bytes, chunkSize);
    assert k <= q;
    if chunks != [] {
      var rest := bytes[k..];
      assert forall j | 0 <= j < |rest| :: rest[j] == bytes[k + j];
      LongRunNeverEnds(rest, chunkSize, q - k, chunks[1..]);
    }
  }

  lemma RunShift(bytes: seq<byte>, k: nat, chunkSize: nat, q: nat)
    requires k <= |bytes| && RunAfter(bytes[k..], chunkSize, q)
    ensures RunAfter(bytes, chunkSize, q + k)
  {
    var rest := bytes[k..];
    assert forall j | k <= j < |bytes| :: bytes[j] == rest[j - k];
  }

  lemma CutWithoutRun(bytes: seq<byte>, chunkSize: nat)
    requires bytes != [] && !HasLongRun(bytes, chunkSize)
    ensures Cut(bytes, chunkSize) > 0
    ensures !HasLongRun(bytes[Cut(bytes, chunkSize)..], chunkSize)
  {
    var k := Cut(bytes, chunkSize);
    if k == 0 {
      assert RunAfter(bytes, chunkSize, 0);
      assert false;
    }
    if q :| 0 <= q < |bytes[k..]| && RunAfter(bytes[k..], chunkSize, q) {
      RunShift(bytes, k, chunkSize, q);
      assert false;
    }
  }

  /** All chunks of a buffer that the iterator gets through. */
  function Chunks(bytes: seq<byte>, chunkSize: nat): (chunks: seq<seq<byte>>)
    requires !HasLongRun(bytes, chunkSize)
    decreases |bytes|
  {
    if bytes == [] then []
    else
      CutWithoutRun(bytes, chunkSize);
      var k := Cut(bytes, chunkSize);
      [bytes[..k]] + Chunks(bytes[k..], chunkSize)
  }

  lemma {:induction false} ChunksYielded(bytes: seq<byte>, chunkSize: nat)
    requires !HasLongRun(bytes, chunkSize)
    ensures Yields(bytes, chunkSize, Chunks(bytes, chunkSize))
    decreases |bytes|
  {
    if bytes != [] {
      CutWithoutRun(bytes, chunkSize);
      ChunksYielded(bytes[Cut(bytes, chunkSize)..], chunkSize);
    }
  }

  /** Exactly which buffers the iterator gets to the end of. The `[u8]` it accepts does not ensure this. */
  lemma EndsIffNoLongRun(bytes: seq<byte>, chunkSize: nat)
    ensures Ends(bytes, chunkSize) <==> !HasLongRun(bytes, chunkSize)
  {
    if HasLongRun(bytes, chunkSize) {
      var q :| 0 <= q < |bytes| && RunAfter(bytes, chunkSize, q);
      forall chunks: seq<seq<byte>>
        ensures !Yields(bytes, chunkSize, chunks)
      {
        LongRunNeverEnds(bytes, chunkSize, q, chunks);
      }
    } else {
      var chunks := Chunks(bytes, chunkSize);
      ChunksYielded(bytes, chunkSize);
      assert Yields(bytes, chunkSize, chunks);
    }
  }

  /** A buffer on which the iterator hands out empty chunks for ever. */
  lemma StallExample()
    ensures !Ends([0x41, 0x80, 0x80, 0x80, 0x80], 4)
  {
    var bytes: seq<byte> := [0x41, 0x80, 0x80, 0x80, 0x80];
    assert RunAfter(bytes, 4, 0);
    EndsIffNoLongRun(bytes, 4);
  }

  // ---- Buffers that hold text ----

  /** Where character `h` starts. */
  function Offset(text: string, h: nat): nat
    requires h <= |text|
  {
    |Encode(text[..h])|
  }

  lemma OffsetStep(text: string, h: nat)
    requires h < |text|
    ensures Offset(text, h + 1) == Offset(text, h) + |EncodeChar(text[h])|
  {
    assert text[..h + 1] == text[..h] + [text[h]];
    EncodeConcat(text[..h], [text[h]]);
    assert Encode([text[h]]) == EncodeChar(text[h]) + Encode([]);
  }

  lemma {:induction false} OffsetMonotone(text: string, g: nat, h: nat)
    requires g < h <= |text|
    ensures Offset(text, g) < Offset(text, h)
    decreases h - g
  {
    OffsetStep(text, g);
    if g + 1 < h {
      OffsetMonotone(text, g + 1, h);
    }
  }

  /** The character that byte `k` belongs to: its lead byte and what follows up to `k`. */
  lemma {:induction false} CharAt(text: string, k: nat) returns (h: nat)
    requires k < |Encode(text)|
    ensures h < |text| && Offset(text, h) <= k < Offset(text, h + 1)
    ensures !IsContinuation(Encode(text)[Offset(text, h)])
    ensures forall j | Offset(text, h) < j <= k :: IsContinuation(Encode(text)[j])
  {
    var head, rest := EncodeChar(text[0]), Encode(text[1..]);
    forall j | 0 <= j < |head|
      ensures IsContinuation(Encode(text)[j]) <==> j > 0
    {
      CharShape(text[0], j);
    }
    if k < |head| {
      h := 0;
      OffsetStep(text, 0);
      assert text[..0] == [];
    } else {
      var h' := CharAt(text[1..], k - |head|);
      h := h' + 1;
      assert text[..h][1..] == text[1..][..h'];
      assert text[..h + 1][1..] == text[1..][..h' + 1];
      assert forall j | |head| <= j < |Encode(text)| :: Encode(text)[j] == rest[j - |head|];
    }
  }

  /** No text holds four continuation bytes in a row, so the iterator ends on every text. */
  lemma TextHasNoLongRun(text: string, chunkSize: nat)
    requires chunkSize >= 4
    ensures !HasLongRun(Encode(text), chunkSize)
  {
    var bytes := Encode(text);
    if q :| 0 <= q < |bytes| && RunAfter(bytes, chunkSize, q) {
      var h := CharAt(text, q + 4);
      OffsetStep(text, h);
      assert false;
    }
  }

  function TextChunks(text: string, chunkSize: nat): (chunks: seq<seq<byte>>)
    requires chunkSize >= 4
  {
    TextHasNoLongRun(text, chunkSize);
    Chunks(Encode(text), chunkSize)
  }

  /** A chunk takes as many whole characters as fit. */
  lemma GreedyCut(text: string, chunkSize: nat) returns (g: nat)
    requires chunkSize >= 4 && text != []
    ensures 0 < g <= |text|
    ensures Cut(Encode(text), chunkSize) == Offset(text, g) <= chunkSize
    ensures forall h | g < h <= |text| :: Offset(text, h) > chunkSize
  {
    var bytes := Encode(text);
    if |bytes| <= chunkSize {
      g := |text|;
      assert text[..g] == text;
    } else {
      g := CharAt(text, chunkSize);
      OffsetStep(text, g);
      ScanBackUnique(bytes, chunkSize, Offset(text, g));
      forall h | g + 1 < h <= |text|
        ensures Offset(text, h) > chunkSize
      {
        OffsetMonotone(text, g + 1, h);
      }
      assert text[..0] == [];
    }
  }

  /** The first chunk and what remains, in characters. */
  lemma TextChunksUnfold(text: string, chunkSize: nat, g: nat)
    requires chunkSize >= 4 && 0 < g <= |text|
    requires Cut(Encode(text), chunkSize) == Offset(text, g)
    ensures TextChunks(text, chunkSize) == [Encode(text[..g])] + TextChunks(text[g..], chunkSize)
  {
    var bytes, k := Encode(text), Offset(text, g);
    assert bytes != [];
    TextHasNoLongRun(text, chunkSize);
    CutWithoutRun(bytes, chunkSize);
    EncodeSplit(text, g);
  }

  lemma EncodeSplit(text: string, g: nat)
    requires g <= |text|
    ensures Encode(text) == Encode(text[..g]) + Encode(text[g..])
    ensures Encode(text)[..Offset(text, g)] == Encode(text[..g])
    ensures Encode(text)[Offset(text, g)..] == Encode(text[g..])
  {
    assert text == text[..g] + text[g..];
    EncodeConcat(text[..g], text[g..]);
  }

  /** `chunks` is `text` cut into the non-empty strings `parts`. */
  ghost predicate Splits(text: string, chunks: seq<seq<byte>>, parts: seq<string>) {
    && |parts| == |chunks|
    && Flatten(parts) == text
    && forall i | 0 <= i < |chunks| :: parts[i] != [] && chunks[i] == Encode(parts[i])
  }

  /** Every chunk is non-empty text of its own, all but the last are nearly full, and nothing is lost. */
  lemma TextChunksCorrect(text: string, chunkSize: nat) returns (parts: seq<string>)
    requires chunkSize >= 4
    ensures var chunks := TextChunks(text, chunkSize);
            && Splits(text, chunks, parts)
            && Flatten(chunks) == Encode(text)
            && (forall i | 0 <= i < |chunks| :: 0 < |chunks[i]| <= chunkSize)
            && (forall i | 0 <= i < |chunks| - 1 :: chunkSize - 3 <= |chunks[i]|)
  {
    parts := TextChunksSplit(text, chunkSize);
    TextChunkSizes(text, chunkSize);
  }

  lemma {:induction false} TextChunksSplit(text: string, chunkSize: nat) returns (parts: seq<string>)
    requires chunkSize >= 4
    ensures var chunks := TextChunks(text, chunkSize); Splits(text, chunks, parts) && Flatten(chunks) == Encode(text)
    decreases |text|
  {
    if text == [] {
      parts := [];
    } else {
      var g := GreedyCut(text, chunkSize);
      TextChunksUnfold(text, chunkSize, g);
      var rest := TextChunksSplit(text[g..], chunkSize);
      parts := [text[..g]] + rest;
      SplitsCons(text, g, TextChunks(text[g..], chunkSize), rest);
    }
  }

  lemma {:induction false} TextChunkSizes(text: string, chunkSize: nat)
    requires chunkSize >= 4
    ensures var chunks := TextChunks(text, chunkSize);
            && (forall i | 0 <= i < |chunks| :: 0 < |chunks[i]| <= chunkSize)
            && (forall i | 0 <= i < |chunks| - 1 :: chunkSize - 3 <= |chunks[i]|)
    decreases |text|
  {
    if text != [] {
      var g := GreedyCut(text, chunkSize);
      TextChunksUnfold(text, chunkSize, g);
      TextChunkSizes(text[g..], chunkSize);
      assert text[..0] == [];
      OffsetMonotone(text, 0, g);
      if g < |text| {
        OffsetStep(text, g);
      } else {
        assert text[g..] == [];
      }
    }
  }

  lemma SplitsCons(text: string, g: nat, chunks: seq<seq<byte>>, parts: seq<string>)
    requires 0 < g <= |text|
    requires Splits(text[g..], chunks, parts) && Flatten(chunks) == Encode(text[g..])
    ensures Splits(text, [Encode(text[..g])] + chunks, [text[..g]] + parts)
    ensures Flatten([Encode(text[..g])] + chunks) == Encode(text)
  {
    EncodeSplit(text, g);
    assert ([text[..g]] + parts)[1..] == parts;
    assert ([Encode(text[..g])] + chunks)[1..] == chunks;
    assert text == text[..g] + text[g..];
  }

  /** The greedy cut stays ahead of any other split, even one that starts earlier in the text. */
  lemma {:induction false} StaysAhead(text: string, chunkSize: nat, pieces: seq<string>, skip: nat)
    requires chunkSize >= 4
    requires skip <= |Flatten(pieces)| && text == Flatten(pieces)[skip..]
    requires forall i | 0 <= i < |pieces| :: |Encode(pieces[i])| <= chunkSize
    ensures |TextChunks(text, chunkSize)| <= |pieces|
    decreases |pieces|
  {
    if text != [] {
      var first, rest := pieces[0], Flatten(pieces[1..]);
      if skip >= |first| {
        assert text == rest[skip - |first|..];
        StaysAhead(text, chunkSize, pieces[1..], skip - |first|);
      } else {
        var x := first[skip..];
        assert text == x + rest;
        EncodeConcat(first[..skip], x);
        assert first == first[..skip] + x;
        var g := GreedyCut(text, chunkSize);
        assert text[..|x|] == x && Offset(text, |x|) <= chunkSize;
        TextChunksUnfold(text, chunkSize, g);
        assert text[g..] == rest[g - |x|..];
        StaysAhead(text[g..], chunkSize, pieces[1..], g - |x|);
      }
    }
  }

  /** No split of the text on character boundaries into pieces that fit uses fewer pieces. */
  lemma ChunkerIsOptimal(text: string, chunkSize: nat, pieces: seq<string>)
    requires chunkSize >= 4
    requires Flatten(pieces) == text
    requires forall i | 0 <= i < |pieces| :: |Encode(pieces[i])| <= chunkSize
    ensures |TextChunks(text, chunkSize)| <= |pieces|
  {
    assert text[0..] == text;
    StaysAhead(text, chunkSize, pieces, 0);
  }
}
