/** UTF-8 as RFC 3629 defines it: the encoding table of section 3 and the byte grammar of section 4.

    A Rust `str` is modelled by the sequence of its scalar values, a Dafny `string`. */
module Utf8 {
  import opened Base

  /** The chunker's test for a byte that continues a character. */
  predicate IsContinuation(b: byte) {
    (b as bv8) & 0xC0 == 0x80
  }

  /** Section 3: the bytes of one character, six payload bits to a continuation byte. */
  function EncodeChar(c: char): (s: seq<byte>)
    ensures 1 <= |s| <= 4
  {
    EncodeValue(c as int)
  }

  function EncodeValue(v: int): (s: seq<byte>)
    requires 0 <= v < 0x11_0000
    ensures 1 <= |s| <= 4
  {
    var v1 := v / 0x40;
    var v2 := v1 / 0x40;
    var v3 := v2 / 0x40;
    if v < 0x80 then [v]
    else if v < 0x800 then [0xC0 + v1, 0x80 + v % 0x40]
    else if v < 0x1_0000 then [0xE0 + v2, 0x80 + v1 % 0x40, 0x80 + v % 0x40]
    else [0xF0 + v3, 0x80 + v2 % 0x40, 0x80 + v1 % 0x40, 0x80 + v % 0x40]
  }

  /** `str::as_bytes`. */
  function Encode(text: string): seq<byte> {
    if text == [] then [] else EncodeChar(text[0]) + Encode(text[1..])
  }

  predicate Tail(b: byte) {
    0x80 <= b <= 0xBF
  }

  function Value2(b0: int, b1: int): int {
    (b0 - 0xC0) * 0x40 + (b1 - 0x80)
  }

  function Value3(b0: int, b1: int, b2: int): int {
    ((b0 - 0xE0) * 0x40 + (b1 - 0x80)) * 0x40 + (b2 - 0x80)
  }

  function Value4(b0: int, b1: int, b2: int, b3: int): int {
    (((b0 - 0xF0) * 0x40 + (b1 - 0x80)) * 0x40 + (b2 - 0x80)) * 0x40 + (b3 - 0x80)
  }

  predicate Lead3(b0: byte, b1: byte) {
    || (b0 == 0xE0 && 0xA0 <= b1 <= 0xBF)
    || (0xE1 <= b0 <= 0xEC && Tail(b1))
    || (b0 == 0xED && 0x80 <= b1 <= 0x9F)
    || (0xEE <= b0 <= 0xEF && Tail(b1))
  }

  predicate Lead4(b0: byte, b1: byte) {
    || (b0 == 0xF0 && 0x90 <= b1 <= 0xBF)
    || (0xF1 <= b0 <= 0xF3 && Tail(b1))
    || (b0 == 0xF4 && 0x80 <= b1 <= 0x8F)
  }

  /** Section 4: the character that `s` starts with and its length, if `s` starts with one. */
  function DecodeFirst(s: seq<byte>): (r: Option<(char, nat)>)
    ensures r.Some? ==> 0 < r.value.1 <= |s|
  {
    if |s| >= 1 && s[0] <= 0x7F then
      Some((s[0] as char, 1))
    else if |s| >= 2 && 0xC2 <= s[0] <= 0xDF && Tail(s[1]) then
      Some((Value2(s[0], s[1]) as char, 2))
    else if |s| >= 3 && Lead3(s[0], s[1]) && Tail(s[2]) then
      Some((Value3(s[0], s[1], s[2]) as char, 3))
    else if |s| >= 4 && Lead4(s[0], s[1]) && Tail(s[2]) && Tail(s[3]) then
      Some((Value4(s[0], s[1], s[2], s[3]) as char, 4))
    else
      None
  }

  /** `String::from_utf8`: the text these bytes spell, or nothing when they are not UTF-8. */
  function Decode(s: seq<byte>): Option<string> {
    if s == [] then Some([])
    else
      var first := DecodeFirst(s);
      if first.None? then None
      else
        var rest := Decode(s[first.value.1..]);
        if rest.None? then None else Some([first.value.0] + rest.value)
  }

  /** One character of each length, as the examples of section 7 and their neighbours have it. */
  lemma KnownEncodings()
    ensures EncodeChar('A') == [0x41] && EncodeChar('\U{00E9}') == [0xC3, 0xA9]
    ensures EncodeChar('\U{20AC}') == [0xE2, 0x82, 0xAC] && EncodeChar('\U{233B4}') == [0xF0, 0xA3, 0x8E, 0xB4]
  {
  }

  /** The grammar reads back what the encoding table wrote. */
  lemma DecodeFirstEncoded(c: char, rest: seq<byte>)
    ensures DecodeFirst(EncodeChar(c) + rest) == Some((c, |EncodeChar(c)|))
  {
    var v, e := c as int, EncodeChar(c);
    var v1 := v / 0x40;
    var v2 := v1 / 0x40;
    var s := e + rest;
    assert forall j | 0 <= j < |e| :: s[j] == e[j];
    if v < 0x80 {
      assert DecodeFirst(s) == Some((c, 1));
    } else if v < 0x800 {
      assert Value2(e[0], e[1]) == v;
    } else if v < 0x1_0000 {
      assert Value3(e[0], e[1], e[2]) == v;
    } else {
      assert Value4(e[0], e[1], e[2], e[3]) == v;
    }
  }

  /** The grammar accepts nothing the encoding table does not produce: no overlong form, no surrogate. */
  lemma DecodeFirstSound(s: seq<byte>)
    requires DecodeFirst(s).Some?
    ensures var (c, n) := DecodeFirst(s).value; s[..n] == EncodeChar(c)
  {
    var (c, n) := DecodeFirst(s).value;
    if n == 2 {
      Value2Sound(s[0], s[1]);
    } else if n == 3 {
      Value3Sound(s[0], s[1], s[2]);
    } else if n == 4 {
      Value4Sound(s[0], s[1], s[2], s[3]);
    }
  }

  lemma SixBits(q: int, t: int)
    requires 0 <= q && 0 <= t < 0x40
    ensures (q * 0x40 + t) / 0x40 == q && (q * 0x40 + t) % 0x40 == t
  {
  }

  lemma Value2Sound(b0: byte, b1: byte)
    requires 0xC2 <= b0 <= 0xDF && Tail(b1)
    ensures EncodeValue(Value2(b0, b1)) == [b0, b1]
  {
    SixBits(b0 as int - 0xC0, b1 as int - 0x80);
  }

  lemma Encode3(v: int, v1: int, v2: int)
    requires 0x800 <= v < 0x1_0000 && v / 0x40 == v1 && v1 / 0x40 == v2
    ensures EncodeValue(v) == [0xE0 + v2, 0x80 + v1 % 0x40, 0x80 + v % 0x40]
  {
  }

  lemma Value3Sound(b0: byte, b1: byte, b2: byte)
    requires Lead3(b0, b1) && Tail(b2)
    ensures EncodeValue(Value3(b0, b1, b2)) == [b0, b1, b2]
  {
    var t2, t1, t0 := b0 as int - 0xE0, b1 as int - 0x80, b2 as int - 0x80;
    var v1 := t2 * 0x40 + t1;
    SixBits(t2, t1);
    SixBits(v1, t0);
    assert 0x20 <= v1 < 0x400;
    Encode3(v1 * 0x40 + t0, v1, t2);
  }

  lemma Encode4(v: int, v1: int, v2: int, v3: int)
    requires 0x1_0000 <= v < 0x11_0000 && v / 0x40 == v1 && v1 / 0x40 == v2 && v2 / 0x40 == v3
    ensures EncodeValue(v) == [0xF0 + v3, 0x80 + v2 % 0x40, 0x80 + v1 % 0x40, 0x80 + v % 0x40]
  {
  }

  lemma Value4Sound(b0: byte, b1: byte, b2: byte, b3: byte)
    requires Lead4(b0, b1) && Tail(b2) && Tail(b3)
    ensures EncodeValue(Value4(b0, b1, b2, b3)) == [b0, b1, b2, b3]
  {
    var t3, t2, t1, t0 := b0 as int - 0xF0, b1 as int - 0x80, b2 as int - 0x80, b3 as int - 0x80;
    var v2 := t3 * 0x40 + t2;
    var v1 := v2 * 0x40 + t1;
    SixBits(t3, t2);
    SixBits(v2, t1);
    SixBits(v1, t0);
    assert 0x10 <= v2 < 0x110;
    Encode4(v1 * 0x40 + t0, v1, v2, t3);
  }

  lemma {:induction false} DecodeEncode(text: string)
    ensures Decode(Encode(text)) == Some(text)
  {
    if text != [] {
      var head, rest := EncodeChar(text[0]), Encode(text[1..]);
      DecodeFirstEncoded(text[0], rest);
      assert (head + rest)[|head|..] == rest;
      DecodeEncode(text[1..]);
      assert text == [text[0]] + text[1..];
    }
  }

  lemma EncodeCons(c: char, rest: string)
    ensures Encode([c] + rest) == EncodeChar(c) + Encode(rest)
  {
    assert ([c] + rest)[1..] == rest;
  }

  lemma {:induction false} EncodeDecode(s: seq<byte>)
    requires Decode(s).Some?
    ensures Encode(Decode(s).value) == s
    decreases |s|
  {
    if s != [] {
      var (c, n) := DecodeFirst(s).value;
      DecodeFirstSound(s);
      EncodeDecode(s[n..]);
      EncodeCons(c, Decode(s[n..]).value);
      assert s == s[..n] + s[n..];
    }
  }

  /** Section 4 accepts exactly the image of section 3, and reads it back. */
  lemma DecodeIffEncoded(s: seq<byte>, text: string)
    ensures Decode(s) == Some(text) <==> s == Encode(text)
  {
    if Decode(s) == Some(text) {
      EncodeDecode(s);
    }
    DecodeEncode(text);
  }

  lemma {:induction false} EncodeConcat(a: string, b: string)
    ensures Encode(a + b) == Encode(a) + Encode(b)
  {
    if a == [] {
      assert a + b == b;
    } else {
      assert (a + b)[1..] == a[1..] + b;
      EncodeConcat(a[1..], b);
    }
  }

  /** The first character of a text is told by the first bytes of its encoding, whatever follows. */
  lemma SameFirstChar(a: char, x: seq<byte>, b: char, y: seq<byte>)
    requires EncodeChar(a) + x == EncodeChar(b) + y
    ensures a == b && x == y
  {
    DecodeFirstEncoded(a, x);
    DecodeFirstEncoded(b, y);
    assert (EncodeChar(a) + x)[|EncodeChar(a)|..] == x && (EncodeChar(b) + y)[|EncodeChar(b)|..] == y;
  }

  lemma {:induction false} EncodeReflectsPrefix(a: string, b: string, rest: seq<byte>)
    requires Encode(a) + rest == Encode(b)
    ensures a <= b
  {
    if a != [] {
      assert EncodeChar(a[0]) + (Encode(a[1..]) + rest) == Encode(b);
      SameFirstChar(a[0], Encode(a[1..]) + rest, b[0], Encode(b[1..]));
      EncodeReflectsPrefix(a[1..], b[1..], rest);
      assert a == [a[0]] + a[1..] && b == [b[0]] + b[1..];
    }
  }

  /** Encoding keeps and reflects prefixes. */
  lemma EncodePrefixIff(a: string, b: string)
    ensures Encode(a) <= Encode(b) <==> a <= b
  {
    if a <= b {
      EncodeConcat(a, b[|a|..]);
      assert b == a + b[|a|..];
    }
    if Encode(a) <= Encode(b) {
      EncodeReflectsPrefix(a, b, Encode(b)[|Encode(a)|..]);
    }
  }

  /** Decoding piece by piece agrees with decoding the whole. */
  lemma DecodeConcat(a: seq<byte>, b: seq<byte>)
    requires Decode(a).Some? && Decode(b).Some?
    ensures Decode(a + b) == Some(Decode(a).value + Decode(b).value)
  {
    EncodeDecode(a);
    EncodeDecode(b);
    EncodeConcat(Decode(a).value, Decode(b).value);
    DecodeEncode(Decode(a).value + Decode(b).value);
  }

  /** The lead byte of a character is no continuation byte, and all its others are. */
  lemma CharShape(c: char, j: nat)
    requires j < |EncodeChar(c)|
    ensures IsContinuation(EncodeChar(c)[j]) <==> j > 0
  {
  }
}
