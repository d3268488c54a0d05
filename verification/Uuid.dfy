/** The clock-derived substitute for a random UUID. Masks and shifts of the source are written as remainders
    and quotients by powers of two. */
module Uuid {
  /** Time since the epoch: whole seconds (64 bits) and nanoseconds within the second. */
  datatype Reading = Reading(secs: nat, nanos: nat) {
    predicate Possible() {
      secs < 0x1_0000_0000_0000_0000 && nanos < 1_000_000_000
    }

    function AsNanos(): nat {
      secs * 1_000_000_000 + nanos
    }
  }

  function HexDigit(d: nat): char
    requires d < 16
  {
    if d < 10 then ('0' as int + d) as char else ('a' as int + (d - 10)) as char
  }

  lemma HexDigitIs(d: nat)
    requires d < 16
    ensures HexDigit(d) == "0123456789abcdef"[d]
  {
  }

  /** A number in lower-case hexadecimal, without leading zeros. */
  function Hex(n: nat): string {
    if n < 16 then [HexDigit(n)] else Hex(n / 16) + [HexDigit(n % 16)]
  }

  function Pad(s: string, width: nat): string
    decreases width - |s|
  {
    if |s| < width then Pad("0" + s, width) else s
  }

  /** `{:0width$x}`. */
  function PaddedHex(n: nat, width: nat): string {
    Pad(Hex(n), width)
  }

  const TWO_12 := 0x1000
  const TWO_14 := 0x4000
  const TWO_16 := 0x1_0000
  const TWO_32 := 0x1_0000_0000
  const TWO_48 := 0x1_0000_0000_0000
  const TWO_53 := 0x20_0000_0000_0000
  const TWO_62 := 0x4000_0000_0000_0000

  function TimeLow(r: Reading): nat { r.AsNanos() % TWO_32 }
  function TimeMid(r: Reading): nat { r.AsNanos() / TWO_32 % TWO_16 }
  function VersionRest(r: Reading): nat { r.secs % TWO_12 }
  function Variant(r: Reading): nat { 0x8000 + r.AsNanos() / TWO_48 % TWO_14 }
  function Node(r: Reading): nat { r.secs % TWO_48 }

  function CreateUuid(r: Reading): string {
    PaddedHex(TimeLow(r), 8) + "-" + PaddedHex(TimeMid(r), 4) + "-4" + PaddedHex(VersionRest(r), 3)
    + "-" + PaddedHex(Variant(r), 4) + "-" + PaddedHex(Node(r), 12)
  }

  // ---- Hexadecimal ----

  function Pow16(w: nat): nat {
    if w == 0 then 1 else 16 * Pow16(w - 1)
  }

  predicate IsHex(c: char) {
    '0' <= c <= '9' || 'a' <= c <= 'f'
  }

  function HexValue(c: char): nat {
    if 'a' <= c <= 'f' then c as int - 'a' as int + 10 else if '0' <= c <= '9' then c as int - '0' as int else 0
  }

  /** The number a string of hexadecimal digits stands for. */
  function ReadHex(s: string): nat {
    if s == [] then 0 else ReadHex(s[..|s| - 1]) * 16 + HexValue(s[|s| - 1])
  }

  predicate AllHex(s: string) {
    forall i | 0 <= i < |s| :: IsHex(s[i])
  }

  lemma {:induction false} HexReads(n: nat, width: nat)
    requires n < Pow16(width) && width > 0
    ensures 0 < |Hex(n)| <= width && AllHex(Hex(n)) && ReadHex(Hex(n)) == n
  {
    if n >= 16 {
      assert width > 1;
      HexReads(n / 16, width - 1);
      var init, last := Hex(n / 16), HexDigit(n % 16);
      assert (init + [last])[..|init|] == init;
    }
  }

  lemma {:induction false} LeadingZero(s: string)
    ensures ReadHex("0" + s) == ReadHex(s)
  {
    if s != [] {
      LeadingZero(s[..|s| - 1]);
      assert ("0" + s)[..|s|] == "0" + s[..|s| - 1];
    }
  }

  lemma {:induction false} PadReads(s: string, width: nat)
    requires |s| <= width && AllHex(s)
    ensures |Pad(s, width)| == width && AllHex(Pad(s, width)) && ReadHex(Pad(s, width)) == ReadHex(s)
    decreases width - |s|
  {
    if |s| < width {
      LeadingZero(s);
      PadReads("0" + s, width);
    }
  }

  /** A number that fits is printed at exactly the width asked for, and can be read back. */
  lemma PaddedHexReads(n: nat, width: nat)
    requires n < Pow16(width) && width > 0
    ensures var s := PaddedHex(n, width); |s| == width && AllHex(s) && ReadHex(s) == n
  {
    HexReads(n, width);
    PadReads(Hex(n), width);
  }

  lemma Widths()
    ensures Pow16(3) == TWO_12 && Pow16(4) == TWO_16 && Pow16(8) == TWO_32 && Pow16(12) == TWO_48
  {
    assert Pow16(2) == 256;
    assert Pow16(4) == 256 * Pow16(2);
    assert Pow16(6) == 256 * Pow16(4);
    assert Pow16(8) == 256 * Pow16(6);
    assert Pow16(10) == 256 * Pow16(8);
    assert Pow16(12) == 256 * Pow16(10);
    assert Pow16(3) == 16 * Pow16(2);
  }

  /** The first digit of a four-digit number whose top bits are 10. */
  lemma VariantDigit(n: nat)
    requires 0x8000 <= n < 0xC000
    ensures var s := PaddedHex(n, 4); |s| == 4 && s[0] in {'8', '9', 'a', 'b'}
  {
    Widths();
    PaddedHexReads(n, 4);
    var s := PaddedHex(n, 4);
    assert Hex(n) == Hex(n / 16) + [HexDigit(n % 16)];
    assert Hex(n / 16) == Hex(n / 16 / 16) + [HexDigit(n / 16 % 16)];
    var top := n / 16 / 16 / 16;
    assert Hex(n / 16 / 16) == Hex(top) + [HexDigit(n / 16 / 16 % 16)];
    assert 8 <= top < 12 && Hex(top) == [HexDigit(top)];
    assert s[0] == HexDigit(top);
  }

  // ---- The text ----

  predicate IsHyphenPosition(i: nat) {
    i == 8 || i == 13 || i == 18 || i == 23
  }

  /** Section 3 of RFC 4122, with the version and variant digits of sections 4.1.3 and 4.1.1. */
  predicate WellFormed(s: string) {
    && |s| == 36
    && (forall i | 0 <= i < 36 :: if IsHyphenPosition(i) then s[i] == '-' else IsHex(s[i]))
    && s[14] == '4'
    && s[19] in {'8', '9', 'a', 'b'}
  }

  lemma FieldsRead(r: Reading)
    ensures var a, b, c, d, e := PaddedHex(TimeLow(r), 8), PaddedHex(TimeMid(r), 4), PaddedHex(VersionRest(r), 3),
                                 PaddedHex(Variant(r), 4), PaddedHex(Node(r), 12);
            && |a| == 8 && |b| == 4 && |c| == 3 && |d| == 4 && |e| == 12
            && AllHex(a) && AllHex(b) && AllHex(c) && AllHex(d) && AllHex(e)
            && ReadHex(a) == TimeLow(r) && ReadHex(b) == TimeMid(r) && ReadHex(c) == VersionRest(r)
            && ReadHex(d) == Variant(r) && ReadHex(e) == Node(r)
  {
    Widths();
    PaddedHexReads(TimeLow(r), 8);
    PaddedHexReads(TimeMid(r), 4);
    PaddedHexReads(VersionRest(r), 3);
    PaddedHexReads(Variant(r), 4);
    PaddedHexReads(Node(r), 12);
  }

  /** Every clock reading gives a well-formed version-4 UUID. */
  lemma AlwaysWellFormed(r: Reading)
    ensures WellFormed(CreateUuid(r))
  {
    FieldsRead(r);
    VariantDigit(Variant(r));
  }

  lemma FieldsAt(r: Reading)
    ensures var s := CreateUuid(r);
            && |s| == 36
            && s[0..8] == PaddedHex(TimeLow(r), 8) && s[9..13] == PaddedHex(TimeMid(r), 4)
            && s[13..15] == "-4" && s[15..18] == PaddedHex(VersionRest(r), 3)
            && s[19..23] == PaddedHex(Variant(r), 4) && s[24..36] == PaddedHex(Node(r), 12)
  {
    FieldsRead(r);
    Layout(PaddedHex(TimeLow(r), 8), PaddedHex(TimeMid(r), 4), PaddedHex(VersionRest(r), 3), PaddedHex(Variant(r), 4),
           PaddedHex(Node(r), 12));
  }

  lemma Layout(a: string, b: string, c: string, d: string, e: string)
    requires |a| == 8 && |b| == 4 && |c| == 3 && |d| == 4 && |e| == 12
    ensures var s := a + "-" + b + "-4" + c + "-" + d + "-" + e;
            && |s| == 36 && s[0..8] == a && s[9..13] == b && s[13..15] == "-4" && s[15..18] == c
            && s[19..23] == d && s[24..36] == e
  {
  }

  /** Which bits of which clock each field of the text holds. */
  lemma FieldsHold(r: Reading)
    ensures var s, nanos := CreateUuid(r), r.secs * 1_000_000_000 + r.nanos;
            && |s| == 36
            && ReadHex(s[0..8]) == nanos % 0x1_0000_0000
            && ReadHex(s[9..13]) == nanos / 0x1_0000_0000 % 0x1_0000
            && s[13..15] == "-4" && ReadHex(s[15..18]) == r.secs % 0x1000
            && ReadHex(s[19..23]) == 0x8000 + nanos / 0x1_0000_0000_0000 % 0x4000
            && ReadHex(s[24..36]) == r.secs % 0x1_0000_0000_0000
  {
    FieldsAt(r);
    FieldsRead(r);
  }

  /** The text of a UUID tells its fields. */
  lemma TextTellsFields(r: Reading, q: Reading)
    requires CreateUuid(r) == CreateUuid(q)
    ensures TimeLow(r) == TimeLow(q) && TimeMid(r) == TimeMid(q) && Variant(r) == Variant(q) && Node(r) == Node(q)
  {
    FieldsAt(r);
    FieldsAt(q);
    FieldsRead(r);
    FieldsRead(q);
  }

  // ---- Collisions ----

  lemma QuotientIs(a: nat, m: nat, q: int, r: nat)
    requires m > 0 && r < m && a == q * m + r
    ensures a / m == q && a % m == r
  {
    var d := a / m - q;
    assert d * m == r - a % m;
    assert d >= 1 ==> d * m >= m;
    assert -d >= 1 ==> -d * m >= m;
  }

  /** Adding a multiple of the divisor adds to the quotient and leaves the remainder. */
  lemma ShiftQuotient(a: nat, b: nat, t: int, m: nat)
    requires m > 0 && a == b + t * m
    ensures a / m == b / m + t && a % m == b % m
  {
    var q := b / m + t;
    assert a == q * m + b % m;
    QuotientIs(a, m, q, b % m);
  }

  /** The three clock fields together hold the low 62 bits of the nanosecond count. */
  lemma LowBits(n: nat)
    ensures n % TWO_62 == n % TWO_32 + TWO_32 * (n / TWO_32 % TWO_16) + TWO_48 * (n / TWO_48 % TWO_14)
  {
    var a := n / TWO_32;
    var b := a / TWO_16;
    assert n / TWO_48 == b;
  }

  /** A second is an odd multiple of 2^9 nanoseconds, so equal low bits of both clocks pin the readings down
      up to 2^53 seconds. */
  lemma EqualLowBits(r: Reading, q: Reading)
    requires r.Possible() && q.Possible()
    requires r.secs % TWO_48 == q.secs % TWO_48 && r.AsNanos() % TWO_62 == q.AsNanos() % TWO_62
    ensures r.nanos == q.nanos && r.secs % TWO_53 == q.secs % TWO_53
  {
    var d: int := r.secs / TWO_48 - q.secs / TWO_48;
    var k: int := r.AsNanos() / TWO_62 - q.AsNanos() / TWO_62;
    assert r.secs - q.secs == d * TWO_48;
    assert r.AsNanos() - q.AsNanos() == k * TWO_62;
    var delta: int := r.nanos - q.nanos;
    assert delta == (32 * k - 1953125 * d) * 0x200_0000_0000_0000;
    assert delta == 0 && 32 * k == 1953125 * d;
    var m := 13 * k - 793457 * d;
    assert d == 32 * m;
    assert r.secs - q.secs == m * TWO_53;
    SameRemainder(r.secs, q.secs, m);
  }

  lemma SameRemainder(a: nat, b: nat, m: int)
    requires a - b == m * TWO_53
    ensures a % TWO_53 == b % TWO_53
  {
    ShiftQuotient(a, b, m, TWO_53);
  }

  lemma EqualFields(r: Reading, q: Reading)
    requires r.nanos == q.nanos && r.secs % TWO_53 == q.secs % TWO_53
    ensures CreateUuid(r) == CreateUuid(q)
  {
    var m: int := r.secs / TWO_53 - q.secs / TWO_53;
    assert r.secs - q.secs == m * TWO_53;
    assert r.AsNanos() - q.AsNanos() == m * 1953125 * TWO_62;
    Reduce(r.secs, q.secs, m);
    ReduceNanos(r.AsNanos(), q.AsNanos(), m * 1953125);
  }

  lemma Reduce(a: nat, b: nat, m: int)
    requires a - b == m * TWO_53
    ensures a % TWO_48 == b % TWO_48 && a % TWO_12 == b % TWO_12
  {
    ShiftQuotient(a, b, 32 * m, TWO_48);
    ShiftQuotient(a, b, 0x200_0000_0000 * m, TWO_12);
  }

  lemma ReduceNanos(a: nat, b: nat, k: int)
    requires a - b == k * TWO_62
    ensures a % TWO_32 == b % TWO_32
    ensures a / TWO_32 % TWO_16 == b / TWO_32 % TWO_16
    ensures a / TWO_48 % TWO_14 == b / TWO_48 % TWO_14
  {
    ShiftQuotient(a, b, 0x4000_0000 * k, TWO_32);
    ShiftQuotient(a / TWO_32, b / TWO_32, TWO_14 * k, TWO_16);
    ShiftQuotient(a, b, TWO_14 * k, TWO_48);
    ShiftQuotient(a / TWO_48, b / TWO_48, k, TWO_14);
  }

  /** Exactly which readings share a text: the same nanosecond of seconds that differ by a multiple of 2^53. */
  lemma CollideIff(r: Reading, q: Reading)
    requires r.Possible() && q.Possible()
    ensures CreateUuid(r) == CreateUuid(q) <==> r.nanos == q.nanos && r.secs % TWO_53 == q.secs % TWO_53
  {
    if CreateUuid(r) == CreateUuid(q) {
      TextTellsFields(r, q);
      LowBits(r.AsNanos());
      LowBits(q.AsNanos());
      EqualLowBits(r, q);
    } else if r.nanos == q.nanos && r.secs % TWO_53 == q.secs % TWO_53 {
      EqualFields(r, q);
    }
  }

  /** Two different readings before 2^53 seconds never share a text. */
  lemma NeverCollides(r: Reading, q: Reading)
    requires r.Possible() && q.Possible() && r != q && r.secs < TWO_53 && q.secs < TWO_53
    ensures CreateUuid(r) != CreateUuid(q)
  {
    assert r.secs % TWO_53 == r.secs && q.secs % TWO_53 == q.secs;
    CollideIff(r, q);
  }

  lemma CollisionExample()
    ensures CreateUuid(Reading(0, 0)) == CreateUuid(Reading(TWO_53, 0))
  {
    CollideIff(Reading(0, 0), Reading(TWO_53, 0));
  }
}
