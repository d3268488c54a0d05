/** The `max-age` directive of a `Cache-Control` header. */
module MaxAge {
  import opened Base

  const U64_MAX: nat := 0xFFFF_FFFF_FFFF_FFFF

  // ---- The string operations the parser is made of ----

  /** `str::split`: the pieces between separators, at least one. */
  function Split(s: string, sep: char): (parts: seq<string>)
    ensures parts != []
  {
    if s == [] then [[]]
    else
      var rest := Split(s[1..], sep);
      if s[0] == sep then [[]] + rest else [[s[0]] + rest[0]] + rest[1..]
  }

  /** `str::split_once`: what is before and after the first separator. */
  function SplitOnce(s: string, sep: char): Option<(string, string)> {
    if s == [] then None
    else if s[0] == sep then Some(([], s[1..]))
    else
      match SplitOnce(s[1..], sep)
      case None => None
      case Some((before, after)) => Some(([s[0]] + before, after))
  }

  /** The code points with the Unicode property White_Space. */
  predicate IsWhitespace(c: char) {
    var v := c as int;
    || 0x09 <= v <= 0x0D || v == 0x20 || v == 0x85 || v == 0xA0 || v == 0x1680
    || 0x2000 <= v <= 0x200A || v == 0x2028 || v == 0x2029 || v == 0x202F || v == 0x205F || v == 0x3000
  }

  function TrimStart(s: string): string {
    if s != [] && IsWhitespace(s[0]) then TrimStart(s[1..]) else s
  }

  function TrimEnd(s: string): string {
    if s != [] && IsWhitespace(s[|s| - 1]) then TrimEnd(s[..|s| - 1]) else s
  }

  function Trim(s: string): string {
    TrimEnd(TrimStart(s))
  }

  function AsciiLower(c: char): char {
    if 'A' <= c <= 'Z' then (c as int + 32) as char else c
  }

  predicate EqIgnoreAsciiCase(a: string, b: string) {
    |a| == |b| && forall i | 0 <= i < |a| :: AsciiLower(a[i]) == AsciiLower(b[i])
  }

  predicate IsDigit(c: char) {
    '0' <= c <= '9'
  }

  /** Decimal digits after a number read so far, with the overflow check of 64-bit arithmetic. */
  function ParseDigits(s: string, read: nat): Option<nat> {
    if s == [] then Some(read)
    else if !IsDigit(s[0]) then None
    else
      var v := read * 10 + (s[0] as int - '0' as int);
      if v > U64_MAX then None else ParseDigits(s[1..], v)
  }

  /** `str::parse::<u64>`: digits, optionally after a plus sign. */
  function ParseU64(s: string): Option<nat> {
    var digits := if s != [] && s[0] == '+' then s[1..] else s;
    if digits == [] then None else ParseDigits(digits, 0)
  }

  // ---- The parser ----

  function ParseDirective(directive: string): Option<nat> {
    match SplitOnce(directive, '=')
    case None => None
    case Some((name, value)) =>
      if EqIgnoreAsciiCase(Trim(name), "max-age") then ParseU64(Trim(value)) else None
  }

  function FindFirst(directives: seq<string>): Option<nat> {
    if directives == [] then None
    else
      var r := ParseDirective(directives[0]);
      if r.Some? then r else FindFirst(directives[1..])
  }

  /** Seconds. */
  function ParseMaxAge(header: string): Option<nat> {
    FindFirst(Split(header, ','))
  }

  // ---- Splitting undoes joining ----

  function Join(parts: seq<string>, sep: char): string
    requires parts != []
  {
    if |parts| == 1 then parts[0] else parts[0] + [sep] + Join(parts[1..], sep)
  }

  lemma {:induction false} SplitFirst(part: string, rest: string, sep: char)
    requires sep !in part
    ensures Split(part + [sep] + rest, sep) == [part] + Split(rest, sep)
  {
    var s := part + [sep] + rest;
    if part == [] {
      assert s[1..] == rest;
    } else {
      SplitFirst(part[1..], rest, sep);
      assert s[1..] == part[1..] + [sep] + rest;
      assert part == [part[0]] + part[1..];
      assert ([part[1..]] + Split(rest, sep))[1..] == Split(rest, sep);
    }
  }

  lemma {:induction false} SplitNone(part: string, sep: char)
    requires sep !in part
    ensures Split(part, sep) == [part]
  {
    if part != [] {
      SplitNone(part[1..], sep);
      assert part == [part[0]] + part[1..];
    }
  }

  /** Splitting and joining undo each other. */
  lemma {:induction false} SplitJoin(parts: seq<string>, sep: char)
    requires parts != [] && forall i | 0 <= i < |parts| :: sep !in parts[i]
    ensures Split(Join(parts, sep), sep) == parts
  {
    if |parts| == 1 {
      SplitNone(parts[0], sep);
    } else {
      SplitJoin(parts[1..], sep);
      SplitFirst(parts[0], Join(parts[1..], sep), sep);
    }
  }

  lemma {:induction false} JoinSplit(s: string, sep: char)
    ensures Join(Split(s, sep), sep) == s
    ensures forall i | 0 <= i < |Split(s, sep)| :: sep !in Split(s, sep)[i]
  {
    if s != [] {
      JoinSplit(s[1..], sep);
      var rest := Split(s[1..], sep);
      var parts := Split(s, sep);
      if s[0] == sep {
        assert parts[1..] == rest;
        assert [] + [sep] + s[1..] == s;
      } else {
        assert parts[1..] == rest[1..];
        assert [s[0]] + s[1..] == s;
        if |rest| > 1 {
          assert ([s[0]] + rest[0]) + [sep] + Join(rest[1..], sep) == [s[0]] + (rest[0] + [sep] + Join(rest[1..], sep));
        }
      }
    }
  }

  // ---- Trimming and finding the name ----

  predicate AllWhitespace(s: string) {
    forall i | 0 <= i < |s| :: IsWhitespace(s[i])
  }

  lemma {:induction false} TrimStartBlank(blank: string, s: string)
    requires AllWhitespace(blank) && (s != [] ==> !IsWhitespace(s[0]))
    ensures TrimStart(blank + s) == s
  {
    if blank == [] {
      assert blank + s == s;
    } else {
      assert (blank + s)[1..] == blank[1..] + s;
      TrimStartBlank(blank[1..], s);
    }
  }

  lemma {:induction false} TrimEndBlank(s: string, blank: string)
    requires AllWhitespace(blank) && (s != [] ==> !IsWhitespace(s[|s| - 1]))
    ensures TrimEnd(s + blank) == s
  {
    if blank == [] {
      assert s + blank == s;
    } else {
      var t := s + blank;
      assert t[..|t| - 1] == s + blank[..|blank| - 1];
      TrimEndBlank(s, blank[..|blank| - 1]);
    }
  }

  /** Trimming takes off the blanks around a word and nothing of the word. */
  lemma TrimAround(before: string, word: string, after: string)
    requires AllWhitespace(before) && AllWhitespace(after)
    requires word != [] && !IsWhitespace(word[0]) && !IsWhitespace(word[|word| - 1])
    ensures Trim(before + word + after) == word
  {
    assert before + word + after == before + (word + after);
    TrimStartBlank(before, word + after);
    TrimEndBlank(word, after);
  }

  lemma {:induction false} SplitOnceAt(before: string, after: string, sep: char)
    requires sep !in before
    ensures SplitOnce(before + [sep] + after, sep) == Some((before, after))
  {
    var s := before + [sep] + after;
    if before == [] {
      assert s[1..] == after;
    } else {
      assert s[1..] == before[1..] + [sep] + after;
      SplitOnceAt(before[1..], after, sep);
      assert before == [before[0]] + before[1..];
    }
  }

  /** What trimming takes off is blank. */
  lemma {:induction false} TrimStartTakes(s: string) returns (blank: string)
    ensures AllWhitespace(blank) && s == blank + TrimStart(s)
  {
    blank := "";
    if s != [] && IsWhitespace(s[0]) {
      blank := TrimStartTakes(s[1..]);
      blank := [s[0]] + blank;
    }
  }

  lemma {:induction false} TrimEndTakes(s: string) returns (blank: string)
    ensures AllWhitespace(blank) && s == TrimEnd(s) + blank
    decreases |s|
  {
    blank := "";
    if s != [] && IsWhitespace(s[|s| - 1]) {
      blank := TrimEndTakes(s[..|s| - 1]);
      blank := blank + [s[|s| - 1]];
      assert s == s[..|s| - 1] + [s[|s| - 1]];
    }
  }

  lemma TrimTakes(s: string) returns (before: string, after: string)
    ensures AllWhitespace(before) && AllWhitespace(after) && s == before + Trim(s) + after
  {
    before := TrimStartTakes(s);
    after := TrimEndTakes(TrimStart(s));
    assert s == before + (Trim(s) + after);
  }

  lemma {:induction false} SplitOnceSound(s: string, sep: char)
    requires SplitOnce(s, sep).Some?
    ensures var (before, after) := SplitOnce(s, sep).value; s == before + [sep] + after
  {
    if s[0] != sep {
      SplitOnceSound(s[1..], sep);
    }
  }

  // ---- Numbers ----

  function Digit(d: nat): char
    requires d < 10
  {
    ('0' as int + d) as char
  }

  lemma DigitIs(d: nat)
    requires d < 10
    ensures Digit(d) == "0123456789"[d]
  {
  }

  /** A number in decimal. */
  function Print(n: nat): (s: string)
    ensures s != [] && forall i | 0 <= i < |s| :: IsDigit(s[i])
  {
    if n < 10 then [Digit(n)] else Print(n / 10) + [Digit(n % 10)]
  }

  lemma {:induction false} ParseDigitsConcat(a: string, b: string, read: nat)
    ensures ParseDigits(a + b, read) == match ParseDigits(a, read)
                                        case None => None
                                        case Some(v) => ParseDigits(b, v)
  {
    if a == [] {
      assert a + b == b;
    } else {
      assert (a + b)[1..] == a[1..] + b;
      if IsDigit(a[0]) {
        ParseDigitsConcat(a[1..], b, read * 10 + (a[0] as int - '0' as int));
      }
    }
  }

  lemma {:induction false} ParseDigitsPrint(n: nat)
    ensures ParseDigits(Print(n), 0) == if n <= U64_MAX then Some(n) else None
  {
    var last := [Digit(n % 10)];
    assert last[1..] == [];
    if n >= 10 {
      ParseDigitsPrint(n / 10);
      ParseDigitsConcat(Print(n / 10), last, 0);
    }
  }

  function Zeros(k: nat): string {
    if k == 0 then "" else "0" + Zeros(k - 1)
  }

  /** The ways to write a number: an optional plus sign, any leading zeros, the digits. */
  function Numeral(plus: bool, zeros: nat, n: nat): (s: string)
    ensures s != []
  {
    (if plus then "+" else "") + (Zeros(zeros) + Print(n))
  }

  lemma NumeralChars(plus: bool, zeros: nat, n: nat)
    ensures forall i | 0 <= i < |Numeral(plus, zeros, n)| ::
              var c := Numeral(plus, zeros, n)[i]; IsDigit(c) || c == '+'
  {
    ZerosAreDigits(zeros);
  }

  lemma {:induction false} ZerosAreDigits(k: nat)
    ensures forall i | 0 <= i < |Zeros(k)| :: Zeros(k)[i] == '0'
  {
    if k > 0 {
      ZerosAreDigits(k - 1);
    }
  }

  lemma {:induction false} ParseZeros(k: nat, s: string)
    ensures ParseDigits(Zeros(k) + s, 0) == ParseDigits(s, 0)
  {
    if k == 0 {
      assert Zeros(0) + s == s;
    } else {
      ParseZeros(k - 1, s);
      assert (Zeros(k) + s)[1..] == Zeros(k - 1) + s;
    }
  }

  lemma ParseNumeral(plus: bool, zeros: nat, n: nat)
    ensures ParseU64(Numeral(plus, zeros, n)) == if n <= U64_MAX then Some(n) else None
  {
    var digits := Zeros(zeros) + Print(n);
    ZerosAreDigits(zeros);
    assert digits[0] != '+';
    ParseZeros(zeros, Print(n));
    ParseDigitsPrint(n);
    if plus {
      assert ("+" + digits)[1..] == digits;
    } else {
      assert "" + digits == digits;
    }
  }

  /** Whatever digits are read as `v` are `v`, written with some leading zeros. */
  lemma {:induction false} DigitsAreNumeral(digits: string, v: nat) returns (zeros: nat)
    requires digits != [] && ParseDigits(digits, 0) == Some(v)
    ensures v <= U64_MAX && digits == Zeros(zeros) + Print(v)
    decreases |digits|
  {
    var init, last := digits[..|digits| - 1], digits[|digits| - 1];
    assert digits == init + [last] && [last][1..] == [];
    ParseDigitsConcat(init, [last], 0);
    if init == [] {
      zeros := 0;
    } else {
      var v' := ParseDigits(init, 0).value;
      zeros := DigitsAreNumeral(init, v');
      if v' == 0 {
        ZerosSnoc(zeros);
        zeros := zeros + 1;
      } else {
        assert v / 10 == v' && Digit(v % 10) == last;
        assert Print(v) == Print(v') + [last];
      }
    }
  }

  lemma {:induction false} ZerosSnoc(k: nat)
    ensures Zeros(k) + "0" == Zeros(k + 1)
  {
    if k > 0 {
      ZerosSnoc(k - 1);
      assert Zeros(k) + "0" == "0" + (Zeros(k - 1) + "0");
    }
  }

  predicate IsNumeralOf(s: string, plus: bool, zeros: nat, n: nat) {
    s == Numeral(plus, zeros, n)
  }

  /** Exactly the numerals of a number that fits 64 bits are read, and as that number. */
  lemma ParseU64Iff(s: string, v: nat)
    ensures ParseU64(s) == Some(v)
       <==> v <= 18446744073709551615 && exists plus, zeros :: IsNumeralOf(s, plus, zeros, v)
  {
    if ParseU64(s) == Some(v) {
      var plus := s != [] && s[0] == '+';
      var digits := if plus then s[1..] else s;
      var zeros := DigitsAreNumeral(digits, v);
      assert s == (if plus then "+" else "") + digits;
      assert IsNumeralOf(s, plus, zeros, v);
    }
    if plus, zeros :| IsNumeralOf(s, plus, zeros, v) {
      ParseNumeral(plus, zeros, v);
    }
  }

  // ---- The directive and the header ----

  /** Space, tab and the twenty-three other characters of the Unicode property White_Space, one by one. */
  predicate IsBlank(c: char) {
    || c == ' ' || c == '\t' || c == '\n' || c == '\U{000B}' || c == '\U{000C}' || c == '\r' || c == '\U{0085}'
    || c == '\U{00A0}' || c == '\U{1680}' || c == '\U{2000}' || c == '\U{2001}' || c == '\U{2002}' || c == '\U{2003}'
    || c == '\U{2004}' || c == '\U{2005}' || c == '\U{2006}' || c == '\U{2007}' || c == '\U{2008}' || c == '\U{2009}'
    || c == '\U{200A}' || c == '\U{2028}' || c == '\U{2029}' || c == '\U{202F}' || c == '\U{205F}' || c == '\U{3000}'
  }

  predicate Blank(s: string) {
    forall i | 0 <= i < |s| :: IsBlank(s[i])
  }

  lemma WhitespaceIsBlank(c: char)
    ensures IsWhitespace(c) <==> IsBlank(c)
  {
  }

  lemma BlankIsAllWhitespace(s: string)
    ensures AllWhitespace(s) <==> Blank(s)
  {
    forall i | 0 <= i < |s|
      ensures IsWhitespace(s[i]) <==> IsBlank(s[i])
    {
      WhitespaceIsBlank(s[i]);
    }
  }

  /** `max-age`, each letter in either case. */
  predicate IsName(name: string) {
    && |name| == 7
    && name[0] in {'m', 'M'} && name[1] in {'a', 'A'} && name[2] in {'x', 'X'} && name[3] == '-'
    && name[4] in {'a', 'A'} && name[5] in {'g', 'G'} && name[6] in {'e', 'E'}
  }

  lemma NameIgnoresCase(name: string)
    ensures IsName(name) <==> EqIgnoreAsciiCase(name, "max-age")
  {
    var word := "max-age";
    assert word[0] == 'm' && word[1] == 'a' && word[2] == 'x' && word[3] == '-';
    assert word[4] == 'a' && word[5] == 'g' && word[6] == 'e';
    if EqIgnoreAsciiCase(name, word) {
      assert AsciiLower(name[0]) == 'm' && AsciiLower(name[1]) == 'a' && AsciiLower(name[2]) == 'x';
      assert AsciiLower(name[3]) == '-' && AsciiLower(name[4]) == 'a' && AsciiLower(name[5]) == 'g';
      assert AsciiLower(name[6]) == 'e';
    }
  }

  /** A `max-age` directive as a server may write it: any letter case, any blanks around name and value, any sign
      and leading zeros. */
  datatype Written = Written(blank1: string, name: string, blank2: string, blank3: string, plus: bool, zeros: nat,
                             n: nat, blank4: string)
  {
    predicate Proper() {
      && Blank(blank1) && Blank(blank2) && Blank(blank3) && Blank(blank4)
      && IsName(name)
    }

    function Text(): string {
      blank1 + name + blank2 + "=" + (blank3 + Numeral(plus, zeros, n) + blank4)
    }
  }

  predicate IsText(d: string, w: Written) {
    w.Proper() && d == w.Text()
  }

  /** `d` is a proper `max-age` directive of a number that fits 64 bits. */
  ghost predicate Says(d: string, v: nat) {
    v <= 18446744073709551615 && exists w :: IsText(d, w) && w.n == v
  }

  ghost predicate SaysNothing(d: string) {
    forall v: nat :: !Says(d, v)
  }

  /** The name is made of letters and a hyphen. */
  lemma NameChars(name: string, i: nat)
    requires IsName(name) && i < |name|
    ensures !IsWhitespace(name[i]) && name[i] != '=' && name[i] != ','
  {
    assert i in {0, 1, 2, 3, 4, 5, 6};
  }

  lemma DirectiveParses(w: Written)
    requires w.Proper()
    ensures ',' !in w.Text()
    ensures ParseDirective(w.Text()) == if w.n <= 18446744073709551615 then Some(w.n) else None
  {
    BlankIsAllWhitespace(w.blank1);
    BlankIsAllWhitespace(w.blank2);
    BlankIsAllWhitespace(w.blank3);
    BlankIsAllWhitespace(w.blank4);
    NameIgnoresCase(w.name);
    forall i | 0 <= i < |w.name|
      ensures !IsWhitespace(w.name[i]) && w.name[i] != '=' && w.name[i] != ','
    {
      NameChars(w.name, i);
    }
    WordsParse(w.blank1, w.name, w.blank2, w.blank3, w.plus, w.zeros, w.n, w.blank4);
  }

  lemma WordsParse(blank1: string, name: string, blank2: string, blank3: string, plus: bool, zeros: nat, n: nat,
                   blank4: string)
    requires AllWhitespace(blank1) && AllWhitespace(blank2) && AllWhitespace(blank3) && AllWhitespace(blank4)
    requires EqIgnoreAsciiCase(name, "max-age")
    requires forall i | 0 <= i < |name| :: !IsWhitespace(name[i]) && name[i] != '=' && name[i] != ','
    ensures var d := blank1 + name + blank2 + "=" + (blank3 + Numeral(plus, zeros, n) + blank4);
            ',' !in d && ParseDirective(d) == if n <= U64_MAX then Some(n) else None
  {
    var numeral := Numeral(plus, zeros, n);
    var before, value := blank1 + name + blank2, blank3 + numeral + blank4;
    NumeralChars(plus, zeros, n);
    assert forall i | 0 <= i < |numeral| :: !IsWhitespace(numeral[i]) && numeral[i] != ',';
    assert forall i | 0 <= i < |before| :: before[i] != '=' && before[i] != ',';
    assert forall i | 0 <= i < |value| :: value[i] != ',';
    SplitOnceAt(before, value, '=');
    TrimAround(blank1, name, blank2);
    TrimAround(blank3, numeral, blank4);
    ParseNumeral(plus, zeros, n);
  }

  lemma DirectiveIsWritten(d: string, v: nat) returns (w: Written)
    requires ParseDirective(d) == Some(v)
    ensures v <= 18446744073709551615 && IsText(d, w) && w.n == v
  {
    var (name, value) := SplitOnce(d, '=').value;
    SplitOnceSound(d, '=');
    var blank1, blank2 := TrimTakes(name);
    var blank3, blank4 := TrimTakes(value);
    ParseU64Iff(Trim(value), v);
    var plus, zeros :| IsNumeralOf(Trim(value), plus, zeros, v);
    w := Written(blank1, Trim(name), blank2, blank3, plus, zeros, v, blank4);
    BlankIsAllWhitespace(blank1);
    BlankIsAllWhitespace(blank2);
    BlankIsAllWhitespace(blank3);
    BlankIsAllWhitespace(blank4);
    NameIgnoresCase(Trim(name));
  }

  /** Exactly the proper directives of a number that fits are read, and as that number. */
  lemma ParseDirectiveIff(d: string, v: nat)
    ensures ParseDirective(d) == Some(v) <==> Says(d, v)
  {
    if ParseDirective(d) == Some(v) {
      var w := DirectiveIsWritten(d, v);
    }
    if Says(d, v) {
      var w :| IsText(d, w) && w.n == v;
      DirectiveParses(w);
    }
  }

  lemma UnreadableIff(d: string)
    ensures ParseDirective(d).None? <==> SaysNothing(d)
  {
    forall v: nat
      ensures ParseDirective(d) == Some(v) <==> Says(d, v)
    {
      ParseDirectiveIff(d, v);
    }
    if ParseDirective(d).Some? {
      assert Says(d, ParseDirective(d).value);
    }
  }

  /** Part `i` is the first that says anything, and it says `v`. */
  ghost predicate FirstToSay(parts: seq<string>, i: nat, v: nat) {
    i < |parts| && Says(parts[i], v) && forall j | 0 <= j < i :: SaysNothing(parts[j])
  }

  /** The first part that says anything says `v`. */
  ghost predicate FirstSaid(parts: seq<string>, v: nat) {
    exists i: nat :: FirstToSay(parts, i, v)
  }

  lemma {:induction false} FindFirstIff(parts: seq<string>, v: nat)
    ensures FindFirst(parts) == Some(v) <==> FirstSaid(parts, v)
  {
    if parts != [] {
      FindFirstIff(parts[1..], v);
      ParseDirectiveIff(parts[0], v);
      UnreadableIff(parts[0]);
      if ParseDirective(parts[0]).Some? {
        assert ParseDirective(parts[0]) == Some(v) ==> FirstToSay(parts, 0, v);
        assert forall i | FirstToSay(parts, i, v) :: i == 0;
      } else {
        forall i: nat
          ensures FirstToSay(parts[1..], i, v) <==> FirstToSay(parts, i + 1, v)
        {
          LaterToSay(parts, i, v);
        }
        assert !FirstToSay(parts, 0, v);
        if i: nat :| FirstToSay(parts, i, v) {
          assert FirstToSay(parts[1..], i - 1, v);
        }
      }
    }
  }

  lemma LaterToSay(parts: seq<string>, i: nat, v: nat)
    requires parts != [] && SaysNothing(parts[0])
    ensures FirstToSay(parts[1..], i, v) <==> FirstToSay(parts, i + 1, v)
  {
    if FirstToSay(parts, i + 1, v) {
      assert forall j | 0 <= j < i :: parts[1..][j] == parts[j + 1];
    }
    if FirstToSay(parts[1..], i, v) {
      assert forall j | 0 < j < i + 1 :: parts[j] == parts[1..][j - 1];
    }
  }

  /** A header is read as `v` exactly when the first of its comma-separated parts that is a proper `max-age` of a
      number that fits is one of `v`. */
  lemma ParseMaxAgeIff(header: string, v: nat)
    ensures ParseMaxAge(header) == Some(v) <==> FirstSaid(Split(header, ','), v)
  {
    FindFirstIff(Split(header, ','), v);
  }

  lemma {:induction false} FindAfter(others: seq<string>, rest: seq<string>)
    requires forall i | 0 <= i < |others| :: ParseDirective(others[i]).None?
    ensures FindFirst(others + rest) == FindFirst(rest)
  {
    if others == [] {
      assert others + rest == rest;
    } else {
      assert (others + rest)[1..] == others[1..] + rest;
      FindAfter(others[1..], rest);
    }
  }

  lemma {:induction false} SplitPrefix(parts: seq<string>, rest: string, sep: char)
    requires parts != [] && forall i | 0 <= i < |parts| :: sep !in parts[i]
    ensures Split(Join(parts, sep) + [sep] + rest, sep) == parts + Split(rest, sep)
  {
    if |parts| == 1 {
      SplitFirst(parts[0], rest, sep);
    } else {
      var tail := Join(parts[1..], sep) + [sep] + rest;
      SplitPrefix(parts[1..], rest, sep);
      SplitFirst(parts[0], tail, sep);
      Associates(parts[0] + [sep], Join(parts[1..], sep), [sep] + rest);
      Associates(Join(parts[1..], sep), [sep], rest);
      Associates(Join(parts, sep), [sep], rest);
      Associates([parts[0]], parts[1..], Split(rest, sep));
      assert [parts[0]] + parts[1..] == parts;
    }
  }

  lemma FindAmong(others: seq<string>, d: string, after: seq<string>)
    requires forall i | 0 <= i < |others| :: ParseDirective(others[i]).None?
    ensures FindFirst(others + [d] + after) == if ParseDirective(d).Some? then ParseDirective(d) else FindFirst(after)
  {
    assert others + [d] + after == others + ([d] + after);
    FindAfter(others, [d] + after);
    assert ([d] + after)[1..] == after;
  }

  lemma FindInHeader(others: seq<string>, d: string, rest: Option<string>)
    requires forall i | 0 <= i < |others| :: ',' !in others[i] && ParseDirective(others[i]).None?
    requires ',' !in d
    ensures var start := Join(others + [d], ',');
            ParseMaxAge(if rest.Some? then start + "," + rest.value else start)
            == if ParseDirective(d).Some? then ParseDirective(d)
               else if rest.Some? then ParseMaxAge(rest.value) else None
  {
    match rest
    case Some(tail) =>
      SplitPrefix(others + [d], tail, ',');
      FindAmong(others, d, Split(tail, ','));
    case None =>
      SplitJoin(others + [d], ',');
      FindAmong(others, d, []);
      assert others + [d] + [] == others + [d];
  }

  /** Parsing undoes printing: the first readable `max-age` of a header is found, whatever comes before and after
      it; and one that does not fit 64 bits is passed over, as if it were not there. */
  lemma ParseUndoesPrinting(others: seq<string>, w: Written, rest: Option<string>)
    requires w.Proper() && forall i | 0 <= i < |others| :: ',' !in others[i] && SaysNothing(others[i])
    ensures var start := Join(others + [w.Text()], ',');
            ParseMaxAge(if rest.Some? then start + "," + rest.value else start)
            == if w.n <= 18446744073709551615 then Some(w.n)
               else if rest.Some? then ParseMaxAge(rest.value) else None
  {
    DirectiveParses(w);
    forall i | 0 <= i < |others|
      ensures ParseDirective(others[i]).None?
    {
      UnreadableIff(others[i]);
    }
    FindInHeader(others, w.Text(), rest);
  }

  // ---- The examples of the documentation ----

  lemma PrintHundreds()
    ensures Print(300) == "300" && Print(0) == "0"
  {
    assert Print(3) == "3" && Print(30) == "30";
  }

  /** A part without an equals sign says nothing. */
  lemma {:induction false} NoSign(d: string)
    requires '=' !in d
    ensures ParseDirective(d).None? && SaysNothing(d) && FindFirst([d]).None?
  {
    NoSplit(d, '=');
    UnreadableIff(d);
    assert [d][1..] == [];
  }

  lemma {:induction false} NoSplit(s: string, sep: char)
    requires sep !in s
    ensures SplitOnce(s, sep).None?
  {
    if s != [] {
      NoSplit(s[1..], sep);
    }
  }

  /** Nor does one whose value, without blanks around it, starts with neither a digit nor a plus sign. */
  lemma NoNumber(name: string, value: string)
    requires '=' !in name
    requires value != [] && !IsWhitespace(value[0]) && !IsWhitespace(value[|value| - 1])
    requires !IsDigit(value[0]) && value[0] != '+'
    ensures ParseDirective(name + ['='] + value).None? && FindFirst([name + ['='] + value]).None?
  {
    SplitOnceAt(name, value, '=');
    assert "" + value + "" == value;
    TrimAround("", value, "");
    assert [name + ['='] + value][1..] == [];
  }

  lemma AfterOther(other: string, w: Written)
    requires ',' !in other && '=' !in other && w.Proper() && w.n <= 18446744073709551615
    ensures ParseMaxAge(other + [','] + w.Text()) == Some(w.n)
  {
    NoSign(other);
    ParseUndoesPrinting([other], w, None);
    assert [other] + [w.Text()] == [other, w.Text()] && [other, w.Text()][1..] == [w.Text()];
  }

  lemma BeforeOther(w: Written, other: string)
    requires w.Proper() && w.n <= 18446744073709551615
    ensures ParseMaxAge(w.Text()) == Some(w.n) && ParseMaxAge(w.Text() + "," + other) == Some(w.n)
  {
    ParseUndoesPrinting([], w, None);
    ParseUndoesPrinting([], w, Some(other));
    assert [] + [w.Text()] == [w.Text()];
  }

  lemma WrittenPlainly(w: Written)
    requires w.blank2 == w.blank3 == w.blank4 == "" && !w.plus && w.zeros == 0
    ensures w.Text() == w.blank1 + w.name + "=" + Print(w.n)
  {
  }

  lemma PlainParts(name: string, other: string)
    requires IsName(name)
    ensures ParseMaxAge(name + "=300") == Some(300) && ParseMaxAge(name + "=0" + "," + other) == Some(0)
  {
    var w, w0 := Written("", name, "", "", false, 0, 300, ""), Written("", name, "", "", false, 0, 0, "");
    WrittenPlainly(w);
    WrittenPlainly(w0);
    PrintHundreds();
    assert "" + name + "=" + "300" == name + "=300" && "" + name + "=" + "0" == name + "=0";
    BeforeOther(w, other);
    BeforeOther(w0, other);
  }

  lemma SpacedParts(other: string, name: string)
    requires ',' !in other && '=' !in other && IsName(name)
    ensures ParseMaxAge(other + [','] + (" " + name + "=300")) == Some(300)
  {
    var w := Written(" ", name, "", "", false, 0, 300, "");
    WrittenPlainly(w);
    PrintHundreds();
    assert " " + name + "=" + "300" == " " + name + "=300";
    AfterOther(other, w);
  }

  /** What the documentation promises, letter by letter. */
  lemma PlainExample(header: string)
    requires header == "max-age=300"
    ensures ParseMaxAge(header) == Some(300)
  {
    var name := "max-age";
    assert header == name + "=300";
    PlainParts(name, "");
  }

  lemma SpacedExample(header: string)
    requires header == "public, max-age=300"
    ensures ParseMaxAge(header) == Some(300)
  {
    var other, name := "public", "max-age";
    assert header == other + [','] + (" " + name + "=300");
    SpacedParts(other, name);
  }

  lemma UpperExample(header: string)
    requires header == "MAX-AGE=0, no-cache"
    ensures ParseMaxAge(header) == Some(0)
  {
    var name, other := "MAX-AGE", " no-cache";
    assert header == name + "=0" + "," + other;
    PlainParts(name, other);
  }

  lemma OnePart(part: string)
    requires ',' !in part
    ensures ParseMaxAge(part) == FindFirst([part])
  {
    SplitNone(part, ',');
  }

  lemma AbsentExample(header: string)
    requires header == "no-store" || header == ""
    ensures ParseMaxAge(header).None?
  {
    NoSign(header);
    OnePart(header);
  }

  lemma NotANumberExample(header: string)
    requires header == "max-age=notanumber"
    ensures ParseMaxAge(header).None?
  {
    var name, value := header[..7], header[8..];
    assert header == name + ['='] + value;
    assert value[0] == 'n' && value[|value| - 1] == 'r';
    NoNumber(name, value);
    OnePart(header);
  }
}
