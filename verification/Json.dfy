/**
 JSON text (RFC 8259, sections 4 and 7): the compact writer, the reader, and the
 proof that the reader undoes the writer.
 */
module Json {
  import opened Wrappers
  import opened Decimal

  const U64_MAX: nat := 0xFFFF_FFFF_FFFF_FFFF
  const I64_MIN: int := -0x8000_0000_0000_0000

  /** Object members keep their order.  `Float` holds the text of a number the reader cannot keep as an integer. */
  datatype Json =
    | Null
    | Bool(b: bool)
    | Int(n: int)
    | Float(text: string)
    | Str(s: string)
    | Arr(items: seq<Json>)
    | Obj(members: seq<Member>)

  datatype Member = Member(key: string, value: Json)

  // ----- writer

  function HexDigit(d: nat): char
    requires d < 16
  {
    if d < 10 then ('0' as int + d) as char else ('a' as int + (d - 10)) as char
  }

  function EscapeChar(c: char): (r: string)
    ensures r != []
  {
    var n := c as int;
    if c == '"' then "\\\"" else if c == '\\' then "\\\\"
    else if n == 8 then "\\b" else if n == 12 then "\\f"
    else if n == 10 then "\\n" else if n == 13 then "\\r" else if n == 9 then "\\t"
    else if n < 0x20 then "\\u00" + [HexDigit(n / 16), HexDigit(n % 16)]
    else [c]
  }

  function Escape(s: string): string {
    if s == [] then [] else EscapeChar(s[0]) + Escape(s[1..])
  }

  function Quote(s: string): string { "\"" + Escape(s) + "\"" }

  function WriteInt(n: int): string { if n < 0 then "-" + Digits(-n) else Digits(n) }

  function Write(j: Json): string
    decreases j, 1
  {
    match j
    case Null => "null"
    case Bool(b) => if b then "true" else "false"
    case Int(n) => WriteInt(n)
    case Float(text) => text
    case Str(s) => Quote(s)
    case Arr(items) => "[" + WriteItems(items) + "]"
    case Obj(members) => "{" + WriteMembers(members) + "}"
  }

  function WriteItems(items: seq<Json>): string
    decreases items, 0
  {
    if items == [] then []
    else if |items| == 1 then Write(items[0])
    else Write(items[0]) + "," + WriteItems(items[1..])
  }

  function WriteMember(m: Member): string
    decreases m, 2
  {
    Quote(m.key) + ":" + Write(m.value)
  }

  function WriteMembers(members: seq<Member>): string
    decreases members, 0
  {
    if members == [] then []
    else if |members| == 1 then WriteMember(members[0])
    else WriteMember(members[0]) + "," + WriteMembers(members[1..])
  }

  // ----- reader

  function Skip(s: string): (r: string)
    ensures |r| <= |s|
  {
    if s != [] && (s[0] == ' ' || s[0] == '\t' || s[0] == '\n' || s[0] == '\r') then Skip(s[1..]) else s
  }

  function HexValue(c: char): Option<nat> {
    if '0' <= c <= '9' then Some(c as int - '0' as int)
    else if 'a' <= c <= 'f' then Some(c as int - 'a' as int + 10)
    else if 'A' <= c <= 'F' then Some(c as int - 'A' as int + 10)
    else None
  }

  /** Four hexadecimal digits. */
  function Hex4(s: string): (r: Option<nat>)
    ensures r.Some? ==> |s| >= 4 && r.value < 0x10000
  {
    if |s| < 4 then None
    else
      var a, b, c, d := HexValue(s[0]), HexValue(s[1]), HexValue(s[2]), HexValue(s[3]);
      if a.None? || b.None? || c.None? || d.None? then None
      else if a.value < 16 && b.value < 16 && c.value < 16 && d.value < 16
      then Some(a.value * 4096 + b.value * 256 + c.value * 16 + d.value)
      else None
  }

  function SimpleEscape(c: char): Option<char> {
    if c == '"' || c == '\\' || c == '/' then Some(c)
    else if c == 'b' then Some(8 as char) else if c == 'f' then Some(12 as char)
    else if c == 'n' then Some('\n') else if c == 'r' then Some('\r') else if c == 't' then Some('\t')
    else None
  }

  /** What follows a backslash: one character, and the rest. A lone surrogate is refused. */
  function ReadEscape(s: string): (r: Option<(char, string)>)
    ensures r.Some? ==> |r.value.1| < |s|
  {
    if s == [] then None
    else if s[0] != 'u' then
      var c := SimpleEscape(s[0]);
      if c.None? then None else Some((c.value, s[1..]))
    else
      var n := Hex4(s[1..]);
      if n.None? then None
      else if 0xD800 <= n.value < 0xDC00 then
        var t := s[5..];
        if |t| < 6 || t[0] != '\\' || t[1] != 'u' then None
        else
          var low := Hex4(t[2..]);
          if low.None? || !(0xDC00 <= low.value < 0xE000) then None
          else Some(((0x10000 + (n.value - 0xD800) * 0x400 + (low.value - 0xDC00)) as char, t[6..]))
      else if 0xDC00 <= n.value < 0xE000 then None
      else Some((n.value as char, s[5..]))
  }

  /** The characters of a string up to its closing quote, and what follows it. */
  function ReadChars(s: string): (r: Option<(string, string)>)
    ensures r.Some? ==> |r.value.1| < |s|
    decreases |s|
  {
    if s == [] then None
    else if s[0] == '"' then Some(([], s[1..]))
    else if s[0] == '\\' then
      var e := ReadEscape(s[1..]);
      if e.None? then None
      else
        var rest := ReadChars(e.value.1);
        if rest.None? then None else Some(([e.value.0] + rest.value.0, rest.value.1))
    else if s[0] as int < 0x20 then None
    else
      var rest := ReadChars(s[1..]);
      if rest.None? then None else Some(([s[0]] + rest.value.0, rest.value.1))
  }

  function TakeDigits(s: string): (r: (string, string))
    ensures AllDigits(r.0) && s == r.0 + r.1 && (r.1 == [] || !IsDigit(r.1[0]))
  {
    if s != [] && IsDigit(s[0]) then
      var rest := TakeDigits(s[1..]);
      assert s == [s[0]] + s[1..];
      ([s[0]] + rest.0, rest.1)
    else ([], s)
  }

  /** Length of an optional fraction, or None if one is begun and not finished. */
  function FractionLength(s: string): (r: Option<nat>)
    ensures r.Some? ==> r.value <= |s|
  {
    if s == [] || s[0] != '.' then Some(0)
    else
      var d := TakeDigits(s[1..]);
      if d.0 == [] then None else Some(1 + |d.0|)
  }

  /** Length of an optional exponent, or None if one is begun and not finished. */
  function ExponentLength(t: string): (r: Option<nat>)
    ensures r.Some? ==> r.value <= |t|
  {
    if t == [] || (t[0] != 'e' && t[0] != 'E') then Some(0)
    else
      var sign := if |t| >= 2 && (t[1] == '+' || t[1] == '-') then 2 else 1;
      var d := TakeDigits(t[sign..]);
      if d.0 == [] then None else Some(sign + |d.0|)
  }

  /** Length of both together. */
  function FractionAndExponent(s: string): (r: Option<nat>)
    ensures r.Some? ==> r.value <= |s|
  {
    var fraction := FractionLength(s);
    if fraction.None? then None
    else
      var exponent := ExponentLength(s[fraction.value..]);
      if exponent.None? then None else Some(fraction.value + exponent.value)
  }

  /** From here on a number rounds to infinity: the largest double plus half its last place, 2^1024 - 2^970. */
  const INFINITE: nat := 0xFFFFFFFFFFFFFC00000000000000000000000000000000000000000000000000000000000000000000000000000000000000000000000000000000000000000000000000000000000000000000000000000000000000000000000000000000000000000000000000000000000000000000000000000000000000000000000000

  /** The number spelled by these digits and a well-formed tail is beyond every double. */
  predicate Overflows(digits: string, tail: string)
    requires AllDigits(digits)
  {
    var fraction := if tail != [] && tail[0] == '.' then TakeDigits(tail[1..]).0 else [];
    var rest := if |tail| > |fraction| && fraction != [] then tail[1 + |fraction|..] else tail;
    var sign := if |rest| >= 2 && (rest[1] == '+' || rest[1] == '-') then 2 else 1;
    var power: nat := if rest == [] then 0 else Value(TakeDigits(rest[sign..]).0);
    var scale := (if |rest| >= 2 && rest[1] == '-' then 0 - power else power) - |fraction|;
    var value := Value(digits + fraction);
    if scale >= 0 then value * Pow10(scale) >= INFINITE else value >= INFINITE * Pow10(-scale)
  }

  function ReadNumber(s: string): (r: Option<(Json, string)>)
    ensures r.Some? ==> |r.value.1| < |s|
  {
    var sign := if s != [] && s[0] == '-' then 1 else 0;
    var (digits, after) := TakeDigits(s[sign..]);
    assert s[sign..] == digits + after;
    NumberOf(s, sign, digits, after)
  }

  /** The number spelled by a sign, digits and what follows them. */
  function NumberOf(s: string, sign: nat, digits: string, after: string): (r: Option<(Json, string)>)
    requires sign <= |s| && s[sign..] == digits + after && AllDigits(digits)
    ensures r.Some? ==> |r.value.1| < |s|
  {
    if digits == [] || (|digits| > 1 && digits[0] == '0') then None
    else
      var tail := FractionAndExponent(after);
      if tail.None? then None
      else if tail.value > 0 then
        if Overflows(digits, after[..tail.value]) then None else Some((Float(s[..sign + |digits| + tail.value]), after[tail.value..]))
      else if sign == 0 && Value(digits) <= U64_MAX then Some((Int(Value(digits)), after))
      else if sign == 1 && 0 < Value(digits) && 0 - (Value(digits) as int) >= I64_MIN then Some((Int(0 - (Value(digits) as int)), after))
      else if Overflows(digits, []) then None
      else Some((Float(s[..sign + |digits|]), after))
  }

  function ReadWord(s: string, word: string, j: Json): (r: Option<(Json, string)>)
    requires word != []
    ensures r.Some? ==> |r.value.1| < |s|
  {
    if |word| <= |s| && s[..|word|] == word then Some((j, s[|word|..])) else None
  }

  /** The values that are neither quoted nor bracketed. */
  function ReadScalar(s: string): (r: Option<(Json, string)>)
    requires s != []
    ensures r.Some? ==> |r.value.1| < |s|
  {
    if s[0] == 'n' then ReadWord(s, "null", Null)
    else if s[0] == 't' then ReadWord(s, "true", Bool(true))
    else if s[0] == 'f' then ReadWord(s, "false", Bool(false))
    else ReadNumber(s)
  }

  function ReadValue(text: string): (r: Option<(Json, string)>)
    ensures r.Some? ==> |r.value.1| < |text|
    decreases |text|, 2
  {
    var s := Skip(text);
    if s == [] then None
    else if s[0] == '"' then
      var str := ReadChars(s[1..]);
      if str.None? then None else Some((Str(str.value.0), str.value.1))
    else if s[0] == '[' then
      var inner := Skip(s[1..]);
      if inner != [] && inner[0] == ']' then Some((Arr([]), inner[1..]))
      else
        var items := ReadItems(s[1..]);
        if items.None? then None else Some((Arr(items.value.0), items.value.1))
    else if s[0] == '{' then
      var inner := Skip(s[1..]);
      if inner != [] && inner[0] == '}' then Some((Obj([]), inner[1..]))
      else
        var members := ReadMembers(s[1..]);
        if members.None? then None else Some((Obj(members.value.0), members.value.1))
    else ReadScalar(s)
  }

  /** One item or more, then the closing bracket. */
  function ReadItems(s: string): (r: Option<(seq<Json>, string)>)
    ensures r.Some? ==> |r.value.1| < |s|
    decreases |s|, 3
  {
    var first := ReadValue(s);
    if first.None? then None
    else
      var t := Skip(first.value.1);
      if t == [] then None
      else if t[0] == ']' then Some(([first.value.0], t[1..]))
      else if t[0] != ',' then None
      else
        var rest := ReadItems(t[1..]);
        if rest.None? then None else Some(([first.value.0] + rest.value.0, rest.value.1))
  }

  function ReadMember(text: string): (r: Option<(Member, string)>)
    ensures r.Some? ==> |r.value.1| < |text|
    decreases |text|, 3
  {
    var s := Skip(text);
    if s == [] || s[0] != '"' then None
    else
      var key := ReadChars(s[1..]);
      if key.None? then None
      else
        var t := Skip(key.value.1);
        if t == [] || t[0] != ':' then None
        else
          var v := ReadValue(t[1..]);
          if v.None? then None else Some((Member(key.value.0, v.value.0), v.value.1))
  }

  function ReadMembers(s: string): (r: Option<(seq<Member>, string)>)
    ensures r.Some? ==> |r.value.1| < |s|
    decreases |s|, 4
  {
    var first := ReadMember(s);
    if first.None? then None
    else
      var t := Skip(first.value.1);
      if t == [] then None
      else if t[0] == '}' then Some(([first.value.0], t[1..]))
      else if t[0] != ',' then None
      else
        var rest := ReadMembers(t[1..]);
        if rest.None? then None else Some(([first.value.0] + rest.value.0, rest.value.1))
  }

  /** How deep arrays and objects nest. */
  function Depth(j: Json): nat
    decreases j, 1
  {
    match j
    case Arr(items) => 1 + ItemsDepth(items)
    case Obj(members) => 1 + MembersDepth(members)
    case _ => 0
  }

  function Max(a: nat, b: nat): nat { if a <= b then b else a }

  function ItemsDepth(items: seq<Json>): nat
    decreases items, 0
  {
    if items == [] then 0 else Max(Depth(items[0]), ItemsDepth(items[1..]))
  }

  function MembersDepth(members: seq<Member>): nat
    decreases members, 0
  {
    if members == [] then 0 else Max(Depth(members[0].value), MembersDepth(members[1..]))
  }

  /** The reader gives up on entering the 128th level. */
  const DEEPEST: nat := 127

  /** A whole document: one value of admissible depth, then only whitespace. */
  function Read(s: string): Option<Json> {
    var r := ReadValue(s);
    if r.Some? && Skip(r.value.1) == [] && Depth(r.value.0) <= DEEPEST then Some(r.value.0) else None
  }

  // ----- the reader undoes the writer

  /** Integers in the range the reader keeps, and no floats. */
  predicate Plain(j: Json)
    decreases j, 0
  {
    match j
    case Int(n) => I64_MIN <= n <= U64_MAX
    case Float(_) => false
    case Arr(items) => forall i | 0 <= i < |items| :: Plain(items[i])
    case Obj(members) => forall i | 0 <= i < |members| :: Plain(members[i].value)
    case _ => true
  }

  /** What may follow a value in compact text. */
  predicate Stops(rest: string) { rest == [] || rest[0] == ',' || rest[0] == ']' || rest[0] == '}' }

  lemma HexReadsBack(d: nat)
    requires d < 16
    ensures HexValue(HexDigit(d)) == Some(d)
  {
  }

  /** A control character is written as four hex digits and read back. */
  lemma ControlReadsBack(n: nat, rest: string)
    requires n < 0x20
    ensures Hex4("00" + [HexDigit(n / 16), HexDigit(n % 16)] + rest) == Some(n)
  {
    HexReadsBack(n / 16);
    HexReadsBack(n % 16);
  }

  lemma EscapeReadsBack(c: char, rest: string)
    requires ReadChars(rest).Some?
    ensures ReadChars(EscapeChar(c) + rest) == Some(([c] + ReadChars(rest).value.0, ReadChars(rest).value.1))
  {
    var x := EscapeShape(c);
    if EscapeChar(c) == [c] {
      PlainReadsBack(c, EscapeChar(c), rest);
    } else if EscapeChar(c) == ['\\', x] {
      PairReadsBack(c, x, EscapeChar(c), rest);
    } else {
      ControlReadsBack(c as int, rest);
      ControlEscapeReadsBack(c, [HexDigit(c as int / 16), HexDigit(c as int % 16)], EscapeChar(c), rest);
    }
  }

  /** The three forms of an escaped character. */
  lemma EscapeShape(c: char) returns (x: char)
    ensures
      || (EscapeChar(c) == [c] && c != '"' && c != '\\' && c as int >= 0x20)
      || (EscapeChar(c) == ['\\', x] && x != 'u' && SimpleEscape(x) == Some(c))
      || (c as int < 0x20 && EscapeChar(c) != [c] && EscapeChar(c) != ['\\', x]
          && EscapeChar(c) == "\\u00" + [HexDigit(c as int / 16), HexDigit(c as int % 16)])
  {
    x := if |EscapeChar(c)| == 2 then EscapeChar(c)[1] else ' ';
  }

  lemma SameRead(s: string, t: string, r: Option<(string, string)>)
    requires s == t && ReadChars(s) == r
    ensures ReadChars(t) == r
  {
  }

  lemma PlainReadsBack(c: char, e: string, rest: string)
    requires ReadChars(rest).Some? && e == [c] && c != '"' && c != '\\' && c as int >= 0x20
    ensures ReadChars(e + rest) == Some(([c] + ReadChars(rest).value.0, ReadChars(rest).value.1))
  {
    assert (e + rest)[1..] == rest;
  }

  lemma PairReadsBack(c: char, x: char, e: string, rest: string)
    requires ReadChars(rest).Some? && e == ['\\', x] && x != 'u' && SimpleEscape(x) == Some(c)
    ensures ReadChars(e + rest) == Some(([c] + ReadChars(rest).value.0, ReadChars(rest).value.1))
  {
    assert ([x] + rest)[1..] == rest;
    EscapedReads([x] + rest, c, rest);
    SameRead(['\\'] + ([x] + rest), e + rest, Some(([c] + ReadChars(rest).value.0, ReadChars(rest).value.1)));
  }

  lemma ControlEscapeReadsBack(c: char, digits: string, e: string, rest: string)
    requires ReadChars(rest).Some? && c as int < 0x20 && |digits| == 2 && Hex4("00" + digits + rest) == Some(c as int)
    requires e == "\\u00" + digits
    ensures ReadChars(e + rest) == Some(([c] + ReadChars(rest).value.0, ReadChars(rest).value.1))
  {
    var tail := ['u'] + ("00" + digits + rest);
    UnicodeReads("00" + digits + rest, c as int);
    assert ("00" + digits + rest)[4..] == rest;
    EscapedReads(tail, c, rest);
    Regroup(digits, rest);
    SameRead(['\\'] + tail, e + rest, Some(([c] + ReadChars(rest).value.0, ReadChars(rest).value.1)));
  }

  lemma Regroup(digits: string, rest: string)
    ensures "\\u00" + digits + rest == ['\\'] + (['u'] + ("00" + digits + rest))
  {
  }

  lemma EscapedReads(tail: string, c: char, rest: string)
    requires ReadEscape(tail) == Some((c, rest)) && ReadChars(rest).Some?
    ensures ReadChars(['\\'] + tail) == Some(([c] + ReadChars(rest).value.0, ReadChars(rest).value.1))
  {
    assert (['\\'] + tail)[1..] == tail;
  }

  lemma UnicodeReads(hex: string, n: nat)
    requires Hex4(hex) == Some(n) && n < 0x20
    ensures ReadEscape(['u'] + hex) == Some((n as char, hex[4..]))
  {
    assert (['u'] + hex)[1..] == hex;
    assert (['u'] + hex)[5..] == hex[4..];
  }

  lemma {:induction false} CharsReadBack(s: string, rest: string)
    ensures ReadChars(Escape(s) + ("\"" + rest)) == Some((s, rest))
  {
    hide ReadChars, EscapeChar;
    var closing := "\"" + rest;
    if s == [] {
      assert Escape(s) + closing == closing;
      QuoteEnds(rest);
    } else {
      CharsReadBack(s[1..], rest);
      assert Escape(s) + closing == EscapeChar(s[0]) + (Escape(s[1..]) + closing);
      EscapeReadsBack(s[0], Escape(s[1..]) + closing);
      assert [s[0]] + s[1..] == s;
    }
  }

  lemma QuoteEnds(rest: string)
    ensures ReadChars("\"" + rest) == Some(([], rest))
  {
    assert ("\"" + rest)[1..] == rest;
  }

  lemma {:induction false} DigitsTaken(digits: string, rest: string)
    requires AllDigits(digits) && (rest == [] || !IsDigit(rest[0]))
    ensures TakeDigits(digits + rest) == (digits, rest)
  {
    var s := digits + rest;
    if digits == [] {
      assert s == rest;
    } else {
      assert s[1..] == digits[1..] + rest;
      DigitsTaken(digits[1..], rest);
      assert [digits[0]] + digits[1..] == digits;
    }
  }

  /** `sign` is 1 behind a minus sign. */
  lemma ReadDigits(s: string, sign: nat, n: nat, rest: string)
    requires Stops(rest) && sign <= 1 && sign <= |s| && s[sign..] == Digits(n) + rest
    requires sign == 1 <==> s != [] && s[0] == '-'
    requires if sign == 0 then n <= U64_MAX else 0 < n && 0 - n >= I64_MIN
    ensures ReadNumber(s) == Some((Int(if sign == 0 then n else 0 - n), rest))
  {
    DigitsTaken(Digits(n), rest);
    IntegerEnds(s, sign, n, rest);
  }

  lemma IntegerEnds(s: string, sign: nat, n: nat, rest: string)
    requires Stops(rest) && sign <= 1 && sign <= |s| && s[sign..] == Digits(n) + rest
    requires if sign == 0 then n <= U64_MAX else 0 < n && 0 - n >= I64_MIN
    ensures NumberOf(s, sign, Digits(n), rest) == Some((Int(if sign == 0 then n else 0 - n), rest))
  {
    DigitsReadBack(n);
    assert |Digits(n)| > 1 ==> n >= 10;
    NothingFollows(rest);
  }

  lemma NothingFollows(rest: string)
    requires Stops(rest)
    ensures FractionAndExponent(rest) == Some(0)
  {
    assert rest[0..] == rest;
  }

  lemma NumberReadsBack(n: int, rest: string)
    requires I64_MIN <= n <= U64_MAX && Stops(rest)
    ensures ReadNumber(WriteInt(n) + rest) == Some((Int(n), rest))
  {
    if n < 0 {
      var digits := Digits(0 - n) + rest;
      assert WriteInt(n) + rest == "-" + digits;
      assert ("-" + digits)[1..] == digits;
      ReadDigits("-" + digits, 1, 0 - n, rest);
    } else {
      var s := Digits(n) + rest;
      assert s[0..] == s && IsDigit(s[0]);
      ReadDigits(s, 0, n, rest);
    }
  }

  lemma NotSpace(s: string)
    requires s != [] && s[0] != ' ' && s[0] != '\t' && s[0] != '\n' && s[0] != '\r'
    ensures Skip(s) == s
  {
  }

  /** The first character of a written value is never whitespace or a closing bracket. */
  lemma WrittenStart(j: Json)
    requires Plain(j)
    ensures
      var s := Write(j);
      s != [] && s[0] != ' ' && s[0] != '\t' && s[0] != '\n' && s[0] != '\r' && s[0] != ']' && s[0] != '}'
  {
    if j.Int? {
      var digits := Digits(if j.n < 0 then 0 - j.n else j.n);
      assert IsDigit(digits[0]);
    }
  }

  lemma QuotedReadsBack(s: string, rest: string)
    ensures (Quote(s) + rest)[0] == '"' && ReadChars((Quote(s) + rest)[1..]) == Some((s, rest))
  {
    assert (Quote(s) + rest)[1..] == Escape(s) + ("\"" + rest);
    CharsReadBack(s, rest);
  }

  lemma {:induction false} ValueReadsBack(j: Json, rest: string)
    requires Plain(j) && Stops(rest)
    ensures ReadValue(Write(j) + rest) == Some((j, rest))
    decreases j, 1
  {
    var s := Write(j) + rest;
    WrittenStart(j);
    NotSpace(s);
    match j
    case Null => assert s[..4] == "null" && s[4..] == rest;
    case Bool(b) => if b { assert s[..4] == "true" && s[4..] == rest; } else { assert s[..5] == "false" && s[5..] == rest; }
    case Int(n) => IntReadsBack(n, rest);
    case Str(t) => QuotedReadsBack(t, rest);
    case Arr(items) =>
      if items != [] { ItemsReadBack(items, rest); }
      ArrayReadsBack(items, rest);
    case Obj(members) =>
      if members != [] { MembersReadBack(members, rest); }
      ObjectReadsBack(members, rest);
  }

  lemma ArrayReadsBack(items: seq<Json>, rest: string)
    requires items != [] ==> Plain(items[0]) && ReadItems(WriteItems(items) + ("]" + rest)) == Some((items, rest))
    ensures ReadValue(Write(Arr(items)) + rest) == Some((Arr(items), rest))
  {
    var t := WriteItems(items) + ("]" + rest);
    Bracketed("[", WriteItems(items), "]", rest);
    if items == [] {
      NotSpace(t);
      assert t == "]" + rest && t[1..] == rest;
    } else {
      ItemsStart(items, "]" + rest);
    }
    ReadsArray(t);
  }

  lemma Bracketed(open: string, body: string, close: string, rest: string)
    ensures open + body + close + rest == open + (body + (close + rest))
  {
  }

  /** The reader's two bracketed cases, by what stands behind the bracket. */
  lemma ReadsArray(t: string)
    requires t != [] && Skip(t) == t
    ensures t[0] == ']' ==> ReadValue("[" + t) == Some((Arr([]), t[1..]))
    ensures t[0] != ']' ==> ReadValue("[" + t) == (if ReadItems(t).None? then None else Some((Arr(ReadItems(t).value.0), ReadItems(t).value.1)))
  {
    NotSpace("[" + t);
    assert ("[" + t)[1..] == t;
  }

  lemma ReadsObject(t: string)
    requires t != [] && Skip(t) == t
    ensures t[0] == '}' ==> ReadValue("{" + t) == Some((Obj([]), t[1..]))
    ensures t[0] != '}' ==> ReadValue("{" + t) == (if ReadMembers(t).None? then None else Some((Obj(ReadMembers(t).value.0), ReadMembers(t).value.1)))
  {
    NotSpace("{" + t);
    assert ("{" + t)[1..] == t;
  }

  lemma ObjectReadsBack(members: seq<Member>, rest: string)
    requires members != [] ==> ReadMembers(WriteMembers(members) + ("}" + rest)) == Some((members, rest))
    ensures ReadValue(Write(Obj(members)) + rest) == Some((Obj(members), rest))
  {
    var t := WriteMembers(members) + ("}" + rest);
    Bracketed("{", WriteMembers(members), "}", rest);
    if members == [] {
      NotSpace(t);
      assert t == "}" + rest && t[1..] == rest;
    } else {
      MembersStart(members, "}" + rest);
    }
    ReadsObject(t);
  }

  lemma IntReadsBack(n: int, rest: string)
    requires I64_MIN <= n <= U64_MAX && Stops(rest)
    ensures ReadValue(WriteInt(n) + rest) == Some((Int(n), rest))
  {
    NumberReadsBack(n, rest);
    IntStarts(n);
    ReadsNumber(WriteInt(n) + rest);
  }

  lemma IntStarts(n: int)
    ensures WriteInt(n) != [] && (WriteInt(n)[0] == '-' || IsDigit(WriteInt(n)[0]))
  {
    var digits := Digits(if n < 0 then 0 - n else n);
    assert IsDigit(digits[0]);
  }

  lemma ReadsNumber(s: string)
    requires s != [] && (s[0] == '-' || IsDigit(s[0]))
    ensures ReadValue(s) == ReadNumber(s)
  {
    NotSpace(s);
    ScalarReads(s);
  }

  lemma ScalarReads(s: string)
    requires s != [] && (s[0] == '-' || IsDigit(s[0]))
    ensures ReadScalar(s) == ReadNumber(s)
  {
  }

  lemma ItemsStart(items: seq<Json>, rest: string)
    requires items != [] && Plain(items[0])
    ensures
      var s := WriteItems(items) + rest;
      s != [] && Skip(s) == s && s[0] != ']'
  {
    WrittenStart(items[0]);
    var s := WriteItems(items) + rest;
    assert s[0] == Write(items[0])[0];
    NotSpace(s);
  }

  lemma {:induction false} ItemsReadBack(items: seq<Json>, rest: string)
    requires items != [] && forall i | 0 <= i < |items| :: Plain(items[i])
    ensures ReadItems(WriteItems(items) + ("]" + rest)) == Some((items, rest))
    decreases items, 0
  {
    var closing := "]" + rest;
    if |items| == 1 {
      ValueReadsBack(items[0], closing);
      LastItem(items[0], rest);
      assert items == [items[0]];
    } else {
      var tail := WriteItems(items[1..]) + closing;
      ItemsReadBack(items[1..], rest);
      ValueReadsBack(items[0], "," + tail);
      NextItem(items[0], tail, items[1..], rest);
      WriteItemsUnfolds(items, closing);
      HeadAndTail(items);
    }
  }

  lemma LastItem(item: Json, rest: string)
    requires ReadValue(Write(item) + ("]" + rest)) == Some((item, "]" + rest))
    ensures ReadItems(Write(item) + ("]" + rest)) == Some(([item], rest))
  {
    NotSpace("]" + rest);
    assert ("]" + rest)[1..] == rest;
  }

  lemma NextItem(item: Json, tail: string, items: seq<Json>, rest: string)
    requires ReadValue(Write(item) + ("," + tail)) == Some((item, "," + tail))
    requires ReadItems(tail) == Some((items, rest))
    ensures ReadItems(Write(item) + ("," + tail)) == Some(([item] + items, rest))
  {
    NotSpace("," + tail);
    assert ("," + tail)[1..] == tail;
  }

  lemma WriteItemsUnfolds(items: seq<Json>, closing: string)
    requires |items| >= 2
    ensures WriteItems(items) + closing == Write(items[0]) + ("," + (WriteItems(items[1..]) + closing))
  {
    ItemsUnfold(items);
    Comma(Write(items[0]), WriteItems(items[1..]), closing);
  }

  lemma ItemsUnfold(items: seq<Json>)
    requires |items| >= 2
    ensures WriteItems(items) == Write(items[0]) + "," + WriteItems(items[1..])
  {
  }

  lemma MemberStarts(m: Member)
    ensures WriteMember(m) != [] && WriteMember(m)[0] == '"'
  {
  }

  lemma MembersStart(members: seq<Member>, rest: string)
    requires members != []
    ensures
      var s := WriteMembers(members) + rest;
      s != [] && Skip(s) == s && s[0] == '"'
  {
    MemberStarts(members[0]);
    var s := WriteMembers(members) + rest;
    assert s[0] == WriteMember(members[0])[0];
    NotSpace(s);
  }

  lemma {:induction false} MemberReadsBack(m: Member, rest: string)
    requires Plain(m.value) && Stops(rest)
    ensures ReadMember(WriteMember(m) + rest) == Some((m, rest))
    decreases m, 2
  {
    ValueReadsBack(m.value, rest);
    hide ReadChars, ReadValue, Write, Escape, Skip, ReadMember;
    var s := WriteMember(m) + rest;
    var tail := ":" + (Write(m.value) + rest);
    assert s == Quote(m.key) + tail;
    QuotedReadsBack(m.key, tail);
    NotSpace(s);
    NotSpace(tail);
    assert tail[1..] == Write(m.value) + rest;
    MemberOfParts(s, m.key, tail, m.value, rest);
  }

  lemma MemberOfParts(s: string, key: string, tail: string, value: Json, rest: string)
    requires Skip(s) == s && s != [] && s[0] == '"' && ReadChars(s[1..]) == Some((key, tail))
    requires Skip(tail) == tail && tail != [] && tail[0] == ':' && ReadValue(tail[1..]) == Some((value, rest))
    ensures ReadMember(s) == Some((Member(key, value), rest))
  {
    hide ReadChars, ReadValue, Skip;
  }

  lemma LastMember(m: Member, rest: string)
    requires ReadMember(WriteMember(m) + ("}" + rest)) == Some((m, "}" + rest))
    ensures ReadMembers(WriteMember(m) + ("}" + rest)) == Some(([m], rest))
  {
    NotSpace("}" + rest);
    assert ("}" + rest)[1..] == rest;
  }

  lemma NextMember(m: Member, tail: string, members: seq<Member>, rest: string)
    requires ReadMember(WriteMember(m) + ("," + tail)) == Some((m, "," + tail))
    requires ReadMembers(tail) == Some((members, rest))
    ensures ReadMembers(WriteMember(m) + ("," + tail)) == Some(([m] + members, rest))
  {
    NotSpace("," + tail);
    assert ("," + tail)[1..] == tail;
  }

  lemma WriteMembersUnfolds(members: seq<Member>, closing: string)
    requires |members| >= 2
    ensures WriteMembers(members) + closing == WriteMember(members[0]) + ("," + (WriteMembers(members[1..]) + closing))
  {
    MembersUnfold(members);
    Comma(WriteMember(members[0]), WriteMembers(members[1..]), closing);
  }

  lemma MembersUnfold(members: seq<Member>)
    requires |members| >= 2
    ensures WriteMembers(members) == WriteMember(members[0]) + "," + WriteMembers(members[1..])
  {
  }

  lemma HeadAndTail<T>(xs: seq<T>)
    requires xs != []
    ensures xs == [xs[0]] + xs[1..]
  {
  }

  lemma Comma(a: string, b: string, c: string)
    ensures a + "," + b + c == a + ("," + (b + c))
  {
  }

  lemma {:induction false} MembersReadBack(members: seq<Member>, rest: string)
    requires members != [] && forall i | 0 <= i < |members| :: Plain(members[i].value)
    ensures ReadMembers(WriteMembers(members) + ("}" + rest)) == Some((members, rest))
    decreases members, 0
  {
    var closing := "}" + rest;
    if |members| == 1 {
      MemberReadsBack(members[0], closing);
      LastMember(members[0], rest);
      assert members == [members[0]];
    } else {
      var tail := WriteMembers(members[1..]) + closing;
      MembersReadBack(members[1..], rest);
      MemberReadsBack(members[0], "," + tail);
      NextMember(members[0], tail, members[1..], rest);
      WriteMembersUnfolds(members, closing);
      HeadAndTail(members);
    }
  }

  /** Every plain value, whatever its strings hold, survives writing and reading exactly when the reader's nesting limit admits it. */
  lemma ReadUndoesWrite(j: Json)
    requires Plain(j)
    ensures Read(Write(j)) == if Depth(j) <= DEEPEST then Some(j) else None
  {
    ValueReadsBack(j, []);
    assert Write(j) + [] == Write(j);
  }

  // ----- one line per document

  predicate NoControl(s: string) { forall i | 0 <= i < |s| :: s[i] as int >= 0x20 }

  lemma {:induction false} EscapedHasNoControl(s: string)
    ensures NoControl(Escape(s))
  {
    if s != [] { EscapedHasNoControl(s[1..]); }
  }

  lemma {:induction false} WrittenHasNoControl(j: Json)
    requires Plain(j)
    ensures NoControl(Write(j))
    decreases j, 1
  {
    match j
    case Int(n) => assert AllDigits(Digits(if n < 0 then 0 - n else n));
    case Str(s) => EscapedHasNoControl(s);
    case Arr(items) => ItemsHaveNoControl(items);
    case Obj(members) => MembersHaveNoControl(members);
    case _ =>
  }

  lemma {:induction false} ItemsHaveNoControl(items: seq<Json>)
    requires forall i | 0 <= i < |items| :: Plain(items[i])
    ensures NoControl(WriteItems(items))
    decreases items, 0
  {
    if items != [] {
      WrittenHasNoControl(items[0]);
      ItemsHaveNoControl(items[1..]);
    }
  }

  lemma {:induction false} MembersHaveNoControl(members: seq<Member>)
    requires forall i | 0 <= i < |members| :: Plain(members[i].value)
    ensures NoControl(WriteMembers(members))
    decreases members, 0
  {
    if members != [] {
      EscapedHasNoControl(members[0].key);
      WrittenHasNoControl(members[0].value);
      MembersHaveNoControl(members[1..]);
    }
  }
}
