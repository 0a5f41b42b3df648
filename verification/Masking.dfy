/**
 The two source-masking lexers: comments and string literals on one line, and
 raw strings across lines, are blanked without moving anything.
 */
module Masking {
  import opened Wrappers
  import opened Text

  function Blanks(n: nat): (r: string)
    ensures |r| == n && forall i | 0 <= i < n :: r[i] == ' '
  {
    seq(n, i requires 0 <= i < n => ' ')
  }

  /** A mask of a text: each character its own or a space. */
  ghost predicate Masks(out: string, text: string) {
    |out| == |text| && forall i | 0 <= i < |text| :: out[i] == text[i] || out[i] == ' '
  }

  // ----- one line

  datatype Mode = InCode | InString | AfterBackslash

  /** What a byte inside a string literal leaves the lexer in. */
  function StringStep(mode: Mode, c: char): Mode {
    if mode == AfterBackslash then InString
    else if c == '\\' then AfterBackslash
    else if c == '"' then InCode
    else InString
  }

  /** What is left of the rest of a line; a byte is the character of its number. */
  function CodeFrom(b: string, mode: Mode): (r: string)
    ensures |r| == |b|
  {
    if b == [] then []
    else if mode != InCode then [' '] + CodeFrom(b[1..], StringStep(mode, b[0]))
    else if b[0] == '"' then [' '] + CodeFrom(b[1..], InString)
    else if b[0] == '/' && |b| > 1 && b[1] == '/' then Blanks(|b|)
    else [b[0]] + CodeFrom(b[1..], InCode)
  }

  function Code(b: string): string { CodeFrom(b, InCode) }

  lemma CodeUnfolds(b: string, i: nat, mode: Mode)
    requires i < |b|
    ensures mode != InCode ==> CodeFrom(b[i..], mode) == [' '] + CodeFrom(b[i + 1..], StringStep(mode, b[i]))
    ensures mode == InCode && b[i] == '"' ==> CodeFrom(b[i..], mode) == [' '] + CodeFrom(b[i + 1..], InString)
    ensures mode == InCode && CommentAt(b, i) ==> CodeFrom(b[i..], mode) == Blanks(|b| - i)
    ensures mode == InCode && b[i] != '"' && !CommentAt(b, i) ==> CodeFrom(b[i..], mode) == [b[i]] + CodeFrom(b[i + 1..], InCode)
  {
    assert b[i..][1..] == b[i + 1..];
  }

  /** `code_line`, on the bytes of the line. */
  method CodeLine(b: string) returns (out: string)
    ensures out == Code(b)
  {
    out := [];
    var quoted, escaped := false, false;
    ghost var mode := InCode;
    var i := 0;
    assert b[0..] == b;
    assert Code(b) == CodeFrom(b, InCode);
    hide CodeFrom, Code, Blanks;
    while i < |b|
      invariant i <= |b| && (quoted <==> mode != InCode) && (escaped <==> mode == AfterBackslash)
      invariant out + CodeFrom(b[i..], mode) == Code(b)
    {
      var c := b[i];
      CodeUnfolds(b, i, mode);
      mode := if quoted then StringStep(mode, c) else if c == '"' then InString else InCode;
      if quoted {
        Append(out, ' ', CodeFrom(b[i + 1..], mode));
        out := out + [' '];
        if escaped {
          escaped := false;
        } else if c == '\\' {
          escaped := true;
        } else if c == '"' {
          quoted := false;
        }
        i := i + 1;
        continue;
      }
      if c == '"' {
        quoted := true;
        Append(out, ' ', CodeFrom(b[i + 1..], mode));
        out := out + [' '];
        i := i + 1;
        continue;
      }
      if c == '/' && i + 1 < |b| && b[i + 1] == '/' {
        out := out + Blanks(|b| - i);
        return;
      }
      Append(out, c, CodeFrom(b[i + 1..], mode));
      out := out + [c];
      i := i + 1;
    }
  }

  lemma Append(out: string, c: char, rest: string)
    ensures out + ([c] + rest) == out + [c] + rest
  {
  }

  lemma {:induction false} CodeMasks(b: string, mode: Mode)
    ensures Masks(CodeFrom(b, mode), b)
  {
    if b != [] {
      CodeMasks(b[1..], StringStep(mode, b[0]));
      CodeMasks(b[1..], InString);
      CodeMasks(b[1..], InCode);
    }
  }

  predicate CommentAt(b: string, i: nat) { i + 1 < |b| && b[i] == '/' && b[i + 1] == '/' }

  /** Nothing for the lexer to do: no quote and no comment start. */
  predicate Bare(b: string) { '"' !in b && forall i: nat | i < |b| :: !CommentAt(b, i) }

  lemma CommentShifts(b: string, i: nat)
    requires b != []
    ensures CommentAt(b[1..], i) <==> CommentAt(b, i + 1)
  {
  }

  lemma BareTail(b: string)
    requires b != [] && Bare(b)
    ensures Bare(b[1..])
  {
    forall i: nat | i < |b[1..]| ensures !CommentAt(b[1..], i) { CommentShifts(b, i); }
  }

  lemma {:induction false} BareIsKept(b: string)
    requires Bare(b)
    ensures Code(b) == b
  {
    if b != [] {
      BareTail(b);
      BareIsKept(b[1..]);
      assert !CommentAt(b, 0);
      assert b == [b[0]] + b[1..];
    }
  }

  lemma {:induction false} CodeIsBare(b: string, mode: Mode)
    ensures Bare(CodeFrom(b, mode))
  {
    if b != [] {
      CodeIsBare(b[1..], StringStep(mode, b[0]));
      CodeIsBare(b[1..], InString);
      CodeIsBare(b[1..], InCode);
      var r := CodeFrom(b, mode);
      CodeMasks(b, mode);
      forall i: nat | i < |r| ensures !CommentAt(r, i) {
        if i > 0 { CommentShifts(r, i - 1); }
      }
    }
  }

  /** Masking a masked line changes nothing. */
  lemma CodeIsIdempotent(b: string)
    ensures Code(Code(b)) == Code(b)
  {
    CodeIsBare(b, InCode);
    BareIsKept(Code(b));
  }

  // ----- what the mask means

  /** Bare code is copied, up to a comment or a literal. */
  lemma {:induction false} BareThen(code: string, rest: string)
    requires Bare(code) && (code != [] && code[|code| - 1] == '/' ==> rest == [] || rest[0] != '/')
    ensures Code(code + rest) == code + Code(rest)
  {
    var s := code + rest;
    if code == [] {
      assert s == rest;
    } else {
      assert s[1..] == code[1..] + rest;
      BareTail(code);
      BareThen(code[1..], rest);
      assert !CommentAt(code, 0);
      assert code == [code[0]] + code[1..];
    }
  }

  /** A comment is blanked to the end of the line, whatever it holds. */
  lemma CommentIsBlanked(code: string, comment: string)
    requires Bare(code) && (code != [] ==> code[|code| - 1] != '/')
    ensures Code(code + ("//" + comment)) == code + Blanks(2 + |comment|)
  {
    BareThen(code, "//" + comment);
  }

  /** The inside of a string literal: every backslash takes a companion, and no other quote. */
  predicate LiteralBody(s: string) {
    s == [] || (if s[0] == '\\' then |s| > 1 && LiteralBody(s[2..]) else s[0] != '"' && LiteralBody(s[1..]))
  }

  lemma {:induction false} BodyIsBlanked(body: string, rest: string)
    requires LiteralBody(body)
    ensures CodeFrom(body + (['"'] + rest), InString) == Blanks(|body| + 1) + Code(rest)
  {
    var s := body + (['"'] + rest);
    if body == [] {
      assert s[1..] == rest;
    } else if body[0] == '\\' {
      BodyIsBlanked(body[2..], rest);
      assert s[1..][1..] == body[2..] + (['"'] + rest);
    } else {
      BodyIsBlanked(body[1..], rest);
      assert s[1..] == body[1..] + (['"'] + rest);
    }
  }

  lemma LiteralAloneIsBlanked(body: string, rest: string)
    requires LiteralBody(body)
    ensures Code(['"'] + (body + (['"'] + rest))) == Blanks(|body| + 2) + Code(rest)
  {
    var inside := body + (['"'] + rest);
    QuoteOpens(inside);
    hide CodeFrom, LiteralBody;
    BodyIsBlanked(body, rest);
    assert [' '] + Blanks(|body| + 1) == Blanks(|body| + 2);
  }

  lemma QuoteOpens(inside: string)
    ensures Code(['"'] + inside) == [' '] + CodeFrom(inside, InString)
  {
    assert (['"'] + inside)[1..] == inside;
  }

  /** A string literal is blanked, quotes and all, and the line goes on after it. */
  lemma LiteralIsBlanked(code: string, body: string, rest: string)
    requires Bare(code) && LiteralBody(body)
    ensures Code(code + (['"'] + (body + (['"'] + rest)))) == code + (Blanks(|body| + 2) + Code(rest))
  {
    BareThen(code, ['"'] + (body + (['"'] + rest)));
    LiteralAloneIsBlanked(body, rest);
  }

  // ----- the line as text

  /** UTF-8. */
  function Encode(c: char): (r: string)
    ensures 1 <= |r| && forall i | 0 <= i < |r| :: r[i] as int < 256
    ensures |r| == 1 <==> c as int < 0x80
    ensures |r| == 1 ==> r == [c]
    ensures |r| > 1 ==> forall i | 0 <= i < |r| :: r[i] as int >= 0x80
  {
    var n := c as int;
    if n < 0x80 then [c]
    else if n < 0x800 then [(0xC0 + n / 64) as char, (0x80 + n % 64) as char]
    else if n < 0x1_0000 then [(0xE0 + n / 4096) as char, (0x80 + n / 64 % 64) as char, (0x80 + n % 64) as char]
    else [(0xF0 + n / 0x4_0000) as char, (0x80 + n / 4096 % 64) as char, (0x80 + n / 64 % 64) as char, (0x80 + n % 64) as char]
  }

  /** The number a byte sequence carries: the leading byte's own bits, then six from each that follows. */
  function Carried(r: string): int {
    if |r| == 1 then r[0] as int
    else if |r| == 2 then (r[0] as int - 0xC0) * 64 + (r[1] as int - 0x80)
    else if |r| == 3 then ((r[0] as int - 0xE0) * 64 + (r[1] as int - 0x80)) * 64 + (r[2] as int - 0x80)
    else if |r| == 4 then (((r[0] as int - 0xF0) * 64 + (r[1] as int - 0x80)) * 64 + (r[2] as int - 0x80)) * 64 + (r[3] as int - 0x80)
    else -1
  }

  /** Section 3 of RFC 3629: as many bytes as the range of the character asks for, and together they carry it. */
  lemma EncodeIsUtf8(c: char)
    ensures
      var r, n := Encode(c), c as int;
      && |r| == (if n < 0x80 then 1 else if n < 0x800 then 2 else if n < 0x1_0000 then 3 else 4) && Carried(r) == n
      && forall i | 1 <= i < |r| :: 0x80 <= r[i] as int < 0xC0
  {
    SixBits(c as int);
  }

  lemma SixBits(n: nat)
    ensures n == n / 64 * 64 + n % 64 && n / 64 == n / 4096 * 64 + n / 64 % 64 && n / 4096 == n / 0x4_0000 * 64 + n / 4096 % 64
  {
  }

  function Bytes(line: string): string {
    if line == [] then [] else Encode(line[0]) + Bytes(line[1..])
  }

  predicate Ascii(s: string) { forall i | 0 <= i < |s| :: s[i] as int < 0x80 }

  /** `code_line`: each byte kept becomes the character of its number. */
  function MaskLine(line: string): string { Code(Bytes(line)) }

  lemma {:induction false} BytesOfAscii(line: string)
    ensures |Bytes(line)| >= |line|
    ensures |Bytes(line)| == |line| <==> Ascii(line)
    ensures Ascii(line) ==> Bytes(line) == line
  {
    if line != [] {
      BytesOfAscii(line[1..]);
      assert line == [line[0]] + line[1..];
      assert Ascii(line) <==> line[0] as int < 0x80 && Ascii(line[1..]) by {
        forall i | 0 < i < |line| ensures line[i] == line[1..][i - 1] {}
      }
    }
  }

  /** A line keeps its length exactly when it is ASCII, and then every character is its own or a space. */
  lemma PositionsSurviveIffAscii(line: string)
    ensures |MaskLine(line)| == |line| <==> Ascii(line)
    ensures Ascii(line) ==> Masks(MaskLine(line), line)
  {
    BytesOfAscii(line);
    CodeMasks(Bytes(line), InCode);
  }

  /** Every non-ASCII character of the text stands inside a string literal or behind `//`. */
  predicate HidesNonAscii(s: string, mode: Mode) {
    if s == [] then true
    else if mode != InCode then HidesNonAscii(s[1..], StringStep(mode, s[0]))
    else if s[0] == '"' then HidesNonAscii(s[1..], InString)
    else CommentAt(s, 0) || (s[0] as int < 0x80 && HidesNonAscii(s[1..], InCode))
  }

  lemma {:induction false} CodeIsAsciiIffHidden(b: string, mode: Mode)
    ensures Ascii(CodeFrom(b, mode)) <==> HidesNonAscii(b, mode)
  {
    if b != [] {
      CodeIsAsciiIffHidden(b[1..], StringStep(mode, b[0]));
      CodeIsAsciiIffHidden(b[1..], InString);
      CodeIsAsciiIffHidden(b[1..], InCode);
      AsciiSplits(' ', CodeFrom(b[1..], StringStep(mode, b[0])));
      AsciiSplits(' ', CodeFrom(b[1..], InString));
      AsciiSplits(b[0], CodeFrom(b[1..], InCode));
    }
  }

  lemma AsciiSplits(c: char, s: string)
    ensures Ascii([c] + s) <==> c as int < 0x80 && Ascii(s)
  {
    forall i | 0 <= i < |s| ensures ([c] + s)[i + 1] == s[i] {}
    assert ([c] + s)[0] == c;
  }

  /** Inside a literal the bytes of a non-ASCII character are passed over. */
  lemma {:induction false} HighBytesAreCrossed(e: string, rest: string, mode: Mode)
    requires mode != InCode && e != [] && forall i | 0 <= i < |e| :: e[i] as int >= 0x80
    ensures HidesNonAscii(e + rest, mode) <==> HidesNonAscii(rest, InString)
  {
    var s := e + rest;
    assert s[1..] == e[1..] + rest;
    if |e| == 1 {
      assert s[1..] == rest;
    } else {
      HighBytesAreCrossed(e[1..], rest, InString);
    }
  }

  lemma BytesStart(line: string)
    requires line != []
    ensures Bytes(line) != [] && (Bytes(line)[0] == '/' <==> line[0] == '/')
  {
    assert Bytes(line)[0] == Encode(line[0])[0];
  }

  /** Reading the line by characters or by its bytes hides the same. */
  lemma {:induction false} BytesHideAlike(line: string, mode: Mode)
    ensures HidesNonAscii(Bytes(line), mode) <==> HidesNonAscii(line, mode)
  {
    if line != [] {
      var c, rest := line[0], Bytes(line[1..]);
      BytesHideAlike(line[1..], StringStep(mode, c));
      BytesHideAlike(line[1..], InString);
      BytesHideAlike(line[1..], InCode);
      if c as int < 0x80 {
        assert Bytes(line)[1..] == rest;
        if |line| > 1 { BytesStart(line[1..]); }
      } else if mode == InCode {
        assert Bytes(line)[0] == Encode(c)[0];
      } else {
        HighBytesAreCrossed(Encode(c), rest, mode);
      }
    }
  }

  /** Masking a line twice is masking it once exactly when its non-ASCII characters all stand in literals or comments. */
  lemma LineMaskIsIdempotentIffHidden(line: string)
    ensures MaskLine(MaskLine(line)) == MaskLine(line) <==> HidesNonAscii(line, InCode)
  {
    hide HidesNonAscii, CodeFrom;
    var once := MaskLine(line);
    BytesHideAlike(line, InCode);
    CodeIsAsciiIffHidden(Bytes(line), InCode);
    BytesOfAscii(once);
    CodeIsIdempotent(Bytes(line));
    assert |Code(Bytes(once))| == |Bytes(once)|;
  }

  /** One non-ASCII character in code moves what follows it, and is masked into something else again. */
  lemma AccentInCode(c: char, rest: string)
    requires c as int >= 0x80
    ensures |MaskLine([c] + rest)| != |[c] + rest| && MaskLine(MaskLine([c] + rest)) != MaskLine([c] + rest)
  {
    PositionsSurviveIffAscii([c] + rest);
    LineMaskIsIdempotentIffHidden([c] + rest);
    assert ([c] + rest)[0] == c;
    hide MaskLine;
  }

  /** In a literal the same character moves the line too, and yet masking again changes nothing. */
  lemma AccentInLiteral(c: char)
    requires c as int >= 0x80
    ensures
      var line := ['"', c, '"'];
      |MaskLine(line)| != |line| && MaskLine(MaskLine(line)) == MaskLine(line)
  {
    var line := ['"', c, '"'];
    PositionsSurviveIffAscii(line);
    LineMaskIsIdempotentIffHidden(line);
    assert line[1] == c;
    assert line[1..][1..] == ['"'] && line[1..][1..][1..] == [];
    assert HidesNonAscii(['"'], InString) && HidesNonAscii(line[1..], InString);
    hide MaskLine;
  }

  // ----- raw strings

  const OPEN := "r#\""
  const CLOSE := "\"#"

  /** Spaces, with the newlines left where they are. */
  function BlankOut(s: string): (r: string)
    ensures |r| == |s| && forall i | 0 <= i < |s| :: r[i] == if s[i] == '\n' then '\n' else ' '
  {
    seq(|s|, i requires 0 <= i < |s| => if s[i] == '\n' then '\n' else ' ')
  }

  /** Where the next raw string opens, and how far behind its bracket it closes. */
  function NextRaw(s: string): (r: Option<(nat, Option<nat>)>)
    ensures r.None? <==> Find(s, OPEN).None?
    ensures r.Some? ==> r.value.0 + 3 <= |s| && Find(s, OPEN) == Some(r.value.0) && r.value.1 == Find(s[r.value.0 + 3..], CLOSE)
    ensures r.Some? && r.value.1.Some? ==> r.value.0 + 3 + r.value.1.value + 2 <= |s|
  {
    var start := Find(s, OPEN);
    if start.None? then None else Some((start.value, Find(s[start.value + 3..], CLOSE)))
  }

  function MaskRaw(s: string): (r: string)
    ensures |r| == |s|
    decreases |s|
  {
    var next := NextRaw(s);
    if next.None? then s
    else
      var (n, m) := next.value;
      if m.None? then s[..n] + (Blanks(3) + BlankOut(s[n + 3..]))
      else MaskedPiece(s[..n], s[n + 3..n + 3 + m.value], MaskRaw(s[n + 5 + m.value..]))
  }

  /** What one closed raw string becomes, in front of what is left. */
  function MaskedPiece(head: string, inside: string, tail: string): (r: string)
    ensures |r| == |head| + 3 + |inside| + 2 + |tail|
  {
    head + (Blanks(3) + (BlankOut(inside) + (Blanks(2) + tail)))
  }

  /** Same length, newlines exactly where they were, every other character its own or a space. */
  ghost predicate MasksLines(out: string, text: string) {
    Masks(out, text) && forall i | 0 <= i < |text| :: out[i] == '\n' <==> text[i] == '\n'
  }

  lemma MasksJoin(a: string, s: string, b: string, t: string)
    requires MasksLines(a, s) && MasksLines(b, t)
    ensures MasksLines(a + b, s + t)
  {
  }

  lemma PieceMasks(s: string, n: nat, m: nat, tail: string)
    requires n + 3 + m + 2 <= |s| && '\n' !in s[n..n + 3] && '\n' !in s[n + 3 + m..n + 5 + m]
    requires MasksLines(tail, s[n + 5 + m..])
    ensures MasksLines(MaskedPiece(s[..n], s[n + 3..n + 3 + m], tail), s)
  {
    var head, open, inside, close, rest := s[..n], s[n..n + 3], s[n + 3..n + 3 + m], s[n + 3 + m..n + 5 + m], s[n + 5 + m..];
    assert s == head + (open + (inside + (close + rest)));
    MasksJoin(Blanks(2), close, tail, rest);
    MasksJoin(BlankOut(inside), inside, Blanks(2) + tail, close + rest);
    MasksJoin(Blanks(3), open, BlankOut(inside) + (Blanks(2) + tail), inside + (close + rest));
    MasksJoin(head, head, Blanks(3) + (BlankOut(inside) + (Blanks(2) + tail)), open + (inside + (close + rest)));
  }

  lemma LastPieceMasks(s: string, n: nat)
    requires n + 3 <= |s| && '\n' !in s[n..n + 3]
    ensures MasksLines(s[..n] + (Blanks(3) + BlankOut(s[n + 3..])), s)
  {
    var head, open, rest := s[..n], s[n..n + 3], s[n + 3..];
    assert s == head + (open + rest);
    MasksJoin(Blanks(3), open, BlankOut(rest), rest);
    MasksJoin(head, head, Blanks(3) + BlankOut(rest), open + rest);
  }

  /** Where the next raw string opens and closes, and what the mask makes of it. */
  lemma RawShape(s: string) returns (n: nat, m: Option<nat>)
    requires Find(s, OPEN).Some?
    ensures n + 3 <= |s| && Find(s, OPEN) == Some(n) && s[n..n + 3] == OPEN && m == Find(s[n + 3..], CLOSE)
    ensures m.None? ==> MaskRaw(s) == s[..n] + (Blanks(3) + BlankOut(s[n + 3..]))
    ensures m.Some? ==>
      && n + 3 + m.value + 2 <= |s| && s[n + 3 + m.value..n + 5 + m.value] == CLOSE
      && MaskRaw(s) == MaskedPiece(s[..n], s[n + 3..n + 3 + m.value], MaskRaw(s[n + 5 + m.value..]))
  {
    hide Find, NextRaw, Blanks, BlankOut, MaskedPiece;
    n, m := NextRaw(s).value.0, NextRaw(s).value.1;
    if m.Some? { SliceOfRest(s, n + 3, m.value); }
  }

  lemma SliceOfRest(s: string, from: nat, m: nat)
    requires from + m + 2 <= |s|
    ensures s[from..][m..m + 2] == s[from + m..from + m + 2]
  {
  }

  lemma {:induction false} RawMaskKeepsEveryPosition(s: string)
    ensures MasksLines(MaskRaw(s), s)
    decreases |s|
  {
    hide MaskedPiece, MasksLines, MaskRaw, Find;
    BracketsHoldNoNewline();
    if Find(s, OPEN).Some? {
      var n, m := RawShape(s);
      if m.Some? {
        RawMaskKeepsEveryPosition(s[n + 5 + m.value..]);
        PieceMasks(s, n, m.value, MaskRaw(s[n + 5 + m.value..]));
      } else {
        LastPieceMasks(s, n);
      }
    } else {
      NothingMasked(s);
    }
  }

  lemma BracketsHoldNoNewline()
    ensures '\n' !in OPEN && '\n' !in CLOSE
  {
  }

  lemma NothingMasked(s: string)
    requires Find(s, OPEN).None?
    ensures MaskRaw(s) == s && MasksLines(s, s)
  {
  }

  lemma AfterOpening(s: string, n: nat, m: nat)
    requires n + 3 + m + 2 <= |s|
    ensures s[n + 3..][..m] == s[n + 3..n + 3 + m] && s[n + 3..][m + 2..] == s[n + 5 + m..]
  {
  }

  lemma Regroup(done: string, head: string, open: string, inside: string, close: string, tail: string)
    ensures done + (head + (open + (inside + (close + tail)))) == done + head + open + inside + close + tail
  {
  }

  lemma RegroupLast(done: string, head: string, open: string, rest: string)
    ensures done + (head + (open + rest)) == done + head + open + rest
  {
  }

  /** `mask_raw_strings`. */
  method MaskRawStrings(source: string) returns (output: string)
    ensures output == MaskRaw(source)
  {
    hide Find, BlankOut, Blanks, MaskRaw;
    output := [];
    var remaining := source;
    while true
      invariant output + MaskRaw(remaining) == MaskRaw(source)
      decreases |remaining|
    {
      var start := Find(remaining, OPEN);
      if start.None? {
        NothingMasked(remaining);
        output := output + remaining;
        return;
      }
      ghost var n, m := RawShape(remaining);
      ghost var done, head := output, remaining[..n];
      output := output + remaining[..start.value];
      var after := remaining[start.value + 3..];
      var end := Find(after, CLOSE);
      output := output + Blanks(3);
      if end.None? {
        RegroupLast(done, head, Blanks(3), BlankOut(after));
        output := output + BlankOut(after);
        return;
      }
      output := output + BlankOut(after[..end.value]);
      output := output + Blanks(2);
      AfterOpening(remaining, n, end.value);
      remaining := after[end.value + 2..];
      Regroup(done, head, Blanks(3), BlankOut(after[..end.value]), Blanks(2), MaskRaw(remaining));
    }
  }

  predicate AllBlank(b: string) { forall i | 0 <= i < |b| :: b[i] == ' ' || b[i] == '\n' }

  lemma BlankOpensNothing(b: string, rest: string)
    requires AllBlank(b)
    ensures Find(b + rest, OPEN).None? <==> Find(rest, OPEN).None?
  {
    forall j: nat ensures !MatchesAt(b, j, OPEN) {
      assert j + 3 <= |b| ==> b[j..j + 3][0] == b[j] != OPEN[0];
    }
    FindIs(b, OPEN, None);
    FindInConcat(b, rest, OPEN);
  }

  lemma MatchInHead(s: string, n: nat, j: nat, pat: string)
    requires n <= |s|
    ensures MatchesAt(s[..n], j, pat) <==> j + |pat| <= n && MatchesAt(s, j, pat)
  {
    if j + |pat| <= n { assert s[..n][j..j + |pat|] == s[j..j + |pat|]; }
  }

  lemma HeadOpensNothing(s: string, n: nat, b: string)
    requires Find(s, OPEN) == Some(n) && b != [] && b[0] == ' ' && Find(b, OPEN).None?
    ensures Find(s[..n] + b, OPEN).None?
  {
    var head := s[..n];
    forall j: nat ensures !MatchesAt(head, j, OPEN) { MatchInHead(s, n, j, OPEN); }
    FindIs(head, OPEN, None);
    FindInConcat(head, b, OPEN);
  }

  lemma {:induction false} NothingOpensAfterwards(s: string)
    ensures Find(MaskRaw(s), OPEN).None?
    decreases |s|
  {
    if Find(s, OPEN).Some? {
      var n, m := RawShape(s);
      if m.Some? {
        var inside, tail := s[n + 3..n + 3 + m.value], MaskRaw(s[n + 5 + m.value..]);
        NothingOpensAfterwards(s[n + 5 + m.value..]);
        BlankOpensNothing(Blanks(2), tail);
        BlankOpensNothing(BlankOut(inside), Blanks(2) + tail);
        BlankOpensNothing(Blanks(3), BlankOut(inside) + (Blanks(2) + tail));
        HeadOpensNothing(s, n, Blanks(3) + (BlankOut(inside) + (Blanks(2) + tail)));
      } else {
        var tail := BlankOut(s[n + 3..]);
        assert tail == tail + [];
        BlankOpensNothing(tail, []);
        BlankOpensNothing(Blanks(3), tail);
        HeadOpensNothing(s, n, Blanks(3) + tail);
      }
    }
  }

  /** Masking raw strings twice is masking them once. */
  lemma RawMaskIsIdempotent(s: string)
    ensures MaskRaw(MaskRaw(s)) == MaskRaw(s)
  {
    NothingOpensAfterwards(s);
  }

  /** A raw string is blanked, brackets and all, up to its newlines; what is before it stays and the mask goes on after it. */
  lemma RawStringIsBlanked(s: string, n: nat, m: nat)
    requires Find(s, OPEN) == Some(n) && n + 3 <= |s| && Find(s[n + 3..], CLOSE) == Some(m)
    ensures
      var r, end := MaskRaw(s), n + 3 + m + 2;
      && end <= |s| && r[..n] == s[..n] && r[end..] == MaskRaw(s[end..])
      && forall i | n <= i < end :: r[i] == if s[i] == '\n' then '\n' else ' '
  {
    hide MaskRaw, Find, MaskedPiece, MatchesAt;
    var a, b := RawShape(s);
    BracketsHoldNoNewline();
    PieceBlanks(s, n, m, MaskRaw(s[n + 5 + m..]));
  }

  /** One that is opened and never closed is blanked to the end, but for its newlines. */
  lemma UnclosedIsBlanked(s: string, n: nat)
    requires Find(s, OPEN) == Some(n) && n + 3 <= |s| && Find(s[n + 3..], CLOSE).None?
    ensures
      var r := MaskRaw(s);
      r[..n] == s[..n] && forall i | n <= i < |s| :: r[i] == if s[i] == '\n' then '\n' else ' '
  {
    hide MaskRaw, Find, MatchesAt;
    var a, b := RawShape(s);
    BracketsHoldNoNewline();
    var r, tail := MaskRaw(s), BlankOut(s[n + 3..]);
    assert r == s[..n] + (Blanks(3) + tail);
    forall i | n <= i < |s| ensures r[i] == if s[i] == '\n' then '\n' else ' ' {
      if i < n + 3 { assert s[n..n + 3][i - n] == s[i]; } else { assert r[i] == tail[i - n - 3]; }
    }
  }

  /** One masked piece, position by position. */
  lemma PieceBlanks(s: string, n: nat, m: nat, tail: string)
    requires n + 3 + m + 2 <= |s| && '\n' !in s[n..n + 3] && '\n' !in s[n + 3 + m..n + 5 + m]
    ensures
      var r := MaskedPiece(s[..n], s[n + 3..n + 3 + m], tail);
      && |r| == n + 5 + m + |tail| && r[..n] == s[..n] && r[n + 5 + m..] == tail
      && forall i | n <= i < n + 5 + m :: r[i] == if s[i] == '\n' then '\n' else ' '
  {
    var inside := s[n + 3..n + 3 + m];
    PiecePositions(s[..n], inside, tail);
    hide MaskedPiece;
    var r := MaskedPiece(s[..n], inside, tail);
    forall i | n <= i < n + 5 + m ensures r[i] == if s[i] == '\n' then '\n' else ' ' {
      if i < n + 3 {
        assert s[n..n + 3][i - n] == s[i];
      } else if i < n + 3 + m {
        assert r[n + 3 + (i - n - 3)] == if inside[i - n - 3] == '\n' then '\n' else ' ';
      } else {
        assert s[n + 3 + m..n + 5 + m][i - n - 3 - m] == s[i];
      }
    }
  }

  lemma PiecePositions(head: string, inside: string, tail: string)
    ensures
      var r, n, m := MaskedPiece(head, inside, tail), |head|, |inside|;
      && |r| == n + 3 + m + 2 + |tail| && r[..n] == head && r[n + 5 + m..] == tail
      && (forall i | n <= i < n + 3 || n + 3 + m <= i < n + 5 + m :: r[i] == ' ')
      && forall i | 0 <= i < m :: r[n + 3 + i] == if inside[i] == '\n' then '\n' else ' '
  {
  }

  // ----- the lines of a source file

  function StripReturn(line: string): string {
    if line != [] && line[|line| - 1] == '\r' then line[..|line| - 1] else line
  }

  /** `str::lines`: pieces between newlines, a last empty piece dropped, a carriage return stripped with the newline it precedes. */
  function Lines(s: string): (r: seq<string>) {
    var pieces := Split(s, '\n');
    var last := |pieces| - 1;
    var n := if pieces[last] == [] then last else |pieces|;
    seq(n, i requires 0 <= i < n => if i < last then StripReturn(pieces[i]) else pieces[i])
  }

  /** Line by line: each ends at a newline or a carriage return and newline, the last one where the text does. */
  lemma LinesOneByOne(a: string, b: string)
    requires '\n' !in a
    ensures Lines(a) == if a == [] then [] else [a]
    ensures Lines(a + ['\n'] + b) == [if a != [] && a[|a| - 1] == '\r' then a[..|a| - 1] else a] + Lines(b)
  {
    SplitWhole(a, '\n');
    SplitFirst(a, '\n', b);
    hide Split;
    var ps, qs := Split(a + ['\n'] + b, '\n'), Split(b, '\n');
    assert ps == [a] + qs;
    var lines, rest := Lines(a + ['\n'] + b), Lines(b);
    forall i | 0 <= i < |rest| ensures lines[i + 1] == rest[i] { assert ps[i + 1] == qs[i]; }
  }

  function SourceLines(source: string): (r: seq<string>) {
    var lines := Lines(MaskRaw(source));
    seq(|lines|, i requires 0 <= i < |lines| => MaskLine(lines[i]))
  }

  lemma {:induction false} SplitsAlike(out: string, text: string)
    requires MasksLines(out, text)
    ensures
      var a, b := Split(out, '\n'), Split(text, '\n');
      |a| == |b| && forall i | 0 <= i < |a| :: Masks(a[i], b[i])
  {
    if text != [] {
      assert MasksLines(out[1..], text[1..]);
      SplitsAlike(out[1..], text[1..]);
    }
  }

  /** Masking never moves anything to another line: line for line, what is left starts with the line's own characters or spaces. */
  lemma LinesAreNotMoved(source: string)
    ensures
      var before, after := Lines(source), Lines(MaskRaw(source));
      |after| == |before| == |SourceLines(source)|
      && forall i | 0 <= i < |before| :: Continues(after[i], before[i])
  {
    hide MaskRaw, Split, MaskLine, Continues, StripReturn, MasksLines;
    RawMaskKeepsEveryPosition(source);
    SplitsAlike(MaskRaw(source), source);
    var a, b := Split(MaskRaw(source), '\n'), Split(source, '\n');
    forall i | 0 <= i < |a| ensures Continues(StripReturn(a[i]), StripReturn(b[i])) && Continues(a[i], b[i]) { StripKeepsMask(a[i], b[i]); }
  }

  /** A mask of the line, and behind it only spaces or what was cut off the line's end. */
  ghost predicate Continues(out: string, line: string) {
    && |line| <= |out| <= |line| + 1 && Masks(out[..|line|], line)
    && forall i | |line| <= i < |out| :: out[i] == ' ' || out[i] == '\r'
  }

  lemma StripKeepsMask(out: string, text: string)
    requires Masks(out, text)
    ensures Continues(StripReturn(out), StripReturn(text)) && Continues(out, text)
  {
    assert out[..|text|] == out;
  }

  /** `source_lines` on an ASCII line: both masks together still leave a mask of that very line. */
  lemma SourceLineMasksItsLine(source: string, i: nat)
    requires i < |Lines(source)| && Ascii(Lines(source)[i])
    ensures |SourceLines(source)| == |Lines(source)| && Continues(SourceLines(source)[i], Lines(source)[i])
  {
    LinesAreNotMoved(source);
    hide Lines, MaskRaw, Code;
    var line, after := Lines(source)[i], Lines(MaskRaw(source))[i];
    forall j | 0 <= j < |after| ensures after[j] as int < 0x80 {
      if j < |line| { assert after[j] == after[..|line|][j]; }
    }
    PositionsSurviveIffAscii(after);
    MaskOfMask(MaskLine(after), after, line);
  }

  lemma MaskOfMask(out: string, mid: string, line: string)
    requires Masks(out, mid) && Continues(mid, line)
    ensures Continues(out, line)
  {
    forall j | 0 <= j < |line| ensures out[..|line|][j] == line[j] || out[..|line|][j] == ' ' { assert mid[j] == mid[..|line|][j]; }
  }
}
