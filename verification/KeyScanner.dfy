/**
 The top-level key scanner: a character automaton that never deserialises.
 It is proved to recover the keys of every written object, whatever quotes,
 braces, commas or backslashes the values hold.
 */
module KeyScanner {
  import opened Decimal
  import opened Json

  datatype State = State(
    keys: seq<string>, depth: int, inString: bool, escaped: bool, current: string, awaitingKey: bool, readingKey: bool)

  const INITIAL := State([], 0, false, false, [], false, false)

  function Step(st: State, c: char): State {
    if st.inString then
      if st.escaped then st.(escaped := false, current := st.current + [c])
      else if c == '\\' then st.(escaped := true)
      else if c == '"' then
        if st.readingKey
        then st.(inString := false, keys := st.keys + [st.current], awaitingKey := false, readingKey := false, current := [])
        else st.(inString := false, current := [])
      else st.(current := st.current + [c])
    else if c == '"' then st.(inString := true, current := [], readingKey := st.depth == 1 && st.awaitingKey)
    else if c == '{' then st.(depth := st.depth + 1, awaitingKey := st.depth + 1 == 1 || st.awaitingKey)
    else if c == '[' then st.(depth := st.depth + 1)
    else if c == '}' || c == ']' then st.(depth := st.depth - 1)
    else if c == ',' then st.(awaitingKey := st.depth == 1 || st.awaitingKey)
    else if c == ':' then st.(awaitingKey := false)
    else st
  }

  function Run(st: State, s: string): State {
    if s == [] then st else Step(Run(st, s[..|s| - 1]), s[|s| - 1])
  }

  method TopLevelKeys(line: string) returns (keys: seq<string>)
    ensures keys == Run(INITIAL, line).keys
  {
    keys := [];
    var depth: int := 0;
    var inString, escaped, current, awaitingKey, readingKey := false, false, [], false, false;
    for i := 0 to |line|
      invariant Run(INITIAL, line[..i]) == State(keys, depth, inString, escaped, current, awaitingKey, readingKey)
    {
      assert line[..i + 1][..i] == line[..i];
      var c := line[i];
      if inString {
        if escaped {
          escaped := false;
          current := current + [c];
        } else if c == '\\' {
          escaped := true;
        } else if c == '"' {
          inString := false;
          if readingKey {
            keys := keys + [current];
            awaitingKey := false;
            readingKey := false;
          }
          current := [];
        } else {
          current := current + [c];
        }
      } else if c == '"' {
        inString := true;
        current := [];
        readingKey := depth == 1 && awaitingKey;
      } else if c == '{' {
        depth := depth + 1;
        if depth == 1 { awaitingKey := true; }
      } else if c == '[' {
        depth := depth + 1;
      } else if c == '}' || c == ']' {
        depth := depth - 1;
      } else if c == ',' {
        if depth == 1 { awaitingKey := true; }
      } else if c == ':' {
        awaitingKey := false;
      }
    }
    assert line[..|line|] == line;
  }

  lemma {:induction false} RunConcat(st: State, a: string, b: string)
    ensures Run(st, a + b) == Run(Run(st, a), b)
  {
    hide Step;
    if b == [] {
      assert a + b == a;
    } else {
      var s := a + b;
      RunConcat(st, a, b[..|b| - 1]);
      assert s[..|s| - 1] == a + b[..|b| - 1];
    }
  }

  lemma RunThen(st: State, a: string, mid: State, b: string, end: State)
    requires Run(st, a) == mid && Run(mid, b) == end
    ensures Run(st, a + b) == end
  {
    RunConcat(st, a, b);
  }

  lemma Run1(st: State, c: char)
    ensures Run(st, [c]) == Step(st, c)
  {
    assert [c][..0] == [];
  }

  /** Between tokens. */
  predicate Idle(st: State) { !st.inString && !st.escaped && st.current == [] && !st.readingKey }

  // ----- crossing a string

  function SeenChar(c: char): string {
    if EscapeChar(c)[0] == '\\' then EscapeChar(c)[1..] else EscapeChar(c)
  }

  /** What the scanner keeps of a written string: each escape loses its backslash. */
  function Seen(s: string): string { if s == [] then [] else SeenChar(s[0]) + Seen(s[1..]) }

  /** Inside a string, letters and digits are collected. */
  lemma {:induction false} RunPlain(st: State, s: string)
    requires st.inString && !st.escaped && forall i | 0 <= i < |s| :: s[i] != '\\' && s[i] != '"'
    ensures Run(st, s) == st.(current := st.current + s)
  {
    if s == [] {
      assert st.current + s == st.current;
    } else {
      RunPlain(st, s[..|s| - 1]);
      assert st.current + s[..|s| - 1] + [s[|s| - 1]] == st.current + s;
    }
  }

  lemma RunPair(st: State, x: char)
    requires st.inString && !st.escaped
    ensures Run(st, ['\\', x]) == st.(current := st.current + [x])
  {
    Run1(st, '\\');
    Run1(st.(escaped := true), x);
    RunThen(st, ['\\'], st.(escaped := true), [x], st.(current := st.current + [x]));
    assert ['\\', x] == ['\\'] + [x];
  }

  /** A backslash and the character it protects: the character is collected, whatever it is. */
  lemma RunProtected(st: State, x: char, tail: string)
    requires st.inString && !st.escaped && forall i | 0 <= i < |tail| :: tail[i] != '\\' && tail[i] != '"'
    ensures Run(st, ['\\', x] + tail) == st.(current := st.current + ([x] + tail))
  {
    RunPair(st, x);
    RunPlain(st.(current := st.current + [x]), tail);
    Collects(st, ['\\', x], [x], tail, tail);
  }

  /** Two pieces that are only collected. */
  lemma Collects(st: State, a: string, x: string, b: string, y: string)
    requires Run(st, a) == st.(current := st.current + x)
    requires Run(st.(current := st.current + x), b) == st.(current := st.current + x + y)
    ensures Run(st, a + b) == st.(current := st.current + (x + y))
  {
    RunThen(st, a, st.(current := st.current + x), b, st.(current := st.current + x + y));
    assert st.current + x + y == st.current + (x + y);
  }

  lemma RunEscape(st: State, c: char)
    requires st.inString && !st.escaped
    ensures Run(st, EscapeChar(c)) == st.(current := st.current + SeenChar(c))
  {
    hide Run;
    var e := EscapeChar(c);
    if e[0] == '\\' {
      HexIsPlain(c);
      RunProtected(st, e[1], e[2..]);
      assert e == ['\\', e[1]] + e[2..] && e[1..] == [e[1]] + e[2..];
    } else {
      RunPlain(st, e);
    }
  }

  lemma HexIsPlain(c: char)
    requires EscapeChar(c)[0] == '\\'
    ensures |EscapeChar(c)| >= 2
    ensures forall i | 2 <= i < |EscapeChar(c)| :: EscapeChar(c)[i] != '\\' && EscapeChar(c)[i] != '"'
  {
  }

  /** Collecting one piece and then another collects both. */
  lemma CollectBoth(st: State, a: string, first: string, b: string, rest: string)
    requires Run(st, a) == st.(current := st.current + first)
    requires Run(st.(current := st.current + first), b) == st.(current := st.current + first + rest)
    ensures Run(st, a + b) == st.(current := st.current + (first + rest))
  {
    RunConcat(st, a, b);
    assert st.current + first + rest == st.current + (first + rest);
  }

  lemma {:induction false} RunEscaped(st: State, s: string)
    requires st.inString && !st.escaped
    ensures Run(st, Escape(s)) == st.(current := st.current + Seen(s))
    decreases s
  {
    if s == [] {
      assert st.current + [] == st.current;
    } else {
      RunEscaped(st.(current := st.current + SeenChar(s[0])), s[1..]);
      RunEscape(st, s[0]);
      CollectBoth(st, EscapeChar(s[0]), SeenChar(s[0]), Escape(s[1..]), Seen(s[1..]));
    }
  }

  /** A quoted string is one key in key position, and nothing at all elsewhere. */
  lemma CrossQuoted(st: State, s: string)
    requires Idle(st)
    ensures Run(st, Quote(s)) ==
            if st.depth == 1 && st.awaitingKey then st.(keys := st.keys + [Seen(s)], awaitingKey := false) else st
  {
    var open := st.(inString := true, readingKey := st.depth == 1 && st.awaitingKey);
    assert Quote(s) == ['"'] + (Escape(s) + ['"']);
    RunConcat(st, ['"'], Escape(s) + ['"']);
    Run1(st, '"');
    RunConcat(open, Escape(s), ['"']);
    RunEscaped(open, s);
    assert open.current + Seen(s) == Seen(s);
    Run1(open.(current := Seen(s)), '"');
  }

  // ----- crossing a value

  lemma {:induction false} CrossQuiet(st: State, s: string)
    requires Idle(st) && forall i | 0 <= i < |s| :: s[i] !in "\"{}[],:"
    ensures Run(st, s) == st
  {
    if s != [] { CrossQuiet(st, s[..|s| - 1]); }
  }

  /** Inside an object and not awaiting a key, any written value leaves the scanner where it was. */
  lemma {:induction false} CrossValue(st: State, j: Json)
    requires Idle(st) && st.depth >= 1 && !st.awaitingKey && Plain(j)
    ensures Run(st, Write(j)) == st
    decreases j, 1
  {
    match j
    case Null => CrossQuiet(st, "null");
    case Bool(b) => CrossQuiet(st, Write(j));
    case Int(n) =>
      assert AllDigits(Digits(if n < 0 then 0 - n else n));
      CrossQuiet(st, Write(j));
    case Str(s) => CrossQuoted(st, s);
    case Arr(items) =>
      CrossItems(st.(depth := st.depth + 1), items);
      CrossBrackets(st, '[', WriteItems(items), ']');
    case Obj(members) =>
      CrossMembers(st.(depth := st.depth + 1), members);
      CrossBrackets(st, '{', WriteMembers(members), '}');
  }

  lemma Enter(st: State, open: char)
    requires Idle(st) && st.depth >= 1 && !st.awaitingKey && (open == '[' || open == '{')
    ensures Run(st, [open]) == st.(depth := st.depth + 1)
  {
    Run1(st, open);
  }

  lemma Leave(st: State, close: char)
    requires Idle(st) && (close == ']' || close == '}')
    ensures Run(st, [close]) == st.(depth := st.depth - 1)
  {
    Run1(st, close);
  }

  lemma CrossBrackets(st: State, open: char, body: string, close: char)
    requires Idle(st) && st.depth >= 1 && !st.awaitingKey
    requires (open == '[' || open == '{') && (close == ']' || close == '}')
    requires Run(st.(depth := st.depth + 1), body) == st.(depth := st.depth + 1)
    ensures Run(st, [open] + body + [close]) == st
  {
    Enter(st, open);
    Leave(st.(depth := st.depth + 1), close);
    RunConcat(st, [open], body);
    RunConcat(st, [open] + body, [close]);
  }

  lemma {:induction false} CrossItems(st: State, items: seq<Json>)
    requires Idle(st) && st.depth >= 2 && !st.awaitingKey && forall i | 0 <= i < |items| :: Plain(items[i])
    ensures Run(st, WriteItems(items)) == st
    decreases items, 0
  {
    if items != [] {
      CrossValue(st, items[0]);
      if |items| > 1 {
        CrossItems(st, items[1..]);
        CrossPair(st, Write(items[0]), ',', WriteItems(items[1..]));
      }
    }
  }

  /** Two pieces that each leave the state alone, around a separator that does too. */
  lemma CrossPair(st: State, a: string, separator: char, b: string)
    requires Idle(st) && !st.awaitingKey && (separator == ':' || (separator == ',' && st.depth >= 2))
    requires Run(st, a) == st && Run(st, b) == st
    ensures Run(st, a + [separator] + b) == st
  {
    RunConcat(st, a + [separator], b);
    RunConcat(st, a, [separator]);
    Run1(st, separator);
  }

  lemma {:induction false} CrossMembers(st: State, members: seq<Member>)
    requires Idle(st) && st.depth >= 2 && !st.awaitingKey && forall i | 0 <= i < |members| :: Plain(members[i].value)
    ensures Run(st, WriteMembers(members)) == st
    decreases members, 0
  {
    if members != [] {
      CrossQuoted(st, members[0].key);
      CrossValue(st, members[0].value);
      CrossPair(st, Quote(members[0].key), ':', Write(members[0].value));
      if |members| > 1 {
        CrossMembers(st, members[1..]);
        CrossPair(st, WriteMember(members[0]), ',', WriteMembers(members[1..]));
      }
    }
  }

  // ----- the top level

  function SeenKeys(members: seq<Member>): seq<string> {
    if members == [] then [] else [Seen(members[0].key)] + SeenKeys(members[1..])
  }

  /** At depth 1 and awaiting a key, each member yields exactly its key. */
  lemma {:induction false} TopMember(st: State, m: Member)
    requires Idle(st) && st.depth == 1 && st.awaitingKey && Plain(m.value)
    ensures Run(st, WriteMember(m)) == st.(keys := st.keys + [Seen(m.key)], awaitingKey := false)
  {
    var keyed := st.(keys := st.keys + [Seen(m.key)], awaitingKey := false);
    CrossQuoted(st, m.key);
    CrossValue(keyed, m.value);
    assert WriteMember(m) == Quote(m.key) + ([':'] + Write(m.value));
    RunConcat(st, Quote(m.key), [':'] + Write(m.value));
    RunConcat(keyed, [':'], Write(m.value));
    Run1(keyed, ':');
  }

  /** One member's key, a comma, and then the keys of the rest. */
  lemma KeyThenKeys(st: State, a: string, key: string, b: string, rest: seq<string>)
    requires Idle(st) && st.depth == 1 && st.awaitingKey
    requires Run(st, a) == st.(keys := st.keys + [key], awaitingKey := false)
    requires Run(st.(keys := st.keys + [key]), b) == st.(keys := st.keys + [key] + rest, awaitingKey := false)
    ensures Run(st, a + "," + b) == st.(keys := st.keys + ([key] + rest), awaitingKey := false)
  {
    hide Run;
    var keyed := st.(keys := st.keys + [key], awaitingKey := false);
    var comma := [','];
    Run1(keyed, ',');
    RunThen(st, a, keyed, comma, st.(keys := st.keys + [key]));
    RunThen(st, a + comma, st.(keys := st.keys + [key]), b, st.(keys := st.keys + [key] + rest, awaitingKey := false));
    assert st.keys + [key] + rest == st.keys + ([key] + rest);
  }

  lemma {:induction false} TopMembers(st: State, members: seq<Member>)
    requires Idle(st) && st.depth == 1 && st.awaitingKey && members != []
    requires forall i | 0 <= i < |members| :: Plain(members[i].value)
    ensures Run(st, WriteMembers(members)) == st.(keys := st.keys + SeenKeys(members), awaitingKey := false)
    decreases members
  {
    if |members| == 1 {
      TopMember(st, members[0]);
      assert SeenKeys(members[1..]) == [];
    } else {
      TopMembers(st.(keys := st.keys + [Seen(members[0].key)]), members[1..]);
      TopMember(st, members[0]);
      KeyThenKeys(st, WriteMember(members[0]), Seen(members[0].key), WriteMembers(members[1..]), SeenKeys(members[1..]));
    }
  }

  function Keys(members: seq<Member>): (r: seq<string>)
    ensures |r| == |members| && forall i | 0 <= i < |r| :: r[i] == members[i].key
  {
    seq(|members|, i requires 0 <= i < |members| => members[i].key)
  }

  predicate ControlFree(s: string) { forall i | 0 <= i < |s| :: s[i] as int >= 0x20 }

  /** An escaped quote or backslash is seen as itself; an escaped control character as a letter of its escape. */
  lemma {:induction false} SeenIffControlFree(s: string)
    ensures Seen(s) == s <==> ControlFree(s)
  {
    if s != [] {
      SeenIffControlFree(s[1..]);
      assert s == [s[0]] + s[1..];
      var c := s[0];
      if c as int >= 0x20 {
        assert SeenChar(c) == [c];
        assert Seen(s)[1..] == Seen(s[1..]);
        assert ControlFree(s) <==> ControlFree(s[1..]) by {
          forall i | 0 < i < |s| ensures s[i] == s[1..][i - 1] {}
        }
      } else {
        ControlIsSpelled(c);
      }
    }
  }

  lemma ControlIsSpelled(c: char)
    requires (c as int) < 0x20
    ensures |SeenChar(c)| > 0 && SeenChar(c)[0] != c
  {
  }

  lemma {:induction false} SeenKeysAreKeysIff(members: seq<Member>)
    ensures |SeenKeys(members)| == |members|
    ensures SeenKeys(members) == Keys(members) <==> forall m | m in members :: ControlFree(m.key)
  {
    if members != [] {
      hide ControlFree, Seen;
      var head, rest := members[0], members[1..];
      SeenKeysAreKeysIff(rest);
      SeenIffControlFree(head.key);
      assert Keys(members) == [head.key] + Keys(rest);
      SameCons(Seen(head.key), SeenKeys(rest), head.key, Keys(rest));
      assert members == [head] + rest;
    }
  }

  lemma SameCons(a: string, s: seq<string>, b: string, t: seq<string>)
    ensures [a] + s == [b] + t <==> a == b && s == t
  {
    if [a] + s == [b] + t {
      assert ([a] + s)[0] == ([b] + t)[0] && ([a] + s)[1..] == ([b] + t)[1..];
    }
  }

  /**
   The scanner reports one key for each member of a written object, in order.  It
   drops an escape's backslash instead of decoding the escape, so what it reports are
   the keys themselves exactly when none holds a control character.
   */
  lemma ScannerRecoversKeys(members: seq<Member>)
    requires members != [] && Plain(Obj(members))
    ensures Run(INITIAL, Write(Obj(members))).keys == SeenKeys(members)
    ensures |SeenKeys(members)| == |members|
    ensures Run(INITIAL, Write(Obj(members))).keys == Keys(members) <==> forall m | m in members :: ControlFree(m.key)
  {
    SeenKeysAreKeysIff(members);
    hide Run, WriteMembers, SeenKeys;
    var inside := INITIAL.(depth := 1, awaitingKey := true);
    var body := WriteMembers(members);
    assert Write(Obj(members)) == ['{'] + (body + ['}']);
    RunConcat(INITIAL, ['{'], body + ['}']);
    Run1(INITIAL, '{');
    RunConcat(inside, body, ['}']);
    TopMembers(inside, members);
    Run1(inside.(keys := SeenKeys(members), awaitingKey := false), '}');
    assert [] + SeenKeys(members) == SeenKeys(members);
  }
}
