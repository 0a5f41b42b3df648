/**
 What a JSON text says (RFC 8259, sections 2 to 7), written as a grammar, and the
 proof that the reader accepts only texts that say what it returns.
 */
module JsonSpelling {
  import opened Wrappers
  import opened Decimal
  import opened Json

  // ----- the grammar

  predicate IsSpace(c: char) { c == ' ' || c == '\t' || c == '\n' || c == '\r' }

  predicate Space(w: string) { forall i | 0 <= i < |w| :: IsSpace(w[i]) }

  /** The value with white space in front of it. */
  ghost predicate Spells(j: Json, t: string)
    decreases j, 3
  {
    exists w: nat :: w <= |t| && Space(t[..w]) && SpellsBare(j, t[w..])
  }

  ghost predicate SpellsBare(j: Json, c: string)
    decreases j, 2
  {
    match j
    case Null => c == "null"
    case Bool(b) => c == if b then "true" else "false"
    case Int(n) => SpellsInt(n, c)
    case Float(text) => c == text && SpellsNumber(c)
    case Str(s) => SpellsString(s, c)
    case Arr(items) => Bracketed(c, '[', ']') && if items == [] then Space(c[1..|c| - 1]) else SpellsItems(items, c[1..|c| - 1])
    case Obj(members) => Bracketed(c, '{', '}') && if members == [] then Space(c[1..|c| - 1]) else SpellsMembers(members, c[1..|c| - 1])
  }

  predicate Bracketed(c: string, open: char, close: char) { |c| >= 2 && c[0] == open && c[|c| - 1] == close }

  /** Values with commas between them, and white space before each comma and at the end. */
  ghost predicate SpellsItems(items: seq<Json>, t: string)
    requires items != []
    decreases items, 1
  {
    exists i: nat, k: nat :: i <= k <= |t| && Spells(items[0], t[..i]) && Space(t[i..k]) &&
      if |items| == 1 then k == |t| else k < |t| && t[k] == ',' && SpellsItems(items[1..], t[k + 1..])
  }

  ghost predicate SpellsMembers(members: seq<Member>, t: string)
    requires members != []
    decreases members, 1
  {
    exists i: nat, k: nat :: i <= k <= |t| && SpellsMember(members[0], t[..i]) && Space(t[i..k]) &&
      if |members| == 1 then k == |t| else k < |t| && t[k] == ',' && SpellsMembers(members[1..], t[k + 1..])
  }

  /** A key, a colon and a value. */
  ghost predicate SpellsMember(m: Member, t: string)
    decreases m, 4
  {
    exists k: nat :: k < |t| && SpellsKey(m.key, t[..k]) && t[k] == ':' && Spells(m.value, t[k + 1..])
  }

  /** A string with white space around it. */
  ghost predicate SpellsKey(key: string, u: string) {
    exists w: nat, i: nat :: w <= i <= |u| && Space(u[..w]) && SpellsString(key, u[w..i]) && Space(u[i..])
  }

  predicate SpellsDigits(d: string) { d != [] && AllDigits(d) }

  /** Digits without a superfluous zero in front. */
  predicate SpellsNat(d: string) { SpellsDigits(d) && (|d| > 1 ==> d[0] != '0') }

  predicate SpellsInt(n: int, c: string) {
    var d := if n < 0 && c != [] && c[0] == '-' then c[1..] else c;
    SpellsNat(d) && Value(d) == Abs(n) && (n < 0 <==> d != c)
  }

  predicate SpellsFraction(f: string) { f == [] || (f[0] == '.' && SpellsDigits(f[1..])) }

  predicate SpellsExponent(e: string) {
    e == [] || ((e[0] == 'e' || e[0] == 'E') && (SpellsDigits(e[1..]) || (|e| > 1 && (e[1] == '+' || e[1] == '-') && SpellsDigits(e[2..]))))
  }

  /** An optional minus sign, digits, an optional fraction and an optional exponent. */
  ghost predicate SpellsNumber(c: string) {
    exists a: nat, b: nat, d: nat :: a <= 1 && a <= b <= d <= |c| && (a == 1 ==> c[0] == '-')
      && SpellsNat(c[a..b]) && SpellsFraction(c[b..d]) && SpellsExponent(c[d..])
  }

  ghost predicate SpellsString(s: string, c: string) { c != [] && c[0] == '"' && SpellsChars(s, c[1..]) }

  /** The characters of a string and its closing quote. */
  ghost predicate SpellsChars(s: string, e: string)
    decreases |e|
  {
    if s == [] then e == ['"']
    else
      && e != []
      && if e[0] == '\\' then exists k: nat :: 1 < k <= |e| && SpellsEscape(s[0], e[1..k]) && SpellsChars(s[1..], e[k..])
         else e[0] == s[0] && e[0] != '"' && e[0] as int >= 0x20 && SpellsChars(s[1..], e[1..])
  }

  /** A letter, four hexadecimal digits, or a surrogate pair of them. */
  predicate SpellsEscape(c: char, x: string) {
    || (|x| == 1 && (
          || (x[0] == c && (c == '"' || c == '\\' || c == '/'))
          || (x[0] == 'b' && c as int == 8) || (x[0] == 'f' && c as int == 12)
          || (x[0] == 'n' && c as int == 10) || (x[0] == 'r' && c as int == 13) || (x[0] == 't' && c as int == 9)))
    || (|x| == 5 && x[0] == 'u' && Hex4(x[1..]) == Some(c as int))
    || (|x| == 11 && x[0] == 'u' && x[5] == '\\' && x[6] == 'u' && Hex4(x[1..5]).Some? && Hex4(x[7..]).Some?
        && 0xD800 <= Hex4(x[1..5]).value < 0xDC00 <= Hex4(x[7..]).value < 0xE000
        && c as int == 0x10000 + (Hex4(x[1..5]).value - 0xD800) * 0x400 + (Hex4(x[7..]).value - 0xDC00))
  }

  // ----- the reader's pieces

  lemma DropDrop(s: string, i: nat, j: nat)
    requires i + j <= |s|
    ensures s[i..][j..] == s[i + j..]
    ensures i + j < |s| ==> s[i..][j] == s[i + j]
  {
  }

  lemma {:induction false} SkipIsSpace(s: string)
    ensures
      var w := |s| - |Skip(s)|;
      Skip(s) == s[w..] && Space(s[..w]) && (Skip(s) != [] ==> !IsSpace(Skip(s)[0]))
  {
    if s != [] && IsSpace(s[0]) {
      SkipIsSpace(s[1..]);
      var w := |s| - |Skip(s)|;
      forall i | 0 <= i < w ensures IsSpace(s[..w][i]) { if i > 0 { assert s[1..][..w - 1][i - 1] == s[i]; } }
    }
  }

  lemma Hex4IsLocal(s: string)
    ensures |s| >= 4 ==> Hex4(s) == Hex4(s[..4])
  {
  }

  lemma EscapeIsSpelled(s: string) returns (k: nat)
    requires ReadEscape(s).Some?
    ensures 0 < k <= |s| && ReadEscape(s).value.1 == s[k..] && SpellsEscape(ReadEscape(s).value.0, s[..k])
  {
    if s[0] != 'u' {
      k := 1;
    } else {
      var n := Hex4(s[1..]).value;
      Hex4IsLocal(s[1..]);
      assert s[..5][1..] == s[1..][..4];
      if 0xD800 <= n < 0xDC00 {
        k := 11;
        var t := s[5..];
        Hex4IsLocal(t[2..]);
        assert s[..11][1..5] == s[1..][..4] && s[..11][7..] == t[2..][..4] && t[6..] == s[11..];
        assert s[..11][5] == t[0] && s[..11][6] == t[1];
      } else {
        k := 5;
      }
    }
  }

  lemma {:induction false} CharsAreSpelled(s: string) returns (n: nat)
    requires ReadChars(s).Some?
    ensures 0 < n <= |s| && ReadChars(s).value.1 == s[n..] && SpellsChars(ReadChars(s).value.0, s[..n])
    decreases |s|
  {
    var str := ReadChars(s).value.0;
    if s[0] == '"' {
      n := 1;
    } else if s[0] == '\\' {
      var k := EscapeIsSpelled(s[1..]);
      var m := CharsAreSpelled(s[1..][k..]);
      n := 1 + k + m;
      EscapedSpelling(s, k, m, str);
    } else {
      var m := CharsAreSpelled(s[1..]);
      n := 1 + m;
      assert s[..n][1..] == s[1..][..m] && s[1..][m..] == s[n..];
      assert str == [s[0]] + ReadChars(s[1..]).value.0;
    }
  }

  lemma EscapedSpelling(s: string, k: nat, m: nat, str: string)
    requires str != [] && 0 < k && 1 + k + m <= |s| && s[0] == '\\'
    requires SpellsEscape(str[0], s[1..][..k]) && SpellsChars(str[1..], s[1..][k..][..m])
    ensures SpellsChars(str, s[..1 + k + m]) && s[1..][k..][m..] == s[1 + k + m..]
  {
    hide SpellsEscape;
    var e := s[..1 + k + m];
    assert e[1..1 + k] == s[1..][..k] && e[1 + k..] == s[1..][k..][..m];
  }

  lemma FractionIsSpelled(s: string)
    requires FractionLength(s).Some?
    ensures SpellsFraction(s[..FractionLength(s).value])
  {
    hide TakeDigits;
    if s != [] && s[0] == '.' {
      var d := TakeDigits(s[1..]);
      assert s[..1 + |d.0|][1..] == s[1..][..|d.0|] == d.0;
    }
  }

  lemma ExponentIsSpelled(t: string)
    requires ExponentLength(t).Some?
    ensures SpellsExponent(t[..ExponentLength(t).value])
  {
    hide TakeDigits;
    if t != [] && (t[0] == 'e' || t[0] == 'E') {
      var sign := if |t| >= 2 && (t[1] == '+' || t[1] == '-') then 2 else 1;
      var d := TakeDigits(t[sign..]);
      var e := t[..sign + |d.0|];
      assert e[sign..] == t[sign..][..|d.0|] == d.0;
    }
  }

  lemma TailIsSpelled(s: string) returns (d: nat)
    requires FractionAndExponent(s).Some?
    ensures
      var m := FractionAndExponent(s).value;
      d <= m <= |s| && SpellsFraction(s[..d]) && SpellsExponent(s[d..m])
  {
    hide FractionLength, ExponentLength, SpellsFraction, SpellsExponent;
    d := FractionLength(s).value;
    FractionIsSpelled(s);
    ExponentIsSpelled(s[d..]);
    assert s[d..][..ExponentLength(s[d..]).value] == s[d..FractionAndExponent(s).value];
  }

  lemma NumberIsSpelled(s: string) returns (n: nat)
    requires ReadNumber(s).Some?
    ensures n <= |s| && ReadNumber(s).value.1 == s[n..] && SpellsBare(ReadNumber(s).value.0, s[..n])
  {
    hide FractionAndExponent, TakeDigits, Value, Overflows, SpellsNumber, SpellsInt;
    var sign := if s != [] && s[0] == '-' then 1 else 0;
    var (digits, after) := TakeDigits(s[sign..]);
    var tail := FractionAndExponent(after).value;
    n := sign + |digits| + tail;
    PartsAreSpelled(s, sign, digits, after, tail);
    if ReadNumber(s).value.0.Int? { IntIsSpelled(ReadNumber(s).value.0.n, sign, digits, s[..n]); }
  }

  lemma PartsAreSpelled(s: string, sign: nat, digits: string, after: string, tail: nat)
    requires sign <= 1 && sign <= |s| && (sign == 1 ==> s[0] == '-') && s[sign..] == digits + after && SpellsNat(digits)
    requires FractionAndExponent(after) == Some(tail)
    ensures
      var n := sign + |digits| + tail;
      n <= |s| && SpellsNumber(s[..n]) && s[n..] == after[tail..] && s[sign..][..|digits|] == digits && (tail == 0 ==> s[..n][sign..] == digits)
  {
    hide FractionAndExponent, SpellsNat, SpellsFraction, SpellsExponent, SpellsNumber;
    var a := sign + |digits|;
    var d := TailIsSpelled(after);
    assert s[sign..][..|digits|] == digits && s[sign..][|digits|..] == after;
    DropDrop(s, sign, |digits|);
    SliceOfDrop(s, sign, 0, |digits|, |digits| + tail);
    SliceOfDrop(s, a, 0, d, tail);
    SliceOfDrop(s, a, d, tail, tail);
    DropDrop(s, a, tail);
    NumberOfParts(s[..a + tail], sign, a, a + d);
  }

  lemma NumberOfParts(c: string, sign: nat, a: nat, d: nat)
    requires sign <= 1 && sign <= a <= d <= |c| && (sign == 1 ==> c[0] == '-')
    requires SpellsNat(c[sign..a]) && SpellsFraction(c[a..d]) && SpellsExponent(c[d..])
    ensures SpellsNumber(c)
  {
    hide SpellsNat, SpellsFraction, SpellsExponent;
  }

  lemma SliceOfDrop(s: string, a: nat, i: nat, j: nat, n: nat)
    requires i <= j <= n && a + n <= |s|
    ensures s[a..][i..j] == s[a + i..a + j] == s[..a + n][a + i..a + j]
    ensures i == 0 ==> s[a..][i..j] == s[a..][..j]
    ensures j == n ==> s[..a + n][a + i..a + j] == s[..a + n][a + i..]
  {
  }

  lemma IntIsSpelled(n: int, sign: nat, digits: string, c: string)
    requires sign <= 1 && sign <= |c| && c[sign..] == digits && SpellsNat(digits) && Value(digits) == Abs(n)
    requires if sign == 1 then c[0] == '-' && n < 0 else n >= 0
    ensures SpellsInt(n, c)
  {
    hide Value;
    assert sign == 0 ==> c == digits;
  }

  lemma WordIsSpelled(s: string, word: string, j: Json) returns (n: nat)
    requires word != [] && ReadWord(s, word, j).Some?
    ensures n <= |s| && ReadWord(s, word, j) == Some((j, s[n..])) && s[..n] == word
  {
    n := |word|;
  }

  lemma ScalarIsSpelled(s: string) returns (n: nat)
    requires s != [] && ReadScalar(s).Some?
    ensures n <= |s| && ReadScalar(s).value.1 == s[n..] && SpellsBare(ReadScalar(s).value.0, s[..n])
  {
    hide ReadNumber, ReadWord;
    if s[0] == 'n' {
      n := WordIsSpelled(s, "null", Null);
    } else if s[0] == 't' {
      n := WordIsSpelled(s, "true", Bool(true));
    } else if s[0] == 'f' {
      n := WordIsSpelled(s, "false", Bool(false));
    } else {
      n := NumberIsSpelled(s);
    }
  }

  // ----- putting pieces together

  lemma SpaceThen(j: Json, t: string, w: nat, n: nat)
    requires w + n <= |t| && Space(t[..w]) && SpellsBare(j, t[w..][..n])
    ensures Spells(j, t[..w + n]) && t[w..][n..] == t[w + n..]
  {
    var c := t[..w + n];
    assert c[..w] == t[..w] && c[w..] == t[w..][..n];
  }

  lemma OneItem(item: Json, s: string, i: nat, w: nat)
    requires i + w <= |s| && Spells(item, s[..i]) && Space(s[i..][..w])
    ensures SpellsItems([item], s[..i + w])
  {
    hide Spells;
    var t := s[..i + w];
    assert t[..i] == s[..i] && t[i..i + w] == s[i..][..w];
  }

  lemma MoreItems(item: Json, items: seq<Json>, s: string, i: nat, w: nat, n: nat)
    requires items != [] && i + w + 1 + n <= |s| && Spells(item, s[..i]) && Space(s[i..][..w]) && s[i + w] == ','
    requires SpellsItems(items, s[i + w + 1..][..n])
    ensures SpellsItems([item] + items, s[..i + w + 1 + n])
  {
    hide Spells;
    var t, all := s[..i + w + 1 + n], [item] + items;
    assert t[..i] == s[..i] && t[i..i + w] == s[i..][..w] && t[i + w + 1..] == s[i + w + 1..][..n];
    assert all[0] == item && all[1..] == items;
  }

  lemma OneItemAt(item: Json, s: string, i: nat, after: string, w: nat, t: string)
    requires i <= |s| && after == s[i..] && w < |after| && t == after[w..] && Spells(item, s[..i]) && Space(after[..w])
    ensures i + w < |s| && s[i + w] == t[0] && s[i + w + 1..] == t[1..] && SpellsItems([item], s[..i + w])
  {
    hide Spells, SpellsItems, Space;
    DropDrop(s, i, w);
    DropDrop(s, i + w, 1);
    OneItem(item, s, i, w);
  }

  lemma MoreItemsAt(item: Json, items: seq<Json>, s: string, i: nat, after: string, w: nat, t: string, k: nat)
    requires i <= |s| && after == s[i..] && w < |after| && t == after[w..] && t[0] == ',' && k < |t[1..]|
    requires items != [] && Spells(item, s[..i]) && Space(after[..w]) && SpellsItems(items, t[1..][..k])
    ensures
      var n := i + w + 1 + k;
      n < |s| && s[n] == t[1..][k] && s[n + 1..] == t[1..][k + 1..] && SpellsItems([item] + items, s[..n])
  {
    hide Spells, SpellsItems, Space;
    DropDrop(s, i, w);
    DropDrop(s, i + w, 1);
    DropDrop(s, i + w + 1, k);
    DropDrop(s, i + w + 1, k + 1);
    MoreItems(item, items, s, i, w, k);
  }

  lemma OneMember(m: Member, s: string, i: nat, w: nat)
    requires i + w <= |s| && SpellsMember(m, s[..i]) && Space(s[i..][..w])
    ensures SpellsMembers([m], s[..i + w])
  {
    hide SpellsMember;
    var t := s[..i + w];
    assert t[..i] == s[..i] && t[i..i + w] == s[i..][..w];
  }

  lemma MoreMembers(m: Member, members: seq<Member>, s: string, i: nat, w: nat, n: nat)
    requires members != [] && i + w + 1 + n <= |s| && SpellsMember(m, s[..i]) && Space(s[i..][..w]) && s[i + w] == ','
    requires SpellsMembers(members, s[i + w + 1..][..n])
    ensures SpellsMembers([m] + members, s[..i + w + 1 + n])
  {
    hide SpellsMember;
    var t, all := s[..i + w + 1 + n], [m] + members;
    assert t[..i] == s[..i] && t[i..i + w] == s[i..][..w] && t[i + w + 1..] == s[i + w + 1..][..n];
    assert all[0] == m && all[1..] == members;
  }

  lemma OneMemberAt(m: Member, s: string, i: nat, after: string, w: nat, t: string)
    requires i <= |s| && after == s[i..] && w < |after| && t == after[w..] && SpellsMember(m, s[..i]) && Space(after[..w])
    ensures i + w < |s| && s[i + w] == t[0] && s[i + w + 1..] == t[1..] && SpellsMembers([m], s[..i + w])
  {
    hide SpellsMember, SpellsMembers, Space;
    DropDrop(s, i, w);
    DropDrop(s, i + w, 1);
    OneMember(m, s, i, w);
  }

  lemma MoreMembersAt(m: Member, members: seq<Member>, s: string, i: nat, after: string, w: nat, t: string, k: nat)
    requires i <= |s| && after == s[i..] && w < |after| && t == after[w..] && t[0] == ',' && k < |t[1..]|
    requires members != [] && SpellsMember(m, s[..i]) && Space(after[..w]) && SpellsMembers(members, t[1..][..k])
    ensures
      var n := i + w + 1 + k;
      n < |s| && s[n] == t[1..][k] && s[n + 1..] == t[1..][k + 1..] && SpellsMembers([m] + members, s[..n])
  {
    hide SpellsMember, SpellsMembers, Space;
    DropDrop(s, i, w);
    DropDrop(s, i + w, 1);
    DropDrop(s, i + w + 1, k);
    DropDrop(s, i + w + 1, k + 1);
    MoreMembers(m, members, s, i, w, k);
  }

  lemma SpaceKeySpace(key: string, s: string, w: nat, a: nat, b: nat)
    requires w + a + b <= |s| && Space(s[..w]) && SpellsString(key, s[w..][..a]) && Space(s[w + a..][..b])
    ensures SpellsKey(key, s[..w + a + b])
  {
    hide SpellsString, Space;
    var u := s[..w + a + b];
    assert u[..w] == s[..w] && u[w..w + a] == s[w..][..a] && u[w + a..] == s[w + a..][..b];
  }

  lemma KeyThenValue(m: Member, s: string, k: nat, n: nat)
    requires k + 1 + n <= |s| && SpellsKey(m.key, s[..k]) && s[k] == ':' && Spells(m.value, s[k + 1..][..n])
    ensures SpellsMember(m, s[..k + 1 + n])
  {
    hide Spells, SpellsKey;
    var t := s[..k + 1 + n];
    assert t[..k] == s[..k] && t[k + 1..] == s[k + 1..][..n];
  }

  // ----- the reader

  lemma {:induction false} ValueIsSpelled(text: string) returns (n: nat)
    requires ReadValue(text).Some?
    ensures n <= |text| && ReadValue(text).value.1 == text[n..] && Spells(ReadValue(text).value.0, text[..n])
    decreases |text|, 2
  {
    hide ReadValue, SpellsBare, Spells, Skip;
    SkipIsSpace(text);
    var s, w := Skip(text), |text| - |Skip(text)|;
    var m := BareIsSpelled(text, s);
    n := w + m;
    SpaceThen(ReadValue(text).value.0, text, w, m);
  }

  lemma {:induction false} BareIsSpelled(text: string, s: string) returns (m: nat)
    requires s == Skip(text) && ReadValue(text).Some?
    ensures m <= |s| && ReadValue(text).value.1 == s[m..] && SpellsBare(ReadValue(text).value.0, s[..m])
    decreases |text|, 1
  {
    hide Skip, ReadScalar, ReadChars, ReadItems, ReadMembers, SpellsItems, SpellsMembers, SpellsChars, Space;
    if s[0] == '"' {
      m := QuotedIsSpelled(s);
    } else if s[0] == '[' || s[0] == '{' {
      var inner := Skip(s[1..]);
      SkipIsSpace(s[1..]);
      var k := |s[1..]| - |inner|;
      if !(inner != [] && inner[0] == (if s[0] == '[' then ']' else '}')) {
        if s[0] == '[' { k := ItemsAreSpelled(s[1..]); } else { k := MembersAreSpelled(s[1..]); }
      }
      m := k + 2;
      Brackets(s, k);
    } else {
      m := ScalarIsSpelled(s);
    }
  }

  lemma QuoteThenChars(str: string, q: string, a: nat)
    requires q != [] && q[0] == '"' && a + 1 <= |q| && SpellsChars(str, q[1..][..a])
    ensures SpellsString(str, q[..a + 1]) && q[1..][a..] == q[a + 1..]
  {
    hide SpellsChars;
    assert q[..a + 1][1..] == q[1..][..a];
  }

  lemma Brackets(s: string, k: nat)
    requires k + 2 <= |s|
    ensures
      var c := s[..k + 2];
      c[0] == s[0] && c[|c| - 1] == s[1..][k] && c[1..|c| - 1] == s[1..][..k] && s[1..][k + 1..] == s[k + 2..]
    ensures s[1..][k..][0] == s[1..][k] && s[1..][k..][1..] == s[k + 2..]
  {
  }

  /** The items end before the bracket at `n`. */
  lemma {:induction false} ItemsAreSpelled(s: string) returns (n: nat)
    requires ReadItems(s).Some?
    ensures n < |s| && s[n] == ']' && ReadItems(s).value.1 == s[n + 1..] && ReadItems(s).value.0 != []
    ensures SpellsItems(ReadItems(s).value.0, s[..n])
    decreases |s|, 3
  {
    hide *;
    ItemsUnfold(s);
    var i := ValueIsSpelled(s);
    var first := ReadValue(s).value;
    SkipIsSpace(first.1);
    var t, w := Skip(first.1), |first.1| - |Skip(first.1)|;
    if t[0] == ']' {
      n := i + w;
      OneItemAt(first.0, s, i, first.1, w, t);
    } else {
      var k := ItemsAreSpelled(t[1..]);
      n := i + w + 1 + k;
      MoreItemsAt(first.0, ReadItems(t[1..]).value.0, s, i, first.1, w, t, k);
    }
  }

  lemma ItemsUnfold(s: string)
    requires ReadItems(s).Some?
    ensures
      && ReadValue(s).Some?
      && var t := Skip(ReadValue(s).value.1);
      && t != [] && (t[0] == ']' || (t[0] == ',' && ReadItems(t[1..]).Some?))
      && (t[0] == ']' ==> ReadItems(s) == Some(([ReadValue(s).value.0], t[1..])))
      && (t[0] == ',' ==> ReadItems(s) == Some(([ReadValue(s).value.0] + ReadItems(t[1..]).value.0, ReadItems(t[1..]).value.1)))
  {
    hide ReadValue, Skip;
  }

  lemma {:induction false} MembersAreSpelled(s: string) returns (n: nat)
    requires ReadMembers(s).Some?
    ensures n < |s| && s[n] == '}' && ReadMembers(s).value.1 == s[n + 1..] && ReadMembers(s).value.0 != []
    ensures SpellsMembers(ReadMembers(s).value.0, s[..n])
    decreases |s|, 4
  {
    hide *;
    MembersUnfold(s);
    var i := MemberIsSpelled(s);
    var first := ReadMember(s).value;
    SkipIsSpace(first.1);
    var t, w := Skip(first.1), |first.1| - |Skip(first.1)|;
    if t[0] == '}' {
      n := i + w;
      OneMemberAt(first.0, s, i, first.1, w, t);
    } else {
      var k := MembersAreSpelled(t[1..]);
      n := i + w + 1 + k;
      MoreMembersAt(first.0, ReadMembers(t[1..]).value.0, s, i, first.1, w, t, k);
    }
  }

  lemma MembersUnfold(s: string)
    requires ReadMembers(s).Some?
    ensures
      && ReadMember(s).Some?
      && var t := Skip(ReadMember(s).value.1);
      && t != [] && (t[0] == '}' || (t[0] == ',' && ReadMembers(t[1..]).Some?))
      && (t[0] == '}' ==> ReadMembers(s) == Some(([ReadMember(s).value.0], t[1..])))
      && (t[0] == ',' ==> ReadMembers(s) == Some(([ReadMember(s).value.0] + ReadMembers(t[1..]).value.0, ReadMembers(t[1..]).value.1)))
  {
    hide ReadMember, Skip;
  }

  lemma {:induction false} MemberIsSpelled(s: string) returns (n: nat)
    requires ReadMember(s).Some?
    ensures n <= |s| && ReadMember(s).value.1 == s[n..] && SpellsMember(ReadMember(s).value.0, s[..n])
    decreases |s|, 3
  {
    hide Spells, SpellsMember, SpellsKey, ReadMember, ReadValue;
    MemberParts(s);
    var k := KeyIsSpelled(s);
    var v := ValueIsSpelled(s[k + 1..]);
    n := k + 1 + v;
    DropDrop(s, k + 1, v);
    KeyThenValue(ReadMember(s).value.0, s, k, v);
  }

  /** The key and the white space around it end at the colon. */
  lemma KeyIsSpelled(s: string) returns (k: nat)
    requires var q := Skip(s); q != [] && q[0] == '"' && ReadChars(q[1..]).Some? && Skip(ReadChars(q[1..]).value.1) != []
    ensures
      var r := ReadChars(Skip(s)[1..]).value;
      k < |s| && SpellsKey(r.0, s[..k]) && s[k] == Skip(r.1)[0] && s[k + 1..] == Skip(r.1)[1..]
  {
    hide SpellsKey, SpellsString, SpellsChars, ReadChars, Skip, Space;
    SkipIsSpace(s);
    var q, w := Skip(s), |s| - |Skip(s)|;
    var r := ReadChars(q[1..]).value;
    var a := QuotedIsSpelled(q);
    SkipIsSpace(r.1);
    k := KeyParts(r.0, s, w, q, a, r.1, |r.1| - |Skip(r.1)|, Skip(r.1));
  }

  lemma QuotedIsSpelled(q: string) returns (a: nat)
    requires q != [] && q[0] == '"' && ReadChars(q[1..]).Some?
    ensures 0 < a <= |q| && ReadChars(q[1..]).value.1 == q[a..] && SpellsString(ReadChars(q[1..]).value.0, q[..a])
  {
    hide ReadChars, SpellsChars, SpellsString;
    var k := CharsAreSpelled(q[1..]);
    QuoteThenChars(ReadChars(q[1..]).value.0, q, k);
    a := k + 1;
  }

  lemma KeyParts(key: string, s: string, w: nat, q: string, a: nat, after: string, b: nat, t: string) returns (k: nat)
    requires w <= |s| && q == s[w..] && Space(s[..w]) && a <= |q| && after == q[a..] && SpellsString(key, q[..a])
    requires b < |after| && t == after[b..] && Space(after[..b])
    ensures k < |s| && SpellsKey(key, s[..k]) && s[k] == t[0] && s[k + 1..] == t[1..]
  {
    hide SpellsKey, SpellsString, Space;
    k := w + a + b;
    DropDrop(s, w, a);
    DropDrop(s, w + a, b);
    DropDrop(s, k, 1);
    SpaceKeySpace(key, s, w, a, b);
  }

  lemma MemberParts(s: string)
    requires ReadMember(s).Some?
    ensures
      var m, q := ReadMember(s).value, Skip(s);
      && q != [] && q[0] == '"' && ReadChars(q[1..]).Some? && ReadChars(q[1..]).value.0 == m.0.key
      && var t := Skip(ReadChars(q[1..]).value.1);
      t != [] && t[0] == ':' && ReadValue(t[1..]) == Some((m.0.value, m.1))
  {
    hide ReadValue, ReadChars, Skip;
  }

  /** Whatever the reader accepts spells the value it returns, with nothing but white space behind. */
  lemma ReadIsSound(s: string) returns (n: nat)
    requires Read(s).Some?
    ensures n <= |s| && Spells(Read(s).value, s[..n]) && Space(s[n..])
    ensures Depth(Read(s).value) <= 127
  {
    hide ReadValue, Spells, Skip;
    n := ValueIsSpelled(s);
    SkipIsSpace(s[n..]);
  }
}
