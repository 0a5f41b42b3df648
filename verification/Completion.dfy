/**
 The completion row a worker posts, the reader of that row, and the classifier
 that tells a finish from a silence.
 */
module Completion {
  import opened Wrappers
  import opened Text

  datatype Signal = Signal(token: string, pane: string, verdict: string, evidence: string, frees: string)

  datatype ParseError =
    | NotACompletion
    | Malformed(missing: string)
    | WrongBead(found: string)
    | EmptyField(field: string)

  const DONE_PREFIX := "DONE "
  const ON := " on "
  const DASH := " -- "
  const VERDICT := "verdict="
  const EVIDENCE := "evidence="
  const FREES := "frees="

  // ----- printer and reader

  function Fields(verdict: string, evidence: string, frees: string): string {
    VERDICT + (verdict + (" " + EVIDENCE + (evidence + (" " + FREES + frees))))
  }

  function Print(sig: Signal): string {
    DONE_PREFIX + (sig.token + (ON + (sig.pane + (DASH + Fields(sig.verdict, sig.evidence, sig.frees)))))
  }

  function BeadToken(beadId: string): string { LastSegment(beadId, '-') }

  function MinFound(a: Option<nat>, b: Option<nat>): Option<nat> {
    if a.None? then b else if b.None? then a else if a.value <= b.value then a else b
  }

  /** The earliest match of any of the patterns. */
  function FirstAny(s: string, pats: seq<string>): (r: Option<nat>)
    ensures r.Some? ==> r.value <= |s|
  {
    if pats == [] then None
    else if pats[0] == [] then FirstAny(s, pats[1..])
    else MinFound(Find(s, pats[0]), FirstAny(s, pats[1..]))
  }

  const KEYS: seq<string> := [" " + VERDICT, " " + EVIDENCE, " " + FREES]

  /** Where the next ` key=` begins. */
  function Boundary(rest: string): Option<nat> { FirstAny(rest, KEYS) }

  /** The trimmed value up to that boundary. */
  function UpToBoundary(rest: string): string {
    var end := Boundary(rest);
    if end.Some? then Trim(rest[..end.value]) else Trim(rest)
  }

  function Field(fields: string, key: string): Option<string>
    requires key != []
  {
    var start := Find(fields, key);
    if start.None? then None else Some(UpToBoundary(fields[start.value + |key|..]))
  }

  function Parse(comment: string, beadId: string): Result<Signal, ParseError> {
    if StartsWith(comment, DONE_PREFIX) then ParseToken(comment[|DONE_PREFIX|..], BeadToken(beadId))
    else Err(NotACompletion)
  }

  function ParseToken(rest: string, expected: string): Result<Signal, ParseError> {
    match SplitOnce(rest, ON)
    case None => Err(Malformed("pane"))
    case Some((token, body)) => if token == expected then ParseBody(token, body) else Err(WrongBead(token))
  }

  function ParseBody(token: string, body: string): Result<Signal, ParseError> {
    match SplitOnce(body, DASH)
    case None => Err(Malformed("fields"))
    case Some((pane, fields)) =>
      ParseFields(token, pane, Field(fields, VERDICT), Field(fields, EVIDENCE), Field(fields, FREES))
  }

  function ParseFields(token: string, pane: string, v: Option<string>, e: Option<string>, f: Option<string>): (r: Result<Signal, ParseError>)
    ensures r.Ok? ==> r.value.pane == pane && !Blank(pane)
  {
    if Blank(pane) then Err(EmptyField("pane")) else Assemble(token, pane, v, e, f)
  }

  function Assemble(token: string, pane: string, v: Option<string>, e: Option<string>, f: Option<string>): Result<Signal, ParseError> {
    if v.None? then Err(Malformed("verdict"))
    else if e.None? then Err(Malformed("evidence"))
    else if f.None? then Err(Malformed("frees"))
    else if Blank(v.value) then Err(EmptyField("verdict"))
    else if Blank(e.value) then Err(EmptyField("evidence"))
    else if Blank(f.value) then Err(EmptyField("frees"))
    else Ok(Signal(token, pane, v.value, e.value, f.value))
  }

  // ----- when printing and reading back is the identity

  /** Trimmed, non-empty, and free of any ` key=` boundary. */
  predicate PlainValue(s: string) { Trimmed(s) && s != [] && Boundary(s).None? }

  /** What the reader takes for a key, when an earlier field happens to spell it. */
  function After(s: string, key: string): string
    requires key != [] && Find(s, key).Some?
  {
    Trim(s[Find(s, key).value + |key|..])
  }

  predicate DelimiterFree(s: string, delimiter: string, stem: string)
    requires delimiter != []
  {
    Find(s, delimiter).None? && !(|stem| <= |s| && s[|s| - |stem|..] == stem)
  }

  /** The reader returns these three values, not yet asking that they be non-empty. */
  predicate ValuesReturn(v: string, e: string, f: string) {
    && Trimmed(v) && Boundary(v).None?
    && (if Find(v, EVIDENCE).Some? then e == After(v, EVIDENCE) else Trimmed(e) && Boundary(e).None?)
    && (if Find(v, FREES).Some? then f == After(v, FREES)
        else if Find(e, FREES).Some? then f == After(e, FREES)
        else Trimmed(f) && Boundary(f).None?)
  }

  /**
   The exact condition.  Token and pane must not contain their delimiter or end
   in all of it but its last space.  Each value must be non-empty, trimmed and
   free of boundaries, unless an earlier value spells its key: then the reader
   takes what follows there, and the value survives only if it says the same.
   */
  predicate Survives(sig: Signal) {
    && DelimiterFree(sig.token, ON, " on")
    && DelimiterFree(sig.pane, DASH, " --") && !Blank(sig.pane)
    && ValuesReturn(sig.verdict, sig.evidence, sig.frees)
    && sig.verdict != [] && sig.evidence != [] && sig.frees != []
  }

  // ----- one delimiter

  /** A delimiter is a stem that opens with its only space, plus a closing space. */
  predicate IsDelimiter(delimiter: string, stem: string) {
    stem != [] && delimiter == stem + " " && stem[0] == ' ' && forall k | 1 <= k < |stem| :: stem[k] != ' '
  }

  /** The printed delimiter is found where it was put exactly when the text before it is free of it. */
  lemma DelimiterIsFirst(t: string, delimiter: string, stem: string, rest: string)
    requires IsDelimiter(delimiter, stem)
    ensures Find(t + (delimiter + rest), delimiter) == Some(|t|) <==> DelimiterFree(t, delimiter, stem)
    ensures Find(t + (delimiter + rest), delimiter).Some? && Find(t + (delimiter + rest), delimiter).value <= |t|
  {
    var s := t + (delimiter + rest);
    assert s[|t|..|t| + |delimiter|] == delimiter;
    assert MatchesAt(s, |t|, delimiter);
    var found := Find(s, delimiter);
    if found.value < |t| { EarlyMatch(t, delimiter, stem, rest, found.value); }
    if !DelimiterFree(t, delimiter, stem) {
      var i := UnfreeMatches(t, delimiter, stem, rest);
    }
  }

  lemma UnfreeMatches(t: string, delimiter: string, stem: string, rest: string) returns (i: nat)
    requires IsDelimiter(delimiter, stem) && !DelimiterFree(t, delimiter, stem)
    ensures i < |t| && MatchesAt(t + (delimiter + rest), i, delimiter)
  {
    var s := t + (delimiter + rest);
    if Find(t, delimiter).Some? {
      i := Find(t, delimiter).value;
      assert s[i..i + |delimiter|] == t[i..i + |delimiter|];
    } else {
      i := |t| - |stem|;
      assert s[i..i + |delimiter|] == t[i..] + [s[|t|]];
    }
  }

  lemma EarlyMatch(t: string, delimiter: string, stem: string, rest: string, i: nat)
    requires IsDelimiter(delimiter, stem) && i < |t| && MatchesAt(t + (delimiter + rest), i, delimiter)
    ensures !DelimiterFree(t, delimiter, stem)
  {
    var s := t + (delimiter + rest);
    if i + |delimiter| <= |t| {
      assert s[i..i + |delimiter|] == t[i..i + |delimiter|];
      assert MatchesAt(t, i, delimiter);
    } else {
      Straddle(t, delimiter + rest, delimiter, i);
      assert delimiter[|t| - i] == ' ';
      assert |t| - i == |stem|;
      assert t[i..] == s[i..i + |delimiter|][..|stem|];
    }
  }

  // ----- boundaries

  /** Every pattern opens with its only space. */
  predicate Spaced(pats: seq<string>) {
    forall i | 0 <= i < |pats| :: pats[i] != [] && pats[i][0] == ' ' && forall k | 1 <= k < |pats[i]| :: pats[i][k] != ' '
  }

  lemma {:induction false} FirstAnyInConcat(a: string, b: string, pats: seq<string>)
    requires Spaced(pats) && StartsWith(b, " ")
    ensures FirstAny(a + b, pats) == FirstOf(FirstAny(a, pats), |a|, FirstAny(b, pats))
  {
    if pats != [] {
      var p, rest := pats[0], pats[1..];
      FirstAnyInConcat(a, b, rest);
      assert SeamBefore(b, p);
      FindInConcat(a, b, p);
      MinOfFirstOf(Find(a, p), FirstAny(a, rest), |a|, Find(b, p), FirstAny(b, rest));
    }
  }

  lemma MinOfFirstOf(fa: Option<nat>, ra: Option<nat>, n: nat, fb: Option<nat>, rb: Option<nat>)
    requires (fa.Some? ==> fa.value <= n) && (ra.Some? ==> ra.value <= n)
    ensures MinFound(FirstOf(fa, n, fb), FirstOf(ra, n, rb)) == FirstOf(MinFound(fa, ra), n, MinFound(fb, rb))
  {
  }

  /** No pattern in a text, none in a piece of it. */
  lemma {:induction false} NoneInPiece(s: string, i: nat, n: nat, pats: seq<string>)
    requires i + n <= |s| && FirstAny(s, pats).None?
    ensures FirstAny(s[i..i + n], pats).None?
  {
    if pats != [] {
      NoneInPiece(s, i, n, pats[1..]);
      if pats[0] != [] && Find(s[i..i + n], pats[0]).Some? { ContainsGrows(s, i, i + n, pats[0]); }
    }
  }

  lemma {:induction false} FirstAnyAtZero(s: string, pats: seq<string>, k: nat)
    requires k < |pats| && pats[k] != [] && StartsWith(s, pats[k])
    ensures FirstAny(s, pats) == Some(0)
  {
    if k > 0 { FirstAnyAtZero(s, pats[1..], k - 1); }
  }

  lemma KeysAreSpaced()
    ensures Spaced(KEYS)
  {
  }

  lemma BoundaryOfSuffix(s: string, i: nat)
    requires i <= |s| && Boundary(s).None?
    ensures Boundary(s[i..]).None?
  {
    NoneInPiece(s, i, |s| - i, KEYS);
    assert s[i..i + (|s| - i)] == s[i..];
  }

  lemma BoundaryInConcat(a: string, b: string)
    requires StartsWith(b, " ")
    ensures Boundary(a + b) == FirstOf(Boundary(a), |a|, Boundary(b))
  {
    KeysAreSpaced();
    FirstAnyInConcat(a, b, KEYS);
  }

  lemma {:induction false} FirstAnyInside(s: string, pats: seq<string>)
    ensures FirstAny(s, pats).Some? ==> FirstAny(s, pats).value < |s|
  {
    if pats != [] { FirstAnyInside(s, pats[1..]); }
  }

  /** A value followed by the next key comes back exactly when it is trimmed and boundary-free. */
  lemma ValueBeforeKey(value: string, next: string)
    requires StartsWith(next, " ") && Boundary(next) == Some(0)
    ensures Boundary(value).None? ==> UpToBoundary(value + next) == Trim(value)
    ensures UpToBoundary(value + next) == value <==> Trimmed(value) && Boundary(value).None?
  {
    BoundaryInConcat(value, next);
    FirstAnyInside(value, KEYS);
    var i := TrimIsTrimmed(value);
    var cut := (value + next)[..Boundary(value + next).value];
    var j := TrimIsTrimmed(cut);
    assert Boundary(value).None? ==> cut == value;
  }

  lemma ValueAtEnd(value: string)
    ensures UpToBoundary(value) == value <==> Trimmed(value) && Boundary(value).None?
  {
    FirstAnyInside(value, KEYS);
    var i := TrimIsTrimmed(value);
    if Boundary(value).Some? {
      var j := TrimIsTrimmed(value[..Boundary(value).value]);
    }
  }

  lemma KeyOpens(key: string, rest: string, k: nat)
    requires k < |KEYS| && KEYS[k] == " " + key && key != [] && key[0] != ' '
    ensures
      var next := " " + key + rest;
      StartsWith(next, " ") && Boundary(next) == Some(0) && Find(next, key) == Some(1) && next[1 + |key|..] == rest
  {
    hide FirstAny, Find;
    var next := " " + key + rest;
    assert next[..|key| + 1] == " " + key;
    FirstAnyAtZero(next, KEYS, k);
    KeyAtOne(key, rest);
  }

  lemma KeyAtOne(key: string, rest: string)
    requires key != [] && key[0] != ' '
    ensures Find(" " + key + rest, key) == Some(1) && (" " + key + rest)[1 + |key|..] == rest
  {
    var next := " " + key + rest;
    assert next[1..1 + |key|] == key;
    assert MatchesAt(next, 1, key);
    assert next[0] == ' ';
    assert !MatchesAt(next, 0, key);
    FindIs(next, key, Some(1));
  }

  // ----- the three fields of a printed row

  /** The part of a printed row from the evidence key on. */
  function EvidenceOn(evidence: string, frees: string): string { " " + EVIDENCE + (evidence + (" " + FREES + frees)) }

  lemma FieldsUnfold(v: string, e: string, f: string)
    ensures Fields(v, e, f) == VERDICT + (v + EvidenceOn(e, f))
    ensures EvidenceOn(e, f) == (" " + EVIDENCE) + (e + (" " + FREES + f))
  {
  }

  lemma VerdictField(v: string, e: string, f: string)
    ensures Field(Fields(v, e, f), VERDICT) == Some(UpToBoundary(v + EvidenceOn(e, f)))
    ensures Field(Fields(v, e, f), VERDICT) == Some(v) <==> Trimmed(v) && Boundary(v).None?
  {
    FieldsUnfold(v, e, f);
    var fields := Fields(v, e, f);
    assert fields[0..|VERDICT|] == VERDICT;
    assert MatchesAt(fields, 0, VERDICT) && Find(fields, VERDICT) == Some(0);
    assert fields[|VERDICT|..] == v + EvidenceOn(e, f);
    KeyOpens(EVIDENCE, e + (" " + FREES + f), 1);
    ValueBeforeKey(v, EvidenceOn(e, f));
  }

  lemma CharOfMatch(s: string, i: nat, pat: string, k: nat)
    requires MatchesAt(s, i, pat) && k < |pat|
    ensures pat[k] in s
  {
    assert s[i + k] == s[i..i + |pat|][k];
  }

  lemma MissingChar(s: string, pat: string, k: nat)
    requires k < |pat| && pat[k] !in s
    ensures Find(s, pat).None?
  {
    if Find(s, pat).Some? { CharOfMatch(s, Find(s, pat).value, pat, k); }
  }

  /** No key hides in another key, nor straddles its end. */
  lemma NoKeyInKeys(a: string, key: string)
    requires (a == VERDICT && (key == EVIDENCE || key == FREES)) || (a == " " + EVIDENCE && key == FREES)
    ensures Find(a, key).None? && SeamAfter(a, key)
  {
    hide Find;
    MissingChar(a, key, if key == EVIDENCE then 5 else 0);
  }

  lemma SpaceSeam(b: string, key: string)
    requires StartsWith(b, " ") && (key == EVIDENCE || key == FREES)
    ensures SeamBefore(b, key)
  {
    assert b[0] == ' ';
  }

  /** What follows the first match. */
  function TailAfter(s: string, key: string): string
    requires key != [] && Find(s, key).Some?
  {
    s[Find(s, key).value + |key|..]
  }

  lemma TailInConcat(a: string, b: string, key: string)
    requires key != [] && (SeamBefore(b, key) || SeamAfter(a, key)) && (Find(a, key).Some? || Find(b, key).Some?)
    ensures Find(a + b, key).Some?
    ensures Find(a, key).Some? ==> TailAfter(a + b, key) == TailAfter(a, key) + b
    ensures Find(a, key).None? ==> TailAfter(a + b, key) == TailAfter(b, key)
  {
    FindInConcat(a, b, key);
  }

  /** A key spelled inside a boundary-free value: the reader takes the rest of that value. */
  lemma SpelledInside(value: string, next: string, key: string)
    requires key != [] && Find(value, key).Some? && Boundary(value).None?
    requires StartsWith(next, " ") && Boundary(next) == Some(0)
    ensures UpToBoundary(TailAfter(value, key) + next) == After(value, key)
  {
    hide Find, Boundary, UpToBoundary, Trim, StartsWith;
    BoundaryOfSuffix(value, Find(value, key).value + |key|);
    ValueBeforeKey(TailAfter(value, key), next);
  }

  /** Where the evidence key is first found: inside the verdict, or where it was printed. */
  lemma EvidenceField(v: string, e: string, f: string)
    requires Boundary(v).None?
    ensures Find(v, EVIDENCE).Some? ==> Field(Fields(v, e, f), EVIDENCE) == Some(After(v, EVIDENCE))
    ensures Find(v, EVIDENCE).None? ==> Field(Fields(v, e, f), EVIDENCE) == Some(UpToBoundary(e + (" " + FREES + f)))
  {
    var next := EvidenceOn(e, f);
    FieldsUnfold(v, e, f);
    NoKeyInKeys(VERDICT, EVIDENCE);
    KeyOpens(EVIDENCE, e + (" " + FREES + f), 1);
    assert TailAfter(next, EVIDENCE) == e + (" " + FREES + f);
    SpaceSeam(next, EVIDENCE);
    TailInConcat(v, next, EVIDENCE);
    TailInConcat(VERDICT, v + next, EVIDENCE);
    if Find(v, EVIDENCE).Some? { SpelledInside(v, next, EVIDENCE); }
  }

  /** Likewise for the last key, which verdict or evidence may spell first. */
  lemma FreesField(v: string, e: string, f: string)
    requires Boundary(v).None? && (Find(v, FREES).None? ==> Boundary(e).None?)
    ensures Find(v, FREES).Some? ==> Field(Fields(v, e, f), FREES) == Some(After(v, FREES))
    ensures Find(v, FREES).None? && Find(e, FREES).Some? ==> Field(Fields(v, e, f), FREES) == Some(After(e, FREES))
    ensures Find(v, FREES).None? && Find(e, FREES).None? ==> Field(Fields(v, e, f), FREES) == Some(UpToBoundary(f))
  {
    var next, last := EvidenceOn(e, f), " " + FREES + f;
    FieldsUnfold(v, e, f);
    NoKeyInKeys(VERDICT, FREES);
    NoKeyInKeys(" " + EVIDENCE, FREES);
    KeyOpens(EVIDENCE, e + last, 1);
    LastKey(e, f);
    SpaceSeam(next, FREES);
    TailInConcat(" " + EVIDENCE, e + last, FREES);
    TailInConcat(v, next, FREES);
    TailInConcat(VERDICT, v + next, FREES);
    if Find(v, FREES).Some? { SpelledInside(v, next, FREES); }
  }

  lemma LastKey(e: string, f: string)
    ensures
      var last := " " + FREES + f;
      && Find(e + last, FREES).Some?
      && (Find(e, FREES).Some? && Boundary(e).None? ==> UpToBoundary(TailAfter(e + last, FREES)) == After(e, FREES))
      && (Find(e, FREES).None? ==> TailAfter(e + last, FREES) == f)
  {
    var last := " " + FREES + f;
    KeyOpens(FREES, f, 2);
    SpaceSeam(last, FREES);
    TailInConcat(e, last, FREES);
    if Find(e, FREES).Some? && Boundary(e).None? { SpelledInside(e, last, FREES); }
  }

  // ----- the round trip

  lemma TokenSplits(token: string, body: string)
    ensures DelimiterFree(token, ON, " on") ==> ParseToken(token + (ON + body), token) == ParseBody(token, body)
    ensures !DelimiterFree(token, ON, " on") ==> ParseToken(token + (ON + body), token).Err?
  {
    hide ParseBody, Find, DelimiterFree;
    var rest := token + (ON + body);
    DelimiterIsFirst(token, ON, " on", body);
    assert rest[..|token|] == token && rest[|token| + |ON|..] == body;
  }

  lemma PaneSplits(token: string, pane: string, fields: string, sig: Signal)
    requires sig.pane == pane
    ensures DelimiterFree(pane, DASH, " --") && !Blank(pane) ==>
      ParseBody(token, pane + (DASH + fields))
      == Assemble(token, pane, Field(fields, VERDICT), Field(fields, EVIDENCE), Field(fields, FREES))
    ensures !(DelimiterFree(pane, DASH, " --") && !Blank(pane)) ==> ParseBody(token, pane + (DASH + fields)) != Ok(sig)
  {
    hide Find, Field, Assemble, DelimiterFree, Blank;
    var body := pane + (DASH + fields);
    DelimiterIsFirst(pane, DASH, " --", fields);
    assert body[..|pane|] == pane && body[|pane| + |DASH|..] == fields;
    if ParseBody(token, body).Ok? { ParsedPane(token, body); }
  }

  lemma ParsedPane(token: string, body: string)
    requires ParseBody(token, body).Ok?
    ensures SplitOnce(body, DASH).Some? && ParseBody(token, body).value.pane == SplitOnce(body, DASH).value.0
    ensures !Blank(ParseBody(token, body).value.pane)
  {
  }

  lemma TrimmedIsBlankIffEmpty(s: string)
    requires Trimmed(s)
    ensures Blank(s) <==> s == []
  {
    var i := TrimIsTrimmed(s);
  }

  /** The field readers return the printed values exactly under `ValuesReturn`. */
  lemma FieldsReturn(v: string, e: string, f: string)
    ensures
      var fields := Fields(v, e, f);
      (Field(fields, VERDICT) == Some(v) && Field(fields, EVIDENCE) == Some(e) && Field(fields, FREES) == Some(f))
      <==> ValuesReturn(v, e, f)
  {
    VerdictField(v, e, f);
    if Boundary(v).None? {
      EvidenceField(v, e, f);
      KeyOpens(FREES, f, 2);
      ValueBeforeKey(e, " " + FREES + f);
      if Find(v, EVIDENCE).Some? { AfterIsBoundaryFree(v, EVIDENCE); }
      if Boundary(e).None? { FreesField(v, e, f); }
      ValueAtEnd(f);
    }
  }

  /** Returned values are trimmed, so blank means empty. */
  lemma ReturnedAreTrimmed(v: string, e: string, f: string)
    requires ValuesReturn(v, e, f)
    ensures (Blank(v) <==> v == []) && (Blank(e) <==> e == []) && (Blank(f) <==> f == [])
  {
    if Find(v, EVIDENCE).Some? { AfterIsBoundaryFree(v, EVIDENCE); }
    if Find(v, FREES).Some? {
      AfterIsBoundaryFree(v, FREES);
    } else if Find(e, FREES).Some? {
      AfterIsBoundaryFree(e, FREES);
    }
    TrimmedIsBlankIffEmpty(v);
    TrimmedIsBlankIffEmpty(e);
    TrimmedIsBlankIffEmpty(f);
  }

  /** A value cut out of a boundary-free value is boundary-free and trimmed. */
  lemma AfterIsBoundaryFree(v: string, key: string)
    requires key != [] && Find(v, key).Some? && Boundary(v).None?
    ensures Boundary(After(v, key)).None? && Trimmed(After(v, key))
  {
    var start := Find(v, key).value + |key|;
    BoundaryOfSuffix(v, start);
    TrimIsBoundaryFree(v[start..]);
  }

  lemma TrimIsBoundaryFree(s: string)
    requires Boundary(s).None?
    ensures Boundary(Trim(s)).None? && Trimmed(Trim(s))
  {
    hide Trim, FirstAny, Trimmed;
    var i := TrimIsTrimmed(s);
    NoneInPiece(s, i, |Trim(s)|, KEYS);
  }

  lemma AssembledIs(sig: Signal, v: Option<string>, e: Option<string>, f: Option<string>)
    ensures Assemble(sig.token, sig.pane, v, e, f) == Ok(sig)
      <==>
      (&& v == Some(sig.verdict) && e == Some(sig.evidence) && f == Some(sig.frees)
       && !Blank(sig.verdict) && !Blank(sig.evidence) && !Blank(sig.frees))
  {
  }

  lemma ParsePrinted(sig: Signal, beadId: string)
    requires BeadToken(beadId) == sig.token
    ensures Parse(Print(sig), beadId) == Ok(sig)
      <==>
      (&& DelimiterFree(sig.token, ON, " on") && DelimiterFree(sig.pane, DASH, " --") && !Blank(sig.pane)
       && (var fields := Fields(sig.verdict, sig.evidence, sig.frees);
           Assemble(sig.token, sig.pane, Field(fields, VERDICT), Field(fields, EVIDENCE), Field(fields, FREES)) == Ok(sig)))
  {
    var fields := Fields(sig.verdict, sig.evidence, sig.frees);
    var body := sig.pane + (DASH + fields);
    assert Print(sig)[|DONE_PREFIX|..] == sig.token + (ON + body);
    assert Parse(Print(sig), beadId) == ParseToken(sig.token + (ON + body), sig.token);
    TokenSplits(sig.token, body);
    PaneSplits(sig.token, sig.pane, fields, sig);
  }

  lemma ValuesRoundTrip(sig: Signal)
    ensures
      var fields := Fields(sig.verdict, sig.evidence, sig.frees);
      Assemble(sig.token, sig.pane, Field(fields, VERDICT), Field(fields, EVIDENCE), Field(fields, FREES)) == Ok(sig)
      <==> ValuesReturn(sig.verdict, sig.evidence, sig.frees) && sig.verdict != [] && sig.evidence != [] && sig.frees != []
  {
    var fields := Fields(sig.verdict, sig.evidence, sig.frees);
    AssembledIs(sig, Field(fields, VERDICT), Field(fields, EVIDENCE), Field(fields, FREES));
    FieldsReturn(sig.verdict, sig.evidence, sig.frees);
    if ValuesReturn(sig.verdict, sig.evidence, sig.frees) { ReturnedAreTrimmed(sig.verdict, sig.evidence, sig.frees); }
  }

  /** Parsing the printed row returns the identical signal exactly when the signal survives. */
  lemma RoundTrip(sig: Signal, beadId: string)
    requires BeadToken(beadId) == sig.token
    ensures Parse(Print(sig), beadId) == Ok(sig) <==> Survives(sig)
  {
    ParsePrinted(sig, beadId);
    ValuesRoundTrip(sig);
  }

  /** A verdict that opens with the evidence key is taken for the evidence, and whatever the evidence says is lost. */
  lemma SpelledKeyIsLost(sig: Signal, beadId: string, said: string)
    requires BeadToken(beadId) == sig.token && sig.verdict == EVIDENCE + said && sig.evidence != Trim(said)
    ensures Parse(Print(sig), beadId) != Ok(sig)
  {
    hide Parse, Print, Trim, DelimiterFree, Boundary;
    RoundTrip(sig, beadId);
    assert MatchesAt(sig.verdict, 0, EVIDENCE) by { assert sig.verdict[..|EVIDENCE|] == EVIDENCE; }
    FindIs(sig.verdict, EVIDENCE, Some(0));
    assert sig.verdict[0 + |EVIDENCE|..] == said;
  }

  /** So it goes with five short words and no blank among them. */
  lemma LostSignal(beadId: string)
    ensures
      var sig := Signal(BeadToken(beadId), "%1", "evidence=ok", "log", "pane");
      Parse(Print(sig), beadId) != Ok(sig)
  {
    hide Parse, Print, BeadToken;
    var sig := Signal(BeadToken(beadId), "%1", "evidence=ok", "log", "pane");
    var i := TrimIsTrimmed("ok");
    assert Trim("ok") == "ok" && "ok"[0] != "log"[0];
    assert sig.verdict == EVIDENCE + "ok";
    SpelledKeyIsLost(sig, beadId, "ok");
  }

  /** Why a row is refused, up to its fields: the first thing in it that is not as printed. */
  lemma WhyNoFields(beadId: string, token: string, body: string)
    ensures forall c :: !StartsWith(c, DONE_PREFIX) <==> Parse(c, beadId) == Err(NotACompletion)
    ensures !Contains(token, ON) ==> Parse(DONE_PREFIX + token, beadId) == Err(Malformed("pane"))
    ensures DelimiterFree(token, ON, " on") ==>
      (token != BeadToken(beadId) ==> Parse(DONE_PREFIX + (token + (ON + body)), beadId) == Err(WrongBead(token)))
      && (token == BeadToken(beadId) && !Contains(body, DASH) ==> Parse(DONE_PREFIX + (token + (ON + body)), beadId) == Err(Malformed("fields")))
  {
    hide BeadToken, ParseBody, Find, DelimiterFree, Boundary;
    forall c ensures !StartsWith(c, DONE_PREFIX) <==> Parse(c, beadId) == Err(NotACompletion) { OnlyPrefixless(c, beadId); }
    Prefixed(token, beadId);
    Prefixed(token + (ON + body), beadId);
    NoSplit(token, ON);
    NoSplit(body, DASH);
    if DelimiterFree(token, ON, " on") { TokenCut(token, body); }
    BodyWithoutDash(token, body);
  }

  lemma OnlyPrefixless(c: string, beadId: string)
    ensures !StartsWith(c, DONE_PREFIX) <==> Parse(c, beadId) == Err(NotACompletion)
  {
    hide BeadToken, Find, Field, Blank;
  }

  lemma Prefixed(rest: string, beadId: string)
    ensures Parse(DONE_PREFIX + rest, beadId) == ParseToken(rest, BeadToken(beadId))
  {
    hide BeadToken, ParseToken;
    assert (DONE_PREFIX + rest)[|DONE_PREFIX|..] == rest;
  }

  lemma NoSplit(s: string, pat: string)
    requires pat != []
    ensures !Contains(s, pat) <==> SplitOnce(s, pat).None?
  {
    if Find(s, pat).Some? { assert MatchesAt(s, Find(s, pat).value, pat); }
  }

  lemma TokenCut(token: string, body: string)
    requires DelimiterFree(token, ON, " on")
    ensures SplitOnce(token + (ON + body), ON) == Some((token, body))
  {
    hide Find, DelimiterFree;
    var rest := token + (ON + body);
    DelimiterIsFirst(token, ON, " on", body);
    assert rest[..|token|] == token && rest[|token| + |ON|..] == body;
  }

  lemma BodyWithoutDash(token: string, body: string)
    ensures SplitOnce(body, DASH).None? ==> ParseBody(token, body) == Err(Malformed("fields"))
  {
  }

  /** Why a row with all its delimiters is refused: a blank pane, then a key that is missing, then a value that is blank, each in order. */
  lemma WhyNoSignal(token: string, pane: string, fields: string)
    requires DelimiterFree(pane, DASH, " --")
    ensures
      var r := ParseBody(token, pane + (DASH + fields));
      var v, e, f := Field(fields, VERDICT), Field(fields, EVIDENCE), Field(fields, FREES);
      && (v.Some? <==> Contains(fields, VERDICT)) && (e.Some? <==> Contains(fields, EVIDENCE)) && (f.Some? <==> Contains(fields, FREES))
      && (Blank(pane) ==> r == Err(EmptyField("pane")))
      && (!Blank(pane) && v.None? ==> r == Err(Malformed("verdict")))
      && (!Blank(pane) && v.Some? && e.None? ==> r == Err(Malformed("evidence")))
      && (!Blank(pane) && v.Some? && e.Some? && f.None? ==> r == Err(Malformed("frees")))
      && (!Blank(pane) && v.Some? && e.Some? && f.Some? ==>
            r == if Blank(v.value) then Err(EmptyField("verdict")) else if Blank(e.value) then Err(EmptyField("evidence"))
                 else if Blank(f.value) then Err(EmptyField("frees")) else Ok(Signal(token, pane, v.value, e.value, f.value)))
  {
    KeyFoundIff(fields, VERDICT);
    KeyFoundIff(fields, EVIDENCE);
    KeyFoundIff(fields, FREES);
    hide Find, Field, DelimiterFree, Blank;
    var body := pane + (DASH + fields);
    DelimiterIsFirst(pane, DASH, " --", fields);
    assert body[..|pane|] == pane && body[|pane| + |DASH|..] == fields;
  }

  /** A value is cut where the first of the three keys begins that has a space in front of it. */
  lemma BoundaryIsFirstKey(s: string)
    ensures Boundary(s).None? <==> !Contains(s, " verdict=") && !Contains(s, " evidence=") && !Contains(s, " frees=")
    ensures Boundary(s).Some? ==>
      var i := Boundary(s).value;
      && (MatchesAt(s, i, " verdict=") || MatchesAt(s, i, " evidence=") || MatchesAt(s, i, " frees="))
      && forall j: nat | j < i :: !MatchesAt(s, j, " verdict=") && !MatchesAt(s, j, " evidence=") && !MatchesAt(s, j, " frees=")
  {
    assert KEYS[0] == " verdict=" && KEYS[1] == " evidence=" && KEYS[2] == " frees=";
    assert KEYS[1..][1..] == KEYS[2..] && KEYS[2..][1..] == KEYS[3..] && KEYS[3..] == [];
    assert FirstAny(s, KEYS[3..]).None?;
    assert FirstAny(s, KEYS[2..]) == Find(s, KEYS[2]);
    assert FirstAny(s, KEYS[1..]) == MinFound(Find(s, KEYS[1]), Find(s, KEYS[2]));
    assert Boundary(s) == MinFound(Find(s, KEYS[0]), MinFound(Find(s, KEYS[1]), Find(s, KEYS[2])));
    FoundIffContained(s, KEYS[0]);
    FoundIffContained(s, KEYS[1]);
    FoundIffContained(s, KEYS[2]);
    hide Find, FirstAny, MatchesAt;
  }

  lemma FoundIffContained(s: string, pat: string)
    requires pat != []
    ensures Find(s, pat).Some? <==> Contains(s, pat)
  {
    if Find(s, pat).Some? { assert MatchesAt(s, Find(s, pat).value, pat); }
  }

  lemma KeyFoundIff(fields: string, key: string)
    requires key != []
    ensures Field(fields, key).Some? <==> Contains(fields, key)
  {
    hide UpToBoundary;
    FoundIffContained(fields, key);
  }

  /** Trimmed, non-empty values that spell no key anywhere: the condition a worker can be told. */
  predicate Clean(sig: Signal) {
    && DelimiterFree(sig.token, ON, " on")
    && DelimiterFree(sig.pane, DASH, " --") && !Blank(sig.pane)
    && forall s | s in [sig.verdict, sig.evidence, sig.frees] ::
      Trimmed(s) && s != [] && Find(s, VERDICT).None? && Find(s, EVIDENCE).None? && Find(s, FREES).None?
  }

  lemma CleanSurvives(sig: Signal)
    requires Clean(sig)
    ensures Survives(sig)
  {
    forall s | s in [sig.verdict, sig.evidence, sig.frees] ensures Boundary(s).None? { KeyFreeIsBoundaryFree(s); }
    assert sig.verdict in [sig.verdict, sig.evidence, sig.frees];
    assert sig.evidence in [sig.verdict, sig.evidence, sig.frees];
    assert sig.frees in [sig.verdict, sig.evidence, sig.frees];
  }

  lemma KeyFreeIsBoundaryFree(s: string)
    requires Find(s, VERDICT).None? && Find(s, EVIDENCE).None? && Find(s, FREES).None?
    ensures Boundary(s).None?
  {
    NoSpacedKey(s, VERDICT);
    NoSpacedKey(s, EVIDENCE);
    NoSpacedKey(s, FREES);
    assert FirstAny(s, KEYS[3..]).None?;
    assert KEYS[1..][1..] == KEYS[2..] && KEYS[2..][1..] == KEYS[3..];
    assert FirstAny(s, KEYS[2..]).None?;
    assert FirstAny(s, KEYS[1..]).None?;
  }

  lemma NoSpacedKey(s: string, key: string)
    requires key != [] && Find(s, key).None?
    ensures Find(s, " " + key).None?
  {
    var r := Find(s, " " + key);
    if r.Some? {
      var i := r.value;
      assert s[i + 1..i + 1 + |key|] == s[i..i + 1 + |key|][1..];
      assert MatchesAt(s, i + 1, key);
    }
  }

  /** Whatever the reader accepts is about the bead asked for, and every field is in normal form. */
  lemma AcceptedIsNormal(comment: string, beadId: string, sig: Signal)
    requires Parse(comment, beadId) == Ok(sig)
    ensures StartsWith(comment, DONE_PREFIX) && sig.token == BeadToken(beadId)
    ensures DelimiterFree(sig.token, ON, " on")
    ensures DelimiterFree(sig.pane, DASH, " --") && !Blank(sig.pane)
    ensures PlainValue(sig.verdict) && PlainValue(sig.evidence) && PlainValue(sig.frees)
  {
    TokenIsNormal(comment[|DONE_PREFIX|..], BeadToken(beadId), sig);
  }

  lemma TokenIsNormal(rest: string, expected: string, sig: Signal)
    requires ParseToken(rest, expected) == Ok(sig)
    ensures sig.token == expected && DelimiterFree(sig.token, ON, " on")
    ensures DelimiterFree(sig.pane, DASH, " --") && !Blank(sig.pane)
    ensures PlainValue(sig.verdict) && PlainValue(sig.evidence) && PlainValue(sig.frees)
  {
    var body := TokenParts(rest, expected, sig);
    OnSplitIsFree(rest, expected, body);
    BodyIsNormal(expected, body, sig);
  }

  lemma TokenParts(rest: string, expected: string, sig: Signal) returns (body: string)
    requires ParseToken(rest, expected) == Ok(sig)
    ensures SplitOnce(rest, ON) == Some((expected, body)) && ParseBody(expected, body) == Ok(sig)
  {
    body := SplitOnce(rest, ON).value.1;
  }

  lemma BodyParts(token: string, body: string, sig: Signal) returns (pane: string, fields: string)
    requires ParseBody(token, body) == Ok(sig)
    ensures SplitOnce(body, DASH) == Some((pane, fields)) && !Blank(pane)
    ensures Assemble(token, pane, Field(fields, VERDICT), Field(fields, EVIDENCE), Field(fields, FREES)) == Ok(sig)
  {
    pane, fields := SplitOnce(body, DASH).value.0, SplitOnce(body, DASH).value.1;
  }

  lemma BodyIsNormal(token: string, body: string, sig: Signal)
    requires ParseBody(token, body) == Ok(sig)
    ensures sig.token == token && DelimiterFree(sig.pane, DASH, " --") && !Blank(sig.pane)
    ensures PlainValue(sig.verdict) && PlainValue(sig.evidence) && PlainValue(sig.frees)
  {
    var pane, fields := BodyParts(token, body, sig);
    DashSplitIsFree(body, pane, fields);
    FieldIsPlain(fields, VERDICT);
    FieldIsPlain(fields, EVIDENCE);
    FieldIsPlain(fields, FREES);
    AssembledParts(token, pane, Field(fields, VERDICT), Field(fields, EVIDENCE), Field(fields, FREES), sig);
  }

  lemma AssembledParts(token: string, pane: string, v: Option<string>, e: Option<string>, f: Option<string>, sig: Signal)
    requires Assemble(token, pane, v, e, f) == Ok(sig)
    requires v.Some? && !Blank(v.value) ==> PlainValue(v.value)
    requires e.Some? && !Blank(e.value) ==> PlainValue(e.value)
    requires f.Some? && !Blank(f.value) ==> PlainValue(f.value)
    ensures sig.token == token && sig.pane == pane
    ensures PlainValue(sig.verdict) && PlainValue(sig.evidence) && PlainValue(sig.frees)
  {
  }

  lemma SplitIsFree(s: string, delimiter: string, stem: string, t: string, rest: string)
    requires IsDelimiter(delimiter, stem) && SplitOnce(s, delimiter) == Some((t, rest))
    ensures DelimiterFree(t, delimiter, stem)
  {
    assert s[|t|..|t| + |delimiter|] == delimiter;
    assert s == t + (delimiter + rest);
    DelimiterIsFirst(t, delimiter, stem, rest);
  }

  lemma OnSplitIsFree(s: string, t: string, rest: string)
    requires SplitOnce(s, ON) == Some((t, rest))
    ensures DelimiterFree(t, ON, " on")
  {
    SplitIsFree(s, ON, " on", t, rest);
  }

  lemma DashSplitIsFree(s: string, t: string, rest: string)
    requires SplitOnce(s, DASH) == Some((t, rest))
    ensures DelimiterFree(t, DASH, " --")
  {
    SplitIsFree(s, DASH, " --", t, rest);
  }

  lemma FieldIsPlain(fields: string, key: string)
    requires key != []
    ensures Field(fields, key).Some? && !Blank(Field(fields, key).value) ==> PlainValue(Field(fields, key).value)
  {
    if Field(fields, key).Some? { CutIsPlain(fields[Find(fields, key).value + |key|..]); }
  }

  lemma CutIsPlain(rest: string)
    ensures !Blank(UpToBoundary(rest)) ==> PlainValue(UpToBoundary(rest))
  {
    var cut := if Boundary(rest).Some? then rest[..Boundary(rest).value] else rest;
    if Boundary(rest).Some? { NothingBeforeFirst(rest, KEYS, Boundary(rest).value); }
    TrimIsBoundaryFree(cut);
    var i := TrimIsTrimmed(cut);
  }

  /** Before the earliest match there is no match. */
  lemma {:induction false} NothingBeforeFirst(s: string, pats: seq<string>, n: nat)
    requires n <= |s| && (FirstAny(s, pats).Some? ==> n <= FirstAny(s, pats).value)
    ensures FirstAny(s[..n], pats).None?
  {
    if pats != [] {
      NothingBeforeFirst(s, pats[1..], n);
      if pats[0] != [] && Find(s[..n], pats[0]).Some? {
        var i := Find(s[..n], pats[0]).value;
        assert s[i..i + |pats[0]|] == s[..n][i..i + |pats[0]|];
        assert MatchesAt(s, i, pats[0]);
      }
    }
  }
}
