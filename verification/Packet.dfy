/**
 The dispatch-packet row: validation, the emitted line, its reader, and the journal.
 SHA-256 is a function parameter; nothing here depends on what it computes.
 */
module Packet {
  import opened Wrappers
  import opened Json
  import opened KeyScanner
  import Text

  type U32 = n: nat | n < 0x1_0000_0000
  type U64 = n: nat | n <= U64_MAX
  type I64 = n: int | I64_MIN <= n <= 0x7FFF_FFFF_FFFF_FFFF

  const SCHEMA := "omp.dispatch.packet"
  const SCHEMA_VERSION := 1

  const FIELD_ORDER: seq<string> := [
    "schema", "version", "ts_unix", "authority", "stage", "actor", "bead", "attempt",
    "cursor_before", "cursor_after", "input_sha256", "output_sha256", "outcome", "error"]

  datatype Authority = Daemon | Cli | PaneObservation | Tracker
  {
    function Token(): string {
      match this
      case Daemon => "daemon" case Cli => "cli" case PaneObservation => "pane-observation" case Tracker => "tracker"
    }
    static function FromToken(s: string): Option<Authority> {
      if s == "daemon" then Some(Daemon) else if s == "cli" then Some(Cli)
      else if s == "pane-observation" then Some(PaneObservation) else if s == "tracker" then Some(Tracker) else None
    }
  }

  datatype Stage = Filed | Claimed | Dispatched | Observed | Verified | Closed
  {
    function Token(): string {
      match this
      case Filed => "filed" case Claimed => "claimed" case Dispatched => "dispatched"
      case Observed => "observed" case Verified => "verified" case Closed => "closed"
    }
    static function FromToken(s: string): Option<Stage> {
      if s == "filed" then Some(Filed) else if s == "claimed" then Some(Claimed)
      else if s == "dispatched" then Some(Dispatched) else if s == "observed" then Some(Observed)
      else if s == "verified" then Some(Verified) else if s == "closed" then Some(Closed) else None
    }
  }

  datatype AttemptOutcome = Delivered | Refused | TimedOut | Unreachable | ToolError | NothingToDo
  {
    function Token(): string {
      match this
      case Delivered => "delivered" case Refused => "refused" case TimedOut => "timed-out"
      case Unreachable => "unreachable" case ToolError => "tool-error" case NothingToDo => "nothing-to-do"
    }
    static function FromToken(s: string): Option<AttemptOutcome> {
      if s == "delivered" then Some(Delivered) else if s == "refused" then Some(Refused)
      else if s == "timed-out" then Some(TimedOut) else if s == "unreachable" then Some(Unreachable)
      else if s == "tool-error" then Some(ToolError) else if s == "nothing-to-do" then Some(NothingToDo) else None
    }
    predicate IsRestrictive() { Refused? || TimedOut? || Unreachable? || ToolError? }
  }

  datatype Binding = VerifiedLive | AdoptedDead | LegacyUnverified
  {
    function Token(): string {
      match this
      case VerifiedLive => "verified-live" case AdoptedDead => "adopted-dead" case LegacyUnverified => "legacy-unverified"
    }
    static function FromToken(s: string): Option<Binding> {
      if s == "verified-live" then Some(VerifiedLive) else if s == "adopted-dead" then Some(AdoptedDead)
      else if s == "legacy-unverified" then Some(LegacyUnverified) else None
    }
  }

  datatype CursorPoint = CursorPoint(project: string, recipient: string, cursor: U64)

  datatype CursorTouch = Untouched | Touched(before: CursorPoint, after: CursorPoint)
  {
    function Before(): Option<CursorPoint> { if Touched? then Some(before) else None }
    function After(): Option<CursorPoint> { if Touched? then Some(after) else None }
  }

  datatype Actor = Actor(agentName: string, paneId: string, paneIndex: U32, binding: Binding)

  datatype PacketError =
    | MissingField(field: string)
    | EmptyField(field: string)
    | MalformedSha256(field: string)
    | ZeroAttempt
    | NonRestrictiveDenial(outcome: AttemptOutcome)
    | IncoherentResult(outcome: AttemptOutcome, outputPresent: bool)
    | Malformed
    | UnsupportedSchema(found: string)
    | UnsupportedVersion(version: nat)
    | FieldOrderViolation(index: nat, expected: string, found: string)
    | EmptyJournal

  // ----- validation

  predicate IsSha256(s: string) {
    |s| == 64 && forall i | 0 <= i < 64 :: '0' <= s[i] <= '9' || 'a' <= s[i] <= 'f'
  }

  datatype EffectResult = Completed(sha: string) | Denied(denial: AttemptOutcome, reason: string)
  {
    function Outcome(): AttemptOutcome { if Completed? then AttemptOutcome.Delivered else denial }
    function OutputSha(): Option<string> { if Completed? then Some(sha) else None }
    function Error(): Option<string> { if Completed? then None else Some(reason) }
  }

  function MakeCompleted(sha: string): Result<EffectResult, PacketError> {
    if IsSha256(sha) then Ok(Completed(sha)) else Err(MalformedSha256("output_sha256"))
  }

  function MakeDenied(outcome: AttemptOutcome, reason: string): Result<EffectResult, PacketError> {
    if !outcome.IsRestrictive() then Err(NonRestrictiveDenial(outcome))
    else if Text.Blank(reason) then Err(EmptyField("error"))
    else Ok(Denied(outcome, reason))
  }

  datatype RowSpec = RowSpec(
    authority: Authority, stage: Stage, actor: Actor, bead: string, attempt: U32, cursor: CursorTouch,
    inputSha: string, result: EffectResult, ts: I64)

  /** `PacketRow::new`: the first refusal, or none. */
  function Refusal(spec: RowSpec): Option<PacketError> {
    if Text.Blank(spec.bead) then Some(EmptyField("bead"))
    else if Text.Blank(spec.actor.agentName) then Some(EmptyField("actor.agent_name"))
    else if Text.Blank(spec.actor.paneId) then Some(EmptyField("actor.pane_id"))
    else if !IsSha256(spec.inputSha) then Some(MalformedSha256("input_sha256"))
    else if spec.attempt == 0 then Some(ZeroAttempt)
    else None
  }

  ghost predicate NonBlank(s: string) { exists i | 0 <= i < |s| :: !Text.IsWhitespace(s[i]) }

  /** 64 lowercase hexadecimal characters. */
  ghost predicate HexDigest(s: string) { |s| == 64 && forall c | c in s :: c in "0123456789abcdef" }

  /** What a row must be to be journaled. */
  ghost predicate Acceptable(bead: string, actor: Actor, inputSha: string, attempt: nat) {
    NonBlank(bead) && NonBlank(actor.agentName) && NonBlank(actor.paneId) && HexDigest(inputSha) && attempt >= 1
  }

  /** The first field, in the order they are checked, that is not as it must be. */
  ghost predicate FirstFault(spec: RowSpec, e: PacketError) {
    if !NonBlank(spec.bead) then e == EmptyField("bead")
    else if !NonBlank(spec.actor.agentName) then e == EmptyField("actor.agent_name")
    else if !NonBlank(spec.actor.paneId) then e == EmptyField("actor.pane_id")
    else if !HexDigest(spec.inputSha) then e == MalformedSha256("input_sha256")
    else spec.attempt == 0 && e == ZeroAttempt
  }

  lemma ShaIsHex(s: string)
    ensures IsSha256(s) <==> HexDigest(s)
  {
    if IsSha256(s) {
      forall c | c in s ensures c in "0123456789abcdef" {
        var i :| 0 <= i < |s| && s[i] == c;
        HexLetters(c);
      }
    }
    if HexDigest(s) {
      forall i | 0 <= i < 64 ensures '0' <= s[i] <= '9' || 'a' <= s[i] <= 'f' {
        assert s[i] in s;
        HexLetters(s[i]);
      }
    }
  }

  lemma HexLetters(c: char)
    ensures c in "0123456789abcdef" <==> '0' <= c <= '9' || 'a' <= c <= 'f'
  {
    var s := "0123456789abcdef";
    if '0' <= c <= '9' { assert s[c as int - '0' as int] == c; }
    if 'a' <= c <= 'f' { assert s[10 + (c as int - 'a' as int)] == c; }
  }

  lemma BlankIsNotNonBlank(s: string)
    ensures Text.Blank(s) <==> !NonBlank(s)
  {
    Text.BlankIff(s);
  }

  /** A spec is refused exactly when a field is not as it must be, for the first such field. */
  lemma RefusalIsFirstFault(spec: RowSpec)
    ensures Refusal(spec).None? <==> Acceptable(spec.bead, spec.actor, spec.inputSha, spec.attempt)
    ensures Refusal(spec).Some? ==> FirstFault(spec, Refusal(spec).value)
  {
    hide Text.Blank, NonBlank, IsSha256, HexDigest;
    BlankIsNotNonBlank(spec.bead);
    BlankIsNotNonBlank(spec.actor.agentName);
    BlankIsNotNonBlank(spec.actor.paneId);
    ShaIsHex(spec.inputSha);
  }

  /** A restrictive outcome carries no digest and a completed one carries it. */
  predicate Coherent(outcome: AttemptOutcome, output: Option<string>) { outcome.IsRestrictive() <==> output.None? }

  /** The validating constructors build coherent results only. */
  lemma ConstructorsAreCoherent(sha: string, outcome: AttemptOutcome, reason: string)
    ensures MakeCompleted(sha).Ok? ==>
      var r := MakeCompleted(sha).value; Coherent(r.Outcome(), r.OutputSha()) && r.OutputSha() == Some(sha) && r.Error().None?
    ensures MakeDenied(outcome, reason).Ok? ==>
      var r := MakeDenied(outcome, reason).value; Coherent(r.Outcome(), r.OutputSha()) && r.OutputSha().None? && r.Error() == Some(reason)
    ensures MakeDenied(outcome, reason).Ok? <==> outcome != AttemptOutcome.Delivered && outcome != NothingToDo && NonBlank(reason)
    ensures MakeDenied(outcome, reason).Err? ==>
      MakeDenied(outcome, reason).error == if outcome == AttemptOutcome.Delivered || outcome == NothingToDo then NonRestrictiveDenial(outcome) else EmptyField("error")
    ensures if HexDigest(sha) then MakeCompleted(sha).Ok? else MakeCompleted(sha) == Err(MalformedSha256("output_sha256"))
  {
    hide Text.Blank, NonBlank, IsSha256, HexDigest;
    BlankIsNotNonBlank(reason);
    ShaIsHex(sha);
  }

  // ----- the writer

  function OptionJson(s: Option<string>): Json { if s.Some? then Str(s.value) else Null }

  function PointJson(p: Option<CursorPoint>): Json {
    if p.None? then Null
    else Obj([Member("project", Str(p.value.project)), Member("recipient", Str(p.value.recipient)), Member("cursor", Int(p.value.cursor))])
  }

  function ActorJson(a: Actor): Json {
    Obj([Member("agent_name", Str(a.agentName)), Member("pane_id", Str(a.paneId)),
         Member("pane_index", Int(a.paneIndex)), Member("pane_binding", Str(a.binding.Token()))])
  }

  /** The wire values, in `FIELD_ORDER`. */
  function RowValues(spec: RowSpec): (vs: seq<Json>)
    ensures |vs| == 14
  {
    [Str(SCHEMA), Int(SCHEMA_VERSION), Int(spec.ts), Str(spec.authority.Token()), Str(spec.stage.Token()), ActorJson(spec.actor),
     Str(spec.bead), Int(spec.attempt), PointJson(spec.cursor.Before()), PointJson(spec.cursor.After()), Str(spec.inputSha),
     OptionJson(spec.result.OutputSha()), Str(spec.result.Outcome().Token()), OptionJson(spec.result.Error())]
  }

  function Zip(keys: seq<string>, values: seq<Json>): (ms: seq<Member>)
    requires |keys| == |values|
    ensures |ms| == |keys| && forall i | 0 <= i < |keys| :: ms[i] == Member(keys[i], values[i])
  {
    seq(|keys|, i requires 0 <= i < |keys| => Member(keys[i], values[i]))
  }

  function RowJson(spec: RowSpec): Json { Obj(Zip(FIELD_ORDER, RowValues(spec))) }

  function EmitLine(spec: RowSpec): string { Write(RowJson(spec)) }

  lemma RowIsPlain(spec: RowSpec)
    ensures Plain(RowJson(spec))
  {
    var vs := RowValues(spec);
    PointIsPlain(spec.cursor.Before());
    PointIsPlain(spec.cursor.After());
    assert Plain(ActorJson(spec.actor));
    forall i | 0 <= i < |vs| ensures Plain(vs[i]) {}
  }

  lemma PointIsPlain(p: Option<CursorPoint>)
    ensures Plain(PointJson(p))
  {
  }

  lemma {:induction false} FlatMembers(members: seq<Member>, d: nat)
    requires forall i | 0 <= i < |members| :: Depth(members[i].value) <= d
    ensures MembersDepth(members) <= d
  {
    if members != [] { FlatMembers(members[1..], d); }
  }

  /** A row nests an actor or a cursor point in an object, and nothing deeper. */
  lemma RowIsShallow(spec: RowSpec)
    ensures Depth(RowJson(spec)) <= 2
  {
    var vs := RowValues(spec);
    ActorIsShallow(spec.actor);
    PointIsShallow(spec.cursor.Before());
    PointIsShallow(spec.cursor.After());
    hide ActorJson, PointJson, MembersDepth, Zip;
    forall i | 0 <= i < |vs| ensures Depth(vs[i]) <= 1 {}
    FlatMembers(Zip(FIELD_ORDER, vs), 1);
  }

  lemma ActorIsShallow(a: Actor)
    ensures Depth(ActorJson(a)) <= 1
  {
    FlatMembers(ActorJson(a).members, 0);
  }

  lemma PointIsShallow(p: Option<CursorPoint>)
    ensures Depth(PointJson(p)) <= 1
  {
    if p.Some? { FlatMembers(PointJson(p).members, 0); }
  }

  // ----- field order

  /**
   The keys follow the contract up to the error's position and leave it there: they
   differ, end early or run on.
   */
  ghost predicate LeavesOrder(keys: seq<string>, order: seq<string>, e: PacketError) {
    && e.FieldOrderViolation? && e.index <= |order| && e.index <= |keys| && keys[..e.index] == order[..e.index]
    && e.expected == (if e.index < |order| then order[e.index] else "<end of row>")
    && e.found == (if e.index < |keys| then keys[e.index] else [])
    && !(e.index == |keys| == |order|) && (e.index < |order| && e.index < |keys| ==> keys[e.index] != order[e.index])
  }

  /** `assert_field_order`: the one violation there is, at the first position the keys leave the contract. */
  method AssertFieldOrder(line: string) returns (r: Result<(), PacketError>)
    ensures r.Ok? <==> Run(INITIAL, line).keys == FIELD_ORDER
    ensures r.Err? ==> LeavesOrder(Run(INITIAL, line).keys, FIELD_ORDER, r.error)
  {
    hide Run;
    var keys := TopLevelKeys(line);
    for i := 0 to |FIELD_ORDER|
      invariant i <= |keys| && keys[..i] == FIELD_ORDER[..i]
    {
      if i >= |keys| { return Err(FieldOrderViolation(i, FIELD_ORDER[i], [])); }
      if keys[i] != FIELD_ORDER[i] { return Err(FieldOrderViolation(i, FIELD_ORDER[i], keys[i])); }
      assert keys[..i + 1] == keys[..i] + [keys[i]] && FIELD_ORDER[..i + 1] == FIELD_ORDER[..i] + [FIELD_ORDER[i]];
    }
    assert FIELD_ORDER[..|FIELD_ORDER|] == FIELD_ORDER;
    if |keys| != |FIELD_ORDER| {
      return Err(FieldOrderViolation(|FIELD_ORDER|, "<end of row>", keys[|FIELD_ORDER|]));
    }
    assert keys[..|keys|] == keys;
    return Ok(());
  }

  lemma AgreeUpTo(keys: seq<string>, order: seq<string>, e: PacketError)
    requires LeavesOrder(keys, order, e)
    ensures forall k | 0 <= k < e.index :: keys[k] == order[k]
  {
    forall k | 0 <= k < e.index ensures keys[k] == order[k] { assert keys[..e.index][k] == order[..e.index][k]; }
  }

  /** Keys leave an order in at most one way, and not at all when they are that order. */
  lemma OneViolation(keys: seq<string>, order: seq<string>, e: PacketError)
    requires LeavesOrder(keys, order, e)
    ensures keys != order
    ensures forall d | LeavesOrder(keys, order, d) :: d == e
  {
    AgreeUpTo(keys, order, e);
    forall d | LeavesOrder(keys, order, d) ensures d == e { AgreeUpTo(keys, order, d); }
  }

  lemma {:induction false} ZipKeysAreSeen(keys: seq<string>, values: seq<Json>)
    requires |keys| == |values| && forall i | 0 <= i < |keys| :: Seen(keys[i]) == keys[i]
    ensures SeenKeys(Zip(keys, values)) == keys
  {
    if keys != [] {
      ZipKeysAreSeen(keys[1..], values[1..]);
      assert Zip(keys, values)[1..] == Zip(keys[1..], values[1..]);
      assert [keys[0]] + keys[1..] == keys;
    }
  }

  lemma FieldNamesArePlain()
    ensures forall i | 0 <= i < |FIELD_ORDER| :: ControlFree(FIELD_ORDER[i])
  {
  }

  /** Whatever the strings of a row hold, the scanner reads exactly the contract's keys off its line. */
  lemma EmittedKeysAreFieldOrder(spec: RowSpec)
    ensures Run(INITIAL, EmitLine(spec)).keys == FIELD_ORDER
  {
    FieldNamesArePlain();
    forall i | 0 <= i < |FIELD_ORDER| ensures Seen(FIELD_ORDER[i]) == FIELD_ORDER[i] {
      SeenIffControlFree(FIELD_ORDER[i]);
    }
    RowIsPlain(spec);
    ZipKeysAreSeen(FIELD_ORDER, RowValues(spec));
    ScannerRecoversKeys(Zip(FIELD_ORDER, RowValues(spec)));
  }

  // ----- the reader

  datatype ParsedRow = ParsedRow(
    schema: string, version: U32, ts: I64, authority: Authority, stage: Stage, actor: Actor, bead: string,
    attempt: U32, cursorBefore: Option<CursorPoint>, cursorAfter: Option<CursorPoint>, inputSha: string,
    outputSha: Option<string>, outcome: AttemptOutcome, error: Option<string>)

  /** A JSON object keeps the last of several members with one key. */
  function Lookup(ms: seq<Member>, key: string): (r: Option<Json>)
    ensures r.None? <==> forall m | m in ms :: m.key != key
    ensures r.Some? ==> Member(key, r.value) in ms
  {
    if ms == [] then None
    else if ms[|ms| - 1].key == key then Some(ms[|ms| - 1].value)
    else
      assert ms == ms[..|ms| - 1] + [ms[|ms| - 1]];
      Lookup(ms[..|ms| - 1], key)
  }

  function AsString(j: Option<Json>): Option<string> {
    if j.Some? && j.value.Str? then Some(j.value.s) else None
  }

  function AsInt(j: Option<Json>, least: int, most: int): (r: Option<int>)
    ensures r.Some? ==> least <= r.value <= most
  {
    if j.Some? && j.value.Int? && least <= j.value.n <= most then Some(j.value.n) else None
  }

  function AsU32(j: Option<Json>): Option<U32> {
    var r := AsInt(j, 0, 0xFFFF_FFFF);
    if r.Some? then Some(r.value) else None
  }

  function AsU64(j: Option<Json>): Option<U64> {
    var r := AsInt(j, 0, U64_MAX);
    if r.Some? then Some(r.value) else None
  }

  function AsI64(j: Option<Json>): Option<I64> {
    var r := AsInt(j, I64_MIN, 0x7FFF_FFFF_FFFF_FFFF);
    if r.Some? then Some(r.value) else None
  }

  /** A unit variant is its name, or an object whose one key is the name and whose value is null. */
  function AsToken<T>(j: Option<Json>, fromToken: string -> Option<T>): Option<T> {
    if j.None? then None
    else match j.value
      case Str(s) => fromToken(s)
      case Obj(ms) =>
        if ms != [] && (forall m | m in ms :: m.key == ms[0].key) && ms[|ms| - 1].value.Null? then fromToken(ms[0].key) else None
      case _ => None
  }

  /** An optional field: missing or null is `Some(None)`; a value that does not decode is `None`. */
  function AsOptional<T>(j: Option<Json>, decode: Option<Json> -> Option<T>): Option<Option<T>> {
    if j.None? || j.value.Null? then Some(None)
    else
      var r := decode(j);
      if r.Some? then Some(r) else None
  }

  function PointOf(project: Option<string>, recipient: Option<string>, cursor: Option<U64>): Option<CursorPoint> {
    if project.Some? && recipient.Some? && cursor.Some? then Some(CursorPoint(project.value, recipient.value, cursor.value)) else None
  }

  /** A nested record is an object read by name, or an array of exactly its fields in order. */
  function AsPoint(j: Option<Json>): Option<CursorPoint> {
    if j.None? then None
    else match j.value
      case Obj(ms) => PointOf(AsString(Lookup(ms, "project")), AsString(Lookup(ms, "recipient")), AsU64(Lookup(ms, "cursor")))
      case Arr(xs) => if |xs| == 3 then PointOf(AsString(Some(xs[0])), AsString(Some(xs[1])), AsU64(Some(xs[2]))) else None
      case _ => None
  }

  function ActorOf(name: Option<string>, pane: Option<string>, index: Option<U32>, binding: Option<Binding>): Option<Actor> {
    if name.Some? && pane.Some? && index.Some? && binding.Some? then Some(Actor(name.value, pane.value, index.value, binding.value)) else None
  }

  function AsActor(j: Option<Json>): Option<Actor> {
    if j.None? then None
    else match j.value
      case Obj(ms) =>
        ActorOf(AsString(Lookup(ms, "agent_name")), AsString(Lookup(ms, "pane_id")), AsU32(Lookup(ms, "pane_index")),
                AsToken(Lookup(ms, "pane_binding"), Binding.FromToken))
      case Arr(xs) =>
        if |xs| == 4
        then ActorOf(AsString(Some(xs[0])), AsString(Some(xs[1])), AsU32(Some(xs[2])), AsToken(Some(xs[3]), Binding.FromToken))
        else None
      case _ => None
  }

  /** The fourteen fields of a row, each looked up by name. */
  datatype Fields = Fields(
    schema: Option<string>, version: Option<U32>, ts: Option<I64>, authority: Option<Authority>, stage: Option<Stage>,
    actor: Option<Actor>, bead: Option<string>, attempt: Option<U32>, cursorBefore: Option<Option<CursorPoint>>,
    cursorAfter: Option<Option<CursorPoint>>, inputSha: Option<string>, outputSha: Option<Option<string>>,
    outcome: Option<AttemptOutcome>, error: Option<Option<string>>)
  {
    function Row(): Option<ParsedRow> {
      if schema.None? || version.None? || ts.None? || authority.None? || stage.None? || actor.None? || bead.None? || attempt.None?
        || cursorBefore.None? || cursorAfter.None? || inputSha.None? || outputSha.None? || outcome.None? || error.None? then None
      else Some(ParsedRow(schema.value, version.value, ts.value, authority.value, stage.value, actor.value, bead.value, attempt.value,
                          cursorBefore.value, cursorAfter.value, inputSha.value, outputSha.value, outcome.value, error.value))
    }
  }

  /** What an object holds under each name of `FIELD_ORDER`. */
  function Found(ms: seq<Member>): (found: seq<Option<Json>>)
    ensures |found| == 14 && forall i | 0 <= i < 14 :: found[i] == Lookup(ms, FIELD_ORDER[i])
  {
    seq(14, i requires 0 <= i < 14 => Lookup(ms, FIELD_ORDER[i]))
  }

  function DecodeFields(found: seq<Option<Json>>): Fields
    requires |found| == 14
  {
    Fields(AsString(found[0]), AsU32(found[1]), AsI64(found[2]),
           AsToken(found[3], Authority.FromToken), AsToken(found[4], Stage.FromToken), AsActor(found[5]),
           AsString(found[6]), AsU32(found[7]), AsOptional(found[8], AsPoint),
           AsOptional(found[9], AsPoint), AsString(found[10]), AsOptional(found[11], AsString),
           AsToken(found[12], AttemptOutcome.FromToken), AsOptional(found[13], AsString))
  }

  function ParseFields(found: seq<Option<Json>>): (r: Result<ParsedRow, PacketError>)
    requires |found| == 14
    ensures r.Ok? ==> r.value.schema == SCHEMA && r.value.version == SCHEMA_VERSION && Coherent(r.value.outcome, r.value.outputSha)
  {
    var schema, version := AsString(found[0]), AsU64(found[1]);
    if schema.None? then Err(MissingField("schema"))
    else if schema.value != SCHEMA then Err(UnsupportedSchema(schema.value))
    else if version.None? then Err(MissingField("version"))
    else if version.value != SCHEMA_VERSION then Err(UnsupportedVersion(version.value))
    else
      var row := DecodeFields(found).Row();
      if row.None? then Err(Malformed)
      else if row.value.outcome.IsRestrictive() == row.value.outputSha.Some?
      then Err(IncoherentResult(row.value.outcome, row.value.outputSha.Some?))
      else Ok(row.value)
  }

  /** `parse_line`: no line, however it was made, yields a denial with a digest or a completion without one. */
  function ParseLine(line: string): (r: Result<ParsedRow, PacketError>)
    ensures r.Ok? ==> r.value.schema == SCHEMA && r.value.version == SCHEMA_VERSION && Coherent(r.value.outcome, r.value.outputSha)
  {
    var j := Read(line);
    if j.None? || !j.value.Obj? then Err(Malformed) else ParseFields(Found(j.value.members))
  }

  /** An optional text is absent when nothing or null stands there, and is refused when anything but a text does. */
  lemma OptionalTextIs(j: Option<Json>)
    ensures AsOptional(j, AsString) == Some(None) <==> j.None? || j.value.Null?
    ensures forall s :: AsOptional(j, AsString) == Some(Some(s)) <==> j == Some(Str(s))
  {
  }

  /** A choice stands as its token, or as an object with that one key, however often repeated, and null under it. */
  predicate StandsFor(j: Option<Json>, token: string) {
    || j == Some(Str(token))
    || (j.Some? && j.value.Obj? && j.value.members != [] && (forall m | m in j.value.members :: m.key == token)
        && j.value.members[|j.value.members| - 1].value == Null)
  }

  lemma ChoiceIs<T>(j: Option<Json>, fromToken: string -> Option<T>, t: T)
    ensures AsToken(j, fromToken) == Some(t) <==> exists token :: StandsFor(j, token) && fromToken(token) == Some(t)
  {
    if AsToken(j, fromToken) == Some(t) {
      assert StandsFor(j, if j.value.Str? then j.value.s else j.value.members[0].key);
    }
    if token :| StandsFor(j, token) && fromToken(token) == Some(t) {
      if j.value.Obj? { assert j.value.members[0] in j.value.members; }
    }
  }

  /** What an actor in either form says. */
  predicate ActorSays(j: Json, a: Actor) {
    || (j.Obj? && Lookup(j.members, "agent_name") == Some(Str(a.agentName)) && Lookup(j.members, "pane_id") == Some(Str(a.paneId))
        && Lookup(j.members, "pane_index") == Some(Int(a.paneIndex))
        && AsToken(Lookup(j.members, "pane_binding"), Binding.FromToken) == Some(a.binding))
    || (j.Arr? && |j.items| == 4 && j.items[0] == Str(a.agentName) && j.items[1] == Str(a.paneId) && j.items[2] == Int(a.paneIndex)
        && AsToken(Some(j.items[3]), Binding.FromToken) == Some(a.binding))
  }

  lemma ActorIs(j: Option<Json>, a: Actor)
    ensures AsActor(j) == Some(a) <==> j.Some? && ActorSays(j.value, a)
  {
    hide Lookup, AsToken;
  }

  /** What a point in either form says. */
  predicate PointSays(j: Json, p: CursorPoint) {
    || (j.Obj? && Lookup(j.members, "project") == Some(Str(p.project)) && Lookup(j.members, "recipient") == Some(Str(p.recipient))
        && Lookup(j.members, "cursor") == Some(Int(p.cursor)))
    || j == Arr([Str(p.project), Str(p.recipient), Int(p.cursor)])
  }

  lemma PointIs(j: Option<Json>, p: CursorPoint)
    ensures AsPoint(j) == Some(p) <==> j.Some? && PointSays(j.value, p)
    ensures AsOptional(j, AsPoint) == Some(None) <==> j.None? || j.value.Null?
    ensures AsOptional(j, AsPoint) == Some(Some(p)) <==> j.Some? && PointSays(j.value, p)
  {
    hide Lookup;
    if j.Some? && j.value.Arr? && |j.value.items| == 3 { assert j.value.items == [j.value.items[0], j.value.items[1], j.value.items[2]]; }
  }

  /** Schema and version are settled before anything else is looked at, and a line that is no object before those. */
  lemma SchemaAndVersionFirst(line: string)
    ensures
      var j := Read(line);
      if j.None? || !j.value.Obj? then ParseLine(line) == Err(Malformed)
      else
        var schema, version := Lookup(j.value.members, "schema"), Lookup(j.value.members, "version");
        if schema.None? || !schema.value.Str? then ParseLine(line) == Err(MissingField("schema"))
        else if schema.value.s != "omp.dispatch.packet" then ParseLine(line) == Err(UnsupportedSchema(schema.value.s))
        else if version.None? || !version.value.Int? || !(0 <= version.value.n <= U64_MAX) then ParseLine(line) == Err(MissingField("version"))
        else if version.value.n != 1 then ParseLine(line) == Err(UnsupportedVersion(version.value.n))
        else ParseLine(line).Ok? || ParseLine(line).error == Malformed || ParseLine(line).error.IncoherentResult?
  {
    hide Read, Lookup, DecodeFields;
    var j := Read(line);
    if j.Some? && j.value.Obj? {
      var found := Found(j.value.members);
      assert found[0] == Lookup(j.value.members, "schema") && found[1] == Lookup(j.value.members, "version");
    }
  }

  /** An accepted row holds what stands under each name, and nothing else. */
  lemma AcceptedRowIsWhatStands(line: string)
    requires ParseLine(line).Ok?
    ensures Read(line).Some? && Read(line).value.Obj?
    ensures
      var ms, r := Read(line).value.members, ParseLine(line).value;
      && Lookup(ms, "ts_unix") == Some(Int(r.ts)) && Lookup(ms, "bead") == Some(Str(r.bead)) && Lookup(ms, "attempt") == Some(Int(r.attempt))
      && Lookup(ms, "input_sha256") == Some(Str(r.inputSha))
      && AsToken(Lookup(ms, "authority"), Authority.FromToken) == Some(r.authority) && AsToken(Lookup(ms, "stage"), Stage.FromToken) == Some(r.stage)
      && AsToken(Lookup(ms, "outcome"), AttemptOutcome.FromToken) == Some(r.outcome) && AsActor(Lookup(ms, "actor")) == Some(r.actor)
      && AsOptional(Lookup(ms, "cursor_before"), AsPoint) == Some(r.cursorBefore) && AsOptional(Lookup(ms, "cursor_after"), AsPoint) == Some(r.cursorAfter)
      && AsOptional(Lookup(ms, "output_sha256"), AsString) == Some(r.outputSha) && AsOptional(Lookup(ms, "error"), AsString) == Some(r.error)
  {
    hide Read, Lookup, AsToken, AsActor, AsPoint, AsOptional;
    var ms := Read(line).value.members;
    var found := Found(ms);
    assert forall i | 0 <= i < 14 :: found[i] == Lookup(ms, FIELD_ORDER[i]);
    NamesInOrder();
    RowOfFields(found);
  }

  lemma NamesInOrder()
    ensures FIELD_ORDER[2] == "ts_unix" && FIELD_ORDER[3] == "authority" && FIELD_ORDER[4] == "stage" && FIELD_ORDER[5] == "actor"
    ensures FIELD_ORDER[6] == "bead" && FIELD_ORDER[7] == "attempt" && FIELD_ORDER[8] == "cursor_before" && FIELD_ORDER[9] == "cursor_after"
    ensures FIELD_ORDER[10] == "input_sha256" && FIELD_ORDER[11] == "output_sha256" && FIELD_ORDER[12] == "outcome" && FIELD_ORDER[13] == "error"
  {
  }

  lemma RowOfFields(found: seq<Option<Json>>)
    requires |found| == 14 && ParseFields(found).Ok?
    ensures
      var r := ParseFields(found).value;
      && found[2] == Some(Int(r.ts)) && found[6] == Some(Str(r.bead)) && found[7] == Some(Int(r.attempt)) && found[10] == Some(Str(r.inputSha))
      && AsToken(found[3], Authority.FromToken) == Some(r.authority) && AsToken(found[4], Stage.FromToken) == Some(r.stage)
      && AsToken(found[12], AttemptOutcome.FromToken) == Some(r.outcome) && AsActor(found[5]) == Some(r.actor)
      && AsOptional(found[8], AsPoint) == Some(r.cursorBefore) && AsOptional(found[9], AsPoint) == Some(r.cursorAfter)
      && AsOptional(found[11], AsString) == Some(r.outputSha) && AsOptional(found[13], AsString) == Some(r.error)
  {
    hide AsToken, AsActor, AsPoint, AsOptional;
  }

  // ----- the reader undoes the writer

  predicate Distinct(keys: seq<string>) { forall i, j | 0 <= i < j < |keys| :: keys[i] != keys[j] }

  lemma {:induction false} LookupFinds(ms: seq<Member>, i: nat)
    requires i < |ms| && forall j | i < j < |ms| :: ms[j].key != ms[i].key
    ensures Lookup(ms, ms[i].key) == Some(ms[i].value)
  {
    var n := |ms| - 1;
    if i < n {
      assert ms[n].key != ms[i].key;
      LookupFinds(ms[..n], i);
    }
  }

  lemma FieldNamesAreDistinct()
    ensures Distinct(FIELD_ORDER)
  {
  }

  /** The row a reader owes for a spec. */
  function Parsed(spec: RowSpec): ParsedRow {
    ParsedRow(SCHEMA, SCHEMA_VERSION, spec.ts, spec.authority, spec.stage, spec.actor, spec.bead, spec.attempt,
              spec.cursor.Before(), spec.cursor.After(), spec.inputSha, spec.result.OutputSha(), spec.result.Outcome(), spec.result.Error())
  }

  const ACTOR_FIELDS: seq<string> := ["agent_name", "pane_id", "pane_index", "pane_binding"]

  lemma ActorFieldsAreFound(ms: seq<Member>)
    requires |ms| == 4 && forall i | 0 <= i < 4 :: ms[i].key == ACTOR_FIELDS[i]
    ensures forall i | 0 <= i < 4 :: Lookup(ms, ACTOR_FIELDS[i]) == Some(ms[i].value)
  {
    assert Distinct(ACTOR_FIELDS);
    forall i: nat | i < 4 ensures Lookup(ms, ACTOR_FIELDS[i]) == Some(ms[i].value) { LookupFinds(ms, i); }
  }

  lemma ActorReadsBack(a: Actor)
    ensures AsActor(Some(ActorJson(a))) == Some(a)
  {
    ActorDecodes(ActorJson(a).members, a);
  }

  lemma ActorDecodes(ms: seq<Member>, a: Actor)
    requires |ms| == 4 && forall i | 0 <= i < 4 :: ms[i].key == ACTOR_FIELDS[i]
    requires ms[0].value == Str(a.agentName) && ms[1].value == Str(a.paneId)
    requires ms[2].value == Int(a.paneIndex) && ms[3].value == Str(a.binding.Token())
    ensures AsActor(Some(Obj(ms))) == Some(a)
  {
    ActorFieldsAreFound(ms);
    var found := seq(4, i requires 0 <= i < 4 => Lookup(ms, ACTOR_FIELDS[i]));
    assert found[0] == Some(Str(a.agentName)) && found[1] == Some(Str(a.paneId));
    assert found[2] == Some(Int(a.paneIndex)) && found[3] == Some(Str(a.binding.Token()));
  }

  lemma PointReadsBack(p: Option<CursorPoint>)
    ensures AsOptional(Some(PointJson(p)), AsPoint) == Some(p)
  {
    if p.Some? {
      var ms := PointJson(p).members;
      LookupFinds(ms, 0);
      LookupFinds(ms, 1);
      LookupFinds(ms, 2);
    }
  }

  lemma TokensReadBack(a: Authority, s: Stage, o: AttemptOutcome)
    ensures Authority.FromToken(a.Token()) == Some(a)
    ensures Stage.FromToken(s.Token()) == Some(s)
    ensures AttemptOutcome.FromToken(o.Token()) == Some(o)
  {
  }

  function Present(values: seq<Json>): (found: seq<Option<Json>>)
    ensures |found| == |values| && forall i | 0 <= i < |values| :: found[i] == Some(values[i])
  {
    seq(|values|, i requires 0 <= i < |values| => Some(values[i]))
  }

  lemma FieldsReadBack(spec: RowSpec)
    ensures DecodeFields(Present(RowValues(spec))).Row() == Some(Parsed(spec))
  {
    TokensReadBack(spec.authority, spec.stage, spec.result.Outcome());
    ActorReadsBack(spec.actor);
    PointReadsBack(spec.cursor.Before());
    PointReadsBack(spec.cursor.After());
  }

  lemma FieldsAreFound(values: seq<Json>)
    requires |values| == 14
    ensures Found(Zip(FIELD_ORDER, values)) == Present(values)
  {
    FieldNamesAreDistinct();
    var ms := Zip(FIELD_ORDER, values);
    forall i: nat | i < 14 ensures Lookup(ms, FIELD_ORDER[i]) == Some(values[i]) { LookupFinds(ms, i); }
    assert Found(ms) == Present(values);
  }

  /** Every emitted line is read back value for value, unless its result is incoherent: then it is refused as that. */
  lemma LineReadsBack(spec: RowSpec)
    ensures
      var outcome, output := spec.result.Outcome(), spec.result.OutputSha();
      ParseLine(EmitLine(spec)) ==
        if Coherent(outcome, output) then Ok(Parsed(spec)) else Err(IncoherentResult(outcome, output.Some?))
  {
    RowIsPlain(spec);
    RowIsShallow(spec);
    ReadUndoesWrite(RowJson(spec));
    FieldsAreFound(RowValues(spec));
    FieldsReadBack(spec);
  }

  /** Field by field, what a reader finds in an emitted line. */
  lemma LineSaysTheSpec(spec: RowSpec)
    ensures
      var r := ParseLine(EmitLine(spec));
      var denied := spec.result.Denied? && spec.result.denial != AttemptOutcome.Delivered && spec.result.denial != NothingToDo;
      && (r.Ok? <==> spec.result.Completed? || denied)
      && (r.Ok? ==>
            && r.value.schema == SCHEMA && r.value.version == SCHEMA_VERSION && r.value.ts == spec.ts
            && r.value.authority == spec.authority && r.value.stage == spec.stage && r.value.actor == spec.actor
            && r.value.bead == spec.bead && r.value.attempt == spec.attempt && r.value.inputSha == spec.inputSha
            && (match spec.cursor
                case Untouched => r.value.cursorBefore.None? && r.value.cursorAfter.None?
                case Touched(a, b) => r.value.cursorBefore == Some(a) && r.value.cursorAfter == Some(b))
            && (match spec.result
                case Completed(sha) => r.value.outcome == AttemptOutcome.Delivered && r.value.outputSha == Some(sha) && r.value.error.None?
                case Denied(denial, why) => r.value.outcome == denial && r.value.outputSha.None? && r.value.error == Some(why)))
  {
    LineReadsBack(spec);
    hide ParseLine, EmitLine;
  }

  /** Two specs with one line are one spec. */
  lemma EmissionIsInjective(a: RowSpec, b: RowSpec)
    requires EmitLine(a) == EmitLine(b)
    ensures a == b
  {
    RowIsPlain(a);
    RowIsPlain(b);
    RowIsShallow(a);
    RowIsShallow(b);
    ReadUndoesWrite(RowJson(a));
    ReadUndoesWrite(RowJson(b));
    FieldsAreFound(RowValues(a));
    FieldsAreFound(RowValues(b));
    FieldsReadBack(a);
    FieldsReadBack(b);
    assert Parsed(a) == Parsed(b);
    ParsedDeterminesSpec(a, b);
  }

  lemma ParsedDeterminesSpec(a: RowSpec, b: RowSpec)
    requires Parsed(a) == Parsed(b)
    ensures a == b
  {
    assert a.result == b.result by {
      assert a.result.Error() == b.result.Error() && a.result.OutputSha() == b.result.OutputSha();
    }
    assert a.cursor == b.cursor by {
      assert a.cursor.Before() == b.cursor.Before() && a.cursor.After() == b.cursor.After();
    }
  }

  // ----- the names on the wire

  /** What stands under each name of an emitted line. */
  lemma WireFields(spec: RowSpec)
    ensures
      var ms := RowJson(spec).members;
      && Lookup(ms, "schema") == Some(Str("omp.dispatch.packet")) && Lookup(ms, "version") == Some(Int(1)) && Lookup(ms, "ts_unix") == Some(Int(spec.ts))
      && Lookup(ms, "authority") == Some(Str(spec.authority.Token())) && Lookup(ms, "stage") == Some(Str(spec.stage.Token()))
      && Lookup(ms, "actor") == Some(ActorJson(spec.actor)) && Lookup(ms, "bead") == Some(Str(spec.bead)) && Lookup(ms, "attempt") == Some(Int(spec.attempt))
      && Lookup(ms, "cursor_before") == Some(if spec.cursor.Touched? then PointJson(Some(spec.cursor.before)) else Null)
      && Lookup(ms, "cursor_after") == Some(if spec.cursor.Touched? then PointJson(Some(spec.cursor.after)) else Null)
      && Lookup(ms, "input_sha256") == Some(Str(spec.inputSha))
      && Lookup(ms, "output_sha256") == Some(if spec.result.Completed? then Str(spec.result.sha) else Null)
      && Lookup(ms, "outcome") == Some(Str(if spec.result.Completed? then "delivered" else spec.result.denial.Token()))
      && Lookup(ms, "error") == Some(if spec.result.Completed? then Null else Str(spec.result.reason))
  {
    FieldsAreFound(RowValues(spec));
    hide Lookup, ActorJson, PointJson;
    var ms, found := RowJson(spec).members, Found(RowJson(spec).members);
    assert forall i | 0 <= i < 14 :: found[i] == Lookup(ms, FIELD_ORDER[i]);
    assert found[0] == Some(RowValues(spec)[0]) && found[1] == Some(RowValues(spec)[1]) && found[2] == Some(RowValues(spec)[2]);
    assert found[3] == Some(RowValues(spec)[3]) && found[4] == Some(RowValues(spec)[4]) && found[5] == Some(RowValues(spec)[5]);
    assert found[6] == Some(RowValues(spec)[6]) && found[7] == Some(RowValues(spec)[7]) && found[8] == Some(RowValues(spec)[8]);
    assert found[9] == Some(RowValues(spec)[9]) && found[10] == Some(RowValues(spec)[10]) && found[11] == Some(RowValues(spec)[11]);
    assert found[12] == Some(RowValues(spec)[12]) && found[13] == Some(RowValues(spec)[13]);
  }

  lemma ActorWireFields(a: Actor)
    ensures
      var ms := ActorJson(a).members;
      && Lookup(ms, "agent_name") == Some(Str(a.agentName)) && Lookup(ms, "pane_id") == Some(Str(a.paneId))
      && Lookup(ms, "pane_index") == Some(Int(a.paneIndex)) && Lookup(ms, "pane_binding") == Some(Str(a.binding.Token()))
  {
    ActorFieldsAreFound(ActorJson(a).members);
    hide Lookup;
    assert ACTOR_FIELDS[0] == "agent_name" && ACTOR_FIELDS[1] == "pane_id" && ACTOR_FIELDS[2] == "pane_index" && ACTOR_FIELDS[3] == "pane_binding";
  }

  lemma PointWireFields(p: CursorPoint)
    ensures
      var ms := PointJson(Some(p)).members;
      Lookup(ms, "project") == Some(Str(p.project)) && Lookup(ms, "recipient") == Some(Str(p.recipient)) && Lookup(ms, "cursor") == Some(Int(p.cursor))
  {
    var ms := PointJson(Some(p)).members;
    LookupFinds(ms, 0);
    LookupFinds(ms, 1);
    LookupFinds(ms, 2);
  }

  /** The token of each choice is its own name in lower case with dashes, and reads back as that choice. */
  lemma WireTokens()
    ensures Authority.FromToken("daemon") == Some(Daemon) && Authority.FromToken("cli") == Some(Cli)
    ensures Authority.FromToken("pane-observation") == Some(PaneObservation) && Authority.FromToken("tracker") == Some(Tracker)
    ensures Stage.FromToken("filed") == Some(Filed) && Stage.FromToken("claimed") == Some(Claimed) && Stage.FromToken("dispatched") == Some(Dispatched)
    ensures Stage.FromToken("observed") == Some(Observed) && Stage.FromToken("verified") == Some(Verified) && Stage.FromToken("closed") == Some(Closed)
    ensures AttemptOutcome.FromToken("delivered") == Some(AttemptOutcome.Delivered) && AttemptOutcome.FromToken("refused") == Some(Refused)
    ensures AttemptOutcome.FromToken("timed-out") == Some(TimedOut) && AttemptOutcome.FromToken("unreachable") == Some(Unreachable)
    ensures AttemptOutcome.FromToken("tool-error") == Some(ToolError) && AttemptOutcome.FromToken("nothing-to-do") == Some(NothingToDo)
    ensures Binding.FromToken("verified-live") == Some(VerifiedLive) && Binding.FromToken("adopted-dead") == Some(AdoptedDead)
    ensures Binding.FromToken("legacy-unverified") == Some(LegacyUnverified)
  {
  }

  // ----- the journal

  /** The exact line, and the digest of that line. */
  datatype EmittedRow = EmittedRow(line: string, sha: string)

  function Emitted(spec: RowSpec, digest: string -> string): EmittedRow { EmittedRow(EmitLine(spec), digest(EmitLine(spec))) }

  function AllEmitted(specs: seq<RowSpec>, digest: string -> string): (rows: seq<EmittedRow>)
    ensures |rows| == |specs| && forall i | 0 <= i < |specs| :: rows[i] == Emitted(specs[i], digest)
  {
    seq(|specs|, i requires 0 <= i < |specs| => Emitted(specs[i], digest))
  }

  function Jsonl(rows: seq<EmittedRow>): string {
    if rows == [] then [] else rows[0].line + ['\n'] + Jsonl(rows[1..])
  }

  /** An append-only journal; `specs` remembers what each row was made from. */
  class PacketJournal {
    var rows: seq<EmittedRow>
    const digest: string -> string
    ghost var specs: seq<RowSpec>

    ghost predicate Valid()
      reads this
    {
      rows == AllEmitted(specs, digest) && forall spec | spec in specs :: Acceptable(spec.bead, spec.actor, spec.inputSha, spec.attempt)
    }

    constructor (digest: string -> string)
      ensures Valid() && specs == [] && this.digest == digest
    {
      rows, specs, this.digest := [], [], digest;
    }

    /** Nothing but a validated row is ever pushed, and a refusal leaves the journal as it was. */
    method Append(spec: RowSpec) returns (r: Result<EmittedRow, PacketError>)
      requires Valid()
      modifies this
      ensures Valid()
      ensures r.Ok? <==> Acceptable(spec.bead, spec.actor, spec.inputSha, spec.attempt)
      ensures r.Err? ==> FirstFault(spec, r.error) && rows == old(rows) && specs == old(specs)
      ensures r.Ok? ==> r == Ok(Emitted(spec, digest)) && rows == old(rows) + [r.value] && specs == old(specs) + [spec]
    {
      hide EmitLine, Refusal, Acceptable, FirstFault;
      RefusalIsFirstFault(spec);
      var refusal := Refusal(spec);
      if refusal.Some? { return Err(refusal.value); }
      var emitted := Emitted(spec, digest);
      rows, specs := rows + [emitted], specs + [spec];
      return Ok(emitted);
    }

    method AssertNonEmpty() returns (r: Result<(), PacketError>)
      requires Valid()
      ensures r == if specs == [] then Err(EmptyJournal) else Ok(())
    {
      r := if rows == [] then Err(EmptyJournal) else Ok(());
    }

    method ToJsonl() returns (out: string)
      requires Valid()
      ensures out == Jsonl(AllEmitted(specs, digest))
    {
      hide EmitLine, Acceptable;
      out := [];
      for i := 0 to |rows|
        invariant out + Jsonl(rows[i..]) == Jsonl(rows)
      {
        out := out + rows[i].line;
        out := out + ['\n'];
        assert rows[i..][1..] == rows[i + 1..];
      }
    }
  }

  lemma LinesHoldNoNewline(spec: RowSpec)
    ensures '\n' !in EmitLine(spec)
  {
    RowIsPlain(spec);
    WrittenHasNoControl(RowJson(spec));
  }

  /** Splitting at newlines gives back the appended lines in order, and one empty piece after the last newline. */
  lemma {:induction false} JsonlSplitsIntoLines(specs: seq<RowSpec>, digest: string -> string)
    ensures Text.Split(Jsonl(AllEmitted(specs, digest)), '\n') == seq(|specs|, i requires 0 <= i < |specs| => EmitLine(specs[i])) + [[]]
  {
    var rows := AllEmitted(specs, digest);
    if specs != [] {
      LinesHoldNoNewline(specs[0]);
      assert rows[1..] == AllEmitted(specs[1..], digest);
      Text.SplitFirst(rows[0].line, '\n', Jsonl(rows[1..]));
      JsonlSplitsIntoLines(specs[1..], digest);
    }
  }

  /** A journal read back line by line is the sequence of rows appended to it. */
  lemma JournalReadsBack(specs: seq<RowSpec>, digest: string -> string)
    requires forall i | 0 <= i < |specs| :: Coherent(specs[i].result.Outcome(), specs[i].result.OutputSha())
    ensures
      var pieces := Text.Split(Jsonl(AllEmitted(specs, digest)), '\n');
      |pieces| == |specs| + 1 && forall i | 0 <= i < |specs| :: ParseLine(pieces[i]) == Ok(Parsed(specs[i]))
  {
    JsonlSplitsIntoLines(specs, digest);
    forall i | 0 <= i < |specs| ensures ParseLine(EmitLine(specs[i])) == Ok(Parsed(specs[i])) { LineReadsBack(specs[i]); }
  }

  /** Each line of a valid journal's text is an acceptable row, or a row whose result was paired wrongly, which is refused as that. */
  lemma JournalHoldsAcceptableRows(specs: seq<RowSpec>, digest: string -> string)
    requires forall spec | spec in specs :: Acceptable(spec.bead, spec.actor, spec.inputSha, spec.attempt)
    ensures
      var pieces := Text.Split(Jsonl(AllEmitted(specs, digest)), '\n');
      && |pieces| == |specs| + 1 && pieces[|specs|] == []
      && forall i | 0 <= i < |specs| ::
        match ParseLine(pieces[i])
        case Ok(row) => Acceptable(row.bead, row.actor, row.inputSha, row.attempt)
        case Err(e) => e.IncoherentResult? && specs[i].result.Denied?
  {
    hide Acceptable, ParseLine, EmitLine, Jsonl;
    JsonlSplitsIntoLines(specs, digest);
    var pieces := Text.Split(Jsonl(AllEmitted(specs, digest)), '\n');
    forall i | 0 <= i < |specs|
      ensures
        match ParseLine(pieces[i])
        case Ok(row) => Acceptable(row.bead, row.actor, row.inputSha, row.attempt)
        case Err(e) => e.IncoherentResult? && specs[i].result.Denied? {
      assert specs[i] in specs && pieces[i] == EmitLine(specs[i]);
      LineReadsBack(specs[i]);
      LineSaysTheSpec(specs[i]);
    }
  }
}
