/**
 Two classifiers of one dispatched bead: by completion rows alone, and by the
 whole tracker row.  They were written apart; here one simulates the other.
 */
module FollowUp {
  import opened Wrappers
  import opened Text
  import opened Completion
  import AckStage

  datatype Outcome =
    | Finished(signal: Signal)
    | MalformedCompletion(error: ParseError)
    | AckedWorking(minutes: nat)
    | VerdictPosted
    | SilentPastDeadline(minutes: nat)
    | Dispatched(minutes: nat)
  {
    predicate FreesCapacity() { Finished? }
    predicate OwesInvestigation() { SilentPastDeadline? || MalformedCompletion? }
  }

  predicate IsAckRow(comment: string, beadId: string) {
    StartsWith(comment, "ACK " + BeadToken(beadId) + ON)
  }

  /** Neither an acknowledgement nor blank. */
  predicate Substantive(comment: string, beadId: string) { !IsAckRow(comment, beadId) && !Blank(comment) }

  /** What an acknowledgement of a bead looks like: its token is what follows the id's last dash. */
  lemma AckRowIsRead(stem: string, token: string, rest: string)
    requires '-' !in token
    ensures IsAckRow("ACK " + (token + (" on " + rest)), stem + "-" + token)
  {
    hide LastSegment, StartsWith;
    LastSegmentIs(stem, '-', token);
    assert BeadToken(stem + "-" + token) == token;
    var prefix := "ACK " + token + ON;
    assert "ACK " + (token + (" on " + rest)) == prefix + rest;
    StartsWithHead(prefix, rest);
  }

  lemma StartsWithHead(head: string, rest: string)
    ensures StartsWith(head + rest, head)
  {
  }

  /** Whatever row the ack stage takes for an acknowledgement of a bead, the classifiers take for one too. */
  lemma NamedRowsAreAckRows(text: string, id: string)
    ensures AckStage.AckedPane(text, id).Some? ==> IsAckRow(text, id)
  {
    hide LastSegment, Find;
  }

  // ----- the four tests of the whole list, each as the source makes it

  predicate Malformed(comment: string, beadId: string) {
    Parse(comment, beadId).Err? && Parse(comment, beadId).error != NotACompletion
  }

  predicate SomeCompletion(comments: seq<string>, id: string) { exists c :: c in comments && Parse(c, id).Ok? }

  predicate SomeMalformed(comments: seq<string>, id: string) { exists c :: c in comments && Malformed(c, id) }

  predicate SomeAck(comments: seq<string>, id: string) { exists c :: c in comments && IsAckRow(c, id) }

  predicate SomeSubstantive(comments: seq<string>, id: string) { exists c :: c in comments && Substantive(c, id) }

  /** The verdict owed for these rows and this clock: the first completion, else the last malformed one, else prose, else the clock. */
  ghost predicate Owed(comments: seq<string>, id: string, elapsed: nat, deadline: nat, o: Outcome) {
    if SomeCompletion(comments, id) then
      exists i | 0 <= i < |comments| ::
        Parse(comments[i], id).Ok? && !SomeCompletion(comments[..i], id) && o == Finished(Parse(comments[i], id).value)
    else if SomeMalformed(comments, id) then
      exists i | 0 <= i < |comments| ::
        Malformed(comments[i], id) && !SomeMalformed(comments[i + 1..], id) && o == MalformedCompletion(Parse(comments[i], id).error)
    else if SomeSubstantive(comments, id) then o == VerdictPosted
    else if elapsed >= deadline then o == SilentPastDeadline(elapsed)
    else if SomeAck(comments, id) then o == AckedWorking(elapsed)
    else o == Dispatched(elapsed)
  }

  /** `classify_completion`: one loop remembering the last malformed row, then the two `any` tests. */
  method ClassifyCompletion(beadId: string, comments: seq<string>, elapsed: nat, deadline: nat) returns (o: Outcome)
    ensures Owed(comments, beadId, elapsed, deadline, o)
  {
    hide Parse, IsAckRow, Substantive;
    var malformed: Option<ParseError> := None;
    ghost var last := 0;
    for i := 0 to |comments|
      invariant forall j | 0 <= j < i :: !Parse(comments[j], beadId).Ok?
      invariant malformed.None? ==> forall j | 0 <= j < i :: !Malformed(comments[j], beadId)
      invariant malformed.Some? ==>
        && last < i && Parse(comments[last], beadId) == Err(malformed.value) && malformed.value != NotACompletion
        && forall j | last < j < i :: !Malformed(comments[j], beadId)
    {
      var parsed := Parse(comments[i], beadId);
      if parsed.Ok? {
        assert comments[i] in comments;
        return Finished(parsed.value);
      }
      if parsed.error != NotACompletion { malformed, last := Some(parsed.error), i; }
    }
    if malformed.Some? {
      assert comments[last] in comments && Malformed(comments[last], beadId);
      return MalformedCompletion(malformed.value);
    }
    var acked := exists c :: c in comments && IsAckRow(c, beadId);
    var substantive := exists c :: c in comments && Substantive(c, beadId);
    if substantive { return VerdictPosted; }
    if elapsed >= deadline { return SilentPastDeadline(elapsed); }
    return if acked then AckedWorking(elapsed) else Dispatched(elapsed);
  }

  // ----- the follow-up classifier

  /** `R` is the classified close reason; `reason` classifies one, `paneOf` reads a pane from an assignee. */
  datatype Verdict<R> =
    | Closed(beadId: string, closeReason: R)
    | Posted(beadId: string)
    | InProgress(beadId: string, minutes: nat)
    | Silent(beadId: string, minutes: nat, pane: Option<string>)
    | Reassigned(beadId: string, newAssignee: string)
    | TrackerError(beadId: string)

  function ClassifyFollowup<R>(
    beadId: string, closed: bool, closeReason: Option<string>, assignedTo: string, original: string,
    comments: seq<string>, elapsed: nat, deadline: nat, readable: bool,
    reason: Option<string> -> R, paneOf: string -> Option<string>): Verdict<R>
  {
    if !readable then TrackerError(beadId)
    else if closed then Closed(beadId, reason(closeReason))
    else if assignedTo != original && assignedTo != [] then Reassigned(beadId, assignedTo)
    else if exists c :: c in comments && Parse(c, beadId).Ok? then Closed(beadId, reason(None))
    else if exists c :: c in comments && !IsAckRow(c, beadId) && Trim(c) != [] then Posted(beadId)
    else if elapsed >= deadline then Silent(beadId, elapsed, paneOf(assignedTo))
    else InProgress(beadId, elapsed)
  }

  datatype Action<R> = Healthy | NeedsFollowUp(verdict: Verdict<R>)

  function FollowupAction<R>(v: Verdict<R>): Action<R> {
    match v
    case Silent(_, _, _) => NeedsFollowUp(v)
    case TrackerError(_) => NeedsFollowUp(v)
    case _ => Healthy
  }

  /** The assignee is someone, and not the one dispatched to. */
  predicate Moved(assignedTo: string, original: string) { assignedTo != [] && assignedTo != original }

  /** Every verdict of the tracker classifier, and the sweep's action, on every bead: what each one says and exactly when it is given. */
  lemma VerdictIsExact<R>(
    id: string, closed: bool, closeReason: Option<string>, assignedTo: string, original: string, comments: seq<string>,
    elapsed: nat, deadline: nat, readable: bool, reason: Option<string> -> R, paneOf: string -> Option<string>)
    ensures
      var v := ClassifyFollowup(id, closed, closeReason, assignedTo, original, comments, elapsed, deadline, readable, reason, paneOf);
      var here := readable && !closed && !Moved(assignedTo, original);
      var idle := forall c | c in comments :: IsAckRow(c, id) || Blank(c);
      && v.beadId == id
      && (v.TrackerError? <==> !readable)
      && (v.Reassigned? <==> readable && !closed && Moved(assignedTo, original)) && (v.Reassigned? ==> v.newAssignee == assignedTo)
      && (v.Closed? <==> readable && (closed || (here && SomeCompletion(comments, id))))
      && (v.Closed? ==> v.closeReason == reason(if closed then closeReason else None))
      && (v.Posted? <==> here && !idle && !SomeCompletion(comments, id))
      && (v.Silent? <==> here && idle && elapsed >= deadline) && (v.Silent? ==> v.minutes == elapsed && v.pane == paneOf(assignedTo))
      && (v.InProgress? <==> here && idle && elapsed < deadline) && (v.InProgress? ==> v.minutes == elapsed)
      && FollowupAction(v) == if !readable || (here && idle && elapsed >= deadline) then NeedsFollowUp(v) else Healthy
  {
    CompletionIsSubstantive(comments, id);
    hide Parse, IsAckRow, Trim;
  }

  // ----- simulation

  /** A row that starts like a completion is neither an acknowledgement nor blank. */
  lemma DoneIsSubstantive(c: string, id: string)
    requires StartsWith(c, DONE_PREFIX)
    ensures Substantive(c, id)
  {
    assert c[0] == c[..|DONE_PREFIX|][0] == 'D';
    if IsAckRow(c, id) { FirstChar(c, "ACK " + BeadToken(id) + ON); }
    NonblankStart(c);
  }

  lemma FirstChar(c: string, prefix: string)
    requires StartsWith(c, prefix) && prefix != []
    ensures c[0] == prefix[0]
  {
    assert c[..|prefix|][0] == c[0];
  }

  lemma NonblankStart(c: string)
    requires c != [] && !IsWhitespace(c[0])
    ensures !Blank(c)
  {
    assert TrimStart(c) == c;
  }

  lemma AckIsNotBlank(c: string, id: string)
    ensures IsAckRow(c, id) ==> !Blank(c)
  {
    if IsAckRow(c, id) {
      FirstChar(c, "ACK " + BeadToken(id) + ON);
      NonblankStart(c);
    }
  }

  /** A row without the completion prefix is no completion at all. */
  lemma OnlyDoneRowsParse(c: string, id: string)
    ensures !StartsWith(c, DONE_PREFIX) ==> Parse(c, id) == Err(NotACompletion)
  {
    hide ParseToken;
  }

  /** A row that tried to be a completion and failed is substantive, so the tracker classifier sees it as a verdict. */
  lemma MalformedIsSubstantive(comments: seq<string>, id: string)
    ensures SomeMalformed(comments, id) ==> SomeSubstantive(comments, id)
  {
    forall c | c in comments && Malformed(c, id) ensures Substantive(c, id) {
      OnlyDoneRowsParse(c, id);
      DoneIsSubstantive(c, id);
    }
  }

  /** On a readable, open, not-reassigned bead the two verdicts match arm by arm. */
  ghost predicate Simulates<R>(v: Verdict<R>, o: Outcome) {
    match v
    case Closed(_, _) => o.Finished?
    case Posted(_) => o.VerdictPosted? || o.MalformedCompletion?
    case Silent(_, m, _) => o == SilentPastDeadline(m)
    case InProgress(_, m) => o == AckedWorking(m) || o == Dispatched(m)
    case _ => false
  }

  lemma FollowupSimulatesCompletion<R>(
    id: string, closeReason: Option<string>, assignedTo: string, original: string, comments: seq<string>,
    elapsed: nat, deadline: nat, reason: Option<string> -> R, paneOf: string -> Option<string>, o: Outcome)
    requires assignedTo == original || assignedTo == []
    requires Owed(comments, id, elapsed, deadline, o)
    ensures Simulates(ClassifyFollowup(id, false, closeReason, assignedTo, original, comments, elapsed, deadline, true, reason, paneOf), o)
  {
    MalformedIsSubstantive(comments, id);
    hide Parse, IsAckRow, Trim;
  }

  /**
   The sweep calls for a follow-up exactly on silence.  The completion classifier
   also owes an investigation when some row is a malformed completion and none is a
   good one; there, and only there, the sweep stays healthy.
   */
  lemma FollowupFollowsSilenceOnly<R>(
    id: string, closeReason: Option<string>, assignedTo: string, original: string, comments: seq<string>,
    elapsed: nat, deadline: nat, reason: Option<string> -> R, paneOf: string -> Option<string>, o: Outcome)
    requires assignedTo == original || assignedTo == []
    requires Owed(comments, id, elapsed, deadline, o)
    ensures
      var v := ClassifyFollowup(id, false, closeReason, assignedTo, original, comments, elapsed, deadline, true, reason, paneOf);
      && (FollowupAction(v) == NeedsFollowUp(v) <==> o.SilentPastDeadline?)
      && (FollowupAction(v) == Healthy && o.OwesInvestigation() <==> SomeMalformed(comments, id) && !SomeCompletion(comments, id))
      && (v.Closed? <==> o.FreesCapacity())
  {
    FollowupSimulatesCompletion(id, closeReason, assignedTo, original, comments, elapsed, deadline, reason, paneOf, o);
    MalformedVerdictIff(comments, id, elapsed, deadline, o);
    hide ClassifyFollowup, Owed, SomeMalformed, SomeCompletion;
  }

  lemma MalformedVerdictIff(comments: seq<string>, id: string, elapsed: nat, deadline: nat, o: Outcome)
    requires Owed(comments, id, elapsed, deadline, o)
    ensures o.MalformedCompletion? <==> SomeMalformed(comments, id) && !SomeCompletion(comments, id)
  {
    hide Parse, IsAckRow, Blank;
  }

  /** A bare completion prefix is such a row: late or not, one classifier owes an investigation for it and the sweep sees nothing. */
  lemma BarePrefixPartsThem<R>(
    id: string, closeReason: Option<string>, assignedTo: string, elapsed: nat, deadline: nat,
    reason: Option<string> -> R, paneOf: string -> Option<string>, o: Outcome)
    requires Owed([DONE_PREFIX], id, elapsed, deadline, o)
    ensures
      var v := ClassifyFollowup(id, false, closeReason, assignedTo, assignedTo, [DONE_PREFIX], elapsed, deadline, true, reason, paneOf);
      o.MalformedCompletion? && o.OwesInvestigation() && v.Posted? && FollowupAction(v) == Healthy
  {
    hide ClassifyFollowup, Owed, SomeMalformed, SomeCompletion;
    BarePrefixIsMalformed(id);
    FollowupFollowsSilenceOnly(id, closeReason, assignedTo, assignedTo, [DONE_PREFIX], elapsed, deadline, reason, paneOf, o);
    FollowupSimulatesCompletion(id, closeReason, assignedTo, assignedTo, [DONE_PREFIX], elapsed, deadline, reason, paneOf, o);
    MalformedVerdictIff([DONE_PREFIX], id, elapsed, deadline, o);
  }

  lemma BarePrefixIsMalformed(id: string)
    ensures SomeMalformed([DONE_PREFIX], id) && !SomeCompletion([DONE_PREFIX], id)
  {
    BarePrefixLacksPane(id);
    hide Parse;
    assert DONE_PREFIX in [DONE_PREFIX];
  }

  lemma BarePrefixLacksPane(id: string)
    ensures Parse(DONE_PREFIX, id) == Err(ParseError.Malformed("pane"))
  {
    assert DONE_PREFIX[|DONE_PREFIX|..] == [];
    hide BeadToken, ParseBody;
  }

  /** Silence is decided by the rows that say something and by the clock, never by an acknowledgement. */
  lemma SilenceIffNothingSaid(comments: seq<string>, id: string, elapsed: nat, deadline: nat, o: Outcome)
    requires Owed(comments, id, elapsed, deadline, o)
    ensures o.SilentPastDeadline? <==> elapsed >= deadline && forall c | c in comments :: IsAckRow(c, id) || Blank(c)
  {
    MalformedIsSubstantive(comments, id);
    CompletionIsSubstantive(comments, id);
    hide Parse, IsAckRow, Blank;
  }

  lemma CompletionIsSubstantive(comments: seq<string>, id: string)
    ensures SomeCompletion(comments, id) ==> SomeSubstantive(comments, id)
  {
    forall c | c in comments && Parse(c, id).Ok? ensures Substantive(c, id) {
      OnlyDoneRowsParse(c, id);
      DoneIsSubstantive(c, id);
    }
  }

  // ----- acknowledgements cannot silence the silence detector

  /** An acknowledgement or a blank row is neither a completion nor malformed nor substantive. */
  lemma IdleRowSaysNothing(c: string, id: string)
    requires IsAckRow(c, id) || Blank(c)
    ensures Parse(c, id) == Err(NotACompletion) && !Substantive(c, id) && (Blank(c) ==> !IsAckRow(c, id))
  {
    hide IsAckRow, Blank, Parse, StartsWith;
    AckIsNotBlank(c, id);
    OnlyDoneRowsParse(c, id);
    assert StartsWith(c, DONE_PREFIX) ==> Substantive(c, id) by {
      if StartsWith(c, DONE_PREFIX) { DoneIsSubstantive(c, id); }
    }
  }

  lemma IdleRowInserts(a: seq<string>, c: string, b: seq<string>, id: string)
    requires IsAckRow(c, id) || Blank(c)
    ensures SomeCompletion(a + [c] + b, id) <==> SomeCompletion(a + b, id)
    ensures SomeMalformed(a + [c] + b, id) <==> SomeMalformed(a + b, id)
    ensures SomeSubstantive(a + [c] + b, id) <==> SomeSubstantive(a + b, id)
    ensures SomeAck(a + [c] + b, id) <==> SomeAck(a + b, id) || IsAckRow(c, id)
  {
    hide Parse, IsAckRow, Substantive, Blank, SomeCompletion, SomeMalformed, SomeSubstantive, SomeAck;
    IdleRowSaysNothing(c, id);
    CompletionInserts(a, c, b, id);
    MalformedInserts(a, c, b, id);
    SubstantiveInserts(a, c, b, id);
    AckInserts(a, c, b, id);
  }

  lemma Inserted(a: seq<string>, c: string, b: seq<string>)
    ensures forall x :: x in a + [c] + b <==> x in a + b || x == c
  {
  }

  lemma CompletionInserts(a: seq<string>, c: string, b: seq<string>, id: string)
    requires !Parse(c, id).Ok?
    ensures SomeCompletion(a + [c] + b, id) <==> SomeCompletion(a + b, id)
  {
    hide Parse;
    Inserted(a, c, b);
  }

  lemma MalformedInserts(a: seq<string>, c: string, b: seq<string>, id: string)
    requires !Malformed(c, id)
    ensures SomeMalformed(a + [c] + b, id) <==> SomeMalformed(a + b, id)
  {
    hide Malformed;
    Inserted(a, c, b);
  }

  lemma SubstantiveInserts(a: seq<string>, c: string, b: seq<string>, id: string)
    requires !Substantive(c, id)
    ensures SomeSubstantive(a + [c] + b, id) <==> SomeSubstantive(a + b, id)
  {
    hide Substantive;
    Inserted(a, c, b);
  }

  lemma AckInserts(a: seq<string>, c: string, b: seq<string>, id: string)
    ensures SomeAck(a + [c] + b, id) <==> SomeAck(a + b, id) || IsAckRow(c, id)
  {
    hide IsAckRow;
    Inserted(a, c, b);
  }

  lemma IdleRowKeepsFirst(a: seq<string>, c: string, b: seq<string>, id: string, i: nat)
    requires (IsAckRow(c, id) || Blank(c)) && i < |a + b| && !SomeCompletion((a + b)[..i], id)
    ensures
      var j := if i < |a| then i else i + 1;
      (a + [c] + b)[j] == (a + b)[i] && !SomeCompletion((a + [c] + b)[..j], id)
  {
    hide SomeCompletion, IsAckRow, Blank;
    if i < |a| {
      assert (a + [c] + b)[..i] == (a + b)[..i];
    } else {
      assert (a + b)[..i] == a + b[..i - |a|];
      assert (a + [c] + b)[..i + 1] == a + [c] + b[..i - |a|];
      IdleRowInserts(a, c, b[..i - |a|], id);
    }
  }

  lemma IdleRowKeepsLast(a: seq<string>, c: string, b: seq<string>, id: string, i: nat)
    requires (IsAckRow(c, id) || Blank(c)) && i < |a + b| && !SomeMalformed((a + b)[i + 1..], id)
    ensures
      var j := if i < |a| then i else i + 1;
      (a + [c] + b)[j] == (a + b)[i] && !SomeMalformed((a + [c] + b)[j + 1..], id)
  {
    hide SomeMalformed, IsAckRow, Blank;
    if i < |a| {
      assert (a + b)[i + 1..] == a[i + 1..] + b;
      assert (a + [c] + b)[i + 1..] == a[i + 1..] + [c] + b;
      IdleRowInserts(a[i + 1..], c, b, id);
    } else {
      assert (a + [c] + b)[i + 2..] == (a + b)[i + 1..];
    }
  }

  /**
   Inserting an acknowledgement or a blank row anywhere changes neither
   classifier, except that a merely dispatched bead becomes an acked one.
   */
  lemma IdleRowsChangeNoOutcome(id: string, a: seq<string>, c: string, b: seq<string>, elapsed: nat, deadline: nat, o: Outcome)
    requires IsAckRow(c, id) || Blank(c)
    requires Owed(a + b, id, elapsed, deadline, o)
    ensures Owed(a + [c] + b, id, elapsed, deadline,
                 if IsAckRow(c, id) && o.Dispatched? then AckedWorking(o.minutes) else o)
  {
    hide Parse, IsAckRow, Blank, SomeCompletion, SomeMalformed, SomeSubstantive, SomeAck;
    IdleRowInserts(a, c, b, id);
    var before, after := a + b, a + [c] + b;
    if SomeCompletion(before, id) {
      var i :| 0 <= i < |before| && Parse(before[i], id).Ok? && !SomeCompletion(before[..i], id) && o == Finished(Parse(before[i], id).value);
      IdleRowKeepsFirst(a, c, b, id, i);
      OwesFirst(after, id, elapsed, deadline, if i < |a| then i else i + 1);
    } else if SomeMalformed(before, id) {
      var i :| 0 <= i < |before| && Malformed(before[i], id) && !SomeMalformed(before[i + 1..], id)
        && o == MalformedCompletion(Parse(before[i], id).error);
      IdleRowKeepsLast(a, c, b, id, i);
      OwesLast(after, id, elapsed, deadline, if i < |a| then i else i + 1);
    }
  }

  lemma OwesFirst(comments: seq<string>, id: string, elapsed: nat, deadline: nat, i: nat)
    requires i < |comments| && Parse(comments[i], id).Ok? && !SomeCompletion(comments[..i], id)
    ensures Owed(comments, id, elapsed, deadline, Finished(Parse(comments[i], id).value))
  {
    hide Parse, SomeMalformed, SomeSubstantive, SomeAck;
    assert comments[i] in comments;
  }

  lemma OwesLast(comments: seq<string>, id: string, elapsed: nat, deadline: nat, i: nat)
    requires !SomeCompletion(comments, id)
    requires i < |comments| && Malformed(comments[i], id) && !SomeMalformed(comments[i + 1..], id)
    ensures Owed(comments, id, elapsed, deadline, MalformedCompletion(Parse(comments[i], id).error))
  {
    hide Parse, SomeCompletion, SomeSubstantive, SomeAck;
    assert comments[i] in comments;
  }

  lemma IdleRowsChangeNoVerdict<R>(
    id: string, a: seq<string>, c: string, b: seq<string>, closed: bool, closeReason: Option<string>, assignedTo: string,
    original: string, elapsed: nat, deadline: nat, readable: bool, reason: Option<string> -> R, paneOf: string -> Option<string>)
    requires IsAckRow(c, id) || Blank(c)
    ensures ClassifyFollowup(id, closed, closeReason, assignedTo, original, a + [c] + b, elapsed, deadline, readable, reason, paneOf)
         == ClassifyFollowup(id, closed, closeReason, assignedTo, original, a + b, elapsed, deadline, readable, reason, paneOf)
  {
    IdleRowInserts(a, c, b, id);
    hide Parse, IsAckRow, Trim;
    TestsAgree(a + [c] + b, id);
    TestsAgree(a + b, id);
  }

  /** The tracker classifier's inline tests are the whole-list tests. */
  lemma TestsAgree(comments: seq<string>, id: string)
    ensures (exists c :: c in comments && Parse(c, id).Ok?) <==> SomeCompletion(comments, id)
    ensures (exists c :: c in comments && !IsAckRow(c, id) && Trim(c) != []) <==> SomeSubstantive(comments, id)
  {
    hide Parse, IsAckRow, Trim;
    forall c | c in comments ensures Substantive(c, id) <==> !IsAckRow(c, id) && Trim(c) != [] {}
  }

  /** A row printed for this bead by a worker whose signal survives is enough for both classifiers to see the finish. */
  lemma PrintedRowFinishes<R>(
    id: string, a: seq<string>, sig: Signal, row: string, b: seq<string>, closeReason: Option<string>, assignedTo: string,
    original: string, elapsed: nat, deadline: nat, reason: Option<string> -> R, paneOf: string -> Option<string>, o: Outcome)
    requires row == Print(sig) && BeadToken(id) == sig.token && Survives(sig)
    requires Owed(a + [row] + b, id, elapsed, deadline, o)
    requires assignedTo == original || assignedTo == []
    ensures o.Finished? && (!SomeCompletion(a, id) ==> o == Finished(sig))
    ensures ClassifyFollowup(id, false, closeReason, assignedTo, original, a + [row] + b, elapsed, deadline, true, reason, paneOf).Closed?
  {
    hide *;
    RoundTrip(sig, id);
    CompletionFinishesBoth(id, a, row, b, closeReason, assignedTo, original, elapsed, deadline, reason, paneOf, o);
  }

  lemma CompletionFinishesBoth<R>(
    id: string, a: seq<string>, c: string, b: seq<string>, closeReason: Option<string>, assignedTo: string, original: string,
    elapsed: nat, deadline: nat, reason: Option<string> -> R, paneOf: string -> Option<string>, o: Outcome)
    requires Parse(c, id).Ok? && Owed(a + [c] + b, id, elapsed, deadline, o)
    requires assignedTo == original || assignedTo == []
    ensures o.Finished? && (!SomeCompletion(a, id) ==> o == Finished(Parse(c, id).value))
    ensures ClassifyFollowup(id, false, closeReason, assignedTo, original, a + [c] + b, elapsed, deadline, true, reason, paneOf).Closed?
  {
    hide ClassifyFollowup, Owed, Parse, SomeCompletion;
    FirstCompletionWins(a, c, b, id, elapsed, deadline, o);
    FollowupSimulatesCompletion(id, closeReason, assignedTo, original, a + [c] + b, elapsed, deadline, reason, paneOf, o);
  }

  lemma NoneBefore(rows: seq<string>, id: string, i: nat)
    requires i <= |rows| && !SomeCompletion(rows[..i], id)
    ensures forall j | 0 <= j < i :: !Parse(rows[j], id).Ok?
  {
    hide Parse;
    forall j | 0 <= j < i ensures !Parse(rows[j], id).Ok? { assert rows[j] in rows[..i]; }
  }

  lemma FirstCompletionWins(a: seq<string>, c: string, b: seq<string>, id: string, elapsed: nat, deadline: nat, o: Outcome)
    requires Parse(c, id).Ok? && Owed(a + [c] + b, id, elapsed, deadline, o)
    ensures o.Finished? && (!SomeCompletion(a, id) ==> o == Finished(Parse(c, id).value))
  {
    hide Parse;
    var rows := a + [c] + b;
    assert rows[|a|] == c && c in rows;
    assert SomeCompletion(rows, id);
    var i :| 0 <= i < |rows| && Parse(rows[i], id).Ok? && !SomeCompletion(rows[..i], id) && o == Finished(Parse(rows[i], id).value);
    NoneBefore(rows, id, i);
    assert i < |a| ==> a[i] == rows[i];
  }
}
