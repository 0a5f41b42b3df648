# Proofs about the orchestrator's deciding logic

The orchestrator hands beads (tracker issues) to worker panes, waits for proof
that the packet arrived, and decides from the tracker what to do next. These
Dafny files model the parts of it that compute a decision, and prove what the
decision means.

| file | what it models |
|---|---|
| `Walks.dfy`, `Inversion.dfy`, `InversionGate.dfy` | the priority-inversion scan: one breadth-first search per bead, three arms, the P0 list and the exit gate |
| `DefinitionQuality.dfy` | the largest shared-suffix cluster of acceptance texts and the specificity floor |
| `Json.dfy`, `JsonSpelling.dfy`, `KeyScanner.dfy`, `Packet.dfy` | the dispatch-packet row: JSON writer and reader, the grammar the reader is sound for, the independent key scanner, the row reader, the journal |
| `Decimal.dfy`, `Calendar.dfy`, `CalendarText.dfy` | civil dates to epoch seconds and back, twice, and the text forms (RFC 3339) |
| `Text.dfy`, `Completion.dfy`, `FollowUp.dfy` | the completion row's printer and parser, and the two classifiers built on it |
| `Receipt.dfy`, `SpineModel.dfy`, `SpineFreshness.dfy`, `Spine.dfy` | the ack spine: ledger, durable marker, three authorities, cancellation |
| `AckStage.dfy` | which ACK row answers a dispatch, how evidence combines, the bounded retry, what is published |
| `BlockerGraph.dfy`, `Readiness.dfy` | availability from blocker edges, and the reconciliation of the ready and blocked projections |
| `Masking.dfy` | the lexers that blank comments, string literals and raw strings |
| `Ordering.dfy` | Option, Result, and the order behind sorted output |

Code that changes state step by step is a method or a class here, and is proved
against a specification function or predicate; the lemmas are about those. The
objects of `Spine.dfy` are each proved to take exactly the transitions of
`SpineModel.dfy`, where the statements over whole runs live.

`dafny verify dfyconfig.toml` checks everything.

## Findings

Places where the code does less than its words say, each with the exact condition
unless the entry says otherwise:

- A completion row does not always parse back to the signal printed: a verdict
  that spells a later key, or a field with a boundary in it, changes what is
  read. `Completion.RoundTrip` gives the exact condition, `Completion.SpelledKeyIsLost`
  a family that fails.
- Both civil-date converters accept a day past the end of its month, which
  collides with a day of the next month (`Calendar.NonexistentDayCollides`), and
  a leap second collides with the minute after it (`Calendar.SecondsAreMonotone`).
- The two timestamp readers can both accept one text and disagree
  (`CalendarText.WideHourDisagrees`). They never do where the splitting reader's pieces
  are as wide as the other's columns (`CalendarText.ReadersAgree`). That guard is one
  way: beyond it the two read different fields, and where those happen to count the
  same second is arithmetic.
- The key scanner drops an escape's backslash instead of decoding the escape, so it
  reports the keys themselves exactly when none holds a control character
  (`KeyScanner.ScannerRecoversKeys`).
- The specificity floor misreads in one band, where its multiplication saturates
  (`DefinitionQuality.FloorIsExact`). The band starts near 50 PB on a 64-bit
  machine and near 11.8 MB on a 32-bit one (`DefinitionQuality.SaturationMisreads`).
- The two bead classifiers part exactly when some row is a malformed completion and
  none is a good one: one owes an investigation, the sweep built on the other stays
  healthy (`FollowUp.FollowupFollowsSilenceOnly`, and `FollowUp.BarePrefixPartsThem`
  for a bead whose only row is the bare prefix).
- `begin` does not forget earlier authorities, so a second dispatch can clear its
  marker on the first one's evidence, exactly when some authority already spoke for a
  delivery at that `begin` (`SpineFreshness.DispatchIsFreshIffNothingHeld`).
- `record_ack` does not compare bead ids (`SpineModel.ForeignAckClears`): a
  `finish` rests on another bead's acknowledgement exactly when that is the last one
  told by a call that was not cut (`SpineModel.AckIsLastLanded`, `SpineModel.AckNamesThisBead`).
- All three row kinds in the ledger do not imply an acknowledgement
  (`SpineModel.RowsDoNotImplyAcknowledgement`): `finish` judges the recorded facts
  alone (`SpineModel.FinishJudgesTheFacts`).
- With a fresh context per call the marker can lag the ledger without bound
  (`SpineModel.LagGrowsAcrossContexts`), by exactly the calls cut between row and
  marker (`SpineModel.MarkerTrailsByLag`).
- No verdict the ack stage hands on counts as delivery for the ack spine
  (`AckStage.StageVerdictIsNeverSpineDelivery`); a matched ACK on tmux can still be
  answered with a resend (`AckStage.MatchedAckCanStillRetry`); a pane id holding the
  delimiter is never matched (`AckStage.UncleanPaneNeverMatches`).
- Of several acknowledgements the verdict takes the newest and the second reader the
  first listed; `AckStage.ReadersCoincideIff` says when these are one comment, and
  oldest first they are not (`AckStage.OldestFirstParts`).
- The readiness report counts ids where its lists hold rows, so its figures add up
  exactly when ids repeat only on the projections (`Readiness.CountsAddUp`).
- The line lexer copies bytes as characters, so a line keeps its positions only if
  it is ASCII (`Masking.PositionsSurviveIffAscii`), and masking it twice is masking it
  once only if its non-ASCII characters all stand in literals or comments
  (`Masking.LineMaskIsIdempotentIffHidden`; `Masking.AccentInCode` and
  `Masking.AccentInLiteral` are lines of each kind).

## Model

| member | source | states |
|---|---|---|
| Inversion.NextIsAdmittedEdge | crates/bead-availability/src/inversion.rs:251-271 | one bead follows another in the adjacency exactly when some admitted `blocks` edge says so |
| Inversion.NextKeepsEdgeOrder | crates/bead-availability/src/inversion.rs:251-271 | a bead's list holds the targets of its admitted edges, one for each, in the order the edges are listed |
| Walks.EarlierIsTotal | crates/bead-availability/src/inversion.rs:293-337 | breadth-first order, by length and then by the first listed edge at which walks part, orders any two different walks |
| Walks.ShortestArrives | crates/bead-availability/src/inversion.rs:293-337 | once every chain is expanded, each shortest walk within the cap is answered by a chain that comes no later in that order |
| Inversion.SearchIsComplete | crates/bead-availability/src/inversion.rs:277-348 | with the queue empty, every walk within the cap ends at a bead the search reached no later |
| Inversion.FoundIsShortest | crates/bead-availability/src/inversion.rs:277-348 | every recorded chain is a shortest walk to its end |
| Inversion.ScanIssue | crates/bead-availability/src/inversion.rs:277-348 | the loop ends, and its Direct row, Transitive row and flag are exactly those the graph owes: a direct row iff an admitted edge reaches a larger priority number, a transitive row iff some bead at shortest distance 2 to the cap has one, and of all such beads the one whose shortest walk comes first in breadth-first order |
| Inversion.TransitiveRowIsUnique | crates/bead-availability/src/inversion.rs:313-334 | that fixes the row down to its chain |
| InversionGate.Inherit | crates/bead-availability/src/inversion.rs:350-366 | the inheritance arm is the union of the other two, direct first, without repeated ids |
| InversionGate.P0IsRestriction | crates/bead-availability/src/inversion.rs:350-376 | the sorted P0 list is that union restricted to priority 0 |
| InversionGate.ClassifyWith | crates/bead-availability/src/inversion.rs:230-385 | the errors in order, and on distinct ids a classification whose arms, union and P0 list are exact for the whole graph |
| InversionGate.ClassificationIsUnique | crates/bead-availability/src/inversion.rs:350-384 | one graph and one cap admit one exact classification |
| InversionGate.RowsAreReal | crates/bead-availability/src/inversion.rs:313-384 | every row names two listed beads that are not closed, with their own priorities, the blocked one ahead, the last bead of the chain as the blocker, and a `blocks` edge behind each step; its kind says which arm it stands in |
| InversionGate.RowIffChain | crates/bead-availability/src/inversion.rs:277-348 | read off the two input lists alone, a bead has a row iff a chain of listed beads within the cap leads to one of larger priority number, and a Direct row iff one edge does |
| InversionGate.DirectRowIsFirstEdge | crates/bead-availability/src/inversion.rs:328-330 | a Direct row names the first listed edge to a worse bead |
| InversionGate.P0ListIsExact | crates/bead-availability/src/inversion.rs:343-352 | the P0 list is ascending and holds exactly the rows' beads of priority 0 |
| InversionGate.WalkCrosses | crates/bead-availability/src/inversion.rs:277-348 | a walk from a bead to one of larger priority number crosses a single edge that inverts |
| InversionGate.GateIsAnEdgeProperty | crates/bead-availability/src/inversion.rs:132-145 | the gate fires iff the cap admits an edge and one admitted edge inverts |
| InversionGate.EdgeInvertsIff | crates/bead-availability/src/inversion.rs:251-271 | what an inverting edge is, in terms of the input lists alone |
| InversionGate.DepthDoesNotMoveTheGate | crates/bead-availability/src/inversion.rs:57-80 | the direct-only scan and every deeper one exit alike and agree on the Direct arm; the direct-only Transitive arm is empty |
| InversionGate.DeeperScanSeesMore | crates/bead-availability/src/inversion.rs:57-75 | a graph on which the deeper scan's Transitive arm is not |
| DefinitionQuality.CommonSuffix | crates/bead-availability/src/definition_quality.rs:197-209 | the two byte loops return the longest common suffix that starts on a character boundary |
| DefinitionQuality.ShortestPair | crates/bead-availability/src/definition_quality.rs:211-232 | in any group around one text, some single partner attains the smallest shared length |
| DefinitionQuality.GroupBehindPair | crates/bead-availability/src/definition_quality.rs:211-232 | that pair's own suffix is at least as long as the group's and at least as many texts end with it |
| DefinitionQuality.PairsSuffice | crates/bead-availability/src/definition_quality.rs:211-232 | beating every pair is beating every group of any size |
| DefinitionQuality.LargestSuffixCluster | crates/bead-availability/src/definition_quality.rs:211-232 | the pairwise scan returns a real cluster that is globally optimal in size, then in suffix length |
| DefinitionQuality.SplitBytes | crates/bead-availability/src/definition_quality.rs:234-258 | specific bytes plus cluster size times suffix length are all bytes |
| DefinitionQuality.MeasureFamily | crates/bead-availability/src/definition_quality.rs:234-258 | the report's byte split is exact and its cluster is real and optimal; empty input is refused |
| DefinitionQuality.FloorIsExact | crates/bead-availability/src/definition_quality.rs:66-70 | for every word size, the integer floor decides the exact fraction except precisely in the saturation band |
| DefinitionQuality.ShareIsExact | crates/bead-availability/src/definition_quality.rs:234-258 | the share reported is the exact one in thousandths, rounded down, and of the largest word once the product saturates |
| DefinitionQuality.GateIsExact | crates/bead-availability/src/definition_quality.rs:66-80 | `below_floor` on a measured report is the exact fraction outside the band, and true of a corpus with no text |
| DefinitionQuality.LoneBeadIsBelowFloorIff | crates/bead-availability/src/definition_quality.rs:234-258 | one bead alone is wholly specific, and below the floor iff it is longer than the band allows |
| DefinitionQuality.SaturationMisreads | crates/bead-availability/src/definition_quality.rs:234-258 | measuring one text of twelve megabytes on a 32-bit machine reads below the floor though all of it is specific |
| Json.ReadUndoesWrite | crates/agent-mail-native/src/packet.rs:823-828 | every value with integers in range, whatever its strings hold, is written and read back unchanged iff it nests within the reader's limit of 127 levels |
| JsonSpelling.ReadIsSound | crates/agent-mail-native/src/packet.rs:951-956 | whatever the reader accepts spells the value it returns, by the grammar of RFC 8259, with nothing but white space behind and no more than 127 levels |
| Json.WrittenHasNoControl | crates/agent-mail-native/src/packet.rs:1046-1057 | a written value holds no control character, so a row is one line |
| KeyScanner.TopLevelKeys | crates/agent-mail-native/src/packet.rs:850-906 | the character loop returns what the scanner automaton collects |
| KeyScanner.CrossValue | crates/agent-mail-native/src/packet.rs:850-906 | the scanner crosses any written value and comes out as it went in, having reported no key |
| KeyScanner.ScannerRecoversKeys | crates/agent-mail-native/src/packet.rs:850-906 | on any written object it reports one key for each member in order, which are the keys themselves iff none holds a control character |
| Packet.ConstructorsAreCoherent | crates/agent-mail-native/src/packet.rs:607-656 | a result built by the validating constructors carries a digest iff it completed, and an error iff it was denied; which arguments they refuse, and with what error |
| Packet.EmittedKeysAreFieldOrder | crates/agent-mail-native/src/packet.rs:806-906 | the scanner reads exactly the fixed field order off every emitted line |
| Packet.AssertFieldOrder | crates/agent-mail-native/src/packet.rs:912-944 | accepts a line iff its scanned keys are the field order, and otherwise names the position at which they leave it, what was expected there and what was found |
| Packet.OneViolation | crates/agent-mail-native/src/packet.rs:912-944 | keys leave an order in at most one such way |
| Packet.ParseLine | crates/agent-mail-native/src/packet.rs:951-1003 | whatever line is read, an accepted row has this schema and version, and a digest iff its outcome is not restrictive |
| Packet.LineReadsBack | crates/agent-mail-native/src/packet.rs:780-1003 | an emitted line parses back value for value, unless its result pairs outcome and digest incoherently: then it is refused as that |
| Packet.LineSaysTheSpec | crates/agent-mail-native/src/packet.rs:780-1003 | field by field, what a reader finds in an emitted line, and that it is accepted iff the result completed or was denied with a restrictive outcome |
| Packet.WireFields | crates/agent-mail-native/src/packet.rs:806-828 | which value stands under which name of an emitted line |
| Packet.AcceptedRowIsWhatStands | crates/agent-mail-native/src/packet.rs:951-1003 | whatever line is accepted, the row holds what stands under each name in it |
| Packet.EmissionIsInjective | crates/agent-mail-native/src/packet.rs:806-828 | two specs with one line are the same spec |
| Packet.PacketJournal.Append | crates/agent-mail-native/src/packet.rs:1021-1029 | accepts a spec iff bead, agent name and pane id are not blank, the input digest is 64 lowercase hexadecimal characters and the attempt is at least 1, and appends its one row; otherwise names the first field at fault and leaves the journal unchanged |
| Packet.PacketJournal.AssertNonEmpty | crates/agent-mail-native/src/packet.rs:1040-1045 | a journal nothing was appended to is an error |
| Packet.PacketJournal.ToJsonl | crates/agent-mail-native/src/packet.rs:1050-1057 | the text is the JSONL of the appended rows |
| Packet.JsonlSplitsIntoLines | crates/agent-mail-native/src/packet.rs:1046-1057 | splitting it at newlines gives exactly the appended lines in order |
| Packet.JournalReadsBack | crates/agent-mail-native/src/packet.rs:1046-1057 | each of those lines parses back to the row appended |
| Packet.JournalHoldsAcceptableRows | crates/agent-mail-native/src/packet.rs:1021-1057 | each line of a valid journal parses to a row with those properties, or is refused for a denial with an outcome that is not restrictive |
| Calendar.FormulaCountsDays | crates/admission-reason/src/lib.rs:387-410 | the era formula equals the plain count of year and month lengths |
| Calendar.ErasAgree | crates/ack-stage/src/lib.rs:333-353 | the sign-tested truncating era equals the flooring one |
| Calendar.YearOfEraIsExact | crates/admission-reason/src/main.rs:273-277 | the year-of-era quotient is exact on the whole 400-year cycle |
| Calendar.CivilCountsBack | crates/admission-reason/src/main.rs:269-281 | civil-from-days returns a real date whose day count is the input |
| Calendar.DayNumberIsMonotone | crates/admission-reason/src/lib.rs:387-410 | later dates have larger day counts |
| Calendar.RoundTripIffValid | crates/admission-reason/src/lib.rs:387-410 | the two halves are inverse on a date iff the day exists in its month |
| Calendar.ConvertersCount | crates/ack-stage/src/lib.rs:333-353 | both converters return the plain count on exactly the inputs they accept |
| Calendar.FromTheEpochOn | crates/ack-stage/src/lib.rs:333-353 | every real date from 1970 on is accepted |
| Calendar.SecondsAreMonotone | crates/ack-stage/src/lib.rs:333-353 | later date-times get more seconds, except exactly a leap second and the minute right after it |
| Calendar.NonexistentDayCollides | crates/ack-stage/src/lib.rs:333-353 | a day past its month's end is accepted as a day of the next month |
| CalendarText.ColumnRoundTrip | crates/admission-reason/src/main.rs:264-283 | rendering and reading an epoch second by columns is the identity iff the second lies in years -999 to 9999 |
| CalendarText.SplittingRoundTrip | crates/ack-stage/src/lib.rs:312-353 | the splitting reader returns the rendered epoch iff it is not negative and its year fits |
| CalendarText.ReadersAgree | crates/ack-stage/src/lib.rs:312-331 | where the splitting reader's pieces have the columns' widths, whatever they hold, the two readers agree, and where only one accepts, why |
| CalendarText.LayoutIsAligned | crates/ack-stage/src/lib.rs:312-331 | every text in the RFC 3339 layout is such a text |
| CalendarText.OnlyColumnsMatter | crates/admission-reason/src/lib.rs:387-392 | the column reader's answer depends on the six columns and the final `Z` alone |
| CalendarText.ThreePiecesOrNothing | crates/ack-stage/src/lib.rs:312-331 | the splitting reader accepts exactly three pieces of date and of time |
| CalendarText.WideHourDisagrees | crates/admission-reason/src/lib.rs:387-410 | elsewhere both can accept one text and differ, by an exact amount that is nothing only at midnight |
| Completion.RoundTrip | crates/ack-spine/src/completion.rs:66-185 | parsing the printed row returns the identical signal iff its fields survive the delimiters |
| Completion.SpelledKeyIsLost | crates/ack-spine/src/completion.rs:127-185 | a verdict that opens with the evidence key loses the evidence |
| Completion.CleanSurvives | crates/ack-spine/src/completion.rs:66-185 | trimmed, non-empty, key-free fields with delimiter-free token and pane survive |
| Completion.AcceptedIsNormal | crates/ack-spine/src/completion.rs:127-185 | any accepted comment is a completion row of this bead with every field in normal form |
| Completion.BoundaryIsFirstKey | crates/ack-spine/src/completion.rs:173-185 | a value is cut at the first of the three keys with a space in front |
| FollowUp.NamedRowsAreAckRows | crates/ack-spine/src/completion.rs:192-205 | whatever row the ack stage takes for an acknowledgement of a bead, the classifiers take for one too |
| FollowUp.VerdictIsExact | crates/ack-spine/src/followup.rs:176-290 | every verdict of the tracker classifier and the sweep's action on every bead: exactly when it is given and what it carries |
| FollowUp.ClassifyCompletion | crates/ack-spine/src/completion.rs:268-301 | the verdict is the first finished row, else the last malformed one, else what the clock and the other rows leave |
| FollowUp.MalformedIsSubstantive | crates/ack-spine/src/completion.rs:128-205 | a row that fails as a completion passes the tracker classifier's own test for a verdict |
| FollowUp.FollowupSimulatesCompletion | crates/ack-spine/src/followup.rs:176-263 | on a readable, open, not reassigned bead the tracker classifier simulates the completion classifier case by case |
| FollowUp.FollowupFollowsSilenceOnly | crates/ack-spine/src/followup.rs:275-290 | there the sweep acts exactly on silence; it stays healthy where the completion classifier owes an investigation iff some row is a malformed completion and none a good one |
| FollowUp.BarePrefixPartsThem | crates/ack-spine/src/followup.rs:275-290 | a bead whose only row is the bare completion prefix parts the two |
| FollowUp.SilenceIffNothingSaid | crates/ack-spine/src/completion.rs:268-301 | silence is reported iff the deadline passed and every row is an acknowledgement or blank |
| FollowUp.IdleRowsChangeNoOutcome | crates/ack-spine/src/completion.rs:268-301 | inserting acknowledgements or blank rows changes nothing but dispatched to acked |
| FollowUp.IdleRowsChangeNoVerdict | crates/ack-spine/src/followup.rs:176-263 | the tracker classifier ignores them altogether |
| FollowUp.PrintedRowFinishes | crates/ack-spine/src/completion.rs:66-301 | a printed surviving row anywhere makes the bead finished for both classifiers, with that signal if it is the first |
| SpineModel.CallAppendsAtMostItsRow | crates/ack-spine/src/ledger.rs:277-295 | a call appends its one row or nothing, rows equal steps, and an inconsistent ledger is never reported |
| SpineModel.AuthoritiesMove | crates/ack-spine/src/spine.rs:277-390 | an authority changes only in the call recording it, together with its row |
| SpineModel.RunKeepsBacked | crates/ack-spine/src/spine.rs:186-415 | over every run the ledger only grows, carries this intent, and backs each recorded authority with a row |
| SpineModel.LedgerErrorIsUnreachable | crates/ack-spine/src/ledger.rs:405-453 | no run reaches a call that reports an inconsistent ledger, under any faults and cancellations |
| SpineModel.OnlyFullEvidenceClears | crates/ack-spine/src/spine.rs:400-415 | one call removes a marker iff it is a `finish` returning evidence in which all three authorities hold |
| SpineModel.BeginWritesFirst | crates/ack-spine/src/spine.rs:250-262 | `begin` leaves no marker iff it was stopped before its first write, and never emits its row without one |
| SpineModel.RetryStaysForbidden | crates/ack-spine/src/spine.rs:219-221 | once a marker exists, retry stays forbidden over every run until such a `finish`, with a PacketSent, ReceiverVerified and AckReadBack row of this intent in the ledger |
| SpineModel.SuccessLeavesExactMarker | crates/ack-spine/src/spine.rs:237-247 | whatever succeeds, short of a full acknowledgement, leaves a marker of this intent naming the last row |
| SpineModel.CancelledRunOnlyPersists | crates/ack-spine/src/spine.rs:392-397 | on a cancelled context a whole run changes nothing but the marker, only through `cancel`; with working writes it leaves the last reason given, naming the last row |
| SpineModel.MarkerLagsAtMostOne | crates/ack-spine/src/spine.rs:237-247 | on one context with working writes, from any marker an earlier run left, that marker stands until the first write and from then on the marker names the last row or, after cancellation only, the one before it |
| SpineModel.MarkerTrailsByLag | crates/ack-spine/src/spine.rs:237-247 | under any faults and contexts the marker names exactly the row as many back as calls were cut between row and marker since the last success or the last `begin` stopped after its first write, unless it is still one that was out of step before the run |
| SpineModel.LagGrowsAcrossContexts | crates/ack-spine/src/spine.rs:264-274 | with a fresh context per call the lag has no bound |
| SpineModel.VerifiedRowIsNotDelivery | crates/ack-spine/src/spine.rs:299-349 | a ReceiverVerified row that is not delivery is exactly an AckConfirmed receipt |
| SpineModel.RowsDoNotImplyAcknowledgement | crates/ack-spine/src/authorities.rs:59-81 | from any state one reaches a ledger with all three rows on which `finish` keeps the marker |
| SpineModel.FinishJudgesTheFacts | crates/ack-spine/src/spine.rs:400-415 | with all authorities recorded, a live `finish` returns them and the marker goes iff all three hold |
| SpineFreshness.GuardedDispatchRestsOnItsOwnRows | crates/ack-spine/src/spine.rs:250-262 | in every run that begins only while no authority speaks for a delivery, an acknowledging `finish` has all three rows after its own `begin` |
| SpineFreshness.DispatchIsFreshIffNothingHeld | crates/ack-spine/src/spine.rs:250-262 | that guard is exact: a dispatch can only finish on its own evidence, whatever follows, iff nothing spoke for a delivery when it began |
| SpineFreshness.BeginThenFinishClearsIff | crates/ack-spine/src/spine.rs:400-415 | `begin` and `finish` with nothing between clear the marker iff the evidence was already full |
| SpineModel.AckIsLastLanded | crates/ack-spine/src/spine.rs:353-390 | over every run, under any faults, the recorded acknowledgement is the last one told by a call that passed both its checkpoints |
| SpineModel.AckNamesThisBead | crates/ack-spine/src/spine.rs:353-390 | it names this bead iff that last one does, which it always does while every `record_ack` passes its own; `finish` returns that one |
| SpineModel.ReadAckRecordsWhatWasRead | crates/ack-spine/src/spine.rs:373-390 | a `read_ack` that is not cut records an acknowledgement iff the tracker confirmed one, of this bead and with the tracker's marker |
| SpineModel.FinishStandsOnAnAck | crates/ack-spine/src/spine.rs:353-415 | over every run an acknowledging `finish` stands on an acknowledgement recorded, or confirmed by the tracker, in the last word on it |
| SpineModel.ForeignAckClears | crates/ack-spine/src/spine.rs:353-370 | an acknowledgement of another bead completes the evidence and clears the marker |
| Spine.Step | crates/ack-spine/src/ledger.rs:405-453 | checkpoint, row, checkpoint, count: what each cancellation point leaves behind |
| Spine.AckSpine.Begin | crates/ack-spine/src/spine.rs:250-262 | is the `begin` transition |
| Spine.AckSpine.RenderPacket | crates/ack-spine/src/spine.rs:264-274 | is the render transition |
| Spine.AckSpine.RecordTransport | crates/ack-spine/src/spine.rs:277-296 | is the transport transition |
| Spine.AckSpine.RecordDelivery | crates/ack-spine/src/spine.rs:299-350 | is the delivery transition, with the row kind of the receipt |
| Spine.AckSpine.RecordAck | crates/ack-spine/src/spine.rs:353-370 | is the acknowledgement transition |
| Spine.AckSpine.ReadAck | crates/ack-spine/src/spine.rs:373-390 | is the acknowledgement transition for what the tracker said, and returns it; it records an acknowledgement iff the tracker confirmed one |
| Spine.AckSpine.Cancel | crates/ack-spine/src/spine.rs:392-397 | persists the reason even on a cancelled context |
| Spine.AckSpine.Finish | crates/ack-spine/src/spine.rs:400-415 | is the `finish` transition, and allows retry again only with full evidence |
| AckStage.MatchVerdictInSession | crates/ack-stage/src/lib.rs:491-541 | returns the verdict of the greatest (timestamp, index) among well-formed, fresh, in-session ACK rows, and Missing iff there is none |
| AckStage.OnlyCountingRowsMatter | crates/ack-stage/src/lib.rs:507-528 | inserting or deleting any other row changes nothing |
| AckStage.StaleRowsDoNotMatter | crates/ack-stage/src/lib.rs:475-528 | a row no later than the dispatch never changes the verdict |
| AckStage.OutsidersDoNotMatter | crates/ack-stage/src/lib.rs:507-519 | nor does a row of a pane outside the session |
| AckStage.FreshAckDecides | crates/ack-stage/src/lib.rs:521-541 | an acknowledgement after the dispatch and after every other row decides: the match if it is the pane's own, a mismatch if another's of the session |
| AckStage.OrderOnlyBreaksTies | crates/ack-stage/src/lib.rs:521-527 | the order of the list matters only between rows of one timestamp that disagree |
| AckStage.NamedIffPrefixed | crates/ack-stage/src/lib.rs:293-299 | a row names a pane iff it has that pane's prefix and the id holds no early delimiter |
| AckStage.MatchedIsFound | crates/ack-stage/src/lib.rs:545-554 | on a bound read-back a match implies the second reader finds a row |
| AckStage.ReadersAgreeAlone | crates/ack-stage/src/lib.rs:545-554 | alone in its session and with a clean id, one reader has a row iff the other has; the second returns the first such row, the verdict the newest |
| AckStage.ReadersCoincideIff | crates/ack-stage/src/lib.rs:545-554 | these are one comment iff the two rows say the same; between rows of different texts, iff every later row is older |
| AckStage.OldestFirstParts | crates/ack-stage/src/lib.rs:545-554 | two acknowledgements listed oldest first get two answers |
| AckStage.UncleanPaneNeverMatches | crates/ack-stage/src/lib.rs:507-514 | an id with an early delimiter is never matched |
| AckStage.DeliveryIsExact | crates/ack-stage/src/lib.rs:597-658 | the delivery verdict handed on, from the transport, the receiver's verdict and the tracker's answer |
| AckStage.ActionIsExact | crates/ack-stage/src/lib.rs:597-756 | each action, exactly when it is chosen on those inputs and the attempts made; a mismatch is always a bounded retry, and a pane is abandoned only on the receiver's word |
| AckStage.ReceiptIffProven | crates/ack-stage/src/lib.rs:597-658 | a receipt is recorded iff the transport is ntm and the ACK matched |
| AckStage.StageVerdictIsNeverSpineDelivery | crates/ack-spine/src/authorities.rs:64-71 | no delivery verdict of the stage is one the spine accepts |
| AckStage.ProjectionIsExact | crates/ack-stage/src/lib.rs:872-908 | Delivered iff proven, Indeterminate iff tmux, so the record arm is never reached; otherwise pending iff transport, receiver and tracker leave nothing but to measure again, with the attempt reached, else the failure word |
| AckStage.MatchedAckCanStillRetry | crates/ack-stage/src/lib.rs:621-652 | exactly when a matched ACK is still answered with a resend |
| AckStage.RetriesAreBounded | crates/ack-stage/src/lib.rs:743-756 | feeding each ordinal back, the retries issued are consecutive ordinals, as many as asked for up to the budget of three |
| BlockerGraph.EvaluateGraph | crates/bead-availability/src/lib.rs:778-897 | empty and duplicate inputs are refused, and otherwise the report is the graph's |
| BlockerGraph.AvailabilityIsExact | crates/bead-availability/src/lib.rs:839-880 | Available iff every blocker edge leads to a known closed issue, Undecided iff one leads to a missing or tombstoned one, Held otherwise |
| BlockerGraph.StatusesAreTheIssues | crates/bead-availability/src/lib.rs:778-799 | on distinct ids the graph knows each issue by its own status, and nothing else |
| BlockerGraph.BeadReportIsExact | crates/bead-availability/src/lib.rs:839-890 | a bead's report holds its blockers in edge order, each with its own status and state |
| BlockerGraph.UnblocksIsExact | crates/bead-availability/src/lib.rs:800-833 | a bead's `unblocks` is the number of edges it blocks whose child is listed and neither closed nor a tombstone |
| BlockerGraph.GraphListsEveryIssue | crates/bead-availability/src/lib.rs:834-897 | the report holds every issue once, in id order |
| BlockerGraph.StaleIsExact | crates/bead-availability/src/lib.rs:800-822 | an edge is reported stale iff one of its ends is not listed, child first |
| BlockerGraph.UnblocksAddUp | crates/bead-availability/src/lib.rs:828-833 | all `unblocks` counts together are exactly the edges with both ends known and an unfinished child |
| Readiness.ReadSurface | crates/bead-availability/src/lib.rs:266-283 | a projection is accepted iff its ids are known and distinct, else the first offender is named |
| Readiness.ReconcileReadiness | crates/bead-availability/src/lib.rs:254-371 | a report iff the inputs are reconcilable, every error in the source's order, and the unaccounted-row error never |
| Readiness.CandidatesAreTheOpenIssues | crates/bead-availability/src/lib.rs:289-294 | the candidates are the issues whose status is exactly open, each once, in the order given |
| Readiness.ReportIsSorted | crates/bead-availability/src/lib.rs:352-371 | candidates as they came, everything else by id, and one gap figure |
| Readiness.CountsAddUp | crates/bead-availability/src/lib.rs:295-371 | the three lists partition the open rows whether or not ids repeat; the report's admitted, refused and blocked add up to `open_count` iff ids repeat only on the blocked list, its ready, blocked and gap counts iff they repeat only on either list |
| Readiness.RowGivenTwice | crates/bead-availability/src/lib.rs:295-371 | one row given twice: the sums hold exactly while a list names it |
| Readiness.AdmissionIsSound | crates/bead-availability/src/lib.rs:311-347 | recovered is admitted but not listed ready; nothing admitted is an epic, assigned or listed blocked |
| Readiness.AdmissionIsComplete | crates/bead-availability/src/lib.rs:311-347 | each open row is admitted or refused, with which reason, iff the projections and the graph say so |
| Readiness.ListsAreDisjoint | crates/bead-availability/src/lib.rs:311-347 | no row is both admitted and refused |
| Readiness.RecoveredHasOnlyClosedBlockers | crates/bead-availability/src/lib.rs:327-346 | a recovered row has only closed blockers in the graph it was recovered from |
| Readiness.CoveringGraphJudgesAll | crates/bead-availability/src/lib.rs:322-324 | a graph built from records covering the open rows never lacks an answer |
| Masking.CodeLine | crates/asupersync-conformance/src/lib.rs:128-162 | the index loop computes the line's code, and ends |
| Masking.CodeIsIdempotent | crates/asupersync-conformance/src/lib.rs:128-162 | masking a masked line of bytes changes nothing |
| Masking.CommentIsBlanked | crates/asupersync-conformance/src/lib.rs:154-157 | a comment is blanked to the end of the line and the code before it kept |
| Masking.LiteralIsBlanked | crates/asupersync-conformance/src/lib.rs:135-153 | a string literal with any escapes is blanked, and the line goes on after it |
| Masking.PositionsSurviveIffAscii | crates/asupersync-conformance/src/lib.rs:128-162 | a line keeps its positions iff it is ASCII, and then each character is its own or a space |
| Masking.LineMaskIsIdempotentIffHidden | crates/asupersync-conformance/src/lib.rs:128-162 | masking twice is masking once iff every non-ASCII character stands in a literal or behind `//` |
| Masking.AccentInCode | crates/asupersync-conformance/src/lib.rs:128-162 | a non-ASCII character in code moves the line and masks differently again |
| Masking.MaskRawStrings | crates/asupersync-conformance/src/lib.rs:164-194 | the loop over what remains computes the raw-string mask, and ends |
| Masking.RawMaskKeepsEveryPosition | crates/asupersync-conformance/src/lib.rs:164-194 | same length, newlines exactly where they were, every other character its own or a space |
| Masking.RawStringIsBlanked | crates/asupersync-conformance/src/lib.rs:164-194 | a raw string is blanked with its brackets, the text before it kept, and the mask goes on after it |
| Masking.UnclosedIsBlanked | crates/asupersync-conformance/src/lib.rs:164-194 | a raw string never closed is blanked to the end but for its newlines |
| Masking.NothingOpensAfterwards | crates/asupersync-conformance/src/lib.rs:164-194 | no raw string is left open in the result |
| Masking.RawMaskIsIdempotent | crates/asupersync-conformance/src/lib.rs:164-194 | masking twice is masking once |
| Masking.LinesOneByOne | crates/asupersync-conformance/src/lib.rs:196-199 | where each line ends, with newline or carriage return and newline |
| Masking.SourceLineMasksItsLine | crates/asupersync-conformance/src/lib.rs:196-199 | on an ASCII line both masks together leave a mask of that very line |
| Masking.LinesAreNotMoved | crates/asupersync-conformance/src/lib.rs:196-199 | source lines and masked lines correspond one to one, each starting with its own characters or spaces |

## Left out

- Process spawning, HTTP, files, environment and command-line parsing: there is no algorithm behind them.
- Clocks: the epoch second rendered, the elapsed minutes and the retry window are parameters; the ledger rows' two timestamps and detail texts are not modelled.
- Asynchrony: `step` awaits its effect directly and detaches nothing, so each call is a sequential method, cancellation is a poll number from which every checkpoint fails, and marker writes fail where an arbitrary fault function says so.
- Spine.AckSpine.ReadAck: takes the tracker's answer as a parameter; how it is read back from the command's output is not modelled.
- Marker encoding on disk: the marker is an optional value, and a marker that exists but does not parse is not distinguished.
- StepLedger's JSONL and its HEAD-derived figures: the writer and the one-line argument are those of the packet row.
- SHA-256: a function parameter; nothing depends on its value.
- Json.ReadUndoesWrite: covers the compact writer on values without floats; the reader keeps the text of a float, and refuses one by its exact decimal value where the source rounds on the way.
- Error texts of the packet reader are dropped.
- The length reported with a malformed digest, and all display texts but the completion row and the packet line.
- Machine widths: counters and sums are unbounded except where an overflow changes an answer (the saturating product of the floor, the ranges of packet integers, the year of the splitting reader); years below the range of `i32` in the intermediate year of `unix_from_civil` are not modelled, and the depth cap is a natural number.
- Family report counters other than the byte split and the cluster, and the parsing of issue files.
- AckStage.ReceiptIffProven: assumes the receiver's own assessment never answers AckConfirmed, which is how `receiver-receipt` is written; the assessment itself is an input.
- AckStage.ProjectionIsExact: rests on the same assumption; reason texts of the published verdict are reduced to the action.
- `pane_from_assignee` and `classify_close_reason` are function parameters of the tracker classifier.
- Reason texts of blocker reports, stale edges and refused rows are enumerated, not spelled; `parse_br_blockers`, parent-child membership and the BV field are not modelled.
- `async_signatures` and the other counters that read the masked lines.
- Close leases, holders, taxonomies, heartbeats, identities and endpoint discovery: flat case analysis that would only add easy members.
