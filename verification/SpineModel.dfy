/**
 The ack spine as a state machine over immutable states: what one call does to
 the ledger, the authorities and the durable marker, with cancellation and
 write failure at every point the code can meet them.
 */
module SpineModel {
  import opened Wrappers
  import Receipt

  datatype Intent = Intent(beadId: string, paneId: string, session: string)

  datatype StepKind =
    | BeadSelected | PacketRendered | FenceChecked | PacketSent | ReceiverVerified | ReceiverTimedOut
    | GradeRequested | GradeReceived | Closed | ClosedWithoutGrade | Redispatched | AckReadBack
  {
    function Name(): string {
      match this
      case BeadSelected => "bead_selected" case PacketRendered => "packet_rendered" case FenceChecked => "fence_checked"
      case PacketSent => "packet_sent" case ReceiverVerified => "receiver_verified"
      case ReceiverTimedOut => "receiver_timed_out" case GradeRequested => "grade_requested"
      case GradeReceived => "grade_received" case Closed => "closed" case ClosedWithoutGrade => "closed_without_grade"
      case Redispatched => "redispatched" case AckReadBack => "ack_read_back"
    }
  }

  datatype Row = Row(kind: StepKind, intent: Intent)

  // ----- the three authorities

  datatype Transport = Succeeded(receipt: string) | Failed(detail: string)
  datatype Delivery = Observed(verdict: Receipt.Verdict) | NotObserved(why: string)
  datatype Ack = ReadBack(beadId: string, commentId: string) | NotReadBack(cause: string)

  predicate Delivered(d: Delivery) { d.Observed? && d.verdict.ReceiptConfirmed? }

  datatype Evidence = Evidence(transport: Transport, delivery: Delivery, ack: Ack)
  {
    predicate FullyAcknowledged() { transport.Succeeded? && Delivered(delivery) && ack.ReadBack? }
  }

  /** What the tracker read-back said. */
  datatype AckVerdict = Confirmed(beadId: string, marker: string) | Missing(bead: string, wanted: string) | Unverifiable(id: string, detail: string)

  // ----- the environment

  /** A context answers every checkpoint until `cancelAt`, and none from there on. */
  datatype Context = Context(polls: nat, cancelAt: Option<nat>)
  {
    predicate Live() { cancelAt.None? || polls < cancelAt.value }
    function Polled(): Context { this.(polls := polls + 1) }
  }

  /** The durable record; `lastStep` is the wire name of the ledger's last row. */
  datatype Pending = Pending(intent: Intent, lastStep: Option<string>, reason: string)

  datatype SpineError = Cancelled | EmptyLedger | InconsistentLedger | MissingAuthority(name: string) | Io

  // ----- one call

  /** `writes` counts marker writes and removals; a fault function says which of them fail, changing nothing. */
  datatype State = State(
    intent: Intent, rows: seq<Row>, steps: nat, transport: Option<Transport>, delivery: Option<Delivery>,
    ack: Option<Ack>, marker: Option<Pending>, writes: nat)

  datatype Outcome<+R> = Outcome(state: State, cx: Context, result: Result<R, SpineError>)

  function LastStep(rows: seq<Row>): Option<string> {
    if rows == [] then None else Some(rows[|rows| - 1].kind.Name())
  }

  function Persist(s: State, faults: nat -> bool, reason: string): (State, Result<(), SpineError>) {
    var tried := s.(writes := s.writes + 1);
    if faults(s.writes) then (tried, Err(Io))
    else (tried.(marker := Some(Pending(s.intent, LastStep(s.rows), reason))), Ok(()))
  }

  function Remove(s: State, faults: nat -> bool): (State, Result<(), SpineError>) {
    var tried := s.(writes := s.writes + 1);
    if faults(s.writes) then (tried, Err(Io)) else (tried.(marker := None), Ok(()))
  }

  /** Checkpoint, row, checkpoint, count. */
  function EmitStep(s: State, cx: Context, kind: StepKind): Outcome<()> {
    if !cx.Live() then Outcome(s, cx.Polled(), Err(Cancelled))
    else
      var t, later := s.(rows := s.rows + [Row(kind, s.intent)], steps := s.steps + 1), cx.Polled();
      Outcome(t, later.Polled(),
              if !later.Live() then Err(Cancelled) else if |t.rows| != t.steps then Err(InconsistentLedger) else Ok(()))
  }

  datatype Fact = NoFact | TransportFact(t: Transport) | DeliveryFact(d: Delivery) | AckFact(a: Ack)

  function Keep(s: State, fact: Fact): State {
    match fact
    case NoFact => s
    case TransportFact(t) => s.(transport := Some(t))
    case DeliveryFact(d) => s.(delivery := Some(d))
    case AckFact(a) => s.(ack := Some(a))
  }

  /** Emit the row, then keep the fact, then write the marker: whatever stops early skips the rest. */
  function RecordStep(s: State, cx: Context, faults: nat -> bool, kind: StepKind, fact: Fact, reason: string): Outcome<()> {
    var e := EmitStep(s, cx, kind);
    if e.result.Err? then e
    else
      var (t, r) := Persist(Keep(e.state, fact), faults, reason);
      Outcome(t, e.cx, r)
  }

  function BeginStep(s: State, cx: Context, faults: nat -> bool): Outcome<()> {
    if !cx.Live() then Outcome(s, cx.Polled(), Err(Cancelled))
    else
      var (t, r) := Persist(s, faults, "dispatch_started");
      if r.Err? then Outcome(t, cx.Polled(), r) else RecordStep(t, cx.Polled(), faults, BeadSelected, NoFact, "bead_selected")
  }

  /** `ReceiverVerified` for either confirmation, `ReceiverTimedOut` for everything else. */
  function DeliveryKind(d: Delivery): StepKind {
    if d.Observed? && (d.verdict.ReceiptConfirmed? || d.verdict.AckConfirmed?) then ReceiverVerified else ReceiverTimedOut
  }

  function AckOf(intent: Intent, verdict: AckVerdict): Ack {
    match verdict
    case Confirmed(_, marker) => ReadBack(intent.beadId, marker)
    case Missing(_, _) => NotReadBack("marker absent from br comments list")
    case Unverifiable(_, detail) => NotReadBack("tracker unreadable: " + detail)
  }

  function EvidenceOf(s: State): Result<Evidence, SpineError> {
    if s.transport.None? then Err(MissingAuthority("transport"))
    else if s.delivery.None? then Err(MissingAuthority("delivery"))
    else if s.ack.None? then Err(MissingAuthority("ack"))
    else Ok(Evidence(s.transport.value, s.delivery.value, s.ack.value))
  }

  function FinishStep(s: State, cx: Context, faults: nat -> bool): Outcome<Evidence> {
    var later := cx.Polled();
    if !cx.Live() then Outcome(s, later, Err(Cancelled))
    else if s.rows == [] && s.steps == 0 then Outcome(s, later, Err(EmptyLedger))
    else if |s.rows| != s.steps then Outcome(s, later, Err(InconsistentLedger))
    else
      var evidence := EvidenceOf(s);
      if evidence.Err? then Outcome(s, later, evidence)
      else
        var (t, r) := if evidence.value.FullyAcknowledged() then Remove(s, faults) else Persist(s, faults, "incomplete_authorities");
        Outcome(t, later, if r.Err? then Err(r.error) else evidence)
  }

  /** Cancelling polls nothing: it works on a cancelled context. */
  function CancelStep(s: State, cx: Context, faults: nat -> bool, reason: string): Outcome<()> {
    var (t, r) := Persist(s, faults, reason);
    Outcome(t, cx, if r.Err? then r else if |t.rows| != t.steps then Err(InconsistentLedger) else Ok(()))
  }

  datatype Call =
    | Begin
    | RenderPacket
    | RecordTransport(transport: Transport)
    | RecordDelivery(delivery: Delivery)
    | RecordAck(ack: Ack)
    | ReadAck(verdict: AckVerdict)
    | Cancel(reason: string)
    | Finish

  function Quiet(o: Outcome<()>): Outcome<Option<Evidence>> {
    Outcome(o.state, o.cx, if o.result.Err? then Err(o.result.error) else Ok(None))
  }

  function Apply(s: State, cx: Context, faults: nat -> bool, call: Call): Outcome<Option<Evidence>> {
    match call
    case Begin => Quiet(BeginStep(s, cx, faults))
    case RenderPacket => Quiet(RecordStep(s, cx, faults, PacketRendered, NoFact, "packet_rendered"))
    case RecordTransport(t) => Quiet(RecordStep(s, cx, faults, PacketSent, TransportFact(t), "transport_recorded"))
    case RecordDelivery(d) => Quiet(RecordStep(s, cx, faults, DeliveryKind(d), DeliveryFact(d), "delivery_recorded"))
    case RecordAck(a) => Quiet(RecordStep(s, cx, faults, AckReadBack, AckFact(a), "ack_recorded"))
    case ReadAck(v) => Quiet(RecordStep(s, cx, faults, AckReadBack, AckFact(AckOf(s.intent, v)), "ack_recorded"))
    case Cancel(reason) => Quiet(CancelStep(s, cx, faults, reason))
    case Finish =>
      var o := FinishStep(s, cx, faults);
      Outcome(o.state, o.cx, if o.result.Err? then Err(o.result.error) else Ok(Some(o.result.value)))
  }

  /** A fresh spine over whatever marker an earlier run left behind. */
  function Fresh(intent: Intent, marker: Option<Pending>): State { State(intent, [], 0, None, None, None, marker, 0) }

  // ----- runs

  /** Each call brings its own context, in whatever state that context is. */
  datatype Event = Event(call: Call, cx: Context)

  function Run(s: State, faults: nat -> bool, events: seq<Event>): State {
    if events == [] then s
    else
      var n := |events| - 1;
      Apply(Run(s, faults, events[..n]), events[n].cx, faults, events[n].call).state
  }

  predicate HasRow(s: State, kind: StepKind) { Row(kind, s.intent) in s.rows }

  /** One row per step, every row this intent's, and a row behind each authority. */
  ghost predicate Backed(s: State) {
    && |s.rows| == s.steps
    && (forall row | row in s.rows :: row.intent == s.intent)
    && (s.transport.Some? ==> HasRow(s, PacketSent))
    && (s.delivery.Some? ==> HasRow(s, DeliveryKind(s.delivery.value)))
    && (s.ack.Some? ==> HasRow(s, AckReadBack))
  }

  predicate Prefix(a: seq<Row>, b: seq<Row>) { |a| <= |b| && b[..|a|] == a }

  /** The row a call adds when it gets past its first checkpoint. */
  function RowKind(call: Call): Option<StepKind> {
    match call
    case Begin => Some(BeadSelected)
    case RenderPacket => Some(PacketRendered)
    case RecordTransport(_) => Some(PacketSent)
    case RecordDelivery(d) => Some(DeliveryKind(d))
    case RecordAck(_) => Some(AckReadBack)
    case ReadAck(_) => Some(AckReadBack)
    case Cancel(_) => None
    case Finish => None
  }

  /** A call leaves the ledger alone or appends its one row, and never reports an inconsistent ledger. */
  lemma CallAppendsAtMostItsRow(s: State, cx: Context, faults: nat -> bool, call: Call)
    requires |s.rows| == s.steps
    ensures
      var o := Apply(s, cx, faults, call);
      && |o.state.rows| == o.state.steps && o.state.intent == s.intent
      && (o.state.rows == s.rows || (RowKind(call).Some? && o.state.rows == s.rows + [Row(RowKind(call).value, s.intent)]))
      && (o.result.Ok? && RowKind(call).Some? ==> o.state.rows != s.rows)
      && o.result != Err(InconsistentLedger)
  {
    hide LastStep;
    assert RowKind(call).Some? ==> |s.rows + [Row(RowKind(call).value, s.intent)]| == |s.rows| + 1;
  }

  lemma CallKeepsBacked(s: State, cx: Context, faults: nat -> bool, call: Call)
    requires Backed(s)
    ensures Backed(Apply(s, cx, faults, call).state)
  {
    CallAppendsAtMostItsRow(s, cx, faults, call);
    var t := Apply(s, cx, faults, call).state;
    forall row | row in t.rows ensures row.intent == s.intent {
      assert row in s.rows || row == Row(RowKind(call).value, s.intent);
    }
    forall row | row in s.rows ensures row in t.rows {}
    AuthoritiesMove(s, cx, faults, call);
    if RowKind(call).Some? && t.rows != s.rows { assert t.rows[|s.rows|] == Row(RowKind(call).value, s.intent); }
  }

  /** An authority changes only in the call that records it, and only together with its row. */
  lemma AuthoritiesMove(s: State, cx: Context, faults: nat -> bool, call: Call)
    ensures
      var t := Apply(s, cx, faults, call).state;
      && (t.transport == s.transport || (call.RecordTransport? && t.transport == Some(call.transport) && t.rows != s.rows))
      && (t.delivery == s.delivery || (call.RecordDelivery? && t.delivery == Some(call.delivery) && t.rows != s.rows))
      && (t.ack == s.ack || (t.rows != s.rows
          && ((call.RecordAck? && t.ack == Some(call.ack)) || (call.ReadAck? && t.ack == Some(AckOf(s.intent, call.verdict))))))
  {
    hide LastStep;
    if RowKind(call).Some? { assert |s.rows + [Row(RowKind(call).value, s.intent)]| == |s.rows| + 1; }
  }

  lemma {:induction false} RunKeepsBacked(s: State, faults: nat -> bool, events: seq<Event>)
    requires Backed(s)
    ensures
      var t := Run(s, faults, events);
      Backed(t) && t.intent == s.intent && Prefix(s.rows, t.rows) && |t.rows| <= |s.rows| + |events|
  {
    if events != [] {
      var n := |events| - 1;
      RunKeepsBacked(s, faults, events[..n]);
      var u := Run(s, faults, events[..n]);
      CallAppendsAtMostItsRow(u, events[n].cx, faults, events[n].call);
      CallKeepsBacked(u, events[n].cx, faults, events[n].call);
    }
  }

  /** No reachable call can report an inconsistent ledger, whatever marker, faults and cancellations it meets. */
  lemma LedgerErrorIsUnreachable(intent: Intent, marker: Option<Pending>, faults: nat -> bool, events: seq<Event>, cx: Context, call: Call)
    ensures
      var s := Run(Fresh(intent, marker), faults, events);
      |s.rows| == s.steps && Apply(s, cx, faults, call).result != Err(InconsistentLedger)
  {
    RunKeepsBacked(Fresh(intent, marker), faults, events);
    CallAppendsAtMostItsRow(Run(Fresh(intent, marker), faults, events), cx, faults, call);
  }

  // ----- the marker

  /** A `finish` that returned evidence in which all three authorities hold. */
  predicate Acknowledges(o: Outcome<Option<Evidence>>, call: Call) {
    call.Finish? && o.result.Ok? && o.result.value.Some? && o.result.value.value.FullyAcknowledged()
  }

  /** One call removes a marker exactly when it is such a `finish`. */
  lemma OnlyFullEvidenceClears(s: State, cx: Context, faults: nat -> bool, call: Call)
    requires s.marker.Some?
    ensures Apply(s, cx, faults, call).state.marker.None? <==> Acknowledges(Apply(s, cx, faults, call), call)
  {
    hide LastStep;
  }

  /** `begin` leaves no marker only if it was stopped before its first write; a row of it is always behind a marker. */
  lemma BeginWritesFirst(s: State, cx: Context, faults: nat -> bool)
    ensures
      var o := BeginStep(s, cx, faults);
      && (o.state.marker.None? <==> s.marker.None? && (!cx.Live() || faults(s.writes)))
      && (o.state.rows != s.rows ==> o.state.marker.Some?)
      && (o.result.Ok? ==> o.state.marker == Some(Pending(s.intent, Some(BeadSelected.Name()), "bead_selected")))
  {
  }

  /** At event `k` a `finish` acknowledged, with a row of each authority already in the ledger. */
  ghost predicate AcknowledgedAt(s: State, faults: nat -> bool, events: seq<Event>, k: nat)
    requires k < |events|
  {
    var u := Run(s, faults, events[..k]);
    && Acknowledges(Apply(u, events[k].cx, faults, events[k].call), events[k].call)
    && HasRow(u, PacketSent) && HasRow(u, ReceiverVerified) && HasRow(u, AckReadBack)
  }

  /** Once there is a marker, retry stays forbidden until a full acknowledgement with all three rows behind it. */
  lemma {:induction false} RetryStaysForbidden(s: State, faults: nat -> bool, events: seq<Event>)
    requires Backed(s) && s.marker.Some?
    ensures Run(s, faults, events).marker.None? ==> exists k: nat | k < |events| :: AcknowledgedAt(s, faults, events, k)
  {
    if events != [] && Run(s, faults, events).marker.None? {
      var n := |events| - 1;
      var u := Run(s, faults, events[..n]);
      if u.marker.Some? {
        RunKeepsBacked(s, faults, events[..n]);
        OnlyFullEvidenceClears(u, events[n].cx, faults, events[n].call);
        assert AcknowledgedAt(s, faults, events, n);
      } else {
        RetryStaysForbidden(s, faults, events[..n]);
        var k: nat :| k < n && AcknowledgedAt(s, faults, events[..n], k);
        assert events[..n][..k] == events[..k];
        assert AcknowledgedAt(s, faults, events, k);
      }
    }
  }

  /** Whatever succeeds, short of a full acknowledgement, leaves a marker of this intent naming the ledger's last row. */
  lemma SuccessLeavesExactMarker(s: State, cx: Context, faults: nat -> bool, call: Call)
    requires Apply(s, cx, faults, call).result.Ok?
    ensures
      var o := Apply(s, cx, faults, call);
      Acknowledges(o, call) || (o.state.marker.Some? && o.state.marker.value.intent == s.intent && InStep(o.state))
  {
    hide LastStep;
  }

  /** The reason that marker carries tells which call wrote it. */
  lemma SuccessSaysWhichCall(s: State, cx: Context, faults: nat -> bool, call: Call)
    requires Apply(s, cx, faults, call).result.Ok? && Apply(s, cx, faults, call).state.marker.Some? && !Acknowledges(Apply(s, cx, faults, call), call)
    ensures
      var reason := Apply(s, cx, faults, call).state.marker.value.reason;
      && (call.Begin? ==> reason == "bead_selected") && (call.RenderPacket? ==> reason == "packet_rendered")
      && (call.RecordTransport? ==> reason == "transport_recorded") && (call.RecordDelivery? ==> reason == "delivery_recorded")
      && (call.RecordAck? || call.ReadAck? ==> reason == "ack_recorded") && (call.Finish? ==> reason == "incomplete_authorities")
      && (call.Cancel? ==> reason == call.reason)
  {
    hide LastStep;
  }

  /** The names a marker uses for rows tell the rows' kinds apart. */
  lemma NamesTellKinds(a: StepKind, b: StepKind)
    ensures a.Name() == b.Name() ==> a == b
  {
    NameIsKey(a);
    NameIsKey(b);
    hide *;
  }

  /** Two characters and the length settle which name it is. */
  function KeyOf(name: string): (nat, char, char) { if name == [] then (0, ' ', ' ') else (|name|, name[0], name[|name| - 1]) }

  lemma NameIsKey(k: StepKind)
    ensures KeyOf(k.Name()) == match k
      case BeadSelected => (13, 'b', 'd') case PacketRendered => (15, 'p', 'd') case FenceChecked => (13, 'f', 'd')
      case PacketSent => (11, 'p', 't') case ReceiverVerified => (17, 'r', 'd') case ReceiverTimedOut => (18, 'r', 't')
      case GradeRequested => (15, 'g', 'd') case GradeReceived => (14, 'g', 'd') case Closed => (6, 'c', 'd')
      case ClosedWithoutGrade => (20, 'c', 'e') case Redispatched => (12, 'r', 'd') case AckReadBack => (13, 'a', 'k')
  {
  }

  /** Why a live `finish` is refused: no row yet, and then the first authority nobody recorded. */
  lemma FinishNamesWhatIsMissing(s: State, faults: nat -> bool)
    requires |s.rows| == s.steps && !faults(s.writes)
    ensures
      var r := Apply(s, NEVER, faults, Finish).result;
      && (r == Err(EmptyLedger) <==> s.rows == [])
      && (r == Err(MissingAuthority("transport")) <==> s.rows != [] && s.transport.None?)
      && (r == Err(MissingAuthority("delivery")) <==> s.rows != [] && s.transport.Some? && s.delivery.None?)
      && (r == Err(MissingAuthority("ack")) <==> s.rows != [] && s.transport.Some? && s.delivery.Some? && s.ack.None?)
      && (r.Ok? <==> s.rows != [] && s.transport.Some? && s.delivery.Some? && s.ack.Some?)
  {
    assert "transport"[0] == 't' && "delivery"[0] == 'd' && "ack"[0] == 'a';
    hide LastStep;
  }

  // ----- cancellation

  /** `cancel` records its reason on any context, live or cancelled, unless the write itself fails. */
  lemma CancelAlwaysPersists(s: State, cx: Context, faults: nat -> bool, reason: string)
    ensures
      var o := Apply(s, cx, faults, Cancel(reason));
      var marker := if faults(s.writes) then s.marker else Some(Pending(s.intent, LastStep(s.rows), reason));
      && o.cx == cx && o.state == s.(marker := marker, writes := s.writes + 1)
      && (o.result.Ok? <==> !faults(s.writes) && |s.rows| == s.steps)
  {
  }

  /** On a cancelled context every call but `cancel` changes nothing and says so. */
  lemma CancelledContextIsInert(s: State, cx: Context, faults: nat -> bool, call: Call)
    requires !cx.Live() && !call.Cancel?
    ensures Apply(s, cx, faults, call).state == s && Apply(s, cx, faults, call).result == Err(Cancelled)
  {
  }

  /** One context threaded through all calls. */
  function Thread(s: State, cx: Context, faults: nat -> bool, calls: seq<Call>): (State, Context) {
    if calls == [] then (s, cx)
    else
      var n := |calls| - 1;
      var (t, later) := Thread(s, cx, faults, calls[..n]);
      var o := Apply(t, later, faults, calls[n]);
      (o.state, o.cx)
  }

  /** The marker names the last row, or the one before it. */
  predicate InStep(s: State) { s.marker.None? || s.marker.value.lastStep == LastStep(s.rows) }
  predicate OneBehind(s: State) { s.marker.Some? && s.rows != [] && s.marker.value.lastStep == LastStep(s.rows[..|s.rows| - 1]) }

  /** A call that writes leaves the marker in step, or one row behind a context it found cancelled. */
  lemma WritingCallLagsAtMostOne(s: State, cx: Context, faults: nat -> bool, call: Call)
    requires !faults(s.writes) && !faults(s.writes + 1) && |s.rows| == s.steps
    ensures
      var o := Apply(s, cx, faults, call);
      if o.state.writes == s.writes then o.state.marker == s.marker else InStep(o.state) || (!o.cx.Live() && OneBehind(o.state))
  {
    hide LastStep;
    if RowKind(call).Some? { assert (s.rows + [Row(RowKind(call).value, s.intent)])[..|s.rows|] == s.rows; }
  }

  /** A call that writes nothing adds a row only by being cut right after it. */
  lemma SilentCallLagsAtMostOne(s: State, cx: Context, faults: nat -> bool, call: Call)
    requires |s.rows| == s.steps && Apply(s, cx, faults, call).state.writes == s.writes
    requires InStep(s) || (!cx.Live() && OneBehind(s))
    ensures
      var o := Apply(s, cx, faults, call);
      InStep(o.state) || (!o.cx.Live() && OneBehind(o.state))
  {
    hide LastStep;
    if RowKind(call).Some? { assert (s.rows + [Row(RowKind(call).value, s.intent)])[..|s.rows|] == s.rows; }
  }

  /**
   Without write failures and on one context, from any marker an earlier run left:
   until the first write that marker stands, and from then on the marker is never
   more than one row behind, and only after cancellation.
   */
  lemma {:induction false} MarkerLagsAtMostOne(s: State, cx: Context, faults: nat -> bool, calls: seq<Call>)
    requires |s.rows| == s.steps && forall n :: !faults(n)
    ensures
      var (t, later) := Thread(s, cx, faults, calls);
      && |t.rows| == t.steps && t.writes >= s.writes
      && if t.writes == s.writes then t.marker == s.marker else InStep(t) || (!later.Live() && OneBehind(t))
  {
    if calls != [] {
      var n := |calls| - 1;
      MarkerLagsAtMostOne(s, cx, faults, calls[..n]);
      var (t, later) := Thread(s, cx, faults, calls[..n]);
      hide Apply;
      WritesGrow(t, later, faults, calls[n]);
      WritingCallLagsAtMostOne(t, later, faults, calls[n]);
      if t.writes > s.writes && Apply(t, later, faults, calls[n]).state.writes == t.writes {
        SilentCallLagsAtMostOne(t, later, faults, calls[n]);
      }
      CallAppendsAtMostItsRow(t, later, faults, calls[n]);
    }
  }

  lemma WritesGrow(s: State, cx: Context, faults: nat -> bool, call: Call)
    ensures Apply(s, cx, faults, call).state.writes >= s.writes
  {
    hide LastStep;
  }

  /** The reason of the last `cancel` among these calls. */
  function LastReason(calls: seq<Call>): Option<string> {
    if calls == [] then None
    else
      var n := |calls| - 1;
      if calls[n].Cancel? then Some(calls[n].reason) else LastReason(calls[..n])
  }

  /**
   On a cancelled context a whole run can only rewrite the marker, by `cancel`, and
   what it writes names the ledger's last row; if the writes work, the run leaves the
   last reason given, or without a `cancel` the marker that was there.
   */
  lemma {:induction false} CancelledRunOnlyPersists(s: State, cx: Context, faults: nat -> bool, calls: seq<Call>)
    requires !cx.Live()
    ensures
      var (t, later) := Thread(s, cx, faults, calls);
      && !later.Live() && t.(marker := s.marker, writes := s.writes) == s
      && (t.marker == s.marker || (t.marker.Some? && t.marker.value.intent == s.intent && InStep(t)))
      && (LastReason(calls).None? ==> t == s)
      && (LastReason(calls).Some? && (forall n :: !faults(n)) ==>
            t.marker == Some(Pending(s.intent, LastStep(s.rows), LastReason(calls).value)))
  {
    hide LastStep;
    if calls != [] {
      var n := |calls| - 1;
      CancelledRunOnlyPersists(s, cx, faults, calls[..n]);
      var (t, later) := Thread(s, cx, faults, calls[..n]);
      if calls[n].Cancel? {
        CancelAlwaysPersists(t, later, faults, calls[n].reason);
      } else {
        CancelledContextIsInert(t, later, faults, calls[n]);
      }
      hide Apply;
    }
  }

  // ----- the exact lag

  /**
   How many rows the marker trails after a run: each call cut between its row and its
   marker adds one; each success clears the count, and so does the first write of a
   `begin` stopped later.
   */
  function Lag(s: State, faults: nat -> bool, events: seq<Event>): nat {
    if events == [] then 0
    else
      var n := |events| - 1;
      var u := Run(s, faults, events[..n]);
      LagAfter(Lag(s, faults, events[..n]), u, faults, events[n])
  }

  function LagAfter(lag: nat, u: State, faults: nat -> bool, e: Event): nat {
    var o := Apply(u, e.cx, faults, e.call);
    var cut := if |o.state.rows| > |u.rows| then 1 else 0;
    if o.result.Ok? then 0
    else if e.call.Begin? && e.cx.Live() && !faults(u.writes) then cut
    else lag + cut
  }

  predicate Trails(s: State, lag: nat) {
    lag <= |s.rows| && (s.marker.Some? ==> s.marker.value.lastStep == LastStep(s.rows[..|s.rows| - lag]))
  }

  /** A marker that trails goes on trailing; any other stands as it is until a call writes it anew. */
  lemma CallMovesLag(lag: nat, u: State, faults: nat -> bool, e: Event)
    requires |u.rows| == u.steps
    ensures
      var t := Apply(u, e.cx, faults, e.call).state;
      Trails(t, LagAfter(lag, u, faults, e)) || (!Trails(u, lag) && t.marker == u.marker)
  {
    hide LastStep;
    if Apply(u, e.cx, faults, e.call).result.Ok? {
      SuccessLeavesExactMarker(u, e.cx, faults, e.call);
      hide Apply;
      var t := Apply(u, e.cx, faults, e.call).state;
      assert t.rows[..|t.rows|] == t.rows;
    } else if e.call.Begin? && e.cx.Live() && !faults(u.writes) {
      StoppedBeginTrails(u, e.cx, faults);
    } else {
      FailureKeepsMarker(u, e.cx, faults, e.call);
      CallAppendsAtMostItsRow(u, e.cx, faults, e.call);
      hide Apply;
      var t := Apply(u, e.cx, faults, e.call).state;
      if Trails(u, lag) { assert t.rows[..|u.rows| - lag] == u.rows[..|u.rows| - lag]; }
    }
  }

  lemma StoppedBeginTrails(u: State, cx: Context, faults: nat -> bool)
    requires |u.rows| == u.steps && cx.Live() && !faults(u.writes) && Apply(u, cx, faults, Begin).result.Err?
    ensures
      var t := Apply(u, cx, faults, Begin).state;
      |t.rows| >= |u.rows| && Trails(t, if |t.rows| > |u.rows| then 1 else 0)
  {
    hide LastStep;
    assert u.rows[..|u.rows|] == u.rows;
    assert (u.rows + [Row(BeadSelected, u.intent)])[..|u.rows|] == u.rows;
  }

  /** A call that fails leaves the marker as it was, except a `begin` past its first write. */
  lemma FailureKeepsMarker(u: State, cx: Context, faults: nat -> bool, call: Call)
    requires |u.rows| == u.steps && Apply(u, cx, faults, call).result.Err?
    requires !(call.Begin? && cx.Live() && !faults(u.writes))
    ensures Apply(u, cx, faults, call).state.marker == u.marker
  {
    hide LastStep;
    if RowKind(call).Some? { assert |u.rows + [Row(RowKind(call).value, u.intent)]| == |u.rows| + 1; }
  }

  /**
   Under any faults and any contexts the marker, while there is one, names exactly the
   row that many back, unless it is still one that was out of step before the run.
   */
  lemma {:induction false} MarkerTrailsByLag(s: State, faults: nat -> bool, events: seq<Event>)
    requires |s.rows| == s.steps
    ensures
      var t := Run(s, faults, events);
      |t.rows| == t.steps && (Trails(t, Lag(s, faults, events)) || (!InStep(s) && t.marker == s.marker))
  {
    if events == [] {
      assert s.rows[..|s.rows|] == s.rows;
    } else {
      var n := |events| - 1;
      MarkerTrailsByLag(s, faults, events[..n]);
      var u := Run(s, faults, events[..n]);
      CallMovesLag(Lag(s, faults, events[..n]), u, faults, events[n]);
      CallAppendsAtMostItsRow(u, events[n].cx, faults, events[n].call);
    }
  }

  function Repeat(e: Event, n: nat): (r: seq<Event>)
    ensures |r| == n
  {
    if n == 0 then [] else Repeat(e, n - 1) + [e]
  }

  /** With a new context for each call the lag has no bound: every render is cancelled between its row and its marker. */
  lemma {:induction false} LagGrowsAcrossContexts(s: State, faults: nat -> bool, n: nat)
    requires |s.rows| == s.steps
    ensures
      var t := Run(s, faults, Repeat(Event(RenderPacket, Context(0, Some(1))), n));
      t.marker == s.marker && |t.rows| == |s.rows| + n && |t.rows| == t.steps
  {
    if n > 0 {
      var e := Event(RenderPacket, Context(0, Some(1)));
      LagGrowsAcrossContexts(s, faults, n - 1);
      RunOfRepeat(s, faults, e, n);
      RenderCutShort(Run(s, faults, Repeat(e, n - 1)), faults);
    }
  }

  lemma RunOfRepeat(s: State, faults: nat -> bool, e: Event, n: nat)
    requires n > 0
    ensures Run(s, faults, Repeat(e, n)) == Apply(Run(s, faults, Repeat(e, n - 1)), e.cx, faults, e.call).state
  {
    assert Repeat(e, n)[..n - 1] == Repeat(e, n - 1);
  }

  /** Cancelled right after its row, a render leaves the marker behind. */
  lemma RenderCutShort(s: State, faults: nat -> bool)
    requires |s.rows| == s.steps
    ensures
      var t := Apply(s, Context(0, Some(1)), faults, RenderPacket).state;
      t.marker == s.marker && |t.rows| == |s.rows| + 1 && |t.rows| == t.steps
  {
  }

  // ----- what the marker and the ledger do not say

  const NEVER: Context := Context(0, None)

  /** An acknowledgement seen by the receiver check logs `ReceiverVerified` and is still not delivery. */
  lemma VerifiedRowIsNotDelivery(d: Delivery)
    ensures Delivered(d) ==> DeliveryKind(d) == ReceiverVerified
    ensures DeliveryKind(d) == ReceiverVerified && !Delivered(d) <==> d.Observed? && d.verdict.AckConfirmed?
  {
  }

  /** On a live context with working writes a recording call succeeds and keeps what it was given. */
  lemma RecordingLands(s: State, faults: nat -> bool, call: Call)
    requires |s.rows| == s.steps && !faults(s.writes)
    requires call.RecordTransport? || call.RecordDelivery? || call.RecordAck?
    ensures
      var o := Apply(s, NEVER, faults, call);
      && o.result.Ok? && o.state.marker.Some?
      && o.state.transport == (if call.RecordTransport? then Some(call.transport) else s.transport)
      && o.state.delivery == (if call.RecordDelivery? then Some(call.delivery) else s.delivery)
      && o.state.ack == (if call.RecordAck? then Some(call.ack) else s.ack)
  {
    assert |s.rows + [Row(RowKind(call).value, s.intent)]| == |s.rows| + 1;
  }

  /** So from any state one can reach a ledger with all three rows on which `finish` still keeps the marker. */
  lemma RowsDoNotImplyAcknowledgement(s: State, faults: nat -> bool, comment: string)
    requires Backed(s) && forall n :: !faults(n)
    ensures
      var t := Apply(s, NEVER, faults, RecordTransport(Succeeded([]))).state;
      var u := Apply(t, NEVER, faults, RecordDelivery(Observed(Receipt.AckConfirmed(s.intent.paneId, comment)))).state;
      var v := Apply(u, NEVER, faults, RecordAck(ReadBack(s.intent.beadId, comment))).state;
      var o := Apply(v, NEVER, faults, Finish);
      HasRow(v, PacketSent) && HasRow(v, ReceiverVerified) && HasRow(v, AckReadBack) && o.result.Ok? && o.state.marker.Some?
  {
    var a, b, c := RecordTransport(Succeeded([])), RecordDelivery(Observed(Receipt.AckConfirmed(s.intent.paneId, comment))),
                   RecordAck(ReadBack(s.intent.beadId, comment));
    var t := Apply(s, NEVER, faults, a).state;
    RecordingLands(s, faults, a);
    CallKeepsBacked(s, NEVER, faults, a);
    var u := Apply(t, NEVER, faults, b).state;
    RecordingLands(t, faults, b);
    CallKeepsBacked(t, NEVER, faults, b);
    var v := Apply(u, NEVER, faults, c).state;
    RecordingLands(u, faults, c);
    CallKeepsBacked(u, NEVER, faults, c);
    FinishJudgesTheFacts(v, faults);
  }

  /** On a live context with working writes and all authorities recorded, `finish` answers them and the marker follows. */
  lemma FinishJudgesTheFacts(s: State, faults: nat -> bool)
    requires Backed(s) && EvidenceOf(s).Ok? && !faults(s.writes)
    ensures
      var o := Apply(s, NEVER, faults, Finish);
      o.result == Ok(Some(EvidenceOf(s).value)) && (o.state.marker.None? <==> EvidenceOf(s).value.FullyAcknowledged())
  {
    assert Row(PacketSent, s.intent) in s.rows;
  }

  predicate OwnAck(ack: Option<Ack>, intent: Intent) { ack.Some? && ack.value.ReadBack? ==> ack.value.beadId == intent.beadId }

  /** What a call would record as the acknowledgement. */
  function AckTold(intent: Intent, call: Call): Option<Ack> {
    match call
    case RecordAck(a) => Some(a)
    case ReadAck(v) => Some(AckOf(intent, v))
    case _ => None
  }

  /** The call passes both its checkpoints. */
  predicate Lands(cx: Context) { cx.Live() && cx.Polled().Live() }

  /** The last acknowledgement told by a call that was not cut. */
  function LastAck(intent: Intent, events: seq<Event>): Option<Ack> {
    if events == [] then None
    else
      var n := |events| - 1;
      if AckTold(intent, events[n].call).Some? && Lands(events[n].cx) then AckTold(intent, events[n].call) else LastAck(intent, events[..n])
  }

  lemma CallRecordsAck(s: State, cx: Context, faults: nat -> bool, call: Call)
    requires |s.rows| == s.steps
    ensures Apply(s, cx, faults, call).state.ack == if AckTold(s.intent, call).Some? && Lands(cx) then AckTold(s.intent, call) else s.ack
  {
    hide LastStep;
    if RowKind(call).Some? { assert |s.rows + [Row(RowKind(call).value, s.intent)]| == s.steps + 1; }
  }

  /** Over every run the recorded acknowledgement is the last one that landed, whatever writes failed. */
  lemma {:induction false} AckIsLastLanded(intent: Intent, marker: Option<Pending>, faults: nat -> bool, events: seq<Event>)
    ensures Run(Fresh(intent, marker), faults, events).ack == LastAck(intent, events)
  {
    if events != [] {
      var n := |events| - 1;
      AckIsLastLanded(intent, marker, faults, events[..n]);
      RunKeepsBacked(Fresh(intent, marker), faults, events[..n]);
      hide Apply, AckTold;
      CallRecordsAck(Run(Fresh(intent, marker), faults, events[..n]), events[n].cx, faults, events[n].call);
    }
  }

  /**
   `record_ack` does not look at the bead.  What `finish` returns was read from
   this bead exactly when the last acknowledgement that landed was; so it always is
   while every `record_ack` passes its own.
   */
  lemma AckNamesThisBead(intent: Intent, marker: Option<Pending>, faults: nat -> bool, events: seq<Event>)
    ensures OwnAck(Run(Fresh(intent, marker), faults, events).ack, intent) <==> OwnAck(LastAck(intent, events), intent)
    ensures (forall e | e in events && e.call.RecordAck? :: OwnAck(Some(e.call.ack), intent)) ==> OwnAck(LastAck(intent, events), intent)
    ensures forall cx :: (
      var o := Apply(Run(Fresh(intent, marker), faults, events), cx, faults, Finish);
      o.result.Ok? ==> o.result.value.Some? && LastAck(intent, events) == Some(o.result.value.value.ack))
  {
    AckIsLastLanded(intent, marker, faults, events);
    if forall e | e in events && e.call.RecordAck? :: OwnAck(Some(e.call.ack), intent) { OwnCallsLandOwnAck(intent, events); }
    hide Run, LastAck;
  }

  lemma {:induction false} OwnCallsLandOwnAck(intent: Intent, events: seq<Event>)
    requires forall e | e in events && e.call.RecordAck? :: OwnAck(Some(e.call.ack), intent)
    ensures OwnAck(LastAck(intent, events), intent)
  {
    if events != [] {
      var n := |events| - 1;
      assert events[n] in events && forall e | e in events[..n] :: e in events;
      OwnCallsLandOwnAck(intent, events[..n]);
    }
  }

  /** What `read_ack` records: an acknowledgement exactly when the tracker confirmed one, of this bead and with the tracker's marker. */
  lemma ReadAckRecordsWhatWasRead(s: State, cx: Context, faults: nat -> bool, v: AckVerdict)
    requires |s.rows| == s.steps && Lands(cx)
    ensures
      var t := Apply(s, cx, faults, ReadAck(v)).state;
      && t.ack.Some? && (t.ack.value.ReadBack? <==> v.Confirmed?)
      && (v.Confirmed? ==> t.ack.value.beadId == s.intent.beadId && t.ack.value.commentId == v.marker)
  {
    CallRecordsAck(s, cx, faults, ReadAck(v));
    hide Apply;
  }

  /** A call that told of an acknowledgement there is. */
  predicate TellsOne(call: Call) {
    match call
    case RecordAck(a) => a.ReadBack?
    case ReadAck(v) => v.Confirmed?
    case _ => false
  }

  /** Event `k` is the last that recorded anything about the acknowledgement. */
  ghost predicate LastWord(events: seq<Event>, k: nat) {
    && k < |events| && Lands(events[k].cx) && (events[k].call.RecordAck? || events[k].call.ReadAck?)
    && forall j | k < j < |events| :: !(Lands(events[j].cx) && (events[j].call.RecordAck? || events[j].call.ReadAck?))
  }

  /** An acknowledging `finish` always stands on an acknowledgement recorded, or confirmed by the tracker, in the run's last word on it. */
  lemma FinishStandsOnAnAck(intent: Intent, marker: Option<Pending>, faults: nat -> bool, events: seq<Event>, cx: Context)
    requires Acknowledges(Apply(Run(Fresh(intent, marker), faults, events), cx, faults, Finish), Finish)
    ensures exists k: nat :: LastWord(events, k) && TellsOne(events[k].call)
  {
    AckIsLastLanded(intent, marker, faults, events);
    assert LastAck(intent, events).Some? && LastAck(intent, events).value.ReadBack?;
    var k := LastLanded(intent, events);
  }

  lemma {:induction false} LastLanded(intent: Intent, events: seq<Event>) returns (k: nat)
    requires LastAck(intent, events).Some?
    ensures LastWord(events, k) && (LastAck(intent, events).value.ReadBack? <==> TellsOne(events[k].call))
  {
    var n := |events| - 1;
    if AckTold(intent, events[n].call).Some? && Lands(events[n].cx) {
      k := n;
    } else {
      k := LastLanded(intent, events[..n]);
    }
  }

  /** An acknowledgement of another bead completes the evidence and clears the marker. */
  lemma ForeignAckClears(s: State, faults: nat -> bool, bead: string, comment: string)
    requires Backed(s) && s.transport.Some? && s.transport.value.Succeeded? && s.delivery.Some? && Delivered(s.delivery.value)
    requires bead != s.intent.beadId && forall n :: !faults(n)
    ensures
      var t := Apply(s, NEVER, faults, RecordAck(ReadBack(bead, comment))).state;
      var o := Apply(t, NEVER, faults, Finish);
      Acknowledges(o, Finish) && o.state.marker.None? && o.result.value.value.ack == ReadBack(bead, comment)
  {
    var t := Apply(s, NEVER, faults, RecordAck(ReadBack(bead, comment))).state;
    assert |t.rows| == t.steps;
  }
}
