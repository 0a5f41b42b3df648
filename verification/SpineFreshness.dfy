/**
 Whose evidence a `finish` rests on.  `begin` forgets no authority, so a second
 dispatch over one spine can clear its marker on what the first one recorded.
 This module says exactly when that happens and how a caller avoids it.
 */
module SpineFreshness {
  import opened Wrappers
  import opened SpineModel
  import Receipt

  /** The rows since the last `begin`. */
  function Since(rows: seq<Row>): seq<Row> {
    if rows == [] || rows[|rows| - 1].kind == BeadSelected then []
    else Since(rows[..|rows| - 1]) + [rows[|rows| - 1]]
  }

  predicate Sent(s: State) { s.transport.Some? && s.transport.value.Succeeded? }
  predicate Received(s: State) { s.delivery.Some? && Delivered(s.delivery.value) }
  predicate Acked(s: State) { s.ack.Some? && s.ack.value.ReadBack? }

  /** Some authority already speaks for a delivery. */
  predicate Held(s: State) { Sent(s) || Received(s) || Acked(s) }

  predicate NewRow(s: State, kind: StepKind) { Row(kind, s.intent) in Since(s.rows) }

  /** Every authority that speaks for this dispatch was recorded since its `begin`. */
  predicate RestsOnNewRows(s: State) {
    (Sent(s) ==> NewRow(s, PacketSent)) && (Received(s) ==> NewRow(s, ReceiverVerified)) && (Acked(s) ==> NewRow(s, AckReadBack))
  }

  predicate AllNew(s: State) { NewRow(s, PacketSent) && NewRow(s, ReceiverVerified) && NewRow(s, AckReadBack) }

  /** The caller's guard: `begin` only while no authority speaks. */
  ghost predicate Guarded(s: State, faults: nat -> bool, events: seq<Event>) {
    forall k: nat | k < |events| && events[k].call.Begin? :: !Held(Run(s, faults, events[..k]))
  }

  lemma SinceGrows(rows: seq<Row>, row: Row)
    ensures Since(rows + [row]) == if row.kind == BeadSelected then [] else Since(rows) + [row]
  {
    assert (rows + [row])[..|rows|] == rows;
  }

  lemma CallRestsOnNewRows(s: State, cx: Context, faults: nat -> bool, call: Call)
    requires |s.rows| == s.steps && RestsOnNewRows(s) && (call.Begin? ==> !Held(s))
    ensures RestsOnNewRows(Apply(s, cx, faults, call).state)
  {
    CallAppendsAtMostItsRow(s, cx, faults, call);
    AuthoritiesMove(s, cx, faults, call);
    hide Apply;
    var t := Apply(s, cx, faults, call).state;
    if RowKind(call).Some? { SinceGrows(s.rows, Row(RowKind(call).value, s.intent)); }
  }

  lemma {:induction false} GuardedRunRests(s: State, faults: nat -> bool, events: seq<Event>)
    requires |s.rows| == s.steps && RestsOnNewRows(s) && Guarded(s, faults, events)
    ensures |Run(s, faults, events).rows| == Run(s, faults, events).steps && RestsOnNewRows(Run(s, faults, events))
  {
    if events != [] {
      var n := |events| - 1;
      assert Guarded(s, faults, events[..n]) by {
        forall k: nat | k < n && events[..n][k].call.Begin? ensures !Held(Run(s, faults, events[..n][..k])) {
          assert events[..n][..k] == events[..k];
        }
      }
      GuardedRunRests(s, faults, events[..n]);
      hide Apply, Held, RestsOnNewRows;
      var u := Run(s, faults, events[..n]);
      CallRestsOnNewRows(u, events[n].cx, faults, events[n].call);
      CallAppendsAtMostItsRow(u, events[n].cx, faults, events[n].call);
    }
  }

  /** Under the guard every acknowledging `finish` of every run has all three rows after the `begin` it belongs to. */
  lemma GuardedDispatchRestsOnItsOwnRows(
    intent: Intent, marker: Option<Pending>, faults: nat -> bool, events: seq<Event>, cx: Context)
    requires Guarded(Fresh(intent, marker), faults, events)
    requires Acknowledges(Apply(Run(Fresh(intent, marker), faults, events), cx, faults, Finish), Finish)
    ensures AllNew(Run(Fresh(intent, marker), faults, events))
  {
    GuardedRunRests(Fresh(intent, marker), faults, events);
    AcknowledgedMeansHeld(Run(Fresh(intent, marker), faults, events), cx, faults);
  }

  lemma AcknowledgedMeansHeld(s: State, cx: Context, faults: nat -> bool)
    requires Acknowledges(Apply(s, cx, faults, Finish), Finish)
    ensures Sent(s) && Received(s) && Acked(s)
  {
  }

  // ----- the guard is the exact condition

  /** `begin` and then `finish`, nothing between: cleared exactly when the evidence was already full before. */
  lemma BeginThenFinishClearsIff(s: State, cx: Context, faults: nat -> bool)
    requires Backed(s) && cx.cancelAt.None? && forall n :: !faults(n)
    ensures
      var b := Apply(s, cx, faults, Begin);
      var o := Apply(b.state, b.cx, faults, Finish);
      && b.state.marker.Some? && b.state.rows == s.rows + [Row(BeadSelected, s.intent)]
      && (o.state.marker.None? <==> EvidenceOf(s).Ok? && EvidenceOf(s).value.FullyAcknowledged())
  {
    var t := Apply(s, cx, faults, Begin).state;
    assert |t.rows| == t.steps;
    assert EvidenceOf(t) == EvidenceOf(s);
  }

  predicate BeginFree(events: seq<Event>) { forall k | 0 <= k < |events| :: !events[k].call.Begin? }

  /** After these calls, an acknowledging `finish` has all three rows of its own dispatch. */
  ghost predicate OwnEvidence(t: State, faults: nat -> bool, events: seq<Event>) {
    forall cx :: Acknowledges(Apply(Run(t, faults, events), cx, faults, Finish), Finish) ==> AllNew(Run(t, faults, events))
  }

  /** A dispatch begun here can only ever finish on its own evidence, whatever follows, exactly when no authority speaks yet. */
  lemma DispatchIsFreshIffNothingHeld(s: State, faults: nat -> bool)
    requires Backed(s) && forall n :: !faults(n)
    ensures
      var t := Apply(s, NEVER, faults, Begin).state;
      (forall events | BeginFree(events) :: OwnEvidence(t, faults, events)) <==> !Held(s)
  {
    var t := Apply(s, NEVER, faults, Begin).state;
    Begun(s, faults);
    hide Apply;
    if Held(s) {
      var events := StaleFinish(s, faults);
      assert BeginFree(events) && !OwnEvidence(t, faults, events);
    } else {
      forall events | BeginFree(events) ensures OwnEvidence(t, faults, events) {
        GuardedRunRests(t, faults, events);
        forall cx | Acknowledges(Apply(Run(t, faults, events), cx, faults, Finish), Finish) ensures AllNew(Run(t, faults, events)) {
          AcknowledgedMeansHeld(Run(t, faults, events), cx, faults);
        }
      }
    }
  }

  lemma Begun(s: State, faults: nat -> bool)
    requires |s.rows| == s.steps && forall n :: !faults(n)
    ensures
      var t := Apply(s, NEVER, faults, Begin).state;
      && t.rows == s.rows + [Row(BeadSelected, s.intent)] && |t.rows| == t.steps && Since(t.rows) == [] && t.intent == s.intent
      && t.transport == s.transport && t.delivery == s.delivery && t.ack == s.ack
  {
    SinceGrows(s.rows, Row(BeadSelected, s.intent));
  }

  /** Two recordings supply what the old dispatch did not hold; the rest of the evidence is the old one's. */
  lemma StaleFinish(s: State, faults: nat -> bool) returns (events: seq<Event>)
    requires Backed(s) && Held(s) && forall n :: !faults(n)
    ensures BeginFree(events) && !OwnEvidence(Apply(s, NEVER, faults, Begin).state, faults, events)
  {
    var send := RecordTransport(Succeeded([]));
    var see := RecordDelivery(Observed(Receipt.ReceiptConfirmed(s.intent.paneId, None, 0, true)));
    var ack := RecordAck(ReadBack(s.intent.beadId, []));
    if Sent(s) {
      events := StaleWith(s, faults, see, ack, PacketSent);
    } else if Received(s) {
      events := StaleWith(s, faults, send, ack, ReceiverVerified);
    } else {
      events := StaleWith(s, faults, send, see, AckReadBack);
    }
  }

  predicate Recording(call: Call) { call.RecordTransport? || call.RecordDelivery? || call.RecordAck? }

  lemma StaleWith(s: State, faults: nat -> bool, a: Call, b: Call, missing: StepKind) returns (events: seq<Event>)
    requires Backed(s) && (forall n :: !faults(n)) && Recording(a) && Recording(b)
    requires missing == PacketSent || missing == ReceiverVerified || missing == AckReadBack
    requires RowKind(a) != Some(missing) && RowKind(b) != Some(missing)
    requires if a.RecordTransport? then a.transport.Succeeded? && !b.RecordTransport? else Sent(s) && !b.RecordTransport?
    requires if b.RecordDelivery? then Delivered(b.delivery) else if a.RecordDelivery? then Delivered(a.delivery) else Received(s)
    requires if b.RecordAck? then b.ack.ReadBack? else Acked(s) && !a.RecordAck?
    ensures BeginFree(events) && !OwnEvidence(Apply(s, NEVER, faults, Begin).state, faults, events)
  {
    hide Apply, Since, Held, Sent, Received, Acked;
    events := [Event(a, NEVER), Event(b, NEVER)];
    var t := Apply(s, NEVER, faults, Begin).state;
    var v := TwoRecorded(s, faults, a, b);
    RunOfTwo(t, faults, events[0], events[1]);
    FullEvidenceFinishes(v, faults);
    MissesARow(v, RowKind(a).value, RowKind(b).value, missing);
  }

  lemma MissesARow(v: State, x: StepKind, y: StepKind, missing: StepKind)
    requires Since(v.rows) == [Row(x, v.intent), Row(y, v.intent)] && missing != x && missing != y
    requires missing == PacketSent || missing == ReceiverVerified || missing == AckReadBack
    ensures !AllNew(v)
  {
    hide Since;
    assert !NewRow(v, missing);
  }

  lemma TwoRecorded(s: State, faults: nat -> bool, a: Call, b: Call) returns (v: State)
    requires |s.rows| == s.steps && (forall n :: !faults(n)) && Recording(a) && Recording(b)
    requires if a.RecordTransport? then a.transport.Succeeded? && !b.RecordTransport? else Sent(s) && !b.RecordTransport?
    requires if b.RecordDelivery? then Delivered(b.delivery) else if a.RecordDelivery? then Delivered(a.delivery) else Received(s)
    requires if b.RecordAck? then b.ack.ReadBack? else Acked(s) && !a.RecordAck?
    ensures v == Apply(Apply(Apply(s, NEVER, faults, Begin).state, NEVER, faults, a).state, NEVER, faults, b).state
    ensures |v.rows| == v.steps && Sent(v) && Received(v) && Acked(v)
    ensures Since(v.rows) == [Row(RowKind(a).value, v.intent), Row(RowKind(b).value, v.intent)]
  {
    hide Apply, Since, Delivered;
    Begun(s, faults);
    var u := Recorded(Apply(s, NEVER, faults, Begin).state, faults, a);
    v := Recorded(u, faults, b);
  }

  lemma Recorded(s: State, faults: nat -> bool, call: Call) returns (t: State)
    requires |s.rows| == s.steps && Recording(call) && forall n :: !faults(n)
    ensures t == Apply(s, NEVER, faults, call).state && |t.rows| == t.steps && t.intent == s.intent
    ensures t.transport == (if call.RecordTransport? then Some(call.transport) else s.transport)
    ensures t.delivery == (if call.RecordDelivery? then Some(call.delivery) else s.delivery)
    ensures t.ack == (if call.RecordAck? then Some(call.ack) else s.ack)
    ensures Since(t.rows) == Since(s.rows) + [Row(RowKind(call).value, s.intent)]
  {
    t := Apply(s, NEVER, faults, call).state;
    RecordingLands(s, faults, call);
    CallAppendsAtMostItsRow(s, NEVER, faults, call);
    hide Apply;
    SinceGrows(s.rows, Row(RowKind(call).value, s.intent));
  }

  lemma RunOfTwo(s: State, faults: nat -> bool, a: Event, b: Event)
    ensures Run(s, faults, [a, b]) == Apply(Apply(s, a.cx, faults, a.call).state, b.cx, faults, b.call).state
  {
    hide Apply;
    assert [a, b][..1] == [a] && [a][..0] == [];
    assert Run(s, faults, []) == s;
    assert Run(s, faults, [a]) == Apply(s, a.cx, faults, a.call).state;
  }

  lemma FullEvidenceFinishes(s: State, faults: nat -> bool)
    requires |s.rows| == s.steps && |Since(s.rows)| > 0 && Sent(s) && Received(s) && Acked(s) && forall n :: !faults(n)
    ensures Acknowledges(Apply(s, NEVER, faults, Finish), Finish)
  {
  }
}
