/**
 The ack spine's objects.  Each public method is proved to be the transition of
 the same name in `SpineModel`, so every run of these objects is a run there.
 */
module Spine {
  import opened Wrappers
  import opened SpineModel

  datatype LedgerError = Empty | CountMismatch(rows: nat, stepsTaken: nat)

  datatype StepError = StepCancelled(lastKind: Option<StepKind>) | Ledger(error: LedgerError)

  /** The owning context.  Cancellation comes at some poll and stays. */
  class Cx {
    var polls: nat
    const cancelAt: Option<nat>

    constructor (cancelAt: Option<nat>)
      ensures View() == Context(0, cancelAt)
    {
      polls, this.cancelAt := 0, cancelAt;
    }

    function View(): Context
      reads this
    {
      Context(polls, cancelAt)
    }

    method Checkpoint() returns (live: bool)
      modifies this
      ensures live == old(View()).Live() && View() == old(View()).Polled()
    {
      live := cancelAt.None? || polls < cancelAt.value;
      polls := polls + 1;
    }
  }

  class StepLedger {
    var rows: seq<Row>
    var stepsTaken: nat

    constructor ()
      ensures rows == [] && stepsTaken == 0
    {
      rows, stepsTaken := [], 0;
    }

    method Emit(row: Row)
      modifies this
      ensures rows == old(rows) + [row] && stepsTaken == old(stepsTaken) + 1
    {
      rows := rows + [row];
      stepsTaken := stepsTaken + 1;
    }

    method AssertStepCount() returns (r: Result<(), LedgerError>)
      ensures r == if |rows| == stepsTaken then Ok(()) else Err(CountMismatch(|rows|, stepsTaken))
    {
      r := if |rows| != stepsTaken then Err(CountMismatch(|rows|, stepsTaken)) else Ok(());
    }

    method AssertNonEmpty() returns (r: Result<(), LedgerError>)
      ensures r == if rows == [] && stepsTaken == 0 then Err(Empty) else Ok(())
    {
      r := if rows == [] && stepsTaken == 0 then Err(Empty) else Ok(());
    }

    function LastKind(): Option<StepKind>
      reads this
    {
      if rows == [] then None else Some(rows[|rows| - 1].kind)
    }
  }

  /** The marker file: writes and removals are atomic, and `faults` says which of them fail. */
  class PendingDispatchStore {
    var marker: Option<Pending>
    var writes: nat
    const faults: nat -> bool

    constructor (marker: Option<Pending>, faults: nat -> bool)
      ensures this.marker == marker && writes == 0 && this.faults == faults
    {
      this.marker, writes, this.faults := marker, 0, faults;
    }

    method Persist(pending: Pending) returns (r: Result<(), SpineError>)
      modifies this
      ensures writes == old(writes) + 1
      ensures r == if faults(old(writes)) then Err(Io) else Ok(())
      ensures marker == if r.Ok? then Some(pending) else old(marker)
    {
      if faults(writes) {
        r := Err(Io);
      } else {
        marker, r := Some(pending), Ok(());
      }
      writes := writes + 1;
    }

    method Clear() returns (r: Result<(), SpineError>)
      modifies this
      ensures writes == old(writes) + 1
      ensures r == if faults(old(writes)) then Err(Io) else Ok(())
      ensures marker == if r.Ok? then None else old(marker)
    {
      if faults(writes) {
        r := Err(Io);
      } else {
        marker, r := None, Ok(());
      }
      writes := writes + 1;
    }

    predicate RetryAllowed()
      reads this
    {
      marker.None?
    }
  }

  /** The one emission path: checkpoint, row, checkpoint, count. */
  method Step(cx: Cx, ledger: StepLedger, kind: StepKind, intent: Intent) returns (r: Result<(), StepError>)
    modifies cx, ledger
    ensures !old(cx.View()).Live() ==>
      r == Err(StepCancelled(ledger.LastKind())) && ledger.rows == old(ledger.rows) && ledger.stepsTaken == old(ledger.stepsTaken)
      && cx.View() == old(cx.View()).Polled()
    ensures old(cx.View()).Live() ==>
      ledger.rows == old(ledger.rows) + [Row(kind, intent)] && ledger.stepsTaken == old(ledger.stepsTaken) + 1
      && cx.View() == old(cx.View()).Polled().Polled()
      && r == if !old(cx.View()).Polled().Live() then Err(StepCancelled(Some(kind)))
              else if |ledger.rows| != ledger.stepsTaken then Err(Ledger(CountMismatch(|ledger.rows|, ledger.stepsTaken)))
              else Ok(())
  {
    var live := cx.Checkpoint();
    if !live { return Err(StepCancelled(ledger.LastKind())); }
    ledger.Emit(Row(kind, intent));
    live := cx.Checkpoint();
    if !live { return Err(StepCancelled(ledger.LastKind())); }
    var count := ledger.AssertStepCount();
    if count.Err? { return Err(Ledger(count.error)); }
    return Ok(());
  }

  class AckSpine {
    const intent: Intent
    const ledger: StepLedger
    const pending: PendingDispatchStore
    var transport: Option<Transport>
    var delivery: Option<Delivery>
    var acknowledgement: Option<Ack>

    constructor (intent: Intent, pending: PendingDispatchStore)
      ensures this.intent == intent && this.pending == pending && fresh(ledger)
      ensures View() == Fresh(intent, pending.marker).(writes := pending.writes)
    {
      this.intent, this.pending := intent, pending;
      ledger := new StepLedger();
      transport, delivery, acknowledgement := None, None, None;
    }

    /** The state this object stands for. */
    ghost function View(): State
      reads this, ledger, pending
    {
      State(intent, ledger.rows, ledger.stepsTaken, transport, delivery, acknowledgement, pending.marker, pending.writes)
    }

    predicate RetryAllowed()
      reads pending
    {
      pending.RetryAllowed()
    }

    function GetEvidence(): (r: Result<Evidence, SpineError>)
      reads this, ledger, pending
      ensures r == EvidenceOf(View())
    {
      if transport.None? then Err(MissingAuthority("transport"))
      else if delivery.None? then Err(MissingAuthority("delivery"))
      else if acknowledgement.None? then Err(MissingAuthority("ack"))
      else Ok(Evidence(transport.value, delivery.value, acknowledgement.value))
    }

    method PersistPending(reason: string) returns (r: Result<(), SpineError>)
      modifies pending
      ensures (View(), r) == Persist(old(View()), pending.faults, reason)
    {
      var last := ledger.LastKind();
      r := pending.Persist(Pending(intent, if last.None? then None else Some(last.value.Name()), reason));
    }

    method Emit(cx: Cx, kind: StepKind) returns (r: Result<(), SpineError>)
      modifies ledger, cx
      ensures Outcome(View(), cx.View(), r) == EmitStep(old(View()), old(cx.View()), kind)
    {
      var step := Step(cx, ledger, kind, intent);
      match step {
        case Ok(_) => r := Ok(());
        case Err(StepCancelled(_)) => r := Err(Cancelled);
        case Err(Ledger(_)) => r := Err(InconsistentLedger);
      }
    }

    method Begin(cx: Cx) returns (r: Result<(), SpineError>)
      modifies ledger, pending, cx
      ensures Outcome(View(), cx.View(), r) == BeginStep(old(View()), old(cx.View()), pending.faults)
    {
      var live := cx.Checkpoint();
      if !live { return Err(Cancelled); }
      r := PersistPending("dispatch_started");
      if r.Err? { return; }
      r := Emit(cx, BeadSelected);
      if r.Err? { return; }
      r := PersistPending("bead_selected");
    }

    method RenderPacket(cx: Cx) returns (r: Result<(), SpineError>)
      modifies ledger, pending, cx
      ensures Outcome(View(), cx.View(), r) == RecordStep(old(View()), old(cx.View()), pending.faults, PacketRendered, NoFact, "packet_rendered")
    {
      r := Emit(cx, PacketRendered);
      if r.Err? { return; }
      r := PersistPending("packet_rendered");
    }

    method RecordTransport(cx: Cx, authority: Transport) returns (r: Result<(), SpineError>)
      modifies this, ledger, pending, cx
      ensures Outcome(View(), cx.View(), r)
           == RecordStep(old(View()), old(cx.View()), pending.faults, PacketSent, TransportFact(authority), "transport_recorded")
    {
      r := Emit(cx, PacketSent);
      if r.Err? { return; }
      transport := Some(authority);
      r := PersistPending("transport_recorded");
    }

    method RecordDelivery(cx: Cx, authority: Delivery) returns (r: Result<(), SpineError>)
      modifies this, ledger, pending, cx
      ensures Outcome(View(), cx.View(), r)
           == RecordStep(old(View()), old(cx.View()), pending.faults, DeliveryKind(authority), DeliveryFact(authority), "delivery_recorded")
    {
      var kind;
      match authority {
        case Observed(ReceiptConfirmed(_, _, _, _)) => kind := ReceiverVerified;
        case Observed(AckConfirmed(_, _)) => kind := ReceiverVerified;
        case Observed(NoReceipt(_, _)) => kind := ReceiverTimedOut;
        case Observed(Dead(_)) => kind := ReceiverTimedOut;
        case Observed(Indeterminate(_, _)) => kind := ReceiverTimedOut;
        case NotObserved(_) => kind := ReceiverTimedOut;
      }
      r := Emit(cx, kind);
      if r.Err? { return; }
      delivery := Some(authority);
      r := PersistPending("delivery_recorded");
    }

    method RecordAck(cx: Cx, authority: Ack) returns (r: Result<(), SpineError>)
      modifies this, ledger, pending, cx
      ensures Outcome(View(), cx.View(), r)
           == RecordStep(old(View()), old(cx.View()), pending.faults, AckReadBack, AckFact(authority), "ack_recorded")
    {
      r := Emit(cx, AckReadBack);
      if r.Err? { return; }
      acknowledgement := Some(authority);
      r := PersistPending("ack_recorded");
    }

    /** The tracker's answer is a parameter; only its meaning as an authority is decided here. */
    method ReadAck(cx: Cx, verdict: AckVerdict) returns (r: Result<AckVerdict, SpineError>)
      modifies this, ledger, pending, cx
      ensures
        var o := RecordStep(old(View()), old(cx.View()), pending.faults, AckReadBack, AckFact(AckOf(intent, verdict)), "ack_recorded");
        View() == o.state && cx.View() == o.cx && r == if o.result.Ok? then Ok(verdict) else Err(o.result.error)
      ensures r.Ok? ==> acknowledgement.Some? && (acknowledgement.value.ReadBack? <==> verdict.Confirmed?)
    {
      var authority := match verdict
        case Confirmed(_, marker) => ReadBack(intent.beadId, marker)
        case Missing(_, _) => NotReadBack("marker absent from br comments list")
        case Unverifiable(_, detail) => NotReadBack("tracker unreadable: " + detail);
      var recorded := RecordAck(cx, authority);
      r := if recorded.Err? then Err(recorded.error) else Ok(verdict);
    }

    method Cancel(cx: Cx, reason: string) returns (r: Result<(), SpineError>)
      modifies pending
      ensures Outcome(View(), cx.View(), r) == CancelStep(old(View()), old(cx.View()), pending.faults, reason)
    {
      r := PersistPending(reason);
      if r.Err? { return; }
      var count := ledger.AssertStepCount();
      r := if count.Err? then Err(InconsistentLedger) else Ok(());
    }

    method Finish(cx: Cx) returns (r: Result<Evidence, SpineError>)
      modifies pending, cx
      ensures Outcome(View(), cx.View(), r) == FinishStep(old(View()), old(cx.View()), pending.faults)
      ensures old(!RetryAllowed()) && RetryAllowed() ==> r.Ok? && r.value.FullyAcknowledged()
    {
      var live := cx.Checkpoint();
      if !live { return Err(Cancelled); }
      var some := ledger.AssertNonEmpty();
      if some.Err? { return Err(EmptyLedger); }
      var count := ledger.AssertStepCount();
      if count.Err? { return Err(InconsistentLedger); }
      var evidence := GetEvidence();
      if evidence.Err? { return evidence; }
      var written;
      if evidence.value.FullyAcknowledged() {
        written := pending.Clear();
      } else {
        written := PersistPending("incomplete_authorities");
      }
      if written.Err? { return Err(written.error); }
      return evidence;
    }
  }
}
