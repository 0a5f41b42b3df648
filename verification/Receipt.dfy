/** The receiver receipt's verdicts, as the ack spine and the ack stage see them. */
module Receipt {
  import opened Wrappers

  datatype Reason =
    | MissingPostObservation
    | PaneIdMismatch(expectedPane: string, observed: string)
    | DialogOpen
    | WedgedUnsubmitted
    | EmptyPaneListNoDeathClaim
    | ObservationNotWorking(side: string, state: string)
    | StableContentUnchanged
    | UnprovenTransport(transport: string)
    | AckReadbackMissing
    | AckPaneMismatch(expected: string, got: string)
    | IdleUnchanged
    | PostBecameIdle
    | TimerDidNotReset(beforeSecs: nat, afterSecs: nat)
    | TimerResetButStableContentUnchanged
    | TimerTooLargeAfterIdle(lateSecs: nat, maxSecs: nat)
    | ObservationWindowTooShort(spanSecs: nat, floorSecs: nat)

  datatype Verdict =
    | ReceiptConfirmed(paneId: string, timerBefore: Option<nat>, timerAfter: nat, stableContentChanged: bool)
    | AckConfirmed(paneId: string, comment: string)
    | NoReceipt(paneId: string, reason: Reason)
    | Dead(paneId: string)
    | Indeterminate(paneId: string, reason: Reason)
  {
    predicate OwesAHuman() { Indeterminate? && reason.DialogOpen? }

    function Label(): string {
      match this
      case ReceiptConfirmed(_, _, _, _) => "RECEIPT_CONFIRMED"
      case AckConfirmed(_, _) => "RECEIPT_CONFIRMED"
      case NoReceipt(_, _) => "NO_RECEIPT"
      case Dead(_) => "DEAD"
      case Indeterminate(_, _) => "INDETERMINATE"
    }
  }
}
