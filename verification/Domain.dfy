/** The guards of the domain: status transitions and day amounts. */
module Domain {

  datatype RequestStatus = PENDING | APPROVED | SYNCED | REJECTED | CANCELLED | FAILED_SYNC | REVERSED

  function AllowedTransitions(current: RequestStatus): set<RequestStatus> {
    match current
    case PENDING => {APPROVED, REJECTED, CANCELLED}
    case APPROVED => {SYNCED, FAILED_SYNC, REVERSED}
    case SYNCED => {}
    case REJECTED => {}
    case CANCELLED => {}
    case FAILED_SYNC => {REVERSED}
    case REVERSED => {}
  }

  predicate CanTransition(current: RequestStatus, next: RequestStatus) {
    next in AllowedTransitions(current)
  }

  predicate Terminal(status: RequestStatus) {
    AllowedTransitions(status) == {}
  }

  /** A number that arrives with a request; the service accepts finite ones only. */
  datatype JsNumber = Finite(value: real) | NotFinite

  predicate PositiveDays(days: JsNumber) {
    days.Finite? && days.value > 0.0
  }

  predicate HasBalance(availableDays: real, requestedDays: real) {
    availableDays - requestedDays >= 0.0
  }
}
