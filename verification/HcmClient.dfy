/** The in-memory HCM client. */
module HcmClients {
  import opened Texts
  import opened Tables
  import opened Protocol

  datatype FailureMode = NONE | TRANSIENT_FAILURE | FUNCTIONAL_FAILURE

  /** How HCM answers a submission: unavailability and transient failures come first. */
  function OutcomeOf(unavailable: bool, mode: FailureMode): HcmOutcome {
    if unavailable || mode == TRANSIENT_FAILURE then Rejected(TRANSIENT)
    else if mode == FUNCTIONAL_FAILURE then Rejected(FUNCTIONAL)
    else Accepted
  }

  class HcmClient {
    var balances: map<Text, real>
    var unavailable: bool
    var failureMode: FailureMode

    constructor ()
      ensures balances == map[] && !unavailable && failureMode == NONE
    {
      balances, unavailable, failureMode := map[], false, NONE;
    }

    /** A key HCM does not know is not a key with zero days. */
    method GetBalance(key: BalanceKey) returns (reading: HcmReading)
      ensures reading == if unavailable then Unavailable else ReadHcm(balances, key)
      ensures reading == Unavailable <==> unavailable
      ensures !unavailable && KeyText(key) !in balances ==> reading == Unknown
      ensures !unavailable && KeyText(key) in balances ==> reading == Reading(balances[KeyText(key)])
    {
      if unavailable {
        return Unavailable;
      }
      if KeyText(key) in balances {
        return Reading(balances[KeyText(key)]);
      }
      return Unknown;
    }

    /** An unavailable HCM and a transient failure may be retried, a functional failure may not.
        A failed submission consumes nothing. */
    method SubmitApprovedUsage(usage: Usage) returns (outcome: HcmOutcome)
      modifies `balances
      ensures outcome == OutcomeOf(unavailable, failureMode)
      ensures unavailable || failureMode == TRANSIENT_FAILURE ==> outcome == Rejected(TRANSIENT)
      ensures !unavailable && failureMode == FUNCTIONAL_FAILURE ==> outcome == Rejected(FUNCTIONAL)
      ensures outcome.Accepted? <==> !unavailable && failureMode == NONE
      ensures balances == if outcome.Accepted? then Consume(old(balances), usage) else old(balances)
    {
      if unavailable || failureMode == TRANSIENT_FAILURE {
        return Rejected(TRANSIENT);
      }
      if failureMode == FUNCTIONAL_FAILURE {
        return Rejected(FUNCTIONAL);
      }
      var key := KeyText(usage.key);
      var available := if key in balances then balances[key] else 0.0;
      balances := balances[key := available - usage.days];
      return Accepted;
    }

    method SetUnavailable(value: bool)
      modifies `unavailable
      ensures unavailable == value
    {
      unavailable := value;
    }

    method SetFailureMode(mode: FailureMode)
      modifies `failureMode
      ensures failureMode == mode
    {
      failureMode := mode;
    }
  }
}
