/** The states of a session and the reasons for its end, as netconf.h and session_p.h number them. */
module SessionState {
  datatype Status = Starting | Closing | Invalid | Running

  datatype TermReason = NoReason | Closed | Killed | Dropped | TimedOut | BadHello | OtherReason

  /** All that reading and writing may do to the status of a session. */
  predicate Degraded(before: Status, after: Status) {
    after == before || after == Invalid
  }
}
