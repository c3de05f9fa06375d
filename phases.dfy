/** The event phase, derived on every request from the stored matches and
    never stored itself. */
module Phases {
  import opened Models

  datatype Phase = Registration | Matching | Locked

  /** Some match has had its notification email sent. */
  predicate AnySent(ms: seq<Match>)
  {
    exists i :: 0 <= i < |ms| && ms[i].emailSent
  }

  /** Locked once any match is emailed, else Matching while matches exist,
      else Registration. */
  function PhaseOf(ms: seq<Match>): (p: Phase)
    ensures p == Locked <==> AnySent(ms)
    ensures p == Matching <==> ms != [] && !AnySent(ms)
    ensures p == Registration <==> ms == []
  {
    if AnySent(ms) then Locked
    else if |ms| > 0 then Matching
    else Registration
  }
}
