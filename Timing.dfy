/** The countdown shown on the interview page (app.py:170-171):
    `time_remaining = max(1800 - time_elapsed, 0)`. */
module Timing {

  /** Thirty minutes, in seconds. */
  const SessionLimit := 1800

  /** Seconds left of the thirty minutes after `elapsed` seconds.  It never
      goes below zero, reaches zero exactly at the limit, and until then
      together with the elapsed time makes up the full thirty minutes. */
  function TimeRemaining(elapsed: int): (r: nat)
    ensures r == 0 <==> elapsed >= SessionLimit
    ensures r > 0 ==> r + elapsed == SessionLimit
  {
    if SessionLimit - elapsed > 0 then SessionLimit - elapsed else 0
  }

  /** The countdown only ever goes down as time passes, starts at the full
      limit and never shows more than it once the interview has begun. */
  lemma TimeRemainingFacts(e1: int, e2: int)
    requires e1 <= e2
    ensures TimeRemaining(e2) <= TimeRemaining(e1)
    ensures TimeRemaining(0) == SessionLimit
    ensures 0 <= e1 ==> TimeRemaining(e1) <= SessionLimit
  {
  }
}
