/** When a review counts as stale: its date lies strictly before "now minus 30 days". */
module Freshness {

  /**
   * A point in time, in microseconds: the resolution of Python's datetime.
   * A date that MongoDB stores keeps only milliseconds; the model does not
   * truncate.
   */
  type Timestamp = int

  /** `timedelta(days=30)` in microseconds. */
  const StaleWindow: int := 30 * 24 * 60 * 60 * 1000000

  /** `datetime.now() - timedelta(days=30)` for the clock reading `now`. */
  function Threshold(now: Timestamp): Timestamp
  {
    now - StaleWindow
  }

  /** A review dated `t` is stale at `now` when `t < now - 30 days`; the boundary itself is still fresh. */
  predicate IsStale(t: Timestamp, now: Timestamp)
    ensures IsStale(t, now) <==> now - t > StaleWindow
  {
    t < Threshold(now)
  }

  /** Staleness only grows: an older date, or a later clock, keeps a stale review stale. */
  lemma StaleLater(t: Timestamp, now: Timestamp, t': Timestamp, later: Timestamp)
    requires IsStale(t, now) && t' <= t && now <= later
    ensures IsStale(t', later)
  {
  }
}
