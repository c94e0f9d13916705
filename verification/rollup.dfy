/**
 * The time window of the `/metrics/rollup` route: rows with a timestamp
 * (milliseconds since the epoch) at or after `since` are counted, where
 * `since` lies `minutes` minutes before the current time. The clock is a
 * parameter; Python integers do not overflow, so neither do these.
 */
module Rollup {

  const MillisPerMinute: int := 60 * 1000

  /** The window start: `now_ms - minutes*60*1000`. */
  function Since(nowMs: int, minutes: int): (since: int)
    ensures minutes >= 0 <==> since <= nowMs
    ensures minutes > 0 ==> nowMs - since >= MillisPerMinute
  {
    nowMs - minutes * 60 * 1000
  }

  /** A row with timestamp `ts` falls into the window (`ts_ms >= since`):
      it is at most `minutes` whole minutes of milliseconds older than now. */
  predicate InWindow(ts: int, nowMs: int, minutes: int)
    ensures InWindow(ts, nowMs, minutes) <==> nowMs - ts <= minutes * MillisPerMinute
  {
    ts >= Since(nowMs, minutes)
  }

  /** Widening the window never drops a row it held. */
  lemma WiderWindowKeeps(ts: int, nowMs: int, m1: int, m2: int)
    requires m1 <= m2 && InWindow(ts, nowMs, m1)
    ensures InWindow(ts, nowMs, m2)
  {
  }
}
