/**
 * The rule time gate of app.rb (`is_time?`). Times are seconds since
 * midnight; the clock read that the source performs is the parameter `now`.
 */
module TimeGate {

  const SecondsPerDay: int := 24 * 60 * 60

  predicate IsTimeOfDay(t: int)
  {
    0 <= t < SecondsPerDay
  }

  /**
   * `is_time?` as written: when the window wraps midnight (start > finish),
   * only `start` is moved one day back; `now` is left in [0, 86400).
   */
  predicate IsTime(now: int, start: int, finish: int)
  {
    var start' := if start > finish then start - SecondsPerDay else start;
    now >= start' && now <= finish
  }

  /** The symmetric overnight test, used only to compare against `IsTime`. */
  predicate InWindow(now: int, start: int, finish: int)
  {
    if start <= finish then start <= now <= finish else now >= start || now <= finish
  }

  /** A window that does not wrap is armed exactly between its two ends, both included. */
  lemma NonWrappingWindow(now: int, start: int, finish: int)
    requires start <= finish
    ensures IsTime(now, start, finish) <==> start <= now && now <= finish
  {
  }

  /**
   * A window that wraps midnight is armed only in its after-midnight part:
   * for any time of day, exactly when `now <= finish`.
   */
  lemma WrappingWindow(now: int, start: int, finish: int)
    requires start > finish
    requires IsTimeOfDay(now) && IsTimeOfDay(start)
    ensures IsTime(now, start, finish) <==> now <= finish
  {
  }

  /**
   * `IsTime` agrees with the symmetric test except on the evening part
   * [start, 86400) of a wrapping window, which the symmetric test arms and
   * `IsTime` does not.
   */
  lemma IsTimeVersusInWindow(now: int, start: int, finish: int)
    requires IsTimeOfDay(now) && IsTimeOfDay(start) && IsTimeOfDay(finish)
    ensures IsTime(now, start, finish) ==> InWindow(now, start, finish)
    ensures InWindow(now, start, finish) && !IsTime(now, start, finish)
            <==> start > finish && now >= start
  {
  }

  /** The overnight window 23:00-06:00: armed at midnight, not at noon, not at 23:00. */
  lemma OvernightWindowExample()
    ensures IsTime(0, 23 * 3600, 6 * 3600)
    ensures !IsTime(12 * 3600, 23 * 3600, 6 * 3600)
    ensures !IsTime(23 * 3600, 23 * 3600, 6 * 3600) && InWindow(23 * 3600, 23 * 3600, 6 * 3600)
  {
  }
}
