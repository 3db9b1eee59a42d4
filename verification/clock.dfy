/** The attendance rule of `scanAttendance` in script.js: a scan after
09:05:00.000 local time on its own calendar day is late, any other scan is
present.

A `Date` is a count of milliseconds. Here local time is that count seen in
one fixed time zone, split into a day number and the milliseconds elapsed
since that day's local midnight.
 */
module Clock {

  const MsPerDay: int := 24 * 60 * 60 * 1000

  /** 09:05:00.000, the time of day `setHours(9, 5, 0, 0)` sets. */
  const CutoffMs: int := (9 * 60 + 5) * 60 * 1000

  type MsOfDay = m: int | 0 <= m < MsPerDay

  /** A moment in local time: a calendar day and the time of day. */
  datatype Instant = Instant(day: int, ms: MsOfDay)

  datatype Status = Present | Late

  /** Milliseconds since local midnight of day 0: the number a `Date` compares by. */
  function EpochMs(t: Instant): int
  {
    t.day * MsPerDay + t.ms
  }

  /** The calendar view of a millisecond count. Days before day 0 are
      negative, and the time of day is never negative. */
  function FromEpoch(n: int): (t: Instant)
    ensures EpochMs(t) == n
  {
    Instant(n / MsPerDay, n % MsPerDay)
  }

  /** Each instant has exactly one millisecond count: the calendar view and
      the count determine each other. */
  lemma EpochRoundTrip(t: Instant)
    ensures FromEpoch(EpochMs(t)) == t
  {
    var n := EpochMs(t);
    var u := FromEpoch(n);
    assert EpochMs(u) == n;
    EpochUnique(u, t);
  }

  lemma EpochUnique(t: Instant, u: Instant)
    requires EpochMs(t) == EpochMs(u)
    ensures t == u
  {
  }

  /** `new Date(now)` followed by `setHours(9, 5, 0, 0)`: the same calendar
      day with the time of day overwritten. */
  function Scheduled(now: Instant): Instant
  {
    Instant(now.day, CutoffMs)
  }

  /** `now > scheduled ? 'Late' : 'Present'`, compared as millisecond counts.
      The status depends only on the time of day: late exactly when it is
      past 09:05:00.000. */
  function Classify(now: Instant): (s: Status)
    ensures s == Late <==> now.ms > CutoffMs
  {
    if EpochMs(now) > EpochMs(Scheduled(now)) then Late else Present
  }

  /** Exactly at the cutoff a scan is present; one millisecond later it is late. */
  lemma CutoffBoundary(day: int)
    ensures Classify(Instant(day, CutoffMs)) == Present
    ensures Classify(Instant(day, CutoffMs + 1)) == Late
  {
  }

  /** Later on the same day never turns a late scan back into a present one. */
  lemma LateStaysLate(t: Instant, u: Instant)
    requires t.day == u.day && t.ms <= u.ms
    ensures Classify(t) == Late ==> Classify(u) == Late
  {
  }

  /** The rule is the same on every calendar day: no weekends, holidays or
      per-class schedules. */
  lemma SameRuleEveryDay(t: Instant, day: int)
    ensures Classify(Instant(day, t.ms)) == Classify(t)
  {
  }

  /** Classifying a raw millisecond count looks only at its time of day. */
  lemma ClassifyCount(n: int)
    ensures Classify(FromEpoch(n)) == Late <==> n % MsPerDay > CutoffMs
  {
  }
}
