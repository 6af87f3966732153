/** Retention policies (trashcli/trash2.py:133-139): `always`, and
    `OlderThan`, whose limit `now() - timedelta(days)` is computed once, when
    the policy is built, so every entry of a run is judged against the same
    instant. Instants are whole seconds as in `Dates`. */
module Criteria {
  import opened Common
  import Dates

  datatype Criteria = Always | OlderThan(limit: int)

  /** The largest day count `timedelta` accepts. */
  const MaxTimedeltaDays := 999999999

  /** `OlderThan(days, now)`: Python raises OverflowError when the day count
      does not fit a `timedelta` or the limit falls outside the `datetime`
      range; both are None here. */
  function MakeOlderThan(days: int, now: int): (r: Option<Criteria>)
    requires 0 <= now <= Dates.MaxSeconds
    ensures r.Some? <==> 0 <= now - days * Dates.SecondsPerDay <= Dates.MaxSeconds
    ensures r.Some? ==> r.value.OlderThan?
  {
    if days < -MaxTimedeltaDays || days > MaxTimedeltaDays then None
    else
      var limit := now - days * Dates.SecondsPerDay;
      if 0 <= limit <= Dates.MaxSeconds then Some(OlderThan(limit)) else None
  }

  /** Applies a policy to a deletion date, None standing for a record without
      one. `always` admits everything; comparing a missing date with a limit
      is an error (None result), since Python 2 refuses to order None against
      a datetime. */
  function Admits(c: Criteria, date: Option<int>): (r: Option<bool>)
    ensures r.None? <==> c.OlderThan? && date.None?
  {
    match c
    case Always => Some(true)
    case OlderThan(limit) =>
      if date.None? then None else Some(date.value < limit)
  }

  /** `always` admits every input, a missing date included. */
  lemma AlwaysAdmitsAll(date: Option<int>)
    ensures Admits(Always, date) == Some(true)
  {
  }

  /** The limit is strict: an entry deleted exactly `days` days before `now`
      is kept, one deleted a second earlier is purged; anything earlier than
      an admitted date is admitted too. */
  lemma OlderThanIsStrict(days: int, now: int, t: int, u: int)
    requires 0 <= now <= Dates.MaxSeconds
    requires MakeOlderThan(days, now).Some?
    ensures var c := MakeOlderThan(days, now).value;
            && Admits(c, Some(now - days * Dates.SecondsPerDay)) == Some(false)
            && Admits(c, Some(now - days * Dates.SecondsPerDay - 1)) == Some(true)
            && Admits(c, Some(t)) == Some(t + days * Dates.SecondsPerDay < now)
            && (Admits(c, Some(t)) == Some(true) && u <= t ==> Admits(c, Some(u)) == Some(true))
  {
  }

  /** On valid datetimes, the verdict on second counts is the verdict of
      Python's `deletion_date < self.limit_date`. */
  lemma AdmitsAsDatetimes(deleted: Dates.DateTime, limit: Dates.DateTime)
    requires Dates.Valid(deleted) && Dates.Valid(limit)
    ensures Admits(OlderThan(Dates.ToSeconds(limit)), Some(Dates.ToSeconds(deleted)))
            == Some(Dates.Before(deleted, limit))
  {
    Dates.SecondsOrderIsDateOrder(deleted, limit);
  }
}
