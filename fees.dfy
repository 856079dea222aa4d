/** Fixed-length days and calendar days. The program shifts dates with the
    browser's local calendar; here a day is always 86 400 000 ms and the local
    calendar is a fixed offset from UTC. */
module Calendar {
  import opened Types

  const MS_PER_DAY: nat := 86_400_000

  /** How far past the borrow instant a loan falls due. */
  const LOAN_PERIOD: nat := 14 * MS_PER_DAY

  /** How far ahead the due-soon reminder sweep looks. */
  const REMINDER_WINDOW: nat := 3 * MS_PER_DAY

  /** The number of started days in `ms` milliseconds, rounding up. */
  function StartedDays(ms: nat): (days: nat)
    ensures ms == 0 <==> days == 0
    ensures ms > 0 ==> (days - 1) * MS_PER_DAY < ms <= days * MS_PER_DAY
  {
    (ms + MS_PER_DAY - 1) / MS_PER_DAY
  }

  lemma StartedDaysMonotone(a: nat, b: nat)
    requires a <= b
    ensures StartedDays(a) <= StartedDays(b)
  {
    if a > 0 {
      assert (StartedDays(a) - 1) * MS_PER_DAY < StartedDays(b) * MS_PER_DAY;
    }
  }

  /** One more day elapsed is one more started day. */
  lemma StartedDaysNextDay(ms: nat)
    requires ms > 0
    ensures StartedDays(ms + MS_PER_DAY) == StartedDays(ms) + 1
  {
    var d, e := StartedDays(ms), StartedDays(ms + MS_PER_DAY);
    assert (e - 1) * MS_PER_DAY < ms + MS_PER_DAY <= e * MS_PER_DAY;
    assert (d - 1) * MS_PER_DAY < ms <= d * MS_PER_DAY;
    assert (e - 2) * MS_PER_DAY < d * MS_PER_DAY;
    assert (d - 1) * MS_PER_DAY < (e - 1) * MS_PER_DAY;
  }

  /** The local calendar day of instant `t` in a time zone `offset` ms east of
      UTC: the day number whose local midnight is the last one at or before `t`. */
  function LocalDay(t: Time, offset: int): (day: int)
    ensures day * MS_PER_DAY <= t + offset < (day + 1) * MS_PER_DAY
  {
    (t + offset) / MS_PER_DAY
  }

  lemma LocalDayMonotone(s: Time, t: Time, offset: int)
    requires s <= t
    ensures LocalDay(s, offset) <= LocalDay(t, offset)
  {
    var a, b := LocalDay(s, offset), LocalDay(t, offset);
    assert a * MS_PER_DAY < (b + 1) * MS_PER_DAY;
  }
}

/** The fee a loan owes: 50 cents for every started 24-hour block past the due
    instant, nothing up to and including the due instant. */
module LateFees {
  import opened Types
  import opened Calendar

  /** Fifty cents (the program's 0.5 dollars) per started day. */
  const LATE_FEE_PER_DAY: nat := 50

  function CalculateLateFee(dueDate: Time, now: Time): (fee: nat)
    ensures fee == 0 <==> now <= dueDate
    ensures fee % LATE_FEE_PER_DAY == 0
    ensures dueDate < now ==>
      (fee / LATE_FEE_PER_DAY - 1) * MS_PER_DAY < now - dueDate <= fee / LATE_FEE_PER_DAY * MS_PER_DAY
  {
    if dueDate > now then 0 else LATE_FEE_PER_DAY * StartedDays(now - dueDate)
  }

  /** The fee never shrinks as time passes. */
  lemma LateFeeMonotone(dueDate: Time, now: Time, later: Time)
    requires now <= later
    ensures CalculateLateFee(dueDate, now) <= CalculateLateFee(dueDate, later)
  {
    if dueDate <= now {
      StartedDaysMonotone(now - dueDate, later - dueDate);
    }
  }

  /** Once overdue, each further day adds exactly one day's fee. */
  lemma LateFeeNextDay(dueDate: Time, now: Time)
    requires dueDate < now
    ensures CalculateLateFee(dueDate, now + MS_PER_DAY) == CalculateLateFee(dueDate, now) + LATE_FEE_PER_DAY
  {
    StartedDaysNextDay(now - dueDate);
  }

  /** One millisecond late owes a full day; three whole days late owe three. */
  lemma LateFeeExamples(dueDate: Time)
    ensures CalculateLateFee(dueDate, dueDate) == 0
    ensures CalculateLateFee(dueDate, dueDate + 1) == LATE_FEE_PER_DAY
    ensures CalculateLateFee(dueDate, dueDate + 3 * MS_PER_DAY) == 3 * LATE_FEE_PER_DAY
  {
  }
}
