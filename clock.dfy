/** Registration timestamps. A record's `created_at` is the wall-clock time of
    registration, stored as '%Y-%m-%d %H:%M:%S' text; the queries order rows by
    `date(created_at)`, i.e. by the calendar day only. */
module Clock {

  type Month = m: int | 1 <= m <= 12 witness 1
  type MonthDay = d: int | 1 <= d <= 31 witness 1

  datatype Stamp = Stamp(year: int, month: Month, day: MonthDay, hour: int, minute: int, second: int)

  /** The calendar day of a stamp: what SQLite's `date()` keeps of it. */
  datatype Date = Date(year: int, month: Month, day: MonthDay)

  function DateOf(s: Stamp): Date
  {
    Date(s.year, s.month, s.day)
  }

  /** A day's position on a line that has room for 31 days in every month. */
  function DayNumber(d: Date): int
  {
    (d.year * 12 + (d.month - 1)) * 31 + (d.day - 1)
  }

  /** `a` is the same day as `b` or an earlier one. */
  predicate DateLe(a: Date, b: Date)
  {
    DayNumber(a) <= DayNumber(b)
  }

  /** The day order is the chronological one: by year, then month, then day of month. */
  lemma {:induction false} DateLeIsChronological(a: Date, b: Date)
    ensures DateLe(a, b) <==>
      a.year < b.year || (a.year == b.year && (a.month < b.month || (a.month == b.month && a.day <= b.day)))
  {
    var ma, mb := a.year * 12 + (a.month - 1), b.year * 12 + (b.month - 1);
    assert ma < mb <==> a.year < b.year || (a.year == b.year && a.month < b.month);
    assert ma == mb <==> a.year == b.year && a.month == b.month;
    assert DayNumber(a) == ma * 31 + (a.day - 1) && DayNumber(b) == mb * 31 + (b.day - 1);
    if ma < mb {
      assert ma * 31 + 31 <= mb * 31;
    } else if mb < ma {
      assert mb * 31 + 31 <= ma * 31;
    }
  }
}
