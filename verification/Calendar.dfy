/** The calendar the scheduler leans on: seconds since 1970 to a civil date and back. It stands for
    _time_to_date and _time_from_date of the MQX kernel. */
module Calendar {

  const SECONDS_PER_DAY: nat := 86400
  const SECONDS_PER_HOUR: nat := 3600
  const MINUTES_IN_HOUR: nat := 60
  const MINUTES_PER_DAY: nat := 1440
  const EPOCH_YEAR: nat := 1970

  /** A DATE_STRUCT. Sunday is weekday 0. */
  datatype Date = Date(year: nat, month: nat, day: nat, hour: nat, minute: nat, second: nat, wday: nat)

  predicate Leap(year: nat) {
    year % 4 == 0 && (year % 100 != 0 || year % 400 == 0)
  }

  function YearDays(year: nat): nat {
    if Leap(year) then 366 else 365
  }

  function MonthDays(year: nat, month: nat): nat {
    if month == 2 then (if Leap(year) then 29 else 28)
    else if month == 4 || month == 6 || month == 9 || month == 11 then 30 else 31
  }

  function DaysBeforeYear(year: nat): nat {
    if year <= EPOCH_YEAR then 0 else DaysBeforeYear(year - 1) + YearDays(year - 1)
  }

  function DaysBeforeMonth(year: nat, month: nat): nat {
    if month <= 1 then 0 else DaysBeforeMonth(year, month - 1) + MonthDays(year, month - 1)
  }

  /** The number of a civil day, counted from 1 January 1970. */
  function DayNumber(year: nat, month: nat, day: nat): nat
    requires day >= 1
  {
    DaysBeforeYear(year) + DaysBeforeMonth(year, month) + day - 1
  }

  /** 1 January 1970 was a Thursday. */
  function Weekday(dayNumber: nat): nat {
    (dayNumber + 4) % 7
  }

  /** The year `left` days after the start of `year` falls in, and the days left there. */
  function FindYear(year: nat, left: nat): (r: (nat, nat))
    ensures r.0 >= year && r.1 < YearDays(r.0)
    decreases left
  {
    if left < YearDays(year) then (year, left) else FindYear(year + 1, left - YearDays(year))
  }

  function FindMonth(year: nat, month: nat, left: nat): (r: (nat, nat))
    requires 1 <= month <= 12
    requires DaysBeforeMonth(year, month) + left < YearDays(year)
    ensures month <= r.0 <= 12 && r.1 < MonthDays(year, r.0)
    decreases 12 - month
  {
    YearEndsInDecember(year);
    if left < MonthDays(year, month) then (month, left) else FindMonth(year, month + 1, left - MonthDays(year, month))
  }

  lemma YearEndsInDecember(year: nat)
    ensures DaysBeforeMonth(year, 13) == YearDays(year)
  {
    var y := year;
    assert DaysBeforeMonth(y, 3) == DaysBeforeMonth(y, 2) + MonthDays(y, 2) && DaysBeforeMonth(y, 2) == 31;
    assert DaysBeforeMonth(y, 5) == DaysBeforeMonth(y, 4) + 30 && DaysBeforeMonth(y, 4) == DaysBeforeMonth(y, 3) + 31;
    assert DaysBeforeMonth(y, 7) == DaysBeforeMonth(y, 6) + 30 && DaysBeforeMonth(y, 6) == DaysBeforeMonth(y, 5) + 31;
    assert DaysBeforeMonth(y, 9) == DaysBeforeMonth(y, 8) + 31 && DaysBeforeMonth(y, 8) == DaysBeforeMonth(y, 7) + 31;
    assert DaysBeforeMonth(y, 11) == DaysBeforeMonth(y, 10) + 31 && DaysBeforeMonth(y, 10) == DaysBeforeMonth(y, 9) + 30;
    assert DaysBeforeMonth(y, 13) == DaysBeforeMonth(y, 12) + 31 && DaysBeforeMonth(y, 12) == DaysBeforeMonth(y, 11) + 30;
  }

  /** _time_to_date */
  function ToDate(seconds: nat): Date {
    var dayNumber, left := seconds / SECONDS_PER_DAY, seconds % SECONDS_PER_DAY;
    var y := FindYear(EPOCH_YEAR, dayNumber);
    var m := FindMonth(y.0, 1, y.1);
    Date(y.0, m.0, m.1 + 1, left / SECONDS_PER_HOUR, left / 60 % 60, left % 60, Weekday(dayNumber))
  }

  /** _time_from_date: the weekday is not looked at. */
  function FromDate(d: Date): nat
    requires d.day >= 1
  {
    DayNumber(d.year, d.month, d.day) * SECONDS_PER_DAY + d.hour * SECONDS_PER_HOUR + d.minute * 60 + d.second
  }

  /** A date as a calendar on the wall would show it. */
  predicate Consistent(d: Date) {
    && d.year >= EPOCH_YEAR && 1 <= d.month <= 12 && 1 <= d.day <= MonthDays(d.year, d.month)
    && d.hour < 24 && d.minute < 60 && d.second < 60
    && d.wday == Weekday(DayNumber(d.year, d.month, d.day))
  }

  lemma {:induction false} FindYearRight(year: nat, left: nat)
    requires year >= EPOCH_YEAR
    ensures var r := FindYear(year, left); DaysBeforeYear(r.0) + r.1 == DaysBeforeYear(year) + left
    decreases left
  {
    if left >= YearDays(year) {
      FindYearRight(year + 1, left - YearDays(year));
    }
  }

  lemma {:induction false} FindMonthRight(year: nat, month: nat, left: nat)
    requires 1 <= month <= 12 && DaysBeforeMonth(year, month) + left < YearDays(year)
    ensures var r := FindMonth(year, month, left); DaysBeforeMonth(year, r.0) + r.1 == DaysBeforeMonth(year, month) + left
    decreases 12 - month
  {
    YearEndsInDecember(year);
    if left >= MonthDays(year, month) {
      FindMonthRight(year, month + 1, left - MonthDays(year, month));
    }
  }

  /** The days before a year in closed form: a leap year every four years, but not every hundred, but every
      four hundred. */
  lemma {:induction false} DaysInClosedForm(year: nat)
    requires year >= EPOCH_YEAR
    ensures DaysBeforeYear(year) == 365 * (year - 1970) + (year - 1) / 4 - (year - 1) / 100 + (year - 1) / 400 - 477
  {
    hide YearDays;
    if year > EPOCH_YEAR {
      DaysInClosedForm(year - 1);
      YearStep(year - 1);
    }
  }

  lemma YearStep(n: nat)
    requires n > 0
    ensures YearDays(n) == 365 + (n / 4 - (n - 1) / 4) - (n / 100 - (n - 1) / 100) + (n / 400 - (n - 1) / 400)
  {
    LeapStep(n);
  }

  lemma LeapStep(n: nat)
    requires n > 0
    ensures n / 4 - (n - 1) / 4 == if n % 4 == 0 then 1 else 0
    ensures n / 100 - (n - 1) / 100 == if n % 100 == 0 then 1 else 0
    ensures n / 400 - (n - 1) / 400 == if n % 400 == 0 then 1 else 0
    ensures (n % 100 == 0 ==> n % 4 == 0) && (n % 400 == 0 ==> n % 100 == 0)
  {
  }

  /** Seconds to date to seconds. */
  lemma SecondsRoundTrip(seconds: nat)
    ensures Consistent(ToDate(seconds)) && FromDate(ToDate(seconds)) == seconds
    ensures var d := ToDate(seconds); DayNumber(d.year, d.month, d.day) == seconds / SECONDS_PER_DAY
  {
    var n := seconds / SECONDS_PER_DAY;
    FindYearRight(EPOCH_YEAR, n);
    var y := FindYear(EPOCH_YEAR, n);
    FindMonthRight(y.0, 1, y.1);
  }

  lemma {:induction false} YearsAscend(y: nat, y': nat)
    requires EPOCH_YEAR <= y < y'
    ensures DaysBeforeYear(y) + YearDays(y) <= DaysBeforeYear(y')
    decreases y'
  {
    if y' > y + 1 {
      YearsAscend(y, y' - 1);
    }
  }

  lemma {:induction false} MonthsAscend(y: nat, m: nat, m': nat)
    requires 1 <= m < m'
    ensures DaysBeforeMonth(y, m) + MonthDays(y, m) <= DaysBeforeMonth(y, m')
    decreases m'
  {
    if m' > m + 1 {
      MonthsAscend(y, m, m' - 1);
    }
  }

  lemma WithinYear(y: nat, m: nat, d: nat)
    requires 1 <= m <= 12 && 1 <= d <= MonthDays(y, m)
    ensures DaysBeforeMonth(y, m) + d - 1 < YearDays(y)
  {
    YearEndsInDecember(y);
    MonthsAscend(y, m, 13);
  }

  /** A later civil day has the larger number. */
  lemma DaysAscend(y: nat, m: nat, d: nat, y': nat, m': nat, d': nat)
    requires EPOCH_YEAR <= y && 1 <= m <= 12 && 1 <= d <= MonthDays(y, m)
    requires EPOCH_YEAR <= y' && 1 <= m' <= 12 && 1 <= d' <= MonthDays(y', m')
    requires y < y' || (y == y' && (m < m' || (m == m' && d < d')))
    ensures DayNumber(y, m, d) < DayNumber(y', m', d')
  {
    if y < y' {
      WithinYear(y, m, d);
      YearsAscend(y, y');
    } else if m < m' {
      MonthsAscend(y, m, m');
    }
  }

  /** Date to seconds to date. */
  lemma DateRoundTrip(d: Date)
    requires Consistent(d)
    ensures ToDate(FromDate(d)) == d
  {
    var t := FromDate(d);
    var n := DayNumber(d.year, d.month, d.day);
    assert t / SECONDS_PER_DAY == n && t % SECONDS_PER_DAY == d.hour * SECONDS_PER_HOUR + d.minute * 60 + d.second;
    SecondsRoundTrip(t);
    var e := ToDate(t);
    if e.year != d.year || e.month != d.month || e.day != d.day {
      if d.year < e.year || (d.year == e.year && (d.month < e.month || (d.month == e.month && d.day < e.day))) {
        DaysAscend(d.year, d.month, d.day, e.year, e.month, e.day);
      } else {
        DaysAscend(e.year, e.month, e.day, d.year, d.month, d.day);
      }
    }
  }
}
