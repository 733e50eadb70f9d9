/** Gregorian calendar dates as day numbers, UTC instants and weekdays.

    ASISTO manipulates JavaScript `Date` objects only through their UTC fields
    (`getUTCDay`, `setUTCDate`, `toISOString`), so a calendar date is modelled as the
    number of days since 1970-01-01 and an instant as milliseconds since
    1970-01-01T00:00:00Z. */
module Dates {

  /** A calendar date: days since 1970-01-01 (negative before). */
  type Day = int

  /** An instant: milliseconds since 1970-01-01T00:00:00Z. */
  type Instant = int

  const MsPerDay: int := 86_400_000
  const MsPerHour: int := 3_600_000

  /** A (year, month, day) triple with months numbered 1..12. */
  datatype Date = Date(year: int, month: int, day: int)

  predicate IsLeapYear(y: int) {
    y % 4 == 0 && (y % 100 != 0 || y % 400 == 0)
  }

  function YearLength(y: int): int {
    if IsLeapYear(y) then 366 else 365
  }

  function MonthLength(y: int, m: int): (n: int)
    requires 1 <= m <= 12
    ensures 28 <= n <= 31
    ensures n == 29 <==> m == 2 && IsLeapYear(y)
  {
    if m == 2 then (if IsLeapYear(y) then 29 else 28)
    else if m == 4 || m == 6 || m == 9 || m == 11 then 30
    else 31
  }

  predicate ValidDate(dt: Date) {
    1 <= dt.month <= 12 && 1 <= dt.day <= MonthLength(dt.year, dt.month)
  }

  /** Number of leap years in 1..x, extended to every integer by floor division. */
  function LeapsThrough(x: int): int {
    x / 4 - x / 100 + x / 400
  }

  /** The day number of January 1st of year y. */
  function DaysBeforeYear(y: int): Day {
    365 * (y - 1970) + LeapsThrough(y - 1) - LeapsThrough(1969)
  }

  const CumulativeDays: seq<int> := [0, 31, 59, 90, 120, 151, 181, 212, 243, 273, 304, 334]

  /** Days of year y that precede the first of month m. */
  function DaysBeforeMonth(y: int, m: int): int
    requires 1 <= m <= 12
  {
    CumulativeDays[m - 1] + (if m > 2 && IsLeapYear(y) then 1 else 0)
  }

  /** The day number of a (year, month, day) triple. */
  function ToDay(dt: Date): Day
    requires 1 <= dt.month <= 12
  {
    DaysBeforeYear(dt.year) + DaysBeforeMonth(dt.year, dt.month) + dt.day - 1
  }

  lemma DivStep4(y: int)
    ensures y / 4 - (y - 1) / 4 == if y % 4 == 0 then 1 else 0
  {
  }

  lemma DivStep100(y: int)
    ensures y / 100 - (y - 1) / 100 == if y % 100 == 0 then 1 else 0
  {
  }

  lemma DivStep400(y: int)
    ensures y / 400 - (y - 1) / 400 == if y % 400 == 0 then 1 else 0
  {
  }

  /** Year y adds one to the leap count exactly when it is a leap year. */
  lemma LeapStep(y: int)
    ensures LeapsThrough(y) - LeapsThrough(y - 1) == if IsLeapYear(y) then 1 else 0
  {
    DivStep4(y);
    DivStep100(y);
    DivStep400(y);
  }

  /** Consecutive January firsts are one year length apart. */
  lemma YearStep(y: int)
    ensures DaysBeforeYear(y + 1) == DaysBeforeYear(y) + YearLength(y)
  {
    LeapStep(y);
  }

  /** Consecutive month starts are one month length apart; December ends the year. */
  lemma MonthStep(y: int, m: int)
    requires 1 <= m <= 12
    ensures m < 12 ==> DaysBeforeMonth(y, m + 1) == DaysBeforeMonth(y, m) + MonthLength(y, m)
    ensures m == 12 ==> DaysBeforeMonth(y, 12) + MonthLength(y, 12) == YearLength(y)
  {
  }

  lemma {:induction false} YearMonotone(a: int, b: int)
    requires a <= b
    ensures DaysBeforeYear(a) + 365 * (b - a) <= DaysBeforeYear(b)
    decreases b - a
  {
    if a < b {
      YearMonotone(a, b - 1);
      YearStep(b - 1);
    }
  }

  /** At most one year contains a given day. */
  lemma YearUnique(a: int, b: int, n: Day)
    requires DaysBeforeYear(a) <= n < DaysBeforeYear(a + 1)
    requires DaysBeforeYear(b) <= n < DaysBeforeYear(b + 1)
    ensures a == b
  {
    if a < b {
      YearMonotone(a + 1, b);
    } else if b < a {
      YearMonotone(b + 1, a);
    }
  }

  function YearUp(n: Day, y: int): (r: int)
    requires DaysBeforeYear(y) <= n
    ensures DaysBeforeYear(r) <= n < DaysBeforeYear(r + 1)
    decreases n - DaysBeforeYear(y)
  {
    YearStep(y);
    if n < DaysBeforeYear(y + 1) then y else YearUp(n, y + 1)
  }

  function YearDown(n: Day, y: int): (r: int)
    requires n < DaysBeforeYear(y + 1)
    ensures DaysBeforeYear(r) <= n < DaysBeforeYear(r + 1)
    decreases DaysBeforeYear(y + 1) - n
  {
    YearStep(y);
    if DaysBeforeYear(y) <= n then y else YearDown(n, y - 1)
  }

  /** The year that contains day n. */
  function YearOf(n: Day): (y: int)
    ensures DaysBeforeYear(y) <= n < DaysBeforeYear(y + 1)
  {
    if n >= 0 then YearUp(n, 1970) else YearDown(n, 1969)
  }

  function MonthFrom(y: int, r: int, m: int): (k: int)
    requires 1 <= m <= 12 && DaysBeforeMonth(y, m) <= r < YearLength(y)
    ensures m <= k <= 12
    ensures DaysBeforeMonth(y, k) <= r < DaysBeforeMonth(y, k) + MonthLength(y, k)
    decreases 12 - m
  {
    MonthStep(y, m);
    if m == 12 || r < DaysBeforeMonth(y, m + 1) then m else MonthFrom(y, r, m + 1)
  }

  /** The calendar date of day number n: the Gregorian conversion used by
      `toISOString` and the `getUTC*` accessors. */
  function FromDay(n: Day): (dt: Date)
    ensures ValidDate(dt) && ToDay(dt) == n
  {
    var y := YearOf(n);
    YearStep(y);
    var r := n - DaysBeforeYear(y);
    var m := MonthFrom(y, r, 1);
    Date(y, m, r - DaysBeforeMonth(y, m) + 1)
  }

  /** Round trip: converting a valid date to its day number and back gives it back. */
  lemma FromDayToDay(dt: Date)
    requires ValidDate(dt)
    ensures FromDay(ToDay(dt)) == dt
  {
    var n := ToDay(dt);
    var dt' := FromDay(n);
    DateBounds(dt);
    DateBounds(dt');
    YearUnique(dt.year, dt'.year, n);
    MonthUnique(dt.year, dt.month, dt'.month, n - DaysBeforeYear(dt.year));
  }

  /** A valid date's day number lies in its year, and within the year in its month. */
  lemma DateBounds(dt: Date)
    requires ValidDate(dt)
    ensures DaysBeforeYear(dt.year) <= ToDay(dt) < DaysBeforeYear(dt.year + 1)
    ensures DaysBeforeMonth(dt.year, dt.month) <= ToDay(dt) - DaysBeforeYear(dt.year) <
      DaysBeforeMonth(dt.year, dt.month) + MonthLength(dt.year, dt.month)
  {
    MonthBounds(dt.year, dt.month);
    YearStep(dt.year);
  }

  lemma MonthBounds(y: int, m: int)
    requires 1 <= m <= 12
    ensures DaysBeforeMonth(y, m) + MonthLength(y, m) <= YearLength(y)
  {
  }

  lemma MonthUnique(y: int, a: int, b: int, r: int)
    requires 1 <= a <= 12 && 1 <= b <= 12
    requires DaysBeforeMonth(y, a) <= r < DaysBeforeMonth(y, a) + MonthLength(y, a)
    requires DaysBeforeMonth(y, b) <= r < DaysBeforeMonth(y, b) + MonthLength(y, b)
    ensures a == b
  {
  }

  /** Different valid dates have different day numbers. */
  lemma ToDayInjective(a: Date, b: Date)
    requires ValidDate(a) && ValidDate(b) && ToDay(a) == ToDay(b)
    ensures a == b
  {
    FromDayToDay(a);
    FromDayToDay(b);
  }

  /** `getUTCDay()`: 0 is Sunday; 1970-01-01 was a Thursday. */
  function UtcWeekday(n: Day): (w: int)
    ensures 0 <= w < 7
  {
    (n + 4) % 7
  }

  /** The weekday numbering of ASISTO's schedules: Monday 1 .. Sunday 7
      (`getUTCDay() === 0 ? 7 : getUTCDay()`). */
  function IsoWeekday(n: Day): (w: int)
    ensures 1 <= w <= 7
    ensures w == 7 <==> UtcWeekday(n) == 0
    ensures w < 7 ==> w == UtcWeekday(n)
  {
    if UtcWeekday(n) == 0 then 7 else UtcWeekday(n)
  }

  /** The next day has the next weekday, Sunday (7) wrapping to Monday (1). */
  lemma IsoWeekdayNext(n: Day)
    ensures IsoWeekday(n + 1) == IsoWeekday(n) % 7 + 1
  {
  }

  /** Walking k days forward advances the weekday by k modulo 7. */
  lemma IsoWeekdayShift(n: Day, k: int)
    ensures IsoWeekday(n + k) == (IsoWeekday(n) - 1 + k) % 7 + 1
  {
  }

  /** The UTC calendar date of an instant (`toISOString().split('T')[0]`). */
  function DayOf(t: Instant): (d: Day)
    ensures d * MsPerDay <= t < (d + 1) * MsPerDay
  {
    t / MsPerDay
  }

  /** The instant at which day d begins (`new Date('YYYY-MM-DDT00:00:00Z')`). */
  function StartOf(d: Day): (t: Instant)
    ensures DayOf(t) == d
  {
    d * MsPerDay
  }

  /** `setUTCHours(12, 0, 0, 0)`: noon UTC of the instant's own UTC date. */
  function NoonOf(t: Instant): (u: Instant)
    ensures DayOf(u) == DayOf(t)
    ensures u - StartOf(DayOf(t)) == 12 * MsPerHour
  {
    DayOf(t) * MsPerDay + 12 * MsPerHour
  }

  /** A day's midnight is at or before an instant exactly when the day is at most
      the instant's UTC date: the test `current <= today` of a day walk. */
  lemma StartOfAtMost(d: Day, t: Instant)
    ensures StartOf(d) <= t <==> d <= DayOf(t)
  {
    if d <= DayOf(t) {
      assert d * MsPerDay <= DayOf(t) * MsPerDay;
    } else {
      assert (DayOf(t) + 1) * MsPerDay <= d * MsPerDay;
    }
  }
}
