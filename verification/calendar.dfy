/**
  Instants as integer milliseconds since 1970-01-01T00:00:00Z (what
  `Date.getTime()` returns), whole-day differences, and the calendar month
  of an instant (`getMonth() + 1`), computed in UTC.
 */
module Calendar {

  /** Milliseconds since the epoch. */
  type Instant = int

  /** 1000 * 60 * 60 * 24 */
  const MsPerDay: int := 86_400_000

  /** `Math.floor(ms / MsPerDay)`: the whole days in `ms`, rounded down. */
  function DaysFloor(ms: int): (d: int)
    ensures MsPerDay * d <= ms < MsPerDay * (d + 1)
  {
    ms / MsPerDay
  }

  /** `Math.ceil(ms / MsPerDay)`: the whole days in `ms`, rounded up. */
  function DaysCeil(ms: int): (d: int)
    ensures MsPerDay * (d - 1) < ms <= MsPerDay * d
  {
    -((-ms) / MsPerDay)
  }

  /** Gregorian leap-year rule. */
  predicate IsLeapYear(y: int) {
    y % 4 == 0 && (y % 100 != 0 || y % 400 == 0)
  }

  function DaysInYear(y: int): int {
    if IsLeapYear(y) then 366 else 365
  }

  /**
    The year and zero-based day of the year of the day lying `d` days after
    1 January of year `y` (`d` may be negative).
   */
  function YearAndDay(y: int, d: int): (r: (int, int))
    ensures 0 <= r.1 < DaysInYear(r.0)
    decreases if d < 0 then 400 - d else d
  {
    if d < 0 then YearAndDay(y - 1, d + DaysInYear(y - 1))
    else if d < DaysInYear(y) then (y, d)
    else YearAndDay(y + 1, d - DaysInYear(y))
  }

  /** The month (1 to 12) containing zero-based day `doy` of a year. */
  function MonthOfDayOfYear(leap: bool, doy: int): (m: int)
    ensures 1 <= m <= 12
  {
    var l := if leap then 1 else 0;
    if doy < 31 then 1
    else if doy < 59 + l then 2
    else if doy < 90 + l then 3
    else if doy < 120 + l then 4
    else if doy < 151 + l then 5
    else if doy < 181 + l then 6
    else if doy < 212 + l then 7
    else if doy < 243 + l then 8
    else if doy < 273 + l then 9
    else if doy < 304 + l then 10
    else if doy < 334 + l then 11
    else 12
  }

  /** `new Date(t).getMonth() + 1`, in UTC. */
  function MonthOf(t: Instant): (m: int)
    ensures 1 <= m <= 12
  {
    var (y, doy) := YearAndDay(1970, DaysFloor(t));
    MonthOfDayOfYear(IsLeapYear(y), doy)
  }
}
