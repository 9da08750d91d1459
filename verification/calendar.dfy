/** Wall-clock time as the services see it through JavaScript's `Date`
    getters, on the proleptic Gregorian calendar without daylight-saving
    shifts. A `Time` counts seconds from 1970-01-01 00:00:00 local time. */
module Calendar {

  type Time = int

  const SecondsPerHour: int := 3600
  const SecondsPerDay: int := 86400

  /** Civil fields of an instant, as `getFullYear`, `getMonth() + 1`,
      `getDate`, `getHours`, `getMinutes` and `getSeconds` return them. */
  datatype DateTime = DateTime(year: int, month: int, day: int, hour: int, minute: int, second: int)

  predicate IsLeap(y: int)
  {
    y % 4 == 0 && (y % 100 != 0 || y % 400 == 0)
  }

  function YearDays(leap: bool): int
  {
    if leap then 366 else 365
  }

  function DaysInYear(y: int): int
  {
    YearDays(IsLeap(y))
  }

  /** Length of month `m` in a leap (`leap`) or common year. */
  function DaysInMonth(leap: bool, m: int): (d: int)
    requires 1 <= m <= 12
    ensures 28 <= d <= 31
  {
    if m == 2 then (if leap then 29 else 28)
    else if m == 4 || m == 6 || m == 9 || m == 11 then 30
    else 31
  }

  /** Days of the year that lie before the first of month `m` (m = 13 gives
      the length of the year). */
  function DaysBeforeMonth(leap: bool, m: int): (d: int)
    requires 1 <= m <= 13
    ensures 0 <= d
  {
    if m == 1 then 0 else DaysBeforeMonth(leap, m - 1) + DaysInMonth(leap, m - 1)
  }

  lemma YearLength(leap: bool)
    ensures DaysBeforeMonth(leap, 13) == YearDays(leap)
  {
    assert DaysBeforeMonth(leap, 2) == 31;
    assert DaysBeforeMonth(leap, 3) == 59 + (if leap then 1 else 0);
    assert DaysBeforeMonth(leap, 5) == 120 + (if leap then 1 else 0);
    assert DaysBeforeMonth(leap, 7) == 181 + (if leap then 1 else 0);
    assert DaysBeforeMonth(leap, 9) == 243 + (if leap then 1 else 0);
    assert DaysBeforeMonth(leap, 11) == 304 + (if leap then 1 else 0);
  }

  /** Number of leap years in 1 .. y-1, extended to all integers. */
  function LeapsBefore(y: int): int
  {
    (y - 1) / 4 - (y - 1) / 100 + (y - 1) / 400
  }

  /** Days from 1970-01-01 to January 1st of year `y`. */
  function DaysBeforeYear(y: int): int
  {
    365 * (y - 1970) + LeapsBefore(y) - LeapsBefore(1970)
  }

  lemma MulAtLeast(d: int, k: int)
    requires d > 0 && k >= 1
    ensures d * k >= d
  {
    var j := k - 1;
    assert d * k == d * j + d;
    assert d * j >= 0;
  }

  lemma DivUnique(a: int, d: int, q: int, r: int)
    requires d > 0 && 0 <= r < d && a == d * q + r
    ensures a / d == q && a % d == r
  {
    var q' := a / d;
    var r' := a % d;
    assert a == d * q' + r';
    assert d * (q - q') == r' - r by {
      assert d * (q - q') == d * q - d * q';
    }
    if q > q' {
      MulAtLeast(d, q - q');
    } else if q < q' {
      MulAtLeast(d, q' - q);
    }
  }

  /** Stepping `y` by one crosses a multiple of `d` exactly when `d` divides `y`. */
  lemma DivStep(y: int, d: int)
    requires d > 0
    ensures y / d - (y - 1) / d == if y % d == 0 then 1 else 0
  {
    var q := y / d;
    var r := y % d;
    assert y == d * q + r;
    if r == 0 {
      DivUnique(y - 1, d, q - 1, d - 1);
    } else {
      DivUnique(y - 1, d, q, r - 1);
    }
  }

  lemma {:induction false} NextYear(y: int)
    ensures DaysBeforeYear(y + 1) == DaysBeforeYear(y) + DaysInYear(y)
  {
    DivStep(y, 4);
    DivStep(y, 100);
    DivStep(y, 400);
  }

  lemma {:induction false} DaysBeforeYearMonotone(a: int, b: int)
    requires a <= b
    ensures DaysBeforeYear(a) + 365 * (b - a) <= DaysBeforeYear(b)
    decreases b - a
  {
    if a < b {
      DaysBeforeYearMonotone(a + 1, b);
      NextYear(a);
    }
  }

  function FindYearUp(days: int, y: int): (r: int)
    requires DaysBeforeYear(y) <= days
    ensures DaysBeforeYear(r) <= days < DaysBeforeYear(r + 1)
    decreases days - DaysBeforeYear(y)
  {
    NextYear(y);
    if days < DaysBeforeYear(y + 1) then y else FindYearUp(days, y + 1)
  }

  function FindYearDown(days: int, y: int): (r: int)
    requires days < DaysBeforeYear(y + 1)
    ensures DaysBeforeYear(r) <= days < DaysBeforeYear(r + 1)
    decreases DaysBeforeYear(y + 1) - days
  {
    NextYear(y);
    if DaysBeforeYear(y) <= days then y else FindYearDown(days, y - 1)
  }

  /** The year holding day number `days` (0 is 1970-01-01). */
  function YearOfDay(days: int): (y: int)
    ensures DaysBeforeYear(y) <= days < DaysBeforeYear(y + 1)
  {
    NextYear(1969);
    if days >= 0 then FindYearUp(days, 1970) else FindYearDown(days, 1969)
  }

  /** Only one year brackets a given day. */
  lemma YearUnique(days: int, y1: int, y2: int)
    requires DaysBeforeYear(y1) <= days < DaysBeforeYear(y1 + 1)
    requires DaysBeforeYear(y2) <= days < DaysBeforeYear(y2 + 1)
    ensures y1 == y2
  {
    if y1 < y2 {
      DaysBeforeYearMonotone(y1 + 1, y2);
    } else if y2 < y1 {
      DaysBeforeYearMonotone(y2 + 1, y1);
    }
  }

  function MonthFrom(leap: bool, doy: int, m: int): (r: int)
    requires 1 <= m <= 12
    requires DaysBeforeMonth(leap, m) <= doy < YearDays(leap)
    ensures m <= r <= 12
    ensures DaysBeforeMonth(leap, r) <= doy < DaysBeforeMonth(leap, r + 1)
    decreases 12 - m
  {
    YearLength(leap);
    if doy < DaysBeforeMonth(leap, m + 1) then m else MonthFrom(leap, doy, m + 1)
  }

  /** The month holding day `doy` (0-based) of a leap or common year. */
  function MonthOfDay(leap: bool, doy: int): (m: int)
    requires 0 <= doy < YearDays(leap)
    ensures 1 <= m <= 12
    ensures DaysBeforeMonth(leap, m) <= doy < DaysBeforeMonth(leap, m + 1)
  {
    MonthFrom(leap, doy, 1)
  }

  lemma {:induction false} DaysBeforeMonthMonotone(leap: bool, a: int, b: int)
    requires 1 <= a <= b <= 13
    ensures DaysBeforeMonth(leap, a) + 28 * (b - a) <= DaysBeforeMonth(leap, b)
    decreases b - a
  {
    if a < b {
      DaysBeforeMonthMonotone(leap, a + 1, b);
    }
  }

  lemma MonthUnique(leap: bool, doy: int, m1: int, m2: int)
    requires 1 <= m1 <= 12 && 1 <= m2 <= 12
    requires DaysBeforeMonth(leap, m1) <= doy < DaysBeforeMonth(leap, m1 + 1)
    requires DaysBeforeMonth(leap, m2) <= doy < DaysBeforeMonth(leap, m2 + 1)
    ensures m1 == m2
  {
    if m1 < m2 {
      DaysBeforeMonthMonotone(leap, m1 + 1, m2);
    } else if m2 < m1 {
      DaysBeforeMonthMonotone(leap, m2 + 1, m1);
    }
  }

  /** A calendar day. */
  datatype Date = Date(year: int, month: int, day: int)

  predicate ValidDate(d: Date)
  {
    1 <= d.month <= 12 && 1 <= d.day <= DaysInMonth(IsLeap(d.year), d.month)
  }

  /** Days from 1970-01-01 to `d`. */
  function DayNumber(d: Date): int
    requires ValidDate(d)
  {
    DaysBeforeYear(d.year) + DaysBeforeMonth(IsLeap(d.year), d.month) + d.day - 1
  }

  /** The calendar day numbered `days`; `DayNumber` inverts it. */
  function DateOfDay(days: int): (d: Date)
    ensures ValidDate(d)
    ensures DayNumber(d) == days
  {
    var y := YearOfDay(days);
    NextYear(y);
    var m := MonthOfDay(IsLeap(y), days - DaysBeforeYear(y));
    Date(y, m, days - DaysBeforeYear(y) - DaysBeforeMonth(IsLeap(y), m) + 1)
  }

  predicate ValidDateTime(dt: DateTime)
  {
    && ValidDate(Date(dt.year, dt.month, dt.day))
    && 0 <= dt.hour < 24
    && 0 <= dt.minute < 60
    && 0 <= dt.second < 60
  }

  /** The instant at which the wall clock shows `dt`. */
  function FromCivil(dt: DateTime): Time
    requires ValidDateTime(dt)
  {
    DayNumber(Date(dt.year, dt.month, dt.day)) * SecondsPerDay
      + dt.hour * SecondsPerHour + dt.minute * 60 + dt.second
  }

  /** Hour of the day shown by the wall clock at `t` (`Date.getHours`). */
  function HourOfDay(t: Time): (h: int)
    ensures 0 <= h < 24
  {
    (t / SecondsPerHour) % 24
  }

  lemma SplitTime(t: Time)
    ensures t == (t / SecondsPerDay) * SecondsPerDay + HourOfDay(t) * SecondsPerHour
                 + ((t / 60) % 60) * 60 + t % 60
  {
    var m := t / 60;
    var h := t / SecondsPerHour;
    var d := t / SecondsPerDay;
    DivUnique(t, SecondsPerHour, m / 60, (m % 60) * 60 + t % 60);
    assert h == m / 60;
    DivUnique(t, SecondsPerDay, h / 24, (h % 24) * SecondsPerHour + (m % 60) * 60 + t % 60);
    assert d == h / 24;
  }

  /** The civil fields the wall clock shows at `t`; `FromCivil` inverts it. */
  function ToCivil(t: Time): (dt: DateTime)
    ensures ValidDateTime(dt)
    ensures FromCivil(dt) == t
    ensures dt.hour == HourOfDay(t)
  {
    var d := DateOfDay(t / SecondsPerDay);
    SplitTime(t);
    DateTime(d.year, d.month, d.day, HourOfDay(t), (t / 60) % 60, t % 60)
  }

  /** The time-of-day fields of `days * SecondsPerDay + sod`. */
  lemma DayAndTimeOfDay(days: int, h: int, mi: int, se: int)
    requires 0 <= h < 24 && 0 <= mi < 60 && 0 <= se < 60
    ensures var t := days * SecondsPerDay + h * SecondsPerHour + mi * 60 + se;
      && t / SecondsPerDay == days
      && HourOfDay(t) == h
      && (t / 60) % 60 == mi
      && t % 60 == se
  {
    var t := days * SecondsPerDay + h * SecondsPerHour + mi * 60 + se;
    DivUnique(t, SecondsPerDay, days, h * SecondsPerHour + mi * 60 + se);
    DivUnique(t, 60, days * 1440 + h * 60 + mi, se);
    DivUnique(days * 1440 + h * 60 + mi, 60, days * 24 + h, mi);
    DivUnique(t, SecondsPerHour, days * 24 + h, mi * 60 + se);
    DivUnique(days * 24 + h, 24, days, h);
  }

  /** Day `d` of month `m` is a day of the year. */
  lemma DayOfYearInRange(leap: bool, m: int, d: int)
    requires 1 <= m <= 12 && 1 <= d <= DaysInMonth(leap, m)
    ensures 0 <= DaysBeforeMonth(leap, m) + d - 1 < YearDays(leap)
  {
    DaysBeforeMonthMonotone(leap, m + 1, 13);
    YearLength(leap);
  }

  /** The day number of a valid date lies in that date's year. */
  lemma DayNumberInYear(d: Date)
    requires ValidDate(d)
    ensures DaysBeforeYear(d.year) <= DayNumber(d) < DaysBeforeYear(d.year + 1)
  {
    DayOfYearInRange(IsLeap(d.year), d.month, d.day);
    NextYear(d.year);
  }

  /** Distinct valid dates have distinct day numbers. */
  lemma DayNumberInjective(d1: Date, d2: Date)
    requires ValidDate(d1) && ValidDate(d2)
    requires DayNumber(d1) == DayNumber(d2)
    ensures d1 == d2
  {
    DayNumberInYear(d1);
    DayNumberInYear(d2);
    YearUnique(DayNumber(d1), d1.year, d2.year);
    var leap := IsLeap(d1.year);
    var doy := DaysBeforeMonth(leap, d1.month) + d1.day - 1;
    assert doy < DaysBeforeMonth(leap, d1.month + 1);
    assert DaysBeforeMonth(leap, d2.month) + d2.day - 1 == doy;
    assert doy < DaysBeforeMonth(leap, d2.month + 1);
    MonthUnique(leap, doy, d1.month, d2.month);
  }

  /** Numbering a valid day and reading it back gives the same day. */
  lemma DateRoundTrip(d: Date)
    requires ValidDate(d)
    ensures DateOfDay(DayNumber(d)) == d
  {
    DayNumberInjective(DateOfDay(DayNumber(d)), d);
  }

  /** Distinct valid civil times denote distinct instants. */
  lemma FromCivilInjective(a: DateTime, b: DateTime)
    requires ValidDateTime(a) && ValidDateTime(b)
    requires FromCivil(a) == FromCivil(b)
    ensures a == b
  {
    var da := Date(a.year, a.month, a.day);
    var db := Date(b.year, b.month, b.day);
    DayAndTimeOfDay(DayNumber(da), a.hour, a.minute, a.second);
    DayAndTimeOfDay(DayNumber(db), b.hour, b.minute, b.second);
    DayNumberInjective(da, db);
  }

  /** The other half of the round trip: reading back the instant of a valid
      civil date gives the same fields. */
  lemma CivilRoundTrip(dt: DateTime)
    requires ValidDateTime(dt)
    ensures ToCivil(FromCivil(dt)) == dt
  {
    FromCivilInjective(ToCivil(FromCivil(dt)), dt);
  }

  /** Calendar-month difference `(y2 - y1) * 12 + (m2 - m1)`, ignoring days. */
  function MonthsBetween(start: Time, end: Time): int
  {
    var a := ToCivil(start);
    var b := ToCivil(end);
    (b.year - a.year) * 12 + (b.month - a.month)
  }
}
