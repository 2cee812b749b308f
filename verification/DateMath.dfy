/**
 Calendar arithmetic of jsdate.c (ECMA-262 3rd edition, section 15.9.1) on exact integers. Time values
 are milliseconds since 1 January 1970 UTC; Dafny's `/` and `%` by a positive constant are the floor
 division and remainder that the source builds from floor and fmod.
 */
module DateMath {
  const MS_PER_SECOND := 1000
  const MS_PER_MINUTE := 60_000
  const MS_PER_HOUR := 3_600_000
  const MS_PER_DAY := 86_400_000
  /** msPerDay * 365.2425, which is a whole number of milliseconds. */
  const MS_PER_MEAN_YEAR := 31_556_952_000

  /** C's `%` and fmod: the remainder takes the sign of the dividend. */
  function CRemainder(a: int, n: int): int
    requires n > 0
  {
    if a >= 0 then a % n else -(-a % n)
  }

  lemma MultipleIsFar(n: int, d: int)
    requires n > 0
    ensures d >= 1 ==> n * d >= n
    ensures d <= -1 ==> n * d <= -n
  {
  }

  lemma RemainderIs(a: int, n: int, q: int, r: int)
    requires 0 <= r < n && a == n * q + r
    ensures a % n == r && a / n == q
  {
    var d := a / n - q;
    assert n * d == r - a % n;
    assert -n < n * d < n;
    MultipleIsFar(n, d);
  }

  lemma NegativeRemainder(a: int, n: int)
    requires n > 0
    ensures a < 0 ==> a % n == if -a % n == 0 then 0 else n - -a % n
  {
    if a < 0 {
      var q, r := -a / n, -a % n;
      if r == 0 {
        RemainderIs(a, n, -q, 0);
      } else {
        assert a == n * (-q - 1) + (n - r);
        RemainderIs(a, n, -q - 1, n - r);
      }
    }
  }

  /** The idiom used throughout the source: a C remainder, moved up when it came out negative. */
  function Modulo(a: int, n: int): (r: int)
    requires n > 0
    ensures r == a % n
  {
    var r := CRemainder(a, n);
    NegativeRemainder(a, n);
    if r < 0 then r + n else r
  }

  function Day(t: int): int {
    t / MS_PER_DAY
  }

  function TimeWithinDay(t: int): int {
    Modulo(t, MS_PER_DAY)
  }

  function DaysInYear(y: int): int {
    if y % 4 == 0 && (y % 100 != 0 || y % 400 == 0) then 366 else 365
  }

  function DayFromYear(y: int): int {
    365 * (y - 1970) + (y - 1969) / 4 - (y - 1901) / 100 + (y - 1601) / 400
  }

  function TimeFromYear(y: int): int {
    DayFromYear(y) * MS_PER_DAY
  }

  /** One estimate by the mean length of a year, and one correction. */
  function YearFromTime(t: int): int {
    var y := t / MS_PER_MEAN_YEAR + 1970;
    var t2 := TimeFromYear(y);
    if t2 > t then y - 1
    else if t2 + MS_PER_DAY * DaysInYear(y) <= t then y + 1
    else y
  }

  predicate InLeapYear(t: int) {
    DaysInYear(YearFromTime(t)) == 366
  }

  function DayWithinYear(t: int, year: int): int {
    Day(t) - DayFromYear(year)
  }

  // ---- years -----------------------------------------------------------------------------------------

  lemma FloorStep(x: int, n: int)
    requires n == 4 || n == 100 || n == 400
    ensures (x + 1) / n == x / n + if (x + 1) % n == 0 then 1 else 0
  {
  }

  lemma SameModulo(x: int, y: int, n: int, k: int)
    requires (n == 4 || n == 100 || n == 400) && x == y + n * k
    ensures x % n == y % n
  {
  }

  /** A year that 400 divides, 100 divides too, and so on. */
  lemma Leaps(y: int)
    ensures (y % 400 == 0 ==> y % 100 == 0) && (y % 100 == 0 ==> y % 4 == 0)
  {
  }

  /** Years follow one another without gap or overlap. */
  lemma YearLength(y: int)
    ensures DayFromYear(y + 1) == DayFromYear(y) + DaysInYear(y)
  {
    FloorStep(y - 1969, 4);
    FloorStep(y - 1901, 100);
    FloorStep(y - 1601, 400);
    SameModulo(y - 1968, y, 4, -492);
    SameModulo(y - 1900, y, 100, -19);
    SameModulo(y - 1600, y, 400, -4);
    Leaps(y);
  }

  lemma {:induction false} YearsAreOrdered(y: int, z: int)
    requires y < z
    ensures DayFromYear(z) - DayFromYear(y) >= 365 * (z - y)
    decreases z - y
  {
    YearLength(z - 1);
    if y < z - 1 {
      YearsAreOrdered(y, z - 1);
    }
  }

  lemma FloorBounds(x: int, n: int)
    requires n == 4 || n == 100 || n == 400
    ensures x - (n - 1) <= n * (x / n) <= x
  {
  }

  /** The mean-year estimate of a year's first day is off by less than two days. */
  lemma MeanYearBound(y: int)
    ensures var x := y - 1970;
            365 * 400 * x + 97 * x - 506 <= 400 * DayFromYear(y) <= 365 * 400 * x + 97 * x + 589
  {
    FloorBounds(y - 1969, 4);
    FloorBounds(y - 1901, 100);
    FloorBounds(y - 1601, 400);
  }

  /** The estimate is never more than one year off. */
  lemma EstimateIsClose(t: int)
    ensures var y := t / MS_PER_MEAN_YEAR + 1970;
            TimeFromYear(y - 1) <= t < TimeFromYear(y + 2)
  {
    var x := t / MS_PER_MEAN_YEAR;
    MeanYearBound(x + 1970 - 1);
    MeanYearBound(x + 1970 + 2);
    assert MS_PER_MEAN_YEAR * x <= t < MS_PER_MEAN_YEAR * (x + 1);
    assert 400 * MS_PER_MEAN_YEAR == MS_PER_DAY * (365 * 400 + 97);
  }

  lemma YearIsUnique(t: int, y: int, z: int)
    requires TimeFromYear(y) <= t < TimeFromYear(y + 1)
    requires TimeFromYear(z) <= t < TimeFromYear(z + 1)
    ensures y == z
  {
    if y + 1 <= z {
      if y + 1 < z {
        YearsAreOrdered(y + 1, z);
      }
    } else if z + 1 <= y {
      if z + 1 < y {
        YearsAreOrdered(z + 1, y);
      }
    }
  }

  /** YearFromTime finds the one year that a time lies in, for every time. */
  lemma YearFromTimeIsRight(t: int)
    ensures TimeFromYear(YearFromTime(t)) <= t < TimeFromYear(YearFromTime(t) + 1)
    ensures forall y :: TimeFromYear(y) <= t < TimeFromYear(y + 1) ==> y == YearFromTime(t)
  {
    hide DayFromYear, DaysInYear;
    EstimateIsClose(t);
    var y := t / MS_PER_MEAN_YEAR + 1970;
    YearLength(y);
    forall z | TimeFromYear(z) <= t < TimeFromYear(z + 1)
      ensures z == YearFromTime(t)
    {
      YearIsUnique(t, YearFromTime(t), z);
    }
  }

  // ---- months and days ---------------------------------------------------------------------------------

  /** The table firstDayOfMonth: the day of the year a month starts on. */
  function DayFromMonth(month: int, leap: bool): int
    requires 0 <= month < 12
  {
    if leap
    then [0, 31, 60, 91, 121, 152, 182, 213, 244, 274, 305, 335][month]
    else [0, 31, 59, 90, 120, 151, 181, 212, 243, 273, 304, 334][month]
  }

  function MonthFromTime(t: int): (month: int)
    ensures 0 <= month < 12
  {
    var d := DayWithinYear(t, YearFromTime(t));
    var step := 31;
    if d < step then 0 else
    var step := step + if InLeapYear(t) then 29 else 28;
    if d < step then 1 else
    var step := step + 31;
    if d < step then 2 else
    var step := step + 30;
    if d < step then 3 else
    var step := step + 31;
    if d < step then 4 else
    var step := step + 30;
    if d < step then 5 else
    var step := step + 31;
    if d < step then 6 else
    var step := step + 31;
    if d < step then 7 else
    var step := step + 30;
    if d < step then 8 else
    var step := step + 31;
    if d < step then 9 else
    var step := step + 30;
    if d < step then 10 else 11
  }

  function DateFromTime(t: int): int {
    var d := DayWithinYear(t, YearFromTime(t));
    var next := 30;
    if d <= next then d + 1 else
    var (step, next) := (next, next + if InLeapYear(t) then 29 else 28);
    if d <= next then d - step else
    var (step, next) := (next, next + 31);
    if d <= next then d - step else
    var (step, next) := (next, next + 30);
    if d <= next then d - step else
    var (step, next) := (next, next + 31);
    if d <= next then d - step else
    var (step, next) := (next, next + 30);
    if d <= next then d - step else
    var (step, next) := (next, next + 31);
    if d <= next then d - step else
    var (step, next) := (next, next + 31);
    if d <= next then d - step else
    var (step, next) := (next, next + 30);
    if d <= next then d - step else
    var (step, next) := (next, next + 31);
    if d <= next then d - step else
    var (step, next) := (next, next + 30);
    if d <= next then d - step else d - next
  }

  function WeekDay(t: int): (d: int)
    ensures 0 <= d < 7
  {
    Modulo(Day(t) + 4, 7)
  }

  function HourFromTime(t: int): int {
    Modulo(t / MS_PER_HOUR, 24)
  }

  function MinFromTime(t: int): int {
    Modulo(t / MS_PER_MINUTE, 60)
  }

  function SecFromTime(t: int): int {
    Modulo(t / MS_PER_SECOND, 60)
  }

  function MsFromTime(t: int): int {
    Modulo(t, MS_PER_SECOND)
  }

  function MakeTime(hour: int, min: int, sec: int, ms: int): int {
    ((hour * 60 + min) * 60 + sec) * MS_PER_SECOND + ms
  }

  function MakeDay(year: int, month: int, date: int): int {
    var year := year + month / 12;
    var month := Modulo(month, 12);
    var leap := DaysInYear(year) == 366;
    var yearDay := TimeFromYear(year) / MS_PER_DAY;
    yearDay + DayFromMonth(month, leap) + date - 1
  }

  function MakeDate(day: int, time: int): int {
    day * MS_PER_DAY + time
  }

  /** The number of days in a month, given here as in ECMA-262 rather than by the source's tables. */
  function DaysInMonth(month: int, leap: bool): int
    requires 0 <= month < 12
  {
    if month == 1 then (if leap then 29 else 28)
    else if month in {3, 5, 8, 10} then 30
    else 31
  }

  predicate IsDate(year: int, month: int, date: int) {
    && 0 <= month < 12
    && 1 <= date <= DaysInMonth(month, DaysInYear(year) == 366)
  }

  predicate IsTime(hour: int, min: int, sec: int, ms: int) {
    && 0 <= hour < 24
    && 0 <= min < 60
    && 0 <= sec < 60
    && 0 <= ms < 1000
  }

  /** The table of first days is the running sum of the month lengths, up to a whole year. */
  lemma MonthsAddUp(month: int, leap: bool)
    requires 0 <= month < 12
    ensures DayFromMonth(month, leap) + DaysInMonth(month, leap)
         == if month == 11 then (if leap then 366 else 365) else DayFromMonth(month + 1, leap)
  {
  }

  lemma DayBounds(t: int, first: int, last: int)
    requires first * MS_PER_DAY <= t < last * MS_PER_DAY
    ensures first <= Day(t) < last
  {
  }

  /** The two chains of comparisons find the month and the day in it. */
  lemma MonthAndDate(t: int)
    ensures var leap := DaysInYear(YearFromTime(t)) == 366;
            var (month, date) := (MonthFromTime(t), DateFromTime(t));
            && IsDate(YearFromTime(t), month, date)
            && DayWithinYear(t, YearFromTime(t)) == DayFromMonth(month, leap) + date - 1
  {
    YearFromTimeIsRight(t);
    YearLength(YearFromTime(t));
    var y, d := YearFromTime(t), DayWithinYear(t, YearFromTime(t));
    hide YearFromTime, DayFromYear;
    assert 0 <= d < DaysInYear(y) by {
      DayBounds(t, DayFromYear(y), DayFromYear(y + 1));
    }
    hide DayWithinYear;
  }

  /** A month's days are where no other month's are. */
  lemma MonthIsUnique(m: int, d: int, n: int, e: int, leap: bool)
    requires 0 <= m < 12 && 1 <= d <= DaysInMonth(m, leap)
    requires 0 <= n < 12 && 1 <= e <= DaysInMonth(n, leap)
    requires DayFromMonth(m, leap) + d == DayFromMonth(n, leap) + e
    ensures m == n && d == e
  {
    MonthsAddUp(m, leap);
    MonthsAddUp(n, leap);
  }

  // ---- composition and decomposition -------------------------------------------------------------------

  /** MakeDay carries any month, positive or negative, into the year. */
  lemma MakeDayCarries(year: int, month: int, date: int)
    ensures MakeDay(year, month, date) == MakeDay(year + month / 12, month % 12, date)
    ensures forall k :: MakeDay(year, month + 12 * k, date) == MakeDay(year + k, month, date)
  {
    hide DayFromYear, DaysInYear, DayFromMonth;
    forall k
      ensures MakeDay(year, month + 12 * k, date) == MakeDay(year + k, month, date)
    {
      assert (month + 12 * k) / 12 == month / 12 + k && (month + 12 * k) % 12 == month % 12;
    }
  }

  lemma MakeDayOfValid(year: int, month: int, date: int)
    requires 0 <= month < 12
    ensures MakeDay(year, month, date)
         == DayFromYear(year) + DayFromMonth(month, DaysInYear(year) == 366) + date - 1
  {
  }

  /** Counting whole units of a time, and then dropping whole days of units, looks at the time of day only. */
  lemma UnitsOfDay(t: int, unit: int, per: int)
    requires unit > 0 && per > 0 && unit * per == MS_PER_DAY
    ensures t / unit % per == t % MS_PER_DAY / unit
    ensures t / unit == per * Day(t) + t % MS_PER_DAY / unit
  {
    var day, rest := t / MS_PER_DAY, t % MS_PER_DAY;
    var units := rest / unit;
    assert t == unit * (per * day + units) + rest % unit by {
      assert unit * (per * day) == MS_PER_DAY * day;
      assert rest == unit * units + rest % unit;
    }
    RemainderIs(t, unit, per * day + units, rest % unit);
    assert 0 <= units < per by {
      if units >= per {
        MultipleIsFar(unit, units - per + 1);
      } else if units < 0 {
        MultipleIsFar(unit, units);
      }
    }
    RemainderIs(per * day + units, per, day, units);
  }

  lemma ClockOf(rest: int)
    requires 0 <= rest < MS_PER_DAY
    ensures var (h, m, s, ms) := (rest / MS_PER_HOUR, rest / MS_PER_MINUTE % 60, rest / MS_PER_SECOND % 60,
                                  rest % MS_PER_SECOND);
            IsTime(h, m, s, ms) && MakeTime(h, m, s, ms) == rest
  {
    var seconds := rest / MS_PER_SECOND;
    var minutes := seconds / 60;
    assert rest / MS_PER_MINUTE == minutes;
    assert rest / MS_PER_HOUR == minutes / 60;
  }

  /** Every time of day is its hour, minute, second and millisecond. */
  lemma TimeOfDay(t: int)
    ensures var (h, m, s, ms) := (HourFromTime(t), MinFromTime(t), SecFromTime(t), MsFromTime(t));
            IsTime(h, m, s, ms) && MakeTime(h, m, s, ms) == TimeWithinDay(t)
  {
    hide Modulo;
    UnitsOfDay(t, MS_PER_HOUR, 24);
    UnitsOfDay(t, MS_PER_MINUTE, 1440);
    UnitsOfDay(t, MS_PER_SECOND, 86400);
    var rest := t % MS_PER_DAY;
    assert t / MS_PER_MINUTE % 60 == rest / MS_PER_MINUTE % 60 by {
      RemainderIs(t / MS_PER_MINUTE, 60, 24 * Day(t) + rest / MS_PER_MINUTE / 60, rest / MS_PER_MINUTE % 60);
    }
    assert t / MS_PER_SECOND % 60 == rest / MS_PER_SECOND % 60 by {
      RemainderIs(t / MS_PER_SECOND, 60, 1440 * Day(t) + rest / MS_PER_SECOND / 60, rest / MS_PER_SECOND % 60);
    }
    assert t % MS_PER_SECOND == rest % MS_PER_SECOND by {
      RemainderIs(t, MS_PER_SECOND, 86400 * Day(t) + rest / MS_PER_SECOND, rest % MS_PER_SECOND);
    }
    hide Day;
    ClockOf(rest);
  }

  /** Taking a time apart and putting it together again gives the time back, for every time. */
  lemma ComposeDecomposed(t: int)
    ensures IsDate(YearFromTime(t), MonthFromTime(t), DateFromTime(t))
    ensures MakeDate(MakeDay(YearFromTime(t), MonthFromTime(t), DateFromTime(t)),
                     MakeTime(HourFromTime(t), MinFromTime(t), SecFromTime(t), MsFromTime(t))) == t
  {
    MonthAndDate(t);
    TimeOfDay(t);
    MakeDayOfValid(YearFromTime(t), MonthFromTime(t), DateFromTime(t));
    hide YearFromTime, MonthFromTime, DateFromTime, DayFromYear, DayFromMonth, MakeDay, MakeTime,
      HourFromTime, MinFromTime, SecFromTime, MsFromTime;
  }

  lemma InsideTheYear(year: int, month: int, date: int)
    requires IsDate(year, month, date)
    ensures 0 <= DayFromMonth(month, DaysInYear(year) == 366) + date - 1 < DaysInYear(year)
  {
  }

  /** A calendar date and a time of day are recovered from the time made of them. */
  lemma DecomposeComposed(year: int, month: int, date: int, time: int)
    requires IsDate(year, month, date) && 0 <= time < MS_PER_DAY
    ensures var t := MakeDate(MakeDay(year, month, date), time);
            && YearFromTime(t) == year
            && MonthFromTime(t) == month
            && DateFromTime(t) == date
            && TimeWithinDay(t) == time
  {
    var leap := DaysInYear(year) == 366;
    var day := MakeDay(year, month, date);
    var t := MakeDate(day, time);
    MakeDayOfValid(year, month, date);
    InsideTheYear(year, month, date);
    YearLength(year);
    assert Day(t) == day && TimeWithinDay(t) == time by {
      RemainderIs(t, MS_PER_DAY, day, time);
    }
    YearFromTimeIsRight(t);
    MonthAndDate(t);
    hide YearFromTime, MonthFromTime, DateFromTime, DayFromYear, DayFromMonth, MakeDay, DaysInYear,
      DaysInMonth;
    assert YearFromTime(t) == year by {
      assert TimeFromYear(year) <= t < TimeFromYear(year + 1);
    }
    MonthIsUnique(MonthFromTime(t), DateFromTime(t), month, date, leap);
  }

  /** The clock fields are recovered too. */
  lemma TimeOfDayRecovered(day: int, hour: int, min: int, sec: int, ms: int)
    requires IsTime(hour, min, sec, ms)
    ensures var t := MakeDate(day, MakeTime(hour, min, sec, ms));
            && HourFromTime(t) == hour
            && MinFromTime(t) == min
            && SecFromTime(t) == sec
            && MsFromTime(t) == ms
  {
    hide Modulo;
    var t := MakeDate(day, MakeTime(hour, min, sec, ms));
    var hours := 24 * day + hour;
    var minutes := 60 * hours + min;
    var seconds := 60 * minutes + sec;
    RemainderIs(t, MS_PER_HOUR, hours, (60 * min + sec) * 1000 + ms);
    RemainderIs(t, MS_PER_MINUTE, minutes, sec * 1000 + ms);
    RemainderIs(t, MS_PER_SECOND, seconds, ms);
    RemainderIs(hours, 24, day, hour);
    RemainderIs(minutes, 60, hours, min);
    RemainderIs(seconds, 60, minutes, sec);
  }

  // ---- the year used to ask about daylight saving ------------------------------------------------------

  function EquivalentYearForDST(year: int): int {
    var day := Modulo(DayFromYear(year) + 4, 7);
    if DaysInYear(year) == 366
    then [1984, 1996, 1980, 1992, 1976, 1988, 1972][day]
    else [1978, 1973, 1974, 1975, 1981, 1971, 1977][day]
  }

  /** The time DaylightSavingTA asks the operating system about instead of t. */
  function DSTQuery(t: int): int {
    if t < 0 || t > 2145916800000 then
      var year := EquivalentYearForDST(YearFromTime(t));
      MakeDate(MakeDay(year, MonthFromTime(t), DateFromTime(t)), TimeWithinDay(t))
    else t
  }

  lemma YearLengths(year: int)
    ensures DaysInYear(year) == 365 || DaysInYear(year) == 366
  {
  }

  lemma EquivalentYearTable(day: int, leap: bool)
    requires 0 <= day < 7
    ensures var e := if leap
                     then [1984, 1996, 1980, 1992, 1976, 1988, 1972][day]
                     else [1978, 1973, 1974, 1975, 1981, 1971, 1977][day];
            && 1971 <= e <= 1996
            && DaysInYear(e) == (if leap then 366 else 365)
            && (DayFromYear(e) + 4) % 7 == day
  {
  }

  /** The equivalent year lies in 1971..1996, has the same length and starts on the same weekday. */
  lemma EquivalentYear(year: int)
    ensures var e := EquivalentYearForDST(year);
            && 1971 <= e <= 1996
            && DaysInYear(e) == DaysInYear(year)
            && (DayFromYear(e) + 4) % 7 == (DayFromYear(year) + 4) % 7
  {
    var day, leap := (DayFromYear(year) + 4) % 7, DaysInYear(year) == 366;
    hide DayFromYear, DaysInYear;
    EquivalentYearTable(day, leap);
    assert DaysInYear(year) in {365, 366} by {
      YearLengths(year);
    }
  }

  lemma SameRemainder(a: int, b: int, c: int)
    requires a % 7 == b % 7
    ensures (a + c) % 7 == (b + c) % 7
  {
  }

  /**
   * The source's own comment says the remap "hasn't been proven"; here it is: whatever the time, before
   * 1970 or after 2037, the query falls in 1971..1996 and agrees with it on everything but the year.
   */
  lemma DSTQueryAgrees(t: int)
    requires t < 0 || t > 2145916800000
    ensures var q := DSTQuery(t);
            && 1971 <= YearFromTime(q) <= 1996
            && InLeapYear(q) == InLeapYear(t)
            && MonthFromTime(q) == MonthFromTime(t)
            && DateFromTime(q) == DateFromTime(t)
            && WeekDay(q) == WeekDay(t)
            && TimeWithinDay(q) == TimeWithinDay(t)
  {
    var year, month, date := YearFromTime(t), MonthFromTime(t), DateFromTime(t);
    var e := EquivalentYearForDST(year);
    EquivalentYear(year);
    MonthAndDate(t);
    hide YearFromTime, MonthFromTime, DateFromTime, DayFromYear, DayFromMonth, DaysInYear, DaysInMonth,
      EquivalentYearForDST, MakeDay;
    DecomposeComposed(e, month, date, TimeWithinDay(t));
    MakeDayOfValid(e, month, date);
    var q := DSTQuery(t);
    assert Day(q) == MakeDay(e, month, date) by {
      RemainderIs(q, MS_PER_DAY, MakeDay(e, month, date), TimeWithinDay(t));
    }
    SameRemainder(DayFromYear(e) + 4, DayFromYear(year) + 4, DayWithinYear(t, year));
  }
}
