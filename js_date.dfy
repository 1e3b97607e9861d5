/** The local wall clock behind a JavaScript Date, with no daylight-saving
    jumps: a time value is a whole number of milliseconds since local
    midnight of 1 January 1970, and the calendar is the proleptic Gregorian
    one. Months are 0-based as in Date.prototype.getMonth. MakeDay, MakeTime
    and MakeDate follow sections 21.4.1.28 to 21.4.1.30 of ECMA-262, which is
    how `new Date(y, m, d, h, min, s, ms)` and the Date setters normalise
    out-of-range fields. Two rules of ECMA-262 are not part of this model:
    the constructor's reading of a year in 0..99 as 1900 + year (section
    21.4.2.1), so NewDate takes every year literally, and TimeClip's limit of
    8.64e15 ms, so no time value here is ever an Invalid Date. */
module JsDate {

  const MsPerSecond: int := 1000
  const MsPerMinute: int := 60000
  const MsPerHour: int := 3600000
  const MsPerDay: int := 86400000

  /** Days from 1 March 0000 to 1 January 1970. */
  const EpochShift: int := 719468
  /** Days in a 400-year cycle of the Gregorian calendar. */
  const DaysPerEra: int := 146097

  datatype Civil = Civil(year: int, month: int, day: int)

  // ---------------------------------------------------------------------
  // Time of day
  // ---------------------------------------------------------------------

  /** The day number of a time value (day 0 is 1 January 1970). */
  function Day(t: int): int {
    t / MsPerDay
  }

  function TimeWithinDay(t: int): (r: int)
    ensures 0 <= r < MsPerDay
    ensures t == Day(t) * MsPerDay + r
  {
    t % MsPerDay
  }

  function Hours(t: int): (r: int)
    ensures 0 <= r < 24
  {
    TimeWithinDay(t) / MsPerHour
  }

  function Minutes(t: int): (r: int)
    ensures 0 <= r < 60
  {
    (TimeWithinDay(t) % MsPerHour) / MsPerMinute
  }

  function Seconds(t: int): (r: int)
    ensures 0 <= r < 60
  {
    (TimeWithinDay(t) % MsPerMinute) / MsPerSecond
  }

  function Millis(t: int): (r: int)
    ensures 0 <= r < 1000
  {
    TimeWithinDay(t) % MsPerSecond
  }

  lemma TimeOfDayParts(t: int)
    ensures TimeWithinDay(t) == Hours(t) * MsPerHour + Minutes(t) * MsPerMinute + Seconds(t) * MsPerSecond + Millis(t)
  {
    var w := TimeWithinDay(t);
    assert w == (w / MsPerHour) * MsPerHour + w % MsPerHour;
    assert w % MsPerHour == ((w % MsPerHour) / MsPerMinute) * MsPerMinute + (w % MsPerHour) % MsPerMinute;
    assert (w % MsPerHour) % MsPerMinute == w % MsPerMinute;
    assert w % MsPerMinute == ((w % MsPerMinute) / MsPerSecond) * MsPerSecond + (w % MsPerMinute) % MsPerSecond;
    assert (w % MsPerMinute) % MsPerSecond == w % MsPerSecond;
  }

  /** The day number and time of day of `day * MsPerDay + time`. */
  lemma DayOfMakeDate(day: int, time: int)
    requires 0 <= time < MsPerDay
    ensures Day(day * MsPerDay + time) == day
    ensures TimeWithinDay(day * MsPerDay + time) == time
  {
  }

  /** Date.prototype.getDay: 0 is Sunday; 1 January 1970 was a Thursday. */
  function WeekDay(t: int): (r: int)
    ensures 0 <= r < 7
  {
    (Day(t) + 4) % 7
  }

  // ---------------------------------------------------------------------
  // The civil calendar
  // ---------------------------------------------------------------------

  predicate IsLeapYear(y: int) {
    y % 4 == 0 && (y % 100 != 0 || y % 400 == 0)
  }

  /** Days in month `m` (0 = January) of year `y`. */
  function DaysInMonth(y: int, m: int): (n: int)
    requires 0 <= m < 12
    ensures 28 <= n <= 31
  {
    if m == 1 then (if IsLeapYear(y) then 29 else 28)
    else if m == 3 || m == 5 || m == 8 || m == 10 then 30
    else 31
  }

  /** Days from 1 March to the first of the month `mp` months later (a year
      counted from March puts the leap day last). */
  function DaysBeforeMonth(mp: int): (n: int)
    requires 0 <= mp < 12
    ensures 0 <= n <= 337
  {
    if mp == 0 then 0 else if mp == 1 then 31 else if mp == 2 then 61
    else if mp == 3 then 92 else if mp == 4 then 122 else if mp == 5 then 153
    else if mp == 6 then 184 else if mp == 7 then 214 else if mp == 8 then 245
    else if mp == 9 then 275 else if mp == 10 then 306 else 337
  }

  /** Days from 1 March of the first year of a 400-year era to 1 March of
      its year `yoe`. */
  function DaysBeforeYear(yoe: int): int
    requires 0 <= yoe <= 400
  {
    365 * yoe + yoe / 4 - yoe / 100
  }

  /** The March-based month of a 0-based calendar month. */
  function MarchMonth(m: int): (mp: int)
    requires 0 <= m < 12
    ensures 0 <= mp < 12
  {
    if m >= 2 then m - 2 else m + 10
  }

  /** The year counted from 1 March that month `m` of year `y` falls in. */
  function MarchYear(y: int, m: int): int {
    if m <= 1 then y - 1 else y
  }

  /** The day of the 400-year era (0 is 1 March of the era's first year) of
      day `d` of month `m` of year `y`. */
  function DayOfEra(y: int, m: int, d: int): int
    requires 0 <= m < 12
  {
    DaysBeforeYear(MarchYear(y, m) % 400) + DaysBeforeMonth(MarchMonth(m)) + d - 1
  }

  /** The day number of day `d` of month `m` (0-based) of year `y`; the day
      may lie outside the month, and then it simply counts on. */
  function DaysFromCivil(y: int, m: int, d: int): int
    requires 0 <= m < 12
  {
    (MarchYear(y, m) / 400) * DaysPerEra + DayOfEra(y, m, d) - EpochShift
  }

  lemma DaysFromCivilIsLinearInDay(y: int, m: int, d: int)
    requires 0 <= m < 12
    ensures DaysFromCivil(y, m, d) == DaysFromCivil(y, m, 1) + d - 1
  {
  }

  lemma EpochIsDayZero()
    ensures DaysFromCivil(1970, 0, 1) == 0
  {
    assert MarchYear(1970, 0) == 1969;
    assert 1969 / 400 == 4 && 1969 % 400 == 369;
    assert DaysBeforeYear(369) == 134774;
  }

  /** The year of a 400-year era that day `doe` of the era falls in. */
  function YearOfEra(doe: int): (yoe: int)
    requires 0 <= doe < DaysPerEra
    ensures 0 <= yoe < 400
    ensures DaysBeforeYear(yoe) <= doe
    ensures yoe < 399 ==> doe < DaysBeforeYear(yoe + 1)
  {
    YearOfEraFrom(doe, doe / 366)
  }

  function YearOfEraFrom(doe: int, y: int): (yoe: int)
    requires 0 <= doe < DaysPerEra
    requires 0 <= y < 400 && DaysBeforeYear(y) <= doe
    ensures y <= yoe < 400
    ensures DaysBeforeYear(yoe) <= doe
    ensures yoe < 399 ==> doe < DaysBeforeYear(yoe + 1)
    decreases 399 - y
  {
    if y < 399 && DaysBeforeYear(y + 1) <= doe then YearOfEraFrom(doe, y + 1) else y
  }

  /** The March-based month that day `doy` (0 = 1 March) falls in. */
  function MonthOfYear(doy: int): (mp: int)
    requires 0 <= doy
    ensures 0 <= mp < 12 && DaysBeforeMonth(mp) <= doy
    ensures mp < 11 ==> doy < DaysBeforeMonth(mp + 1)
  {
    if doy < 31 then 0 else if doy < 61 then 1 else if doy < 92 then 2
    else if doy < 122 then 3 else if doy < 153 then 4 else if doy < 184 then 5
    else if doy < 214 then 6 else if doy < 245 then 7 else if doy < 275 then 8
    else if doy < 306 then 9 else if doy < 337 then 10 else 11
  }

  /** The calendar date of a day number. */
  function CivilFromDays(k: int): (c: Civil)
    ensures 0 <= c.month < 12 && 1 <= c.day <= DaysInMonth(c.year, c.month)
  {
    var z := k + EpochShift;
    CivilOfEra(z / DaysPerEra, z % DaysPerEra)
  }

  /** The calendar date of day `doe` of 400-year era `era` (day 0 is
      1 March of the era's first year). */
  function CivilOfEra(era: int, doe: int): (c: Civil)
    requires 0 <= doe < DaysPerEra
    ensures 0 <= c.month < 12 && 1 <= c.day <= DaysInMonth(c.year, c.month)
  {
    var yoe := YearOfEra(doe);
    var doy := doe - DaysBeforeYear(yoe);
    var mp := MonthOfYear(doy);
    var m := if mp < 10 then mp + 2 else mp - 10;
    var y := era * 400 + yoe + (if m <= 1 then 1 else 0);
    YearLength(era, yoe, doe);
    Civil(y, m, doy - DaysBeforeMonth(mp) + 1)
  }

  /** The year of an era ends where the next begins; March-based year `yoe`
      holds a 29 February exactly when the calendar year after it is leap. */
  lemma YearLength(era: int, yoe: int, doe: int)
    requires 0 <= yoe < 400 && 0 <= doe < DaysPerEra
    requires DaysBeforeYear(yoe) <= doe && (yoe < 399 ==> doe < DaysBeforeYear(yoe + 1))
    ensures var doy := doe - DaysBeforeYear(yoe);
            doy < 337 + DaysInMonth(era * 400 + yoe + 1, 1)
  {
    LeapYearOfEra(era, yoe + 1);
    if yoe < 399 {
      StepOfYear(yoe);
    }
  }

  lemma StepOfYear(yoe: int)
    requires 0 <= yoe < 399
    ensures DaysBeforeYear(yoe + 1) == DaysBeforeYear(yoe) + (if IsLeapYear(yoe + 1) then 366 else 365)
  {
    DivStep4(yoe);
    DivStep100(yoe);
    assert (yoe + 1) % 400 == yoe + 1;
  }

  /** Counting one more year adds one to the quotient exactly when the new
      year is a multiple of the divisor. */
  lemma DivStep4(a: int)
    ensures (a + 1) / 4 == a / 4 + (if (a + 1) % 4 == 0 then 1 else 0)
  {
    var q, r := a / 4, a % 4;
    if r == 3 {
      assert a + 1 == 4 * (q + 1);
    } else {
      assert a + 1 == 4 * q + (r + 1);
    }
  }

  lemma DivStep100(a: int)
    ensures (a + 1) / 100 == a / 100 + (if (a + 1) % 100 == 0 then 1 else 0)
  {
    var q, r := a / 100, a % 100;
    if r == 99 {
      assert a + 1 == 100 * (q + 1);
    } else {
      assert a + 1 == 100 * q + (r + 1);
    }
  }

  lemma LeapYearOfEra(era: int, y: int)
    ensures IsLeapYear(era * 400 + y) == IsLeapYear(y)
  {
    ShiftMod4(era * 100, y);
    ShiftMod100(era * 4, y);
    ShiftMod400(era, y);
  }

  /** Adding whole multiples of the divisor leaves a remainder unchanged. */
  lemma ShiftMod4(k: int, y: int)
    ensures (4 * k + y) % 4 == y % 4
  {
    var q := y / 4;
    assert 4 * k + y == 4 * (k + q) + y % 4;
  }

  lemma ShiftMod100(k: int, y: int)
    ensures (100 * k + y) % 100 == y % 100
  {
    var q := y / 100;
    assert 100 * k + y == 100 * (k + q) + y % 100;
  }

  lemma ShiftMod400(k: int, y: int)
    ensures (400 * k + y) % 400 == y % 400
  {
    var q := y / 400;
    assert 400 * k + y == 400 * (k + q) + y % 400;
  }

  lemma DaysBeforeYearMonotone(a: int, b: int)
    requires 0 <= a && b <= 400
    ensures a <= b ==> DaysBeforeYear(a) <= DaysBeforeYear(b)
  {
  }

  /** Turning a day number into a calendar date and back gives the day
      number again. */
  lemma DaysFromCivilOfCivilFromDays(k: int)
    ensures var c := CivilFromDays(k); DaysFromCivil(c.year, c.month, c.day) == k
  {
    var z := k + EpochShift;
    SplitDivMod(z, DaysPerEra);
    DaysFromCivilOfEra(z / DaysPerEra, z % DaysPerEra);
  }

  /** The day number of the date of day `doe` of era `era`. */
  lemma DaysFromCivilOfEra(era: int, doe: int)
    requires 0 <= doe < DaysPerEra
    ensures var c := CivilOfEra(era, doe);
      DaysFromCivil(c.year, c.month, c.day) == era * DaysPerEra + doe - EpochShift
  {
    var yoe := YearOfEra(doe);
    var c := CivilOfEra(era, doe);
    var ya := MarchYear(c.year, c.month);
    assert ya == era * 400 + yoe;
    Split400(era, yoe);
  }

  /** A valid calendar date survives the trip to a day number and back. */
  lemma CivilFromDaysOfDaysFromCivil(y: int, m: int, d: int)
    requires 0 <= m < 12 && 1 <= d <= DaysInMonth(y, m)
    ensures CivilFromDays(DaysFromCivil(y, m, d)) == Civil(y, m, d)
  {
    var era, doe := MarchYear(y, m) / 400, DayOfEra(y, m, d);
    CivilOfEraOfDate(y, m, d);
    var k := DaysFromCivil(y, m, d);
    SplitEra(k + EpochShift, era, doe);
    assert CivilFromDays(k) == CivilOfEra(era, doe);
  }

  /** The era and day of the era of a valid date give the date back. */
  lemma CivilOfEraOfDate(y: int, m: int, d: int)
    requires 0 <= m < 12 && 1 <= d <= DaysInMonth(y, m)
    ensures 0 <= DayOfEra(y, m, d) < DaysPerEra
    ensures CivilOfEra(MarchYear(y, m) / 400, DayOfEra(y, m, d)) == Civil(y, m, d)
  {
    var ya := MarchYear(y, m);
    var yoe := ya % 400;
    var mp := MarchMonth(m);
    var doe := DayOfEra(y, m, d);
    var doy := doe - DaysBeforeYear(yoe);
    DayOfYearInRange(y, m, d);
    YearOfEraUnique(doe, yoe);
    assert MonthOfYear(doy) == mp;
    SplitDivMod(ya, 400);
    var c := CivilOfEra(ya / 400, doe);
    assert c.month == m && c.day == d;
    assert c.year == y;
  }

  /** `x` is its quotient times the divisor plus its remainder. */
  lemma SplitDivMod(x: int, n: int)
    requires n == 400 || n == DaysPerEra
    ensures x == (x / n) * n + x % n && 0 <= x % n < n
  {
  }

  lemma Split400(q: int, r: int)
    requires 0 <= r < 400
    ensures (q * 400 + r) / 400 == q && (q * 400 + r) % 400 == r
  {
  }

  lemma SplitEra(z: int, q: int, r: int)
    requires 0 <= r < DaysPerEra && z == q * DaysPerEra + r
    ensures z / DaysPerEra == q && z % DaysPerEra == r
  {
  }

  /** The day of the era of a valid date lies in the era and in the right
      year of it. */
  lemma DayOfYearInRange(y: int, m: int, d: int)
    requires 0 <= m < 12 && 1 <= d <= DaysInMonth(y, m)
    ensures var yoe := MarchYear(y, m) % 400;
      DaysBeforeYear(yoe) <= DayOfEra(y, m, d) < DaysPerEra
      && (yoe < 399 ==> DayOfEra(y, m, d) < DaysBeforeYear(yoe + 1))
  {
    var ya := MarchYear(y, m);
    var era := ya / 400;
    var yoe := ya % 400;
    LeapYearOfEra(era, yoe + 1);
    assert ya + 1 == era * 400 + yoe + 1;
    if yoe < 399 {
      StepOfYear(yoe);
    }
  }

  lemma YearOfEraUnique(doe: int, yoe: int)
    requires 0 <= yoe < 400 && 0 <= doe < DaysPerEra
    requires DaysBeforeYear(yoe) <= doe && (yoe < 399 ==> doe < DaysBeforeYear(yoe + 1))
    ensures YearOfEra(doe) == yoe
  {
    var r := YearOfEra(doe);
    DaysBeforeYearMonotone(r + 1, yoe);
    DaysBeforeYearMonotone(yoe + 1, r);
  }

  /** Two day numbers with the same calendar date are equal. */
  lemma CivilFromDaysInjective(j: int, k: int)
    ensures CivilFromDays(j) == CivilFromDays(k) <==> j == k
  {
    DaysFromCivilOfCivilFromDays(j);
    DaysFromCivilOfCivilFromDays(k);
  }

  // ---------------------------------------------------------------------
  // Date fields and ECMAScript's MakeDay / MakeTime / MakeDate
  // ---------------------------------------------------------------------

  /** getFullYear, getMonth (0-based) and getDate. */
  function YearOf(t: int): int {
    CivilFromDays(Day(t)).year
  }

  function MonthOf(t: int): (m: int)
    ensures 0 <= m < 12
  {
    CivilFromDays(Day(t)).month
  }

  function DateOf(t: int): (d: int)
    ensures 1 <= d <= 31
  {
    CivilFromDays(Day(t)).day
  }

  /** The day number of day `d` of month `m` of year `y`, where an
      out-of-range month carries into the year and an out-of-range day into
      the following or preceding months. */
  function MakeDay(y: int, m: int, d: int): int {
    DaysFromCivil(y + m / 12, m % 12, d)
  }

  function MakeTime(h: int, min: int, s: int, ms: int): int {
    h * MsPerHour + min * MsPerMinute + s * MsPerSecond + ms
  }

  function MakeDate(day: int, time: int): int {
    day * MsPerDay + time
  }

  /** `new Date(y, m, d, h, min, s, ms).getTime()` on the local clock. */
  function NewDate(y: int, m: int, d: int, h: int, min: int, s: int, ms: int): int {
    MakeDate(MakeDay(y, m, d), MakeTime(h, min, s, ms))
  }

  /** Rebuilding a date from its own year, month and date, shifted by `n`
      days, lands exactly `n` days later: the normalisation of an
      overflowing date field is plain day-number addition. */
  lemma MakeDayOfOwnDate(t: int, n: int)
    ensures MakeDay(YearOf(t), MonthOf(t), DateOf(t) + n) == Day(t) + n
  {
    var c := CivilFromDays(Day(t));
    assert YearOf(t) == c.year && MonthOf(t) == c.month && DateOf(t) == c.day;
    MakeDayInMonth(c.year, c.month, c.day + n);
    assert MakeDay(YearOf(t), MonthOf(t), DateOf(t) + n) == DaysFromCivil(c.year, c.month, c.day + n);
    DaysFromCivilShift(c.year, c.month, c.day, n);
    DaysFromCivilOfCivilFromDays(Day(t));
    assert DaysFromCivil(c.year, c.month, c.day) == Day(t);
  }

  /** Moving the day of the month by `n` moves the day number by `n`. */
  lemma DaysFromCivilShift(y: int, m: int, d: int, n: int)
    requires 0 <= m < 12
    ensures DaysFromCivil(y, m, d + n) == DaysFromCivil(y, m, d) + n
  {
  }

  /** With an in-range month MakeDay is the plain day number. */
  lemma MakeDayInMonth(y: int, m: int, d: int)
    requires 0 <= m < 12
    ensures MakeDay(y, m, d) == DaysFromCivil(y, m, d)
  {
    assert m / 12 == 0 && m % 12 == m;
    assert y + m / 12 == y;
  }

  /** The first of a month given by a possibly out-of-range month index is
      the first of the normalised month. */
  lemma FirstOfMonth(y: int, m: int)
    ensures CivilFromDays(MakeDay(y, m, 1)) == Civil(y + m / 12, m % 12, 1)
  {
    var y', m' := y + m / 12, m % 12;
    assert 0 <= m' < 12;
    CivilFromDaysOfDaysFromCivil(y', m', 1);
    assert MakeDay(y, m, 1) == DaysFromCivil(y', m', 1);
  }

  /** `new Date(y, m, 1, h)`: the first of the (normalised) month, at `h`
      o'clock. */
  lemma FirstOfMonthAt(y: int, m: int, h: int)
    requires 0 <= h < 24
    ensures var t := NewDate(y, m, 1, h, 0, 0, 0);
      YearOf(t) == y + m / 12 && MonthOf(t) == m % 12 && DateOf(t) == 1
      && TimeWithinDay(t) == h * MsPerHour
  {
    OnTheHour(h);
    MakeDateParts(MakeDay(y, m, 1), MakeTime(h, 0, 0, 0));
    FirstOfMonth(y, m);
  }

  /** `new Date(t's year, month, date + n, h)`: `n` days after the day of `t`,
      at `h` o'clock. */
  lemma DaysLaterAt(t: int, n: int, h: int)
    requires 0 <= h < 24
    ensures var r := NewDate(YearOf(t), MonthOf(t), DateOf(t) + n, h, 0, 0, 0);
      Day(r) == Day(t) + n && TimeWithinDay(r) == h * MsPerHour
  {
    OnTheHour(h);
    MakeDateParts(MakeDay(YearOf(t), MonthOf(t), DateOf(t) + n), MakeTime(h, 0, 0, 0));
    MakeDayOfOwnDate(t, n);
  }

  /** `new Date(y, m, 1, h)` lies on day MakeDay(y, m, 1), at `h` o'clock. */
  lemma FirstOfMonthParts(y: int, m: int, h: int)
    requires 0 <= h < 24
    ensures Day(NewDate(y, m, 1, h, 0, 0, 0)) == MakeDay(y, m, 1)
    ensures TimeWithinDay(NewDate(y, m, 1, h, 0, 0, 0)) == h * MsPerHour
  {
    OnTheHour(h);
    MakeDateParts(MakeDay(y, m, 1), MakeTime(h, 0, 0, 0));
    assert NewDate(y, m, 1, h, 0, 0, 0) == MakeDate(MakeDay(y, m, 1), MakeTime(h, 0, 0, 0));
  }

  /** The year carry and the month index of one month forward or back. */
  lemma MonthStep(m: int, delta: int)
    requires 0 <= m < 12 && (delta == 1 || delta == -1)
    ensures (m + delta) / 12 == (if m + delta == 12 then 1 else if m + delta == -1 then -1 else 0)
    ensures (m + delta) % 12 == (if m + delta == 12 then 0 else if m + delta == -1 then 11 else m + delta)
  {
  }

  /** The day and time of day of a time made from a day and a time of day. */
  lemma MakeDateParts(day: int, time: int)
    requires 0 <= time < MsPerDay
    ensures Day(MakeDate(day, time)) == day && TimeWithinDay(MakeDate(day, time)) == time
  {
    DayOfMakeDate(day, time);
  }

  lemma OnTheHour(h: int)
    requires 0 <= h < 24
    ensures MakeTime(h, 0, 0, 0) == h * MsPerHour && 0 <= MakeTime(h, 0, 0, 0) < MsPerDay
  {
  }

  /** Date.prototype.setDate, setHours and setMinutes on the local clock. */
  function SetDate(t: int, date: int): int {
    MakeDate(MakeDay(YearOf(t), MonthOf(t), date), TimeWithinDay(t))
  }

  function SetHours(t: int, h: int, min: int, s: int, ms: int): int {
    MakeDate(Day(t), MakeTime(h, min, s, ms))
  }

  function SetMinutes(t: int, min: int): int {
    MakeDate(Day(t), MakeTime(Hours(t), min, Seconds(t), Millis(t)))
  }
}
