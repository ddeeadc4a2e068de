/** Time as the application sees it: instants are integer milliseconds since
    the Unix epoch, and the browser's local calendar is a fixed offset from
    UTC. Local days are counted from 1970-01-01 and months are (year, month)
    pairs in the proleptic Gregorian calendar. */
module Calendar {

  const MsPerDay: int := 86_400_000

  // ---------------------------------------------------------------------
  // Instants and local days
  // ---------------------------------------------------------------------

  /** The local calendar day of an instant, in a zone `offset` ms ahead of
      UTC (what `toDateString` distinguishes). */
  function LocalDay(instant: int, offset: int): int {
    (instant + offset) / MsPerDay
  }

  /** The instant of local midnight starting day `day`. */
  function DayStart(day: int, offset: int): (t: int)
    ensures LocalDay(t, offset) == day
  {
    day * MsPerDay - offset
  }

  /** An instant lies in the millisecond range of its local day. */
  lemma WithinDay(instant: int, offset: int)
    ensures DayStart(LocalDay(instant, offset), offset) <= instant
    ensures instant < DayStart(LocalDay(instant, offset), offset) + MsPerDay
  {
  }

  /** `d.setHours(23, 59, 59, 999)`: the last millisecond of the local day
      of `instant`. */
  function EndOfDay(instant: int, offset: int): (t: int)
    ensures instant <= t
    ensures LocalDay(t, offset) == LocalDay(instant, offset)
    ensures LocalDay(t + 1, offset) == LocalDay(instant, offset) + 1
  {
    DayStart(LocalDay(instant, offset), offset) + MsPerDay - 1
  }

  /** Comparing with the end of a day compares local days. */
  lemma NotAfterEndOfDay(x: int, instant: int, offset: int)
    ensures x <= EndOfDay(instant, offset) <==> LocalDay(x, offset) <= LocalDay(instant, offset)
  {
    var e := EndOfDay(instant, offset);
    if x <= e {
      assert (x + offset) / MsPerDay <= (e + offset) / MsPerDay;
    } else {
      assert x + offset >= e + 1 + offset;
      assert (x + offset) / MsPerDay >= (e + 1 + offset) / MsPerDay;
    }
  }

  /** Comparing with a local midnight compares local days. */
  lemma NotBeforeDayStart(x: int, day: int, offset: int)
    ensures x >= DayStart(day, offset) <==> LocalDay(x, offset) >= day
  {
    var s := DayStart(day, offset);
    if x >= s {
      assert (x + offset) / MsPerDay >= (s + offset) / MsPerDay;
    } else {
      assert (x + offset) / MsPerDay <= (s - 1 + offset) / MsPerDay;
    }
  }

  // ---------------------------------------------------------------------
  // Months
  // ---------------------------------------------------------------------

  /** A calendar month; `month` runs from 1 (January) to 12. */
  datatype YearMonth = YearMonth(year: int, month: int)

  predicate ValidMonth(ym: YearMonth) {
    1 <= ym.month <= 12
  }

  /** Months counted consecutively: January of year 0 is 0. */
  function MonthIndex(ym: YearMonth): int {
    ym.year * 12 + ym.month - 1
  }

  /** The month with a given consecutive index (carrying into the year the
      way `new Date(y, m, 1)` normalises an out-of-range month). */
  function MonthFromIndex(i: int): (ym: YearMonth)
    ensures ValidMonth(ym)
    ensures MonthIndex(ym) == i
  {
    YearMonth(i / 12, i % 12 + 1)
  }

  /** Valid months and their indices correspond one to one. */
  lemma MonthIndexRoundTrip(ym: YearMonth)
    requires ValidMonth(ym)
    ensures MonthFromIndex(MonthIndex(ym)) == ym
  {
    var i := MonthIndex(ym);
    assert i == ym.year * 12 + (ym.month - 1);
    assert i / 12 == ym.year && i % 12 == ym.month - 1;
  }

  /** `new Date(year, month - k, 1)`: the month `k` months before `ym`. */
  function MonthsBefore(ym: YearMonth, k: int): (r: YearMonth)
    ensures ValidMonth(r)
    ensures MonthIndex(r) == MonthIndex(ym) - k
  {
    MonthFromIndex(MonthIndex(ym) - k)
  }

  /** The month following `ym`: December wraps to January of the next year. */
  lemma NextMonth(ym: YearMonth)
    requires ValidMonth(ym)
    ensures ym.month < 12 ==> MonthsBefore(ym, -1) == YearMonth(ym.year, ym.month + 1)
    ensures ym.month == 12 ==> MonthsBefore(ym, -1) == YearMonth(ym.year + 1, 1)
  {
    var i := MonthIndex(ym) + 1;
    if ym.month < 12 {
      assert i == ym.year * 12 + ym.month;
      assert i / 12 == ym.year && i % 12 == ym.month;
    } else {
      assert i == (ym.year + 1) * 12;
      assert i / 12 == ym.year + 1 && i % 12 == 0;
    }
  }

  // ---------------------------------------------------------------------
  // Day number to calendar month (civil-from-days)
  // ---------------------------------------------------------------------

  /** Day of a 400-year era (eras start on 1 March) to the year of the era
      and the day within a March-based year. */
  function YearOfEra(doe: int): (r: (int, int))
    requires 0 <= doe <= 146096
    ensures 0 <= r.0 <= 399 && 0 <= r.1 <= 365
  {
    var yoe := (doe - doe / 1460 + doe / 36524 - doe / 146096) / 365;
    YearOfEraBounds(doe);
    (yoe, doe - (365 * yoe + yoe / 4 - yoe / 100))
  }

  lemma YearOfEraBounds(doe: int)
    requires 0 <= doe <= 146096
    ensures var yoe := (doe - doe / 1460 + doe / 36524 - doe / 146096) / 365;
            0 <= yoe <= 399 && 0 <= doe - (365 * yoe + yoe / 4 - yoe / 100) <= 365
  {
    if doe == 146096 {
      Quotient(doe, 1460, 100);
      Quotient(doe, 36524, 4);
      Quotient(doe, 146096, 1);
      Quotient(145999, 365, 399);
      Quotient(399, 4, 99);
      Quotient(399, 100, 3);
    } else {
      var c := Divide(doe, 36524);
      Quotient(doe, 36524, c);
      Quotient(doe, 146096, 0);
      CenturyBounds(doe, c);
    }
  }

  /** The bounds within one century of an era. */
  lemma CenturyBounds(doe: int, c: int)
    requires 0 <= c <= 3
    requires 36524 * c <= doe < 36524 * c + 36524
    ensures var yoe := (doe - doe / 1460 + c) / 365;
            100 * c <= yoe <= 100 * c + 99 && 0 <= doe - (365 * yoe + yoe / 4 - yoe / 100) <= 365
  {
    var r := doe - 36524 * c;
    var a := Divide(24 * c + r, 1460);
    var yp := Divide(r - a, 365);
    var h := Divide(yp, 4);
    CenturyDigits(c, r, a, yp, h);
    var yoe := 100 * c + yp;
    Quotient(doe, 1460, 25 * c + a);
    Quotient(doe - doe / 1460 + c, 365, yoe);
    Quotient(yoe, 4, 25 * c + h);
    Quotient(yoe, 100, c);
  }

  /** The arithmetic of one century: `a` leap days counted by the 1460
      division, `yp` years of the century and `h` leap years among them. */
  lemma CenturyDigits(c: int, r: int, a: int, yp: int, h: int)
    requires 0 <= c <= 3 && 0 <= r < 36524
    requires 1460 * a <= 24 * c + r < 1460 * a + 1460
    requires 365 * yp <= r - a < 365 * yp + 365
    requires 4 * h <= yp < 4 * h + 4
    ensures 0 <= a <= 25 && 0 <= yp <= 99 && 0 <= r - 365 * yp - h <= 365
  {
    assert 0 <= a <= 25;
    assert 0 <= r - a by {
      if a > 0 { assert r >= 1460 - 24 * c; }
    }
    assert r - a < 36500 by {
      if r >= 36500 { assert a == 25; }
    }
    assert h <= a <= h + 1;
  }

  /** The quotient by one of the calendar's fixed periods, as bounds. */
  lemma Divide(x: int, d: int) returns (q: int)
    requires d == 4 || d == 100 || d == 400 || d == 365 || d == 1460 || d == 36524 || d == 146096 || d == 146097
    ensures d * q <= x < d * q + d
  {
    q := x / d;
    if d == 4 {
    } else if d == 100 {
    } else if d == 400 {
    } else if d == 365 {
    } else if d == 1460 {
    } else if d == 36524 {
    } else if d == 146096 {
    } else {
    }
  }

  /** The remainder by one of the calendar's fixed periods. */
  lemma Remainder(x: int, d: int, q: int)
    requires d == 4 || d == 100 || d == 400
    requires d * q <= x < d * q + d
    ensures x % d == x - d * q
  {
    if d == 4 {
    } else if d == 100 {
    } else {
    }
  }

  /** Division by one of the calendar's fixed periods, through its quotient. */
  lemma Quotient(x: int, d: int, q: int)
    requires d == 4 || d == 100 || d == 400 || d == 365 || d == 1460 || d == 36524 || d == 146096 || d == 146097
    requires d * q <= x < d * q + d
    ensures x / d == q
  {
    if d == 4 {
    } else if d == 100 {
    } else if d == 400 {
    } else if d == 365 {
    } else if d == 1460 {
    } else if d == 36524 {
    } else if d == 146096 {
    } else {
    }
  }

  /** Month number (1 = January) of day `doy` of a year that starts on
      1 March. */
  function MarchMonth(doy: int): (m: int)
    requires 0 <= doy <= 365
    ensures 1 <= m <= 12
  {
    var mp := (5 * doy + 2) / 153;
    if mp < 10 then mp + 3 else mp - 9
  }

  /** The local calendar month of a day number: the civil-from-days
      algorithm of the proleptic Gregorian calendar (what `format(d, 'MMM
      yyyy')` distinguishes). */
  function CivilMonth(day: int): (ym: YearMonth)
    ensures ValidMonth(ym)
  {
    var z := day + 719468;
    var era := z / 146097;
    var doe := z - era * 146097;
    var ye := YearOfEra(doe);
    var m := MarchMonth(ye.1);
    YearMonth(ye.0 + era * 400 + (if m <= 2 then 1 else 0), m)
  }

  // ---------------------------------------------------------------------
  // Calendar dates to day numbers, the reference for CivilMonth
  // ---------------------------------------------------------------------

  predicate IsLeapYear(year: int) {
    year % 4 == 0 && (year % 100 != 0 || year % 400 == 0)
  }

  function DaysInMonth(year: int, month: int): int
    requires 1 <= month <= 12
  {
    if month == 2 then (if IsLeapYear(year) then 29 else 28)
    else if month == 4 || month == 6 || month == 9 || month == 11 then 30
    else 31
  }

  /** First day, within a year that starts on 1 March, of the month `mp`
      months after March. */
  function MarchMonthStart(mp: int): int
    requires 0 <= mp <= 11
  {
    (153 * mp + 2) / 5
  }

  /** The day number of a calendar date (days from 1970-01-01). */
  function DaysFromCivil(year: int, month: int, day: int): int
    requires 1 <= month <= 12 && 1 <= day <= DaysInMonth(year, month)
  {
    var y := if month <= 2 then year - 1 else year;
    var era := y / 400;
    var yoe := y - era * 400;
    var mp := if month > 2 then month - 3 else month + 9;
    era * 146097 + (yoe * 365 + yoe / 4 - yoe / 100 + MarchMonthStart(mp) + day - 1) - 719468
  }

  /** Every day of a calendar month is classified into that month. */
  lemma CivilMonthOfDate(year: int, month: int, day: int)
    requires 1 <= month <= 12 && 1 <= day <= DaysInMonth(year, month)
    ensures CivilMonth(DaysFromCivil(year, month, day)) == YearMonth(year, month)
  {
    var y := if month <= 2 then year - 1 else year;
    var era := Divide(y, 400);
    Quotient(y, 400, era);
    var yoe := y - era * 400;
    var mp := if month > 2 then month - 3 else month + 9;
    var doy := MarchMonthStart(mp) + day - 1;
    MarchDay(month, day, year);
    if doy == 365 {
      assert yoe + 1 == year - era * 400;
      LeapShift(year, era);
    }
    CivilMonthOfEraDay(era, yoe, mp, doy, DaysFromCivil(year, month, day));
    assert yoe + era * 400 + (if mp >= 10 then 1 else 0) == year;
    assert (if mp < 10 then mp + 3 else mp - 9) == month;
  }

  /** CivilMonth on a day given by era, year of era and March-based day. */
  lemma CivilMonthOfEraDay(era: int, yoe: int, mp: int, doy: int, day: int)
    requires 0 <= yoe <= 399 && 0 <= mp <= 11
    requires MarchMonthStart(mp) <= doy < (if mp == 11 then 366 else MarchMonthStart(mp + 1))
    requires doy == 365 ==> IsLeapYear(yoe + 1)
    requires day == era * 146097 + (yoe * 365 + yoe / 4 - yoe / 100 + doy) - 719468
    ensures CivilMonth(day) == YearMonth(yoe + era * 400 + (if mp >= 10 then 1 else 0), if mp < 10 then mp + 3 else mp - 9)
  {
    var doe := yoe * 365 + yoe / 4 - yoe / 100 + doy;
    MonthOfMarchDay(mp, doy);
    YearOfEraInverse(yoe, doy, doe);
    Quotient(day + 719468, 146097, era);
    CivilMonthOfEra(day, era, doe);
  }

  /** CivilMonth once the era and the day of the era are known. */
  lemma CivilMonthOfEra(day: int, era: int, doe: int)
    requires 0 <= doe <= 146096
    requires (day + 719468) / 146097 == era && day + 719468 - era * 146097 == doe
    ensures var m := MarchMonth(YearOfEra(doe).1);
            CivilMonth(day) == YearMonth(YearOfEra(doe).0 + era * 400 + (if m <= 2 then 1 else 0), m)
  {
  }

  /** YearOfEra inverts the day-of-era formula. */
  lemma YearOfEraInverse(yoe: int, doy: int, doe: int)
    requires 0 <= yoe <= 399 && 0 <= doy <= 365
    requires doy == 365 ==> IsLeapYear(yoe + 1)
    requires doe == yoe * 365 + yoe / 4 - yoe / 100 + doy
    ensures 0 <= doe <= 146096
    ensures YearOfEra(doe) == (yoe, doy)
  {
    var c, k, j := SplitYearOfEra(yoe);
    if doy == 365 {
      LeapYearOfEra(yoe, c, k, j);
    }
    EraDayInverse(c, k, j, doy, doe);
  }

  /** The day of an era given by century, four-year block, year of the
      block and March-based day is mapped back to its year and day. */
  lemma EraDayInverse(c: int, k: int, j: int, doy: int, doe: int)
    requires 0 <= c <= 3 && 0 <= k <= 24 && 0 <= j <= 3 && 0 <= doy <= 365
    requires doy == 365 ==> j == 3 && (k < 24 || c == 3)
    requires doe == 36524 * c + 1461 * k + 365 * j + doy
    ensures 0 <= doe <= 146096
    ensures YearOfEra(doe) == (100 * c + 4 * k + j, doy)
  {
    var yoe := 100 * c + 4 * k + j;
    var a := LeapDaysOfEraDay(c, k, j, doy, doe);
    CenturiesOfEraDay(c, k, j, doy, doe);
    Quotient(doe - doe / 1460 + doe / 36524 - doe / 146096, 365, yoe);
    Quotient(yoe, 4, 25 * c + k);
    Quotient(yoe, 100, c);
    YearOfEraOf(doe, yoe, 25 * c + k, c);
  }

  /** The 1460-day quotient of such a day of an era: one per four-year
      block, plus one once the day passes the block's leap day. */
  lemma LeapDaysOfEraDay(c: int, k: int, j: int, doy: int, doe: int) returns (a: int)
    requires 0 <= c <= 3 && 0 <= k <= 24 && 0 <= j <= 3 && 0 <= doy <= 365
    requires doy == 365 ==> j == 3
    requires doe == 36524 * c + 1461 * k + 365 * j + doy
    ensures doe / 1460 == a && 0 <= doe - a + c - 36500 * c - 1460 * k - 365 * j < 365
  {
    var b := if 24 * c + k + 365 * j + doy >= 1460 then 1 else 0;
    a := 25 * c + k + b;
    Quotient(doe, 1460, a);
  }

  /** The century terms of such a day of an era add up to its century. */
  lemma CenturiesOfEraDay(c: int, k: int, j: int, doy: int, doe: int)
    requires 0 <= c <= 3 && 0 <= k <= 24 && 0 <= j <= 3 && 0 <= doy <= 365
    requires doy == 365 ==> j == 3 && (k < 24 || c == 3)
    requires doe == 36524 * c + 1461 * k + 365 * j + doy
    ensures doe / 36524 - doe / 146096 == c
  {
    if k == 24 && j == 3 && doy == 365 {
      Quotient(doe, 36524, 4);
      Quotient(doe, 146096, 1);
    } else {
      assert 1461 * k + 365 * j + doy < 36524;
      Quotient(doe, 36524, c);
      Quotient(doe, 146096, 0);
    }
  }

  /** YearOfEra once its quotients are known. */
  lemma YearOfEraOf(doe: int, yoe: int, q4: int, q100: int)
    requires 0 <= doe <= 146096
    requires (doe - doe / 1460 + doe / 36524 - doe / 146096) / 365 == yoe
    requires yoe / 4 == q4 && yoe / 100 == q100
    ensures YearOfEra(doe) == (yoe, doe - (365 * yoe + q4 - q100))
  {
  }

  /** A year of an era as century, four-year block and year of the block. */
  lemma SplitYearOfEra(yoe: int) returns (c: int, k: int, j: int)
    requires 0 <= yoe <= 399
    ensures 0 <= c <= 3 && 0 <= k <= 24 && 0 <= j <= 3
    ensures yoe == 100 * c + 4 * k + j && yoe / 4 == 25 * c + k && yoe / 100 == c
  {
    c := Divide(yoe, 100);
    k := Divide(yoe - 100 * c, 4);
    j := yoe - 100 * c - 4 * k;
    Quotient(yoe, 4, 25 * c + k);
    Quotient(yoe, 100, c);
  }

  /** Only the last year of a four-year block is followed by a leap year,
      and the last block of a century only in the fourth century. */
  lemma LeapYearOfEra(yoe: int, c: int, k: int, j: int)
    requires 0 <= c <= 3 && 0 <= k <= 24 && 0 <= j <= 3
    requires yoe == 100 * c + 4 * k + j
    requires IsLeapYear(yoe + 1)
    ensures j == 3 && (k < 24 || c == 3)
  {
    Remainder(yoe + 1, 4, 25 * c + k + (if j == 3 then 1 else 0));
    if k == 24 && j == 3 {
      Remainder(yoe + 1, 100, c + 1);
      Remainder(yoe + 1, 400, if c == 3 then 1 else 0);
    }
  }

  lemma MonthOfMarchDay(mp: int, doy: int)
    requires 0 <= mp <= 11
    requires MarchMonthStart(mp) <= doy < (if mp == 11 then 366 else MarchMonthStart(mp + 1))
    ensures MarchMonth(doy) == if mp < 10 then mp + 3 else mp - 9
  {
  }

  lemma MarchDay(month: int, day: int, year: int)
    requires 1 <= month <= 12 && 1 <= day <= DaysInMonth(year, month)
    ensures var mp := if month > 2 then month - 3 else month + 9;
      var doy := MarchMonthStart(mp) + day - 1;
      && MarchMonthStart(mp) <= doy < (if mp == 11 then 366 else MarchMonthStart(mp + 1))
      && (doy == 365 ==> IsLeapYear(year))
  {
  }

  /** Leap years repeat every 400 years. */
  lemma LeapShift(year: int, era: int)
    requires IsLeapYear(year)
    ensures IsLeapYear(year - era * 400)
  {
    var q4 := Divide(year, 4);
    var q100 := Divide(year, 100);
    var q400 := Divide(year, 400);
    Remainder(year, 4, q4);
    Remainder(year, 100, q100);
    Remainder(year, 400, q400);
    Remainder(year - era * 400, 4, q4 - era * 100);
    Remainder(year - era * 400, 100, q100 - era * 4);
    Remainder(year - era * 400, 400, q400 - era);
  }

  /** The month of an instant in the local calendar. */
  function LocalMonth(instant: int, offset: int): (ym: YearMonth)
    ensures ValidMonth(ym)
  {
    CivilMonth(LocalDay(instant, offset))
  }
}
