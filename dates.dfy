/**
 * Calendar arithmetic behind the JavaScript Date calls the board makes:
 * `new Date(y, m, d)` and `setMonth` normalise an out-of-range month or day
 * into a real date, `getDay()` gives the weekday, and the "YYYY-MM-DD" keys
 * that events are matched against. Day numbers and weekdays follow
 * ECMA-262 (section 21.4.1, "Time Values and Time Range": DayFromYear,
 * DaysInYear, MakeDay, WeekDay), with whole days in place of milliseconds.
 */
module Dates {
  import opened Collections
  import opened Text

  /** A date as `getFullYear()`, `getMonth()` (0 = January) and `getDate()` report it. */
  datatype Date = Date(year: int, month: int, day: int)

  /** ECMA-262 DaysInYear. */
  function DaysInYear(y: int): int
  {
    if y % 4 != 0 then 365
    else if y % 100 != 0 then 366
    else if y % 400 != 0 then 365
    else 366
  }

  predicate IsLeapYear(y: int) { DaysInYear(y) == 366 }

  /** The Gregorian rule: every fourth year, except centuries not divisible by 400. */
  lemma LeapYearRule(y: int)
    ensures IsLeapYear(y) <==> (y % 4 == 0 && (y % 100 != 0 || y % 400 == 0))
  {
  }

  function DaysInMonth(y: int, m: int): (n: int)
    requires 0 <= m < 12
    ensures 28 <= n <= 31
    ensures n == 29 <==> m == 1 && IsLeapYear(y)
  {
    if m == 1 then (if IsLeapYear(y) then 29 else 28)
    else if m == 3 || m == 5 || m == 8 || m == 10 then 30
    else 31
  }

  /** A date whose month and day are in range, as every Date getter reports. */
  predicate Valid(d: Date)
  {
    0 <= d.month < 12 && 1 <= d.day <= DaysInMonth(d.year, d.month)
  }

  /** The dates a JavaScript Date object can report. */
  type ValidDate = d: Date | Valid(d) witness Date(1970, 0, 1)

  const CumulativeDays: seq<int> := [0, 31, 59, 90, 120, 151, 181, 212, 243, 273, 304, 334, 365]

  /** Days of year y that come before the first of month m. */
  function DaysBeforeMonth(y: int, m: int): int
    requires 0 <= m <= 12
  {
    CumulativeDays[m] + (if m >= 2 && IsLeapYear(y) then 1 else 0)
  }

  lemma DaysBeforeNextMonth(y: int, m: int)
    requires 0 <= m < 12
    ensures DaysBeforeMonth(y, m + 1) == DaysBeforeMonth(y, m) + DaysInMonth(y, m)
  {
  }

  lemma {:induction false} DaysBeforeMonotone(y: int, i: int, j: int)
    requires 0 <= i <= j <= 12
    ensures DaysBeforeMonth(y, i) + 28 * (j - i) <= DaysBeforeMonth(y, j)
    decreases j - i
  {
    if i < j {
      DaysBeforeNextMonth(y, i);
      DaysBeforeMonotone(y, i + 1, j);
    }
  }

  /** Days from 1 January 1970 to 1 January of year y, counted year by year. */
  function DayFromYear(y: int): int
    decreases if y >= 1970 then y - 1970 else 1970 - y
  {
    if y == 1970 then 0
    else if y > 1970 then DayFromYear(y - 1) + DaysInYear(y - 1)
    else DayFromYear(y + 1) - DaysInYear(y)
  }

  /** ECMA-262's closed form of DayFromYear. */
  function EcmaDayFromYear(y: int): int
  {
    365 * (y - 1970) + (y - 1969) / 4 - (y - 1901) / 100 + (y - 1601) / 400
  }

  /** Each floor term of DayFromYear steps up by one exactly in the years divisible by its period. */
  lemma Step4(y: int)
    ensures (y - 1968) / 4 == (y - 1969) / 4 + (if y % 4 == 0 then 1 else 0)
  {
    var q, r := (y - 1969) / 4, (y - 1969) % 4;
    assert y - 1969 == 4 * q + r;
    if r == 3 {
      assert y - 1968 == 4 * (q + 1) && y == 4 * (q + 493);
    } else {
      assert y - 1968 == 4 * q + (r + 1);
      assert y == 4 * (q + 492) + (r + 1);
    }
  }

  lemma Step100(y: int)
    ensures (y - 1900) / 100 == (y - 1901) / 100 + (if y % 100 == 0 then 1 else 0)
  {
    var q, r := (y - 1901) / 100, (y - 1901) % 100;
    assert y - 1901 == 100 * q + r;
    if r == 99 {
      assert y - 1900 == 100 * (q + 1) && y == 100 * (q + 20);
    } else {
      assert y - 1900 == 100 * q + (r + 1);
      assert y == 100 * (q + 19) + (r + 1);
    }
  }

  lemma Step400(y: int)
    ensures (y - 1600) / 400 == (y - 1601) / 400 + (if y % 400 == 0 then 1 else 0)
  {
    var q, r := (y - 1601) / 400, (y - 1601) % 400;
    assert y - 1601 == 400 * q + r;
    if r == 399 {
      assert y - 1600 == 400 * (q + 1) && y == 400 * (q + 5);
    } else {
      assert y - 1600 == 400 * q + (r + 1);
      assert y == 400 * (q + 4) + (r + 1);
    }
  }

  lemma DivisibilityChain(y: int)
    ensures y % 400 == 0 ==> y % 100 == 0
    ensures y % 100 == 0 ==> y % 4 == 0
  {
    if y % 400 == 0 {
      var k := y / 400;
      assert y == 100 * (4 * k);
      HundredsMod(4 * k);
    }
    if y % 100 == 0 {
      var k := y / 100;
      assert y == 4 * (25 * k);
      FoursMod(25 * k);
    }
  }

  lemma HundredsMod(k: int)
    ensures (100 * k) % 100 == 0
  {
  }

  lemma FoursMod(k: int)
    ensures (4 * k) % 4 == 0
  {
  }

  /** ECMA-262's closed form also steps by DaysInYear from one year to the next. */
  lemma EcmaDayFromNextYear(y: int)
    ensures EcmaDayFromYear(y + 1) == EcmaDayFromYear(y) + DaysInYear(y)
  {
    Step4(y);
    Step100(y);
    Step400(y);
    DivisibilityChain(y);
    assert EcmaDayFromYear(y + 1) == 365 * (y - 1969) + (y - 1968) / 4 - (y - 1900) / 100 + (y - 1600) / 400;
  }

  /** The year-by-year count is ECMA-262's DayFromYear. */
  lemma {:induction false} DayFromYearIsEcma(y: int)
    ensures DayFromYear(y) == EcmaDayFromYear(y)
    decreases if y >= 1970 then y - 1970 else 1970 - y
  {
    if y > 1970 {
      DayFromYearIsEcma(y - 1);
      EcmaDayFromNextYear(y - 1);
    } else if y < 1970 {
      DayFromYearIsEcma(y + 1);
      EcmaDayFromNextYear(y);
    }
  }

  /** Consecutive years start DaysInYear days apart. */
  lemma DayFromNextYear(y: int)
    ensures DayFromYear(y + 1) == DayFromYear(y) + DaysInYear(y)
  {
  }

  lemma {:induction false} DayFromYearMonotone(y: int, z: int)
    requires y <= z
    ensures DayFromYear(y) + 365 * (z - y) <= DayFromYear(z)
    decreases z - y
  {
    if y < z {
      DayFromNextYear(y);
      DayFromYearMonotone(y + 1, z);
    }
  }

  /** Days from 1 January 1970 to the given date (negative before it). */
  function DayNumber(d: Date): int
    requires 0 <= d.month < 12
  {
    DayFromYear(d.year) + DaysBeforeMonth(d.year, d.month) + d.day - 1
  }

  /**
   * ECMA-262 MakeDay(year, month, date) for whole-number arguments: the month
   * is folded into the year (floor division), and the day is counted from the
   * first of the resulting month.
   */
  function MakeDay(y: int, m: int, d: int): int
  {
    DayNumber(Date(y + m / 12, m % 12, 1)) + d - 1
  }

  /** ECMA-262 WeekDay of a day number: 0 is Sunday (1 January 1970 was a Thursday). */
  function WeekDay(t: int): (w: int)
    ensures 0 <= w < 7
  {
    (t + 4) % 7
  }

  /** The month after (y, m), as a Date on its first day. */
  function NextMonthStart(y: int, m: int): (r: Date)
    requires 0 <= m < 12
    ensures Valid(r) && r.day == 1
  {
    if m == 11 then Date(y + 1, 0, 1) else Date(y, m + 1, 1)
  }

  /** The first of the next month lies DaysInMonth days after the first of this one. */
  lemma NextMonthDayNumber(y: int, m: int)
    requires 0 <= m < 12
    ensures DayNumber(NextMonthStart(y, m)) == DayNumber(Date(y, m, 1)) + DaysInMonth(y, m)
  {
    DaysBeforeNextMonth(y, m);
    if m == 11 {
      DayFromNextYear(y);
    }
  }

  /**
   * The date `new Date(y, m, d)` (and `setMonth`) lands on: the month is folded
   * into the year, then a day past the month's end spills into the following
   * months and a day below 1 reaches back into the previous ones.
   */
  function Normalise(y: int, m: int, d: int): (r: Date)
    ensures Valid(r)
    decreases if d < 1 then 1 else 0, if d < 1 then 1 - d else d
  {
    var y1 := y + m / 12;
    var m1 := m % 12;
    if d < 1 then
      var py := if m1 == 0 then y1 - 1 else y1;
      var pm := if m1 == 0 then 11 else m1 - 1;
      Normalise(py, pm, d + DaysInMonth(py, pm))
    else if d > DaysInMonth(y1, m1) then
      Normalise(y1, m1 + 1, d - DaysInMonth(y1, m1))
    else
      Date(y1, m1, d)
  }

  /** For a month already in range, MakeDay counts from the first of that month. */
  lemma MakeDayInMonth(y: int, m: int, d: int)
    requires 0 <= m < 12
    ensures MakeDay(y, m, d) == DayNumber(Date(y, m, 1)) + d - 1
  {
    assert m / 12 == 0 && m % 12 == m;
  }

  /** Normalise agrees with ECMA-262 MakeDay: the date it gives has MakeDay's day number. */
  lemma {:induction false} NormaliseIsMakeDay(y: int, m: int, d: int)
    ensures DayNumber(Normalise(y, m, d)) == MakeDay(y, m, d)
    decreases if d < 1 then 1 else 0, if d < 1 then 1 - d else d
  {
    var y1 := y + m / 12;
    var m1 := m % 12;
    assert MakeDay(y, m, d) == DayNumber(Date(y1, m1, 1)) + d - 1;
    if d < 1 {
      var py := if m1 == 0 then y1 - 1 else y1;
      var pm := if m1 == 0 then 11 else m1 - 1;
      var d' := d + DaysInMonth(py, pm);
      assert Normalise(y, m, d) == Normalise(py, pm, d');
      NormaliseIsMakeDay(py, pm, d');
      MakeDayInMonth(py, pm, d');
      NextMonthDayNumber(py, pm);
      assert NextMonthStart(py, pm) == Date(y1, m1, 1);
    } else if d > DaysInMonth(y1, m1) {
      var d' := d - DaysInMonth(y1, m1);
      assert Normalise(y, m, d) == Normalise(y1, m1 + 1, d');
      NormaliseIsMakeDay(y1, m1 + 1, d');
      NextMonthDayNumber(y1, m1);
      var n := NextMonthStart(y1, m1);
      assert n == Date(y1 + (m1 + 1) / 12, (m1 + 1) % 12, 1);
      assert MakeDay(y1, m1 + 1, d') == DayNumber(n) + d' - 1;
    } else {
      assert Normalise(y, m, d) == Date(y1, m1, d);
    }
  }

  /** A valid date's day number lies within its own year. */
  lemma DayNumberInYear(a: Date)
    requires Valid(a)
    ensures DayFromYear(a.year) <= DayNumber(a) < DayFromYear(a.year + 1)
  {
    DaysBeforeNextMonth(a.year, a.month);
    DaysBeforeMonotone(a.year, a.month + 1, 12);
    DayFromNextYear(a.year);
  }

  /** Distinct valid dates have distinct day numbers, so a day number names exactly one date. */
  lemma DayNumberInjective(a: Date, b: Date)
    requires Valid(a) && Valid(b) && DayNumber(a) == DayNumber(b)
    ensures a == b
  {
    DayNumberInYear(a);
    DayNumberInYear(b);
    if a.year < b.year {
      DayFromYearMonotone(a.year + 1, b.year);
    } else if b.year < a.year {
      DayFromYearMonotone(b.year + 1, a.year);
    }
    assert a.year == b.year;
    DaysBeforeNextMonth(a.year, a.month);
    DaysBeforeNextMonth(a.year, b.month);
    if a.month < b.month {
      DaysBeforeMonotone(a.year, a.month + 1, b.month);
    } else if b.month < a.month {
      DaysBeforeMonotone(a.year, b.month + 1, a.month);
    }
  }

  /** Normalising a date that is already valid changes nothing. */
  lemma NormaliseValid(a: Date)
    requires Valid(a)
    ensures Normalise(a.year, a.month, a.day) == a
  {
  }

  /** Normalise is exactly ECMA-262's decoding of MakeDay: the unique valid date with that day number. */
  lemma NormaliseUnique(y: int, m: int, d: int, a: Date)
    requires Valid(a) && DayNumber(a) == MakeDay(y, m, d)
    ensures Normalise(y, m, d) == a
  {
    NormaliseIsMakeDay(y, m, d);
    DayNumberInjective(Normalise(y, m, d), a);
  }

  /** `new Date(y, m + 1, 0).getDate()`: day 0 of the next month is the last day of this one. */
  function LastDayOfMonth(y: int, m: int): int
    requires 0 <= m < 12
  {
    Normalise(y, m + 1, 0).day
  }

  lemma LastDayIsDaysInMonth(y: int, m: int)
    requires 0 <= m < 12
    ensures Normalise(y, m + 1, 0) == Date(y, m, DaysInMonth(y, m))
    ensures LastDayOfMonth(y, m) == DaysInMonth(y, m)
  {
    var y1 := y + (m + 1) / 12;
    var m1 := (m + 1) % 12;
    if m == 11 {
      assert y1 == y + 1 && m1 == 0;
    } else {
      assert y1 == y && m1 == m + 1;
    }
    NormaliseBorrow(y, m + 1, 0);
    NormaliseInRange(y, m, DaysInMonth(y, m));
  }

  /** Day 0 or before is borrowed from the month before the (folded) month m. */
  lemma NormaliseBorrow(y: int, m: int, d: int)
    requires d < 1
    ensures var y1, m1 := y + m / 12, m % 12;
            var py, pm := if m1 == 0 then y1 - 1 else y1, if m1 == 0 then 11 else m1 - 1;
            Normalise(y, m, d) == Normalise(py, pm, d + DaysInMonth(py, pm))
  {
  }

  /** A day of the month is already normal. */
  lemma NormaliseInRange(y: int, m: int, d: int)
    requires 0 <= m < 12 && 1 <= d <= DaysInMonth(y, m)
    ensures Normalise(y, m, d) == Date(y, m, d)
  {
    assert y + m / 12 == y && m % 12 == m;
  }

  /** The scripts' `new Date(y, m + 1, 0).getDate()`: the number of days of month m. */
  method LastDate(y: int, m: int) returns (n: nat)
    requires 0 <= m < 12
    ensures n == DaysInMonth(y, m)
  {
    LastDayIsDaysInMonth(y, m);
    n := LastDayOfMonth(y, m);
  }

  /** `new Date(y, m, 1).getDay()`: the weekday (0 = Sunday) of the first of the month. */
  function FirstWeekday(y: int, m: int): (w: int)
    requires 0 <= m < 12
    ensures 0 <= w <= 6
  {
    WeekDay(MakeDay(y, m, 1))
  }

  lemma WeekDayShift(t: int, k: int)
    ensures WeekDay(t + k) == (WeekDay(t) + k) % 7
  {
    var q := (t + 4) / 7;
    assert t + 4 == 7 * q + WeekDay(t);
    assert t + k + 4 == 7 * q + (WeekDay(t) + k);
  }

  /** Each month starts DaysInMonth weekdays after the previous one. */
  lemma FirstWeekdayOfNextMonth(y: int, m: int)
    requires 0 <= m < 12
    ensures var n := NextMonthStart(y, m);
            FirstWeekday(n.year, n.month) == (FirstWeekday(y, m) + DaysInMonth(y, m)) % 7
  {
    var n := NextMonthStart(y, m);
    var t, t' := DayNumber(Date(y, m, 1)), DayNumber(n);
    NextMonthDayNumber(y, m);
    assert t' == t + DaysInMonth(y, m);
    MakeDayInMonth(n.year, n.month, 1);
    MakeDayInMonth(y, m, 1);
    assert Date(n.year, n.month, 1) == n;
    assert MakeDay(n.year, n.month, 1) == t';
    assert FirstWeekday(n.year, n.month) == WeekDay(t');
    assert FirstWeekday(y, m) == WeekDay(t);
    WeekDayShift(t, DaysInMonth(y, m));
  }

  /**
   * In a seven-column grid that starts with FirstWeekday blanks, day d falls
   * in the column of its own weekday.
   */
  lemma CellColumn(y: int, m: int, d: int)
    requires 0 <= m < 12 && 1 <= d
    ensures (FirstWeekday(y, m) + d - 1) % 7 == WeekDay(MakeDay(y, m, d))
  {
    var t0, t := MakeDay(y, m, 1), MakeDay(y, m, d);
    MakeDayInMonth(y, m, 1);
    MakeDayInMonth(y, m, d);
    ColumnOf(t0, t, d);
  }

  lemma ColumnOf(t0: int, t: int, d: int)
    requires t == t0 + d - 1
    ensures (WeekDay(t0) + d - 1) % 7 == WeekDay(t)
  {
    WeekDayShift(t0, d - 1);
  }

  /** In 2026, February starts on a Sunday and October on a Thursday. */
  lemma FirstWeekdayExamples(y: int)
    requires y == 2026
    ensures FirstWeekday(y, 1) == 0
    ensures FirstWeekday(y, 9) == 4
  {
    DayFromYearIsEcma(y);
    assert (y - 1969) / 4 == 14 && (y - 1901) / 100 == 1 && (y - 1601) / 400 == 1;
    assert DayFromYear(y) == 20454;
    assert DaysBeforeMonth(y, 1) == 31 && DaysBeforeMonth(y, 9) == 273;
    MakeDayInMonth(y, 1, 1);
    MakeDayInMonth(y, 9, 1);
    assert (20485 + 4) % 7 == 0 && (20727 + 4) % 7 == 4;
  }

  /** The weekday header letters of a month grid, Sunday first. */
  const DayLetters := "SMTWTFS"

  /** `date.setMonth(date.getMonth() + delta)`: the day of the month is kept and may spill over. */
  function ChangeMonth(date: Date, delta: int): (r: Date)
    ensures Valid(r)
  {
    Normalise(date.year, date.month + delta, date.day)
  }

  /** Months counted from year 0, so that month steps become additions. */
  function MonthIndex(d: Date): int { d.year * 12 + d.month }

  /** A day that fits the target month is kept, and the year carries across December and January. */
  lemma ChangeMonthKeepsDay(date: Date, delta: int)
    requires Valid(date)
    requires date.day <= DaysInMonth(date.year + (date.month + delta) / 12, (date.month + delta) % 12)
    ensures ChangeMonth(date, delta) == Date(date.year + (date.month + delta) / 12, (date.month + delta) % 12, date.day)
    ensures MonthIndex(ChangeMonth(date, delta)) == MonthIndex(date) + delta
  {
  }

  /** A day past the target month's end spills into the month after it. */
  lemma ChangeMonthSpills(date: Date, delta: int)
    requires Valid(date)
    requires date.day > DaysInMonth(date.year + (date.month + delta) / 12, (date.month + delta) % 12)
    ensures var y1 := date.year + (date.month + delta) / 12;
            var m1 := (date.month + delta) % 12;
            var n := NextMonthStart(y1, m1);
            ChangeMonth(date, delta) == Date(n.year, n.month, date.day - DaysInMonth(y1, m1))
  {
    SpillInto(date.year, date.month + delta, date.day);
  }

  /** Day d of the (folded) month t, when past its end, is day d - its length of the month after. */
  lemma SpillInto(y: int, t: int, d: int)
    requires DaysInMonth(y + t / 12, t % 12) < d <= 31
    ensures var y1, m1 := y + t / 12, t % 12;
            var n := NextMonthStart(y1, m1);
            Normalise(y, t, d) == Date(n.year, n.month, d - DaysInMonth(y1, m1))
  {
    var y1, m1 := y + t / 12, t % 12;
    NormaliseCarry(y, t, d);
    NormaliseIntoNextMonth(y1, m1, d - DaysInMonth(y1, m1));
  }

  /** So the spilled date lies one month further than asked. */
  lemma ChangeMonthSpillsIndex(date: Date, delta: int)
    requires Valid(date)
    requires date.day > DaysInMonth(date.year + (date.month + delta) / 12, (date.month + delta) % 12)
    ensures MonthIndex(ChangeMonth(date, delta)) == MonthIndex(date) + delta + 1
  {
    var t := date.month + delta;
    var y1, m1 := date.year + t / 12, t % 12;
    ChangeMonthSpills(date, delta);
    NormaliseIntoNextMonth(y1, m1, date.day - DaysInMonth(y1, m1));
    FoldMonth(date.year, t);
  }

  /** Folding a month count into the year keeps the month index. */
  lemma FoldMonth(y: int, t: int)
    ensures MonthIndex(Date(y + t / 12, t % 12, 1)) == y * 12 + t
  {
    assert t == 12 * (t / 12) + t % 12;
  }

  /** A day past the end of the (folded) month is carried into the month after it. */
  lemma NormaliseCarry(y: int, m: int, d: int)
    requires d > DaysInMonth(y + m / 12, m % 12)
    ensures Normalise(y, m, d) == Normalise(y + m / 12, m % 12 + 1, d - DaysInMonth(y + m / 12, m % 12))
  {
  }

  /** A day that fits every month lands in the month after (y, m) unchanged. */
  lemma NormaliseIntoNextMonth(y: int, m: int, d: int)
    requires 0 <= m < 12 && 1 <= d <= 28
    ensures var n := NextMonthStart(y, m);
            && Normalise(y, m + 1, d) == Date(n.year, n.month, d)
            && MonthIndex(n) == MonthIndex(Date(y, m, d)) + 1
  {
    var n := NextMonthStart(y, m);
    assert y + (m + 1) / 12 == n.year && (m + 1) % 12 == n.month;
  }

  /**
   * Moving on one month from 31 January lands on 3 March (2 March in a leap
   * year): February is skipped.
   */
  lemma ChangeMonthSkipsFebruary(y: int)
    ensures ChangeMonth(Date(y, 0, 31), 1) == Date(y, 2, if IsLeapYear(y) then 2 else 3)
    ensures MonthIndex(ChangeMonth(Date(y, 0, 31), 1)) == MonthIndex(Date(y, 0, 31)) + 2
  {
    var date := Date(y, 0, 31);
    assert y + (0 + 1) / 12 == y && (0 + 1) % 12 == 1;
    ChangeMonthSpills(date, 1);
    ChangeMonthSpillsIndex(date, 1);
  }

  /** Month navigation as intended: move to the first day of the month delta months away. */
  function ChangeMonthFirst(date: Date, delta: int): Date
  {
    Normalise(date.year, date.month + delta, 1)
  }

  /** The intended navigation always moves exactly delta months, whatever the day. */
  lemma ChangeMonthFirstSteps(date: Date, delta: int)
    requires Valid(date)
    ensures Valid(ChangeMonthFirst(date, delta))
    ensures MonthIndex(ChangeMonthFirst(date, delta)) == MonthIndex(date) + delta
    ensures ChangeMonthFirst(date, delta).day == 1
  {
    ChangeMonthKeepsDay(date.(day := 1), delta);
  }

  /** From a day of the month no later than the 28th, moving k months and back returns to the same date. */
  lemma ChangeMonthRoundTrip(date: Date, delta: int)
    requires Valid(date) && date.day <= 28
    ensures ChangeMonth(ChangeMonth(date, delta), -delta) == date
  {
    var t := date.month + delta;
    var q, r := t / 12, t % 12;
    assert t == 12 * q + r;
    var mid := ChangeMonth(date, delta);
    ChangeMonthKeepsDay(date, delta);
    assert mid == Date(date.year + q, r, date.day);
    var back := r - delta;
    assert back == date.month - 12 * q;
    assert back / 12 == -q && back % 12 == date.month;
    ChangeMonthKeepsDay(mid, -delta);
  }

  /** Decimal text of a full year, with a minus sign before years before 0. */
  function YearText(y: int): string
  {
    if y < 0 then "-" + Dec(-y) else Dec(y)
  }

  /** The "YYYY-MM-DD" key of a calendar cell: `${year}-${pad2(month + 1)}-${pad2(day)}`. */
  function DateKey(y: int, m: nat, d: nat): (k: string)
    ensures k != [] && (k[0] == '-' <==> y < 0)
  {
    YearTextHead(y);
    YearText(y) + "-" + Pad2(m + 1) + "-" + Pad2(d)
  }

  /** Reads a "Y-MM-DD" key back into a date (month 0-based); None when it has another shape. */
  function ParseDateKey(s: string): (r: Option<Date>)
    ensures r.Some? ==> 0 <= r.value.year && 0 <= r.value.month < 12 && 1 <= r.value.day <= 31
  {
    if |s| < 7 then None
    else
      var n := |s|;
      var ys, ms, ds := s[..n - 6], s[n - 5..n - 3], s[n - 2..];
      if s[n - 6] == '-' && s[n - 3] == '-' && AllDigits(ys) && AllDigits(ms) && AllDigits(ds)
        && 1 <= DigitsValue(ms) <= 12 && 1 <= DigitsValue(ds) <= 31
      then Some(Date(DigitsValue(ys), DigitsValue(ms) - 1, DigitsValue(ds)))
      else None
  }

  /** A key assembled from a year text and two two-digit fields splits back into them. */
  lemma KeyFields(ys: string, ms: string, ds: string)
    requires |ms| == 2 && |ds| == 2
    ensures var s := ys + "-" + ms + "-" + ds;
            var n := |s|;
            && n == |ys| + 6
            && s[n - 6] == '-' && s[n - 3] == '-'
            && s[..n - 6] == ys && s[n - 5..n - 3] == ms && s[n - 2..] == ds
  {
    var s := ys + "-" + ms + "-" + ds;
    var n := |s|;
    assert s[..n - 6] == ys;
    assert s[n - 5..n - 3] == ms;
    assert s[n - 2..] == ds;
  }

  /** Reading a cell key gives back the date it was built from. */
  lemma DateKeyRoundTrip(y: nat, m: nat, d: nat)
    requires m < 12 && 1 <= d <= 31
    ensures ParseDateKey(DateKey(y, m, d)) == Some(Date(y, m, d))
  {
    var ys, ms, ds := Dec(y), Pad2(m + 1), Pad2(d);
    DecRoundTrip(y);
    assert DateKey(y, m, d) == ys + "-" + ms + "-" + ds;
    ParseFields(ys, ms, ds);
  }

  /** Year digits and two two-digit fields in range, joined by dashes, parse back field by field. */
  lemma ParseFields(ys: string, ms: string, ds: string)
    requires ys != [] && AllDigits(ys) && |ms| == 2 && AllDigits(ms) && |ds| == 2 && AllDigits(ds)
    requires 1 <= DigitsValue(ms) <= 12 && 1 <= DigitsValue(ds) <= 31
    ensures ParseDateKey(ys + "-" + ms + "-" + ds) == Some(Date(DigitsValue(ys), DigitsValue(ms) - 1, DigitsValue(ds)))
  {
    KeyFields(ys, ms, ds);
  }

  /** A year's text starts with a minus sign before year 0, and with a digit from year 0 on. */
  lemma YearTextHead(y: int)
    ensures YearText(y) != []
    ensures y < 0 ==> YearText(y)[0] == '-'
    ensures y >= 0 ==> IsDigit(YearText(y)[0])
  {
  }

  /** Distinct years have distinct texts: a minus sign only before a year before 0. */
  lemma YearTextInjective(a: int, b: int)
    requires YearText(a) == YearText(b)
    ensures a == b
  {
    YearTextHead(a);
    YearTextHead(b);
    if a < 0 && b < 0 {
      assert Dec(-a) == YearText(a)[1..] == YearText(b)[1..] == Dec(-b);
      DecInjective(-a, -b);
    } else if a >= 0 && b >= 0 {
      DecInjective(a, b);
    }
  }

  /** Distinct days have distinct keys, so a key picks out one calendar cell; any year, before 0 included. */
  lemma DateKeyInjective(a: Date, b: Date)
    requires 0 <= a.month < 12 && 1 <= a.day <= 31
    requires 0 <= b.month < 12 && 1 <= b.day <= 31
    requires DateKey(a.year, a.month, a.day) == DateKey(b.year, b.month, b.day)
    ensures a == b
  {
    var ya, ma, da := YearText(a.year), Pad2(a.month + 1), Pad2(a.day);
    var yb, mb, db := YearText(b.year), Pad2(b.month + 1), Pad2(b.day);
    assert ya + "-" + ma + "-" + da == yb + "-" + mb + "-" + db;
    KeyPartsEqual(ya, ma, da, yb, mb, db);
    YearTextInjective(a.year, b.year);
    Pad2Injective(a.month + 1, b.month + 1);
    Pad2Injective(a.day, b.day);
  }

  /** Two keys with two-character month and day fields are equal only field by field. */
  lemma KeyPartsEqual(ya: string, ma: string, da: string, yb: string, mb: string, db: string)
    requires |ma| == 2 && |da| == 2 && |mb| == 2 && |db| == 2
    requires ya + "-" + ma + "-" + da == yb + "-" + mb + "-" + db
    ensures ya == yb && ma == mb && da == db
  {
    KeyFields(ya, ma, da);
    KeyFields(yb, mb, db);
  }

  const MsPerDay := 86400000

  /** A whole number of days is a whole number of milliseconds-per-day. */
  lemma WholeDays(k: int)
    ensures (k * MsPerDay) % MsPerDay == 0
  {
  }

  /**
   * `new Date(s)` for a "YYYY-MM-DD" string, in milliseconds since 1970-01-01
   * UTC: midnight of that day. Strings of another shape are parsed as NaN by
   * JavaScript; they are outside this model and read as 0.
   */
  function DateMillis(s: string): (t: int)
    ensures t % MsPerDay == 0
    ensures ParseDateKey(s).None? ==> t == 0
  {
    match ParseDateKey(s)
    case Some(d) => WholeDays(MakeDay(d.year, d.month, d.day)); MakeDay(d.year, d.month, d.day) * MsPerDay
    case None => 0
  }

  /** Later dates have larger day numbers. */
  lemma DayNumberOrder(a: Date, b: Date)
    requires Valid(a) && Valid(b)
    requires MonthIndex(a) < MonthIndex(b) || (MonthIndex(a) == MonthIndex(b) && a.day < b.day)
    ensures DayNumber(a) < DayNumber(b)
  {
    DayNumberInYear(a);
    DayNumberInYear(b);
    if a.year < b.year {
      DayFromYearMonotone(a.year + 1, b.year);
    } else {
      assert a.year == b.year;
      DaysBeforeNextMonth(a.year, a.month);
      if a.month < b.month {
        DaysBeforeMonotone(a.year, a.month + 1, b.month);
      }
    }
  }

  /** For a date inside its month, MakeDay is the day number. */
  lemma MakeDayIsDayNumber(d: Date)
    requires 0 <= d.month < 12
    ensures MakeDay(d.year, d.month, d.day) == DayNumber(d)
  {
    MakeDayInMonth(d.year, d.month, d.day);
  }

  /** Later dates have larger time values, so the sort's date comparison is chronological. */
  lemma DateMillisOrder(a: Date, b: Date)
    requires Valid(a) && Valid(b) && 0 <= a.year && 0 <= b.year
    requires MonthIndex(a) < MonthIndex(b) || (MonthIndex(a) == MonthIndex(b) && a.day < b.day)
    ensures DateMillis(DateKey(a.year, a.month, a.day)) < DateMillis(DateKey(b.year, b.month, b.day))
  {
    DateKeyRoundTrip(a.year, a.month, a.day);
    DateKeyRoundTrip(b.year, b.month, b.day);
    assert Date(a.year, a.month, a.day) == a && Date(b.year, b.month, b.day) == b;
    MakeDayIsDayNumber(a);
    MakeDayIsDayNumber(b);
    var na, nb := MakeDay(a.year, a.month, a.day), MakeDay(b.year, b.month, b.day);
    DayNumberOrder(a, b);
    assert DateMillis(DateKey(a.year, a.month, a.day)) == na * MsPerDay;
    assert DateMillis(DateKey(b.year, b.month, b.day)) == nb * MsPerDay;
  }
}
