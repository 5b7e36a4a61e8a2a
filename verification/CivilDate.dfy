/** Seconds since the epoch as a calendar date (lib/util.c). */
module CivilDate {
  import opened Arith

  const EPOCH_YEAR: nat := 1970
  const DAY: nat := 86400
  const TWO32: nat := 0x1_0000_0000

  // ---------------------------------------------------------------------------------------------
  // Two calendars: the Gregorian one and the one the firmware counts by
  // ---------------------------------------------------------------------------------------------

  predicate Leap(y: nat) { y % 4 == 0 && (y % 100 != 0 || y % 400 == 0) }

  /** LEAPYEAR as compiled: every fourth year. */
  predicate Fourth(y: nat) { y % 4 == 0 }

  function YearSize(leap: bool): nat { if leap then 366 else 365 }

  /** The table of month lengths; months count from zero. */
  function MonthSize(leap: bool, m: nat): nat
    requires m < 12
  {
    if m == 1 then (if leap then 29 else 28) else if m == 3 || m == 5 || m == 8 || m == 10 then 30 else 31
  }

  function DaysBeforeMonth(leap: bool, m: nat): nat
    requires m <= 12
  {
    if m == 0 then 0 else DaysBeforeMonth(leap, m - 1) + MonthSize(leap, m - 1)
  }

  /** Days from the epoch to the first of January of `y`, given which years are leap years. */
  function DaysBeforeYear(leap: nat -> bool, y: nat): nat {
    if y <= EPOCH_YEAR then 0 else DaysBeforeYear(leap, y - 1) + YearSize(leap(y - 1))
  }

  /** A date and a time of day, with the extra outputs `sbs` (seconds in the day) and `diy` (day in the year). */
  datatype Date = Date(year: nat, month: nat, day: nat, hour: nat, min: nat, sec: nat, sbs: nat, diy: nat)

  predicate ValidDay(leap: nat -> bool, d: Date) {
    EPOCH_YEAR <= d.year && 1 <= d.month <= 12 && 1 <= d.day <= MonthSize(leap(d.year), d.month - 1)
  }

  predicate ValidTime(d: Date) {
    d.hour < 24 && d.min < 60 && d.sec < 60
  }

  function DayInYear(leap: nat -> bool, d: Date): nat
    requires ValidDay(leap, d)
  {
    DaysBeforeMonth(leap(d.year), d.month - 1) + d.day - 1
  }

  function DayNumber(leap: nat -> bool, d: Date): nat
    requires ValidDay(leap, d)
  {
    DaysBeforeYear(leap, d.year) + DayInYear(leap, d)
  }

  function Clock(d: Date): nat {
    d.hour * 3600 + d.min * 60 + d.sec
  }

  /** The date is the one that is `s` seconds after the epoch. */
  predicate Denotes(leap: nat -> bool, d: Date, s: nat) {
    && ValidDay(leap, d) && ValidTime(d)
    && DayNumber(leap, d) * DAY + Clock(d) == s
    && d.sbs == Clock(d) && d.diy == DayInYear(leap, d)
  }

  // ---------------------------------------------------------------------------------------------
  // The conversion
  // ---------------------------------------------------------------------------------------------

  /** Counts whole years off. */
  method SplitYear(days: nat) returns (year: nat, diy: nat)
    ensures year >= EPOCH_YEAR && diy < YearSize(Fourth(year)) && DaysBeforeYear(Fourth, year) + diy == days
  {
    year, diy := EPOCH_YEAR, days;
    while diy >= YearSize(Fourth(year))
      invariant year >= EPOCH_YEAR && DaysBeforeYear(Fourth, year) + diy == days
      decreases diy
    {
      diy := diy - YearSize(Fourth(year));
      year := year + 1;
    }
  }

  lemma YearIsTwelveMonths(leap: bool)
    ensures DaysBeforeMonth(leap, 12) == YearSize(leap)
  {
    var extra := if leap then 1 else 0;
    assert DaysBeforeMonth(leap, 1) == 31;
    assert DaysBeforeMonth(leap, 2) == 59 + extra;
    assert DaysBeforeMonth(leap, 4) == 120 + extra;
    assert DaysBeforeMonth(leap, 6) == 181 + extra;
    assert DaysBeforeMonth(leap, 8) == 243 + extra;
    assert DaysBeforeMonth(leap, 10) == 304 + extra;
  }

  /** Counts whole months off; the table is never read beyond December. */
  method SplitMonth(year: nat, diy: nat) returns (month: nat, day: nat)
    requires diy < YearSize(Fourth(year))
    ensures month < 12 && 1 <= day <= MonthSize(Fourth(year), month)
    ensures DaysBeforeMonth(Fourth(year), month) + day - 1 == diy
  {
    YearIsTwelveMonths(Fourth(year));
    var left: nat := diy;
    month := 0;
    while left >= MonthSize(Fourth(year), month)
      invariant month < 12 && DaysBeforeMonth(Fourth(year), month) + left == diy
      decreases left
    {
      left := left - MonthSize(Fourth(year), month);
      month := month + 1;
    }
    day := left + 1;
  }

  /** The date of the low 32 bits of `s`, by the firmware's calendar. */
  method FormatTimeInt(s: nat) returns (d: Date)
    ensures Denotes(Fourth, d, s % TWO32)
  {
    var seconds := s % TWO32;
    var dayclock, dayno := seconds % DAY, seconds / DAY;
    var year, diy := SplitYear(dayno);
    var month, day := SplitMonth(year, diy);
    d := Date(year, month + 1, day, dayclock / 3600, dayclock % 3600 / 60, dayclock % 60, dayclock, diy);
    ClockSplits(dayclock);
  }

  lemma ClockSplits(c: nat)
    requires c < DAY
    ensures c / 3600 < 24 && c % 3600 / 60 < 60 && c / 3600 * 3600 + c % 3600 / 60 * 60 + c % 60 == c
  {
    var q, r := c / 3600, c % 3600;
    DivModUnique(c, 60, q * 60 + r / 60, r % 60);
  }

  // ---------------------------------------------------------------------------------------------
  // Where the two calendars agree
  // ---------------------------------------------------------------------------------------------

  /** The first of March 2100, which the firmware takes for the 29th of February. */
  const FIRST_WRONG_DAY: nat := 47541
  const LIMIT: nat := 47541 * 86400

  lemma {:induction false} FourthClosed(y: nat)
    requires y >= EPOCH_YEAR
    ensures DaysBeforeYear(Fourth, y) == 365 * (y - 1970) + (y - 1969) / 4
  {
    if y > EPOCH_YEAR {
      FourthClosed(y - 1);
    }
  }

  lemma LeapAgrees(y: nat)
    requires 1970 <= y < 2100
    ensures Leap(y) == Fourth(y)
  {
    assert y % 100 == 0 ==> y == 2000;
  }

  lemma {:induction false} YearsAgree(y: nat)
    requires 1970 <= y <= 2100
    ensures DaysBeforeYear(Leap, y) == DaysBeforeYear(Fourth, y)
  {
    if y > EPOCH_YEAR {
      YearsAgree(y - 1);
      LeapAgrees(y - 1);
    }
  }

  lemma LeapIsFourth(y: nat)
    ensures YearSize(Leap(y)) <= YearSize(Fourth(y))
    ensures y == 2100 ==> YearSize(Leap(y)) < YearSize(Fourth(y))
  {
  }

  lemma {:induction false} YearsDisagree(y: nat)
    requires y > 2100
    ensures DaysBeforeYear(Leap, y) < DaysBeforeYear(Fourth, y)
  {
    LeapIsFourth(y - 1);
    if y == 2101 {
      YearsAgree(2100);
    } else {
      YearsDisagree(y - 1);
    }
  }

  lemma {:induction false} LeapDay(m: nat)
    requires m <= 12
    ensures DaysBeforeMonth(true, m) == DaysBeforeMonth(false, m) + if m >= 2 then 1 else 0
    ensures m >= 2 ==> DaysBeforeMonth(false, m) >= 59
  {
    if m > 0 {
      LeapDay(m - 1);
    }
  }

  /** The same day of the Gregorian calendar. */
  predicate SameDay(d: Date)
    requires ValidDay(Fourth, d)
  {
    && ValidDay(Leap, d)
    && DayNumber(Leap, d) == DayNumber(Fourth, d)
    && DayInYear(Leap, d) == DayInYear(Fourth, d)
  }

  lemma Before2100(d: Date)
    requires ValidDay(Fourth, d) && d.year < 2100
    ensures SameDay(d) && DayNumber(Fourth, d) < FIRST_WRONG_DAY
  {
    YearsAgree(d.year);
    LeapAgrees(d.year);
    FourthClosed(d.year);
    MonthWithinYear(Fourth, d);
  }

  /** Within a year, a leap day more makes a difference exactly from day 59 on. */
  lemma LeapDayMatters(m: nat, day: nat)
    requires m < 12 && 1 <= day <= MonthSize(true, m)
    ensures day <= MonthSize(false, m) && DaysBeforeMonth(false, m) == DaysBeforeMonth(true, m)
       <==> DaysBeforeMonth(true, m) + day - 1 < 59
    ensures DaysBeforeMonth(true, m) + day - 1 == 59 ==> m == 1 && day == 29
  {
    LeapDay(m);
    assert DaysBeforeMonth(true, 0) == 0;
    assert DaysBeforeMonth(true, 1) == 31;
  }

  lemma Days2100(y: nat)
    requires y == 2100
    ensures DaysBeforeYear(Fourth, y) == 47482 && DaysBeforeYear(Leap, y) == 47482 && Fourth(y) && !Leap(y)
  {
    FourthClosed(y);
    YearsAgree(y);
  }

  lemma In2100(d: Date)
    requires ValidDay(Fourth, d) && d.year == 2100
    ensures SameDay(d) <==> DayNumber(Fourth, d) < FIRST_WRONG_DAY
    ensures ValidDay(Leap, d) && !SameDay(d) ==> DayNumber(Leap, d) < DayNumber(Fourth, d)
  {
    Days2100(d.year);
    LeapDay(d.month - 1);
    LeapDayMatters(d.month - 1, d.day);
  }

  lemma After2100(d: Date)
    requires ValidDay(Fourth, d) && d.year > 2100
    ensures DayNumber(Fourth, d) >= FIRST_WRONG_DAY
    ensures ValidDay(Leap, d) ==> DayNumber(Leap, d) < DayNumber(Fourth, d)
  {
    YearsDisagree(d.year);
    FourthClosed(d.year);
    LeapIsFourth(d.year);
    LeapDay(d.month - 1);
  }

  /** A date the firmware computes is right exactly before March 2100, and never early. */
  lemma DayAgreesIff(d: Date)
    requires ValidDay(Fourth, d)
    ensures SameDay(d) <==> DayNumber(Fourth, d) < FIRST_WRONG_DAY
    ensures ValidDay(Leap, d) && !SameDay(d) ==> DayNumber(Leap, d) < DayNumber(Fourth, d)
  {
    if d.year < 2100 {
      Before2100(d);
    } else if d.year == 2100 {
      In2100(d);
    } else {
      After2100(d);
    }
  }

  lemma MonthWithinYear(leap: nat -> bool, d: Date)
    requires ValidDay(leap, d)
    ensures DayInYear(leap, d) < YearSize(leap(d.year))
  {
    MonthsMonotone(leap(d.year), d.month, 12);
    YearIsTwelveMonths(leap(d.year));
  }

  lemma {:induction false} MonthsMonotone(leap: bool, m: nat, n: nat)
    requires m <= n <= 12
    ensures DaysBeforeMonth(leap, m) <= DaysBeforeMonth(leap, n)
  {
    if m < n {
      MonthsMonotone(leap, m, n - 1);
    }
  }

  /** The conversion gives the Gregorian date and time of `s` exactly before March 2100. */
  lemma ConversionExactIff(s: nat, d: Date)
    requires Denotes(Fourth, d, s % TWO32)
    ensures Denotes(Leap, d, s) <==> s < 4_107_542_400
  {
    DayAgreesIff(d);
    var n := DayNumber(Fourth, d);
    assert Clock(d) < DAY;
    assert s % TWO32 <= s;
    assert s < TWO32 ==> s % TWO32 == s;
  }

  lemma YearOfDay(y: int, diy: int)
    requires y >= 1970 && 0 <= diy < 366 && 365 * (y - 1970) + (y - 1969) / 4 + diy == FIRST_WRONG_DAY
    ensures y == 2100 && diy == 59
  {
  }

  lemma WholeDays(days: nat, clock: nat, s: nat)
    requires clock < DAY && days * DAY + clock == s
    ensures days == s / DAY
  {
    DivModUnique(s, DAY, days, clock);
  }

  lemma WrongDay(d: Date)
    requires ValidDay(Fourth, d) && DayNumber(Fourth, d) == FIRST_WRONG_DAY
    ensures d.year == 2100 && d.month == 2 && d.day == 29 && !ValidDay(Leap, d)
  {
    var y := d.year;
    FourthClosed(y);
    MonthWithinYear(Fourth, d);
    YearOfDay(y, DayInYear(Fourth, d));
    Days2100(y);
    LeapDayMatters(d.month - 1, d.day);
  }

  /** On the first of March 2100 the firmware shows the 29th of February. */
  lemma FirstWrongDate(d: Date)
    requires Denotes(Fourth, d, LIMIT % TWO32)
    ensures d.year == 2100 && d.month == 2 && d.day == 29 && !ValidDay(Leap, d)
  {
    WholeDays(DayNumber(Fourth, d), Clock(d), LIMIT % TWO32);
    WrongDay(d);
  }

  // ---------------------------------------------------------------------------------------------
  // Both calendars in closed form
  // ---------------------------------------------------------------------------------------------

  /** The last day of each month: the familiar table. */
  function LastDay(leap: bool, month: nat): nat
    requires 1 <= month <= 12
  {
    [31, 28, 31, 30, 31, 30, 31, 31, 30, 31, 30, 31][month - 1] + if leap && month == 2 then 1 else 0
  }

  /** Days of the year before a month, from March on by the formula that has no table. */
  function BeforeMonth(leap: bool, month: nat): nat
    requires 1 <= month <= 12
  {
    if month <= 2 then 31 * (month - 1) else (153 * (month - 3) + 2) / 5 + 59 + if leap then 1 else 0
  }

  lemma MonthTable(leap: bool, month: nat)
    requires 1 <= month <= 12
    ensures MonthSize(leap, month - 1) == LastDay(leap, month)
    ensures DaysBeforeMonth(leap, month - 1) == BeforeMonth(leap, month)
  {
    var extra := if leap then 1 else 0;
    assert DaysBeforeMonth(leap, 1) == 31;
    assert DaysBeforeMonth(leap, 2) == 59 + extra;
    assert DaysBeforeMonth(leap, 4) == 120 + extra;
    assert DaysBeforeMonth(leap, 6) == 181 + extra;
    assert DaysBeforeMonth(leap, 8) == 243 + extra;
    assert DaysBeforeMonth(leap, 10) == 304 + extra;
  }

  lemma {:induction false} LeapClosed(y: nat)
    requires y >= EPOCH_YEAR
    ensures DaysBeforeYear(Leap, y) == 365 * (y - 1970) + (y - 1) / 4 - (y - 1) / 100 + (y - 1) / 400 - 477
  {
    if y > EPOCH_YEAR {
      LeapClosed(y - 1);
      LeapStep(y - 1);
    }
  }

  lemma LeapStep(y: nat)
    requires y > 0
    ensures y / 4 - (y - 1) / 4 == if y % 4 == 0 then 1 else 0
    ensures y / 100 - (y - 1) / 100 == if y % 100 == 0 then 1 else 0
    ensures y / 400 - (y - 1) / 400 == if y % 400 == 0 then 1 else 0
    ensures y % 400 == 0 ==> y % 100 == 0
    ensures y % 100 == 0 ==> y % 4 == 0
  {
    StepBy(y, 4);
    StepBy(y, 100);
    StepBy(y, 400);
    if y % 400 == 0 { DivModUnique(y, 100, 4 * (y / 400), 0); }
    if y % 100 == 0 { DivModUnique(y, 4, 25 * (y / 100), 0); }
  }

  lemma StepBy(y: nat, k: nat)
    requires y > 0 && k > 1
    ensures y / k - (y - 1) / k == if y % k == 0 then 1 else 0
  {
    var q, r := y / k, y % k;
    DivMod(y, k);
    if r == 0 {
      assert (q - 1) * k == q * k - k;
      DivModUnique(y - 1, k, q - 1, k - 1);
    } else {
      DivModUnique(y - 1, k, q, r - 1);
    }
  }

  /** A date and time of day as written, and what it says of the year. */
  predicate Written(leap: bool, d: Date) {
    && 1970 <= d.year && 1 <= d.month <= 12 && 1 <= d.day <= LastDay(leap, d.month)
    && d.hour < 24 && d.min < 60 && d.sec < 60
    && d.sbs == d.hour * 3600 + d.min * 60 + d.sec && d.diy == BeforeMonth(leap, d.month) + d.day - 1
  }

  /** The Gregorian calendar: leap years are those divisible by 4 but not by 100, or by 400. */
  lemma GregorianIff(d: Date, s: nat)
    ensures Denotes(Leap, d, s) <==>
              && Written(d.year % 4 == 0 && (d.year % 100 != 0 || d.year % 400 == 0), d)
              && var y := d.year - 1;
                 s == (365 * (d.year - 1970) + y / 4 - y / 100 + y / 400 - 477 + d.diy) * 86400 + d.sbs
  {
    if 1970 <= d.year && 1 <= d.month <= 12 {
      MonthTable(Leap(d.year), d.month);
      LeapClosed(d.year);
    }
  }

  /** The firmware's: those divisible by 4. */
  lemma FourthIff(d: Date, s: nat)
    ensures Denotes(Fourth, d, s) <==>
              && Written(d.year % 4 == 0, d)
              && s == (365 * (d.year - 1970) + (d.year - 1969) / 4 + d.diy) * 86400 + d.sbs
  {
    if 1970 <= d.year && 1 <= d.month <= 12 {
      MonthTable(Fourth(d.year), d.month);
      FourthClosed(d.year);
    }
  }

  // ---------------------------------------------------------------------------------------------
  // Dates in order
  // ---------------------------------------------------------------------------------------------

  predicate EarlierDay(a: Date, b: Date) {
    a.year < b.year || (a.year == b.year && (a.month < b.month || (a.month == b.month && a.day < b.day)))
  }

  predicate EarlierTime(a: Date, b: Date) {
    a.hour < b.hour || (a.hour == b.hour && (a.min < b.min || (a.min == b.min && a.sec < b.sec)))
  }

  lemma {:induction false} YearsMonotone(leap: nat -> bool, y: nat, z: nat)
    requires y <= z
    ensures DaysBeforeYear(leap, y) <= DaysBeforeYear(leap, z)
  {
    if y < z {
      YearsMonotone(leap, y, z - 1);
    }
  }

  lemma DaysInOrder(leap: nat -> bool, a: Date, b: Date)
    requires ValidDay(leap, a) && ValidDay(leap, b) && EarlierDay(a, b)
    ensures DayNumber(leap, a) < DayNumber(leap, b)
  {
    if a.year < b.year {
      MonthWithinYear(leap, a);
      YearsMonotone(leap, a.year + 1, b.year);
    } else if a.month < b.month {
      MonthsMonotone(leap(a.year), a.month, b.month - 1);
    }
  }

  /** No two dates denote the same second: the date found is the only one. */
  lemma DateUnique(leap: nat -> bool, a: Date, b: Date, s: nat)
    requires Denotes(leap, a, s) && Denotes(leap, b, s)
    ensures a == b
  {
    DateInOrder(leap, a, b, s, s);
  }

  /** Dates come in the order of the seconds they denote. */
  lemma DateInOrder(leap: nat -> bool, a: Date, b: Date, s: nat, t: nat)
    requires Denotes(leap, a, s) && Denotes(leap, b, t) && s <= t
    ensures EarlierDay(a, b) || (a.year == b.year && a.month == b.month && a.day == b.day && (EarlierTime(a, b) || a == b))
    ensures s < t ==> a != b
    ensures s == t ==> a == b
  {
    if EarlierDay(b, a) {
      DaysInOrder(leap, b, a);
    } else if EarlierDay(a, b) {
      DaysInOrder(leap, a, b);
    }
  }
}
