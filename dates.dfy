/** Proleptic Gregorian civil dates, and the day arithmetic that JavaScript's `Date`
    performs on them when only the local calendar day matters (no time zone, no
    time of day). Months are numbered 0..11, as `Date.prototype.getMonth` reports them. */
module CivilDates {

  /** A calendar day: full year, month 0..11 and day of the month 1..31. */
  datatype CivilDate = CivilDate(year: int, month: int, day: int)
  {
    predicate Valid() {
      0 <= month < 12 && 1 <= day <= DaysInMonth(year, month)
    }
  }

  /** The days a `Date` object can denote: `Date` always normalises its fields. */
  type Date = d: CivilDate | d.Valid() witness CivilDate(1970, 0, 1)

  predicate IsLeapYear(year: int) {
    (year % 4 == 0 && year % 100 != 0) || year % 400 == 0
  }

  /** Length of a month by the Gregorian rules. */
  function DaysInMonth(year: int, month: int): int
    requires 0 <= month < 12
  {
    if month == 1 then (if IsLeapYear(year) then 29 else 28)
    else if month == 3 || month == 5 || month == 8 || month == 10 then 30
    else 31
  }

  /** The day after `d`, rolling over the month and the year. */
  function NextDay(d: Date): Date {
    if d.day < DaysInMonth(d.year, d.month) then CivilDate(d.year, d.month, d.day + 1)
    else if d.month < 11 then CivilDate(d.year, d.month + 1, 1)
    else CivilDate(d.year + 1, 0, 1)
  }

  /** The day before `d`, rolling back the month and the year. */
  function PrevDay(d: Date): Date {
    if d.day > 1 then CivilDate(d.year, d.month, d.day - 1)
    else if d.month > 0 then CivilDate(d.year, d.month - 1, DaysInMonth(d.year, d.month - 1))
    else CivilDate(d.year - 1, 11, 31)
  }

  lemma NextPrev(d: Date)
    ensures PrevDay(NextDay(d)) == d
    ensures NextDay(PrevDay(d)) == d
  {
  }

  /** The day `n` days after `d` (before it when `n` is negative). */
  function AddDays(d: Date, n: int): Date
    decreases if n < 0 then -n else n
  {
    if n == 0 then d
    else if n > 0 then NextDay(AddDays(d, n - 1))
    else PrevDay(AddDays(d, n + 1))
  }

  lemma AddDaysSucc(d: Date, n: int)
    ensures AddDays(d, n + 1) == NextDay(AddDays(d, n))
  {
    if n < 0 {
      NextPrev(AddDays(d, n + 1));
    }
  }

  /** Shifting by `a` days and then by `b` days is shifting by `a + b` days. */
  lemma {:induction false} AddDaysAdd(d: Date, a: int, b: int)
    ensures AddDays(AddDays(d, a), b) == AddDays(d, a + b)
    decreases if b < 0 then -b else b
  {
    if b > 0 {
      AddDaysAdd(d, a, b - 1);
      if a + b <= 0 {
        NextPrev(AddDays(d, a + b));
      }
    } else if b < 0 {
      AddDaysAdd(d, a, b + 1);
      if a + b >= 0 {
        NextPrev(AddDays(d, a + b));
      }
    }
  }

  /** Days from 0000-01-01 to the first of January of `year`. */
  function DaysBeforeYear(year: int): int {
    365 * year + (year + 3) / 4 - (year + 99) / 100 + (year + 399) / 400
  }

  /** Days from the first of January of `year` to the first of `month`. */
  function DaysBeforeMonth(year: int, month: int): int
    requires 0 <= month < 12
  {
    if month == 0 then 0 else DaysBeforeMonth(year, month - 1) + DaysInMonth(year, month - 1)
  }

  /** DaysBeforeYear(1970): 1970-01-01 is day 0, as in the `Date` epoch. */
  const UnixEpochDay: int := 719528

  /** Days since 1970-01-01 (negative before it). */
  function DayNumber(d: Date): int {
    DaysBeforeYear(d.year) + DaysBeforeMonth(d.year, d.month) + d.day - 1 - UnixEpochDay
  }

  lemma UnixEpochIsDayZero()
    ensures DaysBeforeYear(1970) == UnixEpochDay
  {
  }

  /** `(a + k) / k` exceeds `(a + k - 1) / k` exactly when `k` divides `a`, for the
      three divisors of the Gregorian rule. */
  lemma FourStep(a: int)
    ensures (a + 4) / 4 - (a + 3) / 4 == if a % 4 == 0 then 1 else 0
  {
  }

  lemma HundredStep(a: int)
    ensures (a + 100) / 100 - (a + 99) / 100 == if a % 100 == 0 then 1 else 0
  {
  }

  lemma FourHundredStep(a: int)
    ensures (a + 400) / 400 - (a + 399) / 400 == if a % 400 == 0 then 1 else 0
  {
  }

  /** Multiples of 400 are multiples of 100, and those are multiples of 4. */
  lemma DivisorChain(year: int)
    ensures year % 400 == 0 ==> year % 100 == 0
    ensures year % 100 == 0 ==> year % 4 == 0
  {
    if year % 400 == 0 {
      var q := year / 400;
      assert year == 100 * (4 * q) + 0;
      assert year / 100 == 4 * q;
    }
    if year % 100 == 0 {
      var q := year / 100;
      assert year == 4 * (25 * q) + 0;
      assert year / 4 == 25 * q;
    }
  }

  lemma YearLength(year: int)
    ensures DaysBeforeYear(year + 1) - DaysBeforeYear(year) == if IsLeapYear(year) then 366 else 365
  {
    var d4, d100, d400 := (year + 4) / 4 - (year + 3) / 4, (year + 100) / 100 - (year + 99) / 100, (year + 400) / 400 - (year + 399) / 400;
    assert DaysBeforeYear(year + 1) - DaysBeforeYear(year) == 365 + d4 - d100 + d400;
    FourStep(year);
    HundredStep(year);
    FourHundredStep(year);
    DivisorChain(year);
  }

  lemma DaysBeforeDecember(year: int)
    ensures DaysBeforeMonth(year, 11) + 31 == if IsLeapYear(year) then 366 else 365
  {
    var feb := DaysInMonth(year, 1);
    assert DaysBeforeMonth(year, 1) == 31;
    assert DaysBeforeMonth(year, 2) == 31 + feb;
    assert DaysBeforeMonth(year, 3) == 62 + feb;
    assert DaysBeforeMonth(year, 4) == 92 + feb;
    assert DaysBeforeMonth(year, 5) == 123 + feb;
    assert DaysBeforeMonth(year, 6) == 153 + feb;
    assert DaysBeforeMonth(year, 7) == 184 + feb;
    assert DaysBeforeMonth(year, 8) == 215 + feb;
    assert DaysBeforeMonth(year, 9) == 245 + feb;
    assert DaysBeforeMonth(year, 10) == 276 + feb;
  }

  lemma DayNumberNext(d: Date)
    ensures DayNumber(NextDay(d)) == DayNumber(d) + 1
  {
    if d.day < DaysInMonth(d.year, d.month) {
    } else if d.month < 11 {
      assert DaysBeforeMonth(d.year, d.month + 1) == DaysBeforeMonth(d.year, d.month) + d.day;
    } else {
      YearLength(d.year);
      DaysBeforeDecember(d.year);
    }
  }

  /** The day number advances exactly with the day arithmetic. */
  lemma {:induction false} DayNumberAddDays(d: Date, n: int)
    ensures DayNumber(AddDays(d, n)) == DayNumber(d) + n
    decreases if n < 0 then -n else n
  {
    if n > 0 {
      DayNumberAddDays(d, n - 1);
      DayNumberNext(AddDays(d, n - 1));
    } else if n < 0 {
      DayNumberAddDays(d, n + 1);
      NextPrev(AddDays(d, n + 1));
      DayNumberNext(PrevDay(AddDays(d, n + 1)));
    }
  }

  /** Day of the week as `Date.prototype.getDay` reports it: 0 is Sunday, 1 Monday.
      1970-01-01 was a Thursday. */
  function Weekday(d: Date): int {
    (DayNumber(d) + 4) % 7
  }

  /** `getDay` is 0..6 and 1 January 1970 was a Thursday. */
  lemma WeekdayRange(d: Date)
    ensures 0 <= Weekday(d) < 7
    ensures d == CivilDate(1970, 0, 1) ==> Weekday(d) == 4
  {
    UnixEpochIsDayZero();
  }

  lemma ModSevenAdd(a: int, b: int)
    ensures (a % 7 + b) % 7 == (a + b) % 7
  {
    var q := a / 7;
    assert a == 7 * q + a % 7;
    assert a + b == 7 * q + (a % 7 + b);
  }

  /** The weekday advances with the day arithmetic, modulo 7. */
  lemma WeekdayAddDays(d: Date, n: int)
    ensures Weekday(AddDays(d, n)) == (Weekday(d) + n) % 7
  {
    DayNumberAddDays(d, n);
    ModSevenAdd(DayNumber(d) + 4, n);
  }

  /** The first day of a month. */
  function FirstOfMonth(year: int, month: int): Date
    requires 0 <= month < 12
  {
    CivilDate(year, month, 1)
  }

  /** Counting days from the first of a month stays inside the month. */
  lemma {:induction false} DaysIntoMonth(year: int, month: int, k: int)
    requires 0 <= month < 12 && 0 <= k < DaysInMonth(year, month)
    ensures AddDays(FirstOfMonth(year, month), k) == CivilDate(year, month, k + 1)
  {
    if k > 0 {
      DaysIntoMonth(year, month, k - 1);
    }
  }

  /** A whole month after the first of a month is the first of the next month. */
  lemma MonthAfter(year: int, month: int)
    requires 0 <= month < 12
    ensures AddDays(FirstOfMonth(year, month), DaysInMonth(year, month))
         == if month < 11 then FirstOfMonth(year, month + 1) else FirstOfMonth(year + 1, 0)
  {
    DaysIntoMonth(year, month, DaysInMonth(year, month) - 1);
  }

  /** The first days of the following month, counted from the first of a month. */
  lemma {:induction false} DaysPastMonth(year: int, month: int, n: int)
    requires 0 <= month < 12 && 0 <= n < 28
    ensures AddDays(FirstOfMonth(year, month), DaysInMonth(year, month) + n)
         == if month < 11 then CivilDate(year, month + 1, n + 1) else CivilDate(year + 1, 0, n + 1)
  {
    MonthAfter(year, month);
    AddDaysAdd(FirstOfMonth(year, month), DaysInMonth(year, month), n);
    if month < 11 {
      DaysIntoMonth(year, month + 1, n);
    } else {
      DaysIntoMonth(year + 1, 0, n);
    }
  }

  /** The last days of the preceding month, counted back from the first of a month. */
  lemma {:induction false} DaysBeforeFirst(year: int, month: int, n: int)
    requires 0 <= month < 12 && 1 <= n <= 28
    ensures var py, pm := if month > 0 then year else year - 1, if month > 0 then month - 1 else 11;
      AddDays(FirstOfMonth(year, month), -n) == CivilDate(py, pm, DaysInMonth(py, pm) - n + 1)
  {
    var py, pm := if month > 0 then year else year - 1, if month > 0 then month - 1 else 11;
    MonthAfter(py, pm);
    AddDaysAdd(FirstOfMonth(py, pm), DaysInMonth(py, pm), -n);
    DaysIntoMonth(py, pm, DaysInMonth(py, pm) - n);
  }

  /** `new Date(year, month + 1, 0)` is the last day of the (normalised) month. */
  lemma LastDayOfMonth(year: int, month: int)
    ensures MakeDate(year, month + 1, 0)
         == CivilDate(year + month / 12, month % 12, DaysInMonth(year + month / 12, month % 12))
  {
    var y, m := year + month / 12, month % 12;
    NormalizeNextMonth(month);
    var next := FirstOfMonth(year + (month + 1) / 12, (month + 1) % 12);
    assert AddDays(next, -1) == PrevDay(AddDays(next, 0));
  }

  /** Every valid day lies `day - 1` days after the first of its month. */
  lemma FromFirstOfMonth(d: Date)
    ensures AddDays(FirstOfMonth(d.year, d.month), d.day - 1) == d
  {
    DaysIntoMonth(d.year, d.month, d.day - 1);
  }

  /** `new Date(year, month, day)`: the month overflows into the year (by floor
      division), the day overflows into the month in either direction. */
  function MakeDate(year: int, month: int, day: int): Date {
    AddDays(FirstOfMonth(year + month / 12, month % 12), day - 1)
  }

  /** `d.setDate(day)`: same year and month, the day overflowing either way. */
  function SetDate(d: Date, day: int): Date {
    MakeDate(d.year, d.month, day)
  }

  /** `d.setMonth(month)`: same year and day of the month; the month overflows into
      the year and the day overflows into the following month. */
  function SetMonth(d: Date, month: int): (r: Date)
    ensures var y, m := d.year + month / 12, month % 12;
      && (d.day <= DaysInMonth(y, m) ==> r == CivilDate(y, m, d.day))
      && (d.day > DaysInMonth(y, m) ==>
            MonthIndex(r.year, r.month) == MonthIndex(y, m) + 1 && r.day == d.day - DaysInMonth(y, m))
  {
    var y, m := d.year + month / 12, month % 12;
    var r := MakeDate(d.year, month, d.day);
    assert d.day <= DaysInMonth(y, m) ==> r == CivilDate(y, m, d.day) by {
      if d.day <= DaysInMonth(y, m) {
        MakeDateInMonth(d.year, month, d.day);
      }
    }
    assert d.day > DaysInMonth(y, m) ==>
      MonthIndex(r.year, r.month) == MonthIndex(y, m) + 1 && r.day == d.day - DaysInMonth(y, m) by {
      if d.day > DaysInMonth(y, m) {
        assert d.day <= DaysInMonth(d.year, d.month) <= 31;
        DaysPastMonth(y, m, d.day - 1 - DaysInMonth(y, m));
      }
    }
    r
  }

  /** `new Date(year, month, day)` is the day `day - 1` days after the first of the
      normalised month, whatever the day: 0 and negative days fall in earlier
      months, days past the month's end in later ones. */
  lemma MakeDateDayNumber(year: int, month: int, day: int)
    ensures DayNumber(MakeDate(year, month, day)) == DayNumber(FirstOfMonth(year + month / 12, month % 12)) + day - 1
  {
    DayNumberAddDays(FirstOfMonth(year + month / 12, month % 12), day - 1);
  }

  /** Within its month a day is taken as it stands. */
  lemma MakeDateInMonth(year: int, month: int, day: int)
    requires 1 <= day <= DaysInMonth(year + month / 12, month % 12)
    ensures MakeDate(year, month, day) == CivilDate(year + month / 12, month % 12, day)
  {
    DaysIntoMonth(year + month / 12, month % 12, day - 1);
  }

  /** `d.setDate(d.getDate() + k)` moves `d` by `k` days. */
  lemma SetDateShift(d: Date, k: int)
    ensures SetDate(d, d.day + k) == AddDays(d, k)
  {
    assert d.month / 12 == 0 && d.month % 12 == d.month;
    FromFirstOfMonth(d);
    AddDaysAdd(FirstOfMonth(d.year, d.month), d.day - 1, k);
  }

  /** Month `month` of `year` as one running count of months. */
  function MonthIndex(year: int, month: int): int {
    year * 12 + month
  }

  lemma NormalizeMonth(year: int, month: int)
    ensures 0 <= month % 12 < 12
    ensures MonthIndex(year + month / 12, month % 12) == MonthIndex(year, month)
  {
  }

  /** The month after a normalised month. */
  lemma NormalizeNextMonth(month: int)
    ensures month % 12 < 11 ==> (month + 1) / 12 == month / 12 && (month + 1) % 12 == month % 12 + 1
    ensures month % 12 == 11 ==> (month + 1) / 12 == month / 12 + 1 && (month + 1) % 12 == 0
  {
  }
}
