/** The date helpers of src/utils/calendar.ts: day comparison, month lengths, the
    weekday of the first of a month, the 42-day month grid and the category colours. */
module CalendarUtils {
  import opened CivilDates
  import opened CalendarTypes

  /** `isSameDay(date1, date2)`: same year, month and day of the month. */
  function IsSameDay(date1: Date, date2: Date): (r: bool)
    ensures r <==> date1 == date2
  {
    date1.year == date2.year && date1.month == date2.month && date1.day == date2.day
  }

  /** `getDaysInMonth(year, month)`: the day of the month of `new Date(year, month + 1, 0)`,
      the last day of the (normalised) month. */
  function GetDaysInMonth(year: int, month: int): (n: int)
    ensures n == DaysInMonth(year + month / 12, month % 12)
    ensures 28 <= n <= 31
    ensures month % 12 == 1 ==> (n == 29 <==> IsLeapYear(year + month / 12))
  {
    LastDayOfMonth(year, month);
    MakeDate(year, month + 1, 0).day
  }

  /** `getFirstDayOfMonth(year, month)`: the weekday (0 = Sunday) of `new Date(year, month, 1)`. */
  function GetFirstDayOfMonth(year: int, month: int): (w: int)
    ensures 0 <= w < 7
    ensures w == Weekday(CivilDate(year + month / 12, month % 12, 1))
  {
    MakeDateInMonth(year, month, 1);
    Weekday(MakeDate(year, month, 1))
  }

  /** The first of the next month falls as many weekdays later as the month has days. */
  lemma FirstDayOfNextMonth(year: int, month: int)
    ensures GetFirstDayOfMonth(year, month + 1) == (GetFirstDayOfMonth(year, month) + GetDaysInMonth(year, month)) % 7
  {
    var y, m := year + month / 12, month % 12;
    var first := FirstOfMonth(y, m);
    var dim := DaysInMonth(y, m);
    assert GetFirstDayOfMonth(year, month) == Weekday(first);
    assert GetDaysInMonth(year, month) == dim;
    var next := CivilDate(year + (month + 1) / 12, (month + 1) % 12, 1);
    assert GetFirstDayOfMonth(year, month + 1) == Weekday(next);
    NormalizeNextMonth(month);
    MonthAfter(y, m);
    if m < 11 {
      assert next == FirstOfMonth(y, m + 1);
    } else {
      assert next == FirstOfMonth(y + 1, 0);
    }
    assert next == AddDays(first, dim);
    WeekdayAddDays(first, dim);
  }

  /** `(firstDay.getDay() + 6) % 7`: the number of days from the Monday on or before
      the first of the month to the first. */
  function GridOffset(year: int, month: int): (k: int)
    ensures 0 <= k < 7
  {
    (GetFirstDayOfMonth(year, month) + 6) % 7
  }

  /** The day shown in cell `i` of the grid: `i - GridOffset` days from the first of
      the (normalised) month. */
  function GridDate(year: int, month: int, i: int): Date {
    AddDays(FirstOfMonth(year + month / 12, month % 12), i - GridOffset(year, month))
  }

  /** One grid cell as `getMonthDays` builds it. */
  function Cell(date: Date, month: int, today: Date): CalendarDay {
    CalendarDay(date, [], date.month == month, IsSameDay(date, today), false)
  }

  /** Consecutive cells hold consecutive days. */
  lemma GridConsecutive(year: int, month: int, i: int)
    ensures GridDate(year, month, i + 1) == NextDay(GridDate(year, month, i))
  {
    AddDaysSucc(FirstOfMonth(year + month / 12, month % 12), i - GridOffset(year, month));
  }

  /** Cell `GridOffset` holds the first of the month. */
  lemma GridHoldsFirst(year: int, month: int)
    ensures GridDate(year, month, GridOffset(year, month)) == CivilDate(year + month / 12, month % 12, 1)
  {
  }

  /** The weekday arithmetic of the grid: `w + i - (w + 6) % 7` is `i + 1` modulo 7. */
  lemma OffsetArithmetic(w: int, i: int)
    requires 0 <= w < 7
    ensures (w + (i - (w + 6) % 7)) % 7 == (i + 1) % 7
  {
    if w == 0 {
      assert w + (i - (w + 6) % 7) == (i + 1) - 7;
    } else {
      assert w + (i - (w + 6) % 7) == i + 1;
    }
  }

  /** Cell `i` falls on weekday `(i + 1) % 7`: the grid starts on a Monday and every
      row of seven runs Monday to Sunday. */
  lemma GridWeekday(year: int, month: int, i: int)
    ensures Weekday(GridDate(year, month, i)) == (i + 1) % 7
  {
    var first := FirstOfMonth(year + month / 12, month % 12);
    var w, o := GetFirstDayOfMonth(year, month), GridOffset(year, month);
    assert Weekday(first) == w;
    assert o == (w + 6) % 7;
    WeekdayAddDays(first, i - o);
    assert GridDate(year, month, i) == AddDays(first, i - o);
    OffsetArithmetic(w, i);
  }

  /** Different cells hold different days. */
  lemma GridDistinct(year: int, month: int, i: int, j: int)
    requires i != j
    ensures GridDate(year, month, i) != GridDate(year, month, j)
  {
    var first := FirstOfMonth(year + month / 12, month % 12);
    DayNumberAddDays(first, i - GridOffset(year, month));
    DayNumberAddDays(first, j - GridOffset(year, month));
  }

  /** A cell belongs to month `month` exactly when `month` is a real month (0..11) and
      the cell is one of the `getDaysInMonth` cells starting at `GridOffset`; these
      always fit in the 42 cells. */
  lemma {:induction false} GridCurrentMonth(year: int, month: int, i: int)
    requires 0 <= i < 42
    ensures GridOffset(year, month) + GetDaysInMonth(year, month) <= 42
    ensures GridDate(year, month, i).month == month
        <==> 0 <= month < 12 && GridOffset(year, month) <= i < GridOffset(year, month) + GetDaysInMonth(year, month)
  {
    var o, n := GridOffset(year, month), GetDaysInMonth(year, month);
    assert 0 <= month < 12 <==> month % 12 == month;
    if i < o {
      GridBeforeMonth(year, month, i);
    } else if i < o + n {
      GridInMonth(year, month, i);
    } else {
      GridAfterMonth(year, month, i);
    }
  }

  /** The cells before `GridOffset` hold days of the month before. */
  lemma GridBeforeMonth(year: int, month: int, i: int)
    requires 0 <= i < GridOffset(year, month)
    ensures GridDate(year, month, i).month != month % 12
  {
    var y, m := year + month / 12, month % 12;
    var o := GridOffset(year, month);
    assert GridDate(year, month, i) == AddDays(FirstOfMonth(y, m), -(o - i));
    DaysBeforeFirst(y, m, o - i);
  }

  /** The `getDaysInMonth` cells from `GridOffset` hold the days of the month in order. */
  lemma GridInMonth(year: int, month: int, i: int)
    requires GridOffset(year, month) <= i < GridOffset(year, month) + GetDaysInMonth(year, month)
    ensures GridDate(year, month, i) == CivilDate(year + month / 12, month % 12, i - GridOffset(year, month) + 1)
  {
    var y, m := year + month / 12, month % 12;
    var o := GridOffset(year, month);
    assert GetDaysInMonth(year, month) == DaysInMonth(y, m);
    assert GridDate(year, month, i) == AddDays(FirstOfMonth(y, m), i - o);
    DaysIntoMonth(y, m, i - o);
  }

  /** The cells after the month's block hold days of the month after. */
  lemma GridAfterMonth(year: int, month: int, i: int)
    requires GridOffset(year, month) + GetDaysInMonth(year, month) <= i < 42
    ensures GridDate(year, month, i).month != month % 12
  {
    var y, m := year + month / 12, month % 12;
    var o, n := GridOffset(year, month), DaysInMonth(y, m);
    assert GetDaysInMonth(year, month) == n;
    var k := i - o - n;
    assert 0 <= k < 28 && i - o == n + k;
    DaysPastMonth(y, m, k);
    assert GridDate(year, month, i) == AddDays(FirstOfMonth(y, m), n + k);
  }

  /** `setDate(startDate.getDate() + i)` on grid cell 0 gives cell `i`. */
  lemma GridFromStartDate(year: int, month: int, i: int)
    ensures var startDate := GridDate(year, month, 0);
      SetDate(startDate, startDate.day + i) == GridDate(year, month, i)
  {
    var first := FirstOfMonth(year + month / 12, month % 12);
    var o := GridOffset(year, month);
    var startDate := GridDate(year, month, 0);
    assert startDate == AddDays(first, -o);
    SetDateShift(startDate, i);
    AddDaysAdd(first, -o, i);
    assert GridDate(year, month, i) == AddDays(first, -o + i);
  }

  /** Consecutive cells of a built grid hold consecutive days. */
  lemma GridCellsConsecutive(year: int, month: int, today: Date, days: seq<CalendarDay>)
    requires |days| == 42
    requires forall i :: 0 <= i < 42 ==> days[i] == Cell(GridDate(year, month, i), month, today)
    ensures forall i :: 0 < i < 42 ==> days[i].date == NextDay(days[i - 1].date)
  {
    forall i | 0 < i < 42
      ensures days[i].date == NextDay(days[i - 1].date)
    {
      assert days[i].date == GridDate(year, month, i);
      assert days[i - 1].date == GridDate(year, month, i - 1);
      GridConsecutive(year, month, i - 1);
    }
  }

  /** At most one cell of a built grid is flagged as today. */
  lemma GridCellsTodayOnce(year: int, month: int, today: Date, days: seq<CalendarDay>)
    requires |days| == 42
    requires forall i :: 0 <= i < 42 ==> days[i] == Cell(GridDate(year, month, i), month, today)
    ensures forall i, j :: 0 <= i < j < 42 && days[i].isToday ==> !days[j].isToday
  {
    forall i, j | 0 <= i < j < 42 && days[i].isToday
      ensures !days[j].isToday
    {
      assert days[i].date == GridDate(year, month, i) == today;
      assert days[j].date == GridDate(year, month, j);
      GridDistinct(year, month, i, j);
    }
  }

  /** The cells of a built grid flagged as in the month are exactly the month's block. */
  lemma GridCellsMonthBlock(year: int, month: int, today: Date, days: seq<CalendarDay>)
    requires |days| == 42
    requires forall i :: 0 <= i < 42 ==> days[i] == Cell(GridDate(year, month, i), month, today)
    ensures forall i :: 0 <= i < 42 ==>
      (days[i].isCurrentMonth <==> 0 <= month < 12 && GridOffset(year, month) <= i < GridOffset(year, month) + GetDaysInMonth(year, month))
  {
    forall i | 0 <= i < 42
      ensures days[i].isCurrentMonth <==> 0 <= month < 12 && GridOffset(year, month) <= i < GridOffset(year, month) + GetDaysInMonth(year, month)
    {
      assert days[i].isCurrentMonth == (GridDate(year, month, i).month == month);
      GridCurrentMonth(year, month, i);
    }
  }

  /** A built grid starts on a Monday and holds the first of the month at `GridOffset`. */
  lemma GridCellsAnchor(year: int, month: int, today: Date, days: seq<CalendarDay>)
    requires |days| == 42
    requires forall i :: 0 <= i < 42 ==> days[i] == Cell(GridDate(year, month, i), month, today)
    ensures Weekday(days[0].date) == 1
    ensures days[GridOffset(year, month)].date == CivilDate(year + month / 12, month % 12, 1)
  {
    var o := GridOffset(year, month);
    GridWeekday(year, month, 0);
    var start := GridDate(year, month, 0);
    assert Weekday(start) == 1;
    assert days[0] == Cell(start, month, today);
    assert days[o].date == GridDate(year, month, o);
    GridHoldsFirst(year, month);
  }

  /** The first cell of the grid as `getMonthDays` finds it: the first of the month,
      moved back with `setDate` to the Monday on or before it. */
  method GridStart(year: int, month: int) returns (startDate: Date)
    ensures startDate == GridDate(year, month, 0)
  {
    var firstDay := MakeDate(year, month, 1);
    var dayOfWeek := (Weekday(firstDay) + 6) % 7;
    startDate := SetDate(firstDay, firstDay.day - dayOfWeek);
    MakeDateInMonth(year, month, 1);
    assert dayOfWeek == GridOffset(year, month);
    SetDateShift(firstDay, -dayOfWeek);
  }

  /** `getMonthDays(year, month)`, with the current day passed in as `today`: 42
      consecutive days starting on the Monday on or before the first of the month. */
  method GetMonthDays(year: int, month: int, today: Date) returns (days: seq<CalendarDay>)
    ensures |days| == 42
    ensures forall i :: 0 <= i < 42 ==> days[i] == Cell(GridDate(year, month, i), month, today)
    ensures forall i :: 0 < i < 42 ==> days[i].date == NextDay(days[i - 1].date)
    ensures Weekday(days[0].date) == 1
    ensures days[GridOffset(year, month)].date == CivilDate(year + month / 12, month % 12, 1)
    ensures forall i, j :: 0 <= i < j < 42 && days[i].isToday ==> !days[j].isToday
    ensures forall i :: 0 <= i < 42 ==>
      (days[i].isCurrentMonth <==> 0 <= month < 12 && GridOffset(year, month) <= i < GridOffset(year, month) + GetDaysInMonth(year, month))
  {
    days := [];
    var startDate := GridStart(year, month);
    for i := 0 to 42
      invariant |days| == i
      invariant forall j :: 0 <= j < i ==> days[j] == Cell(GridDate(year, month, j), month, today)
    {
      var currentDate := SetDate(startDate, startDate.day + i);
      GridFromStartDate(year, month, i);
      assert currentDate == GridDate(year, month, i);
      var isCurrentMonth := currentDate.month == month;
      var isToday := IsSameDay(currentDate, today);
      days := days + [CalendarDay(currentDate, [], isCurrentMonth, isToday, false)];
    }
    GridCellsConsecutive(year, month, today, days);
    GridCellsTodayOnce(year, month, today, days);
    GridCellsMonthBlock(year, month, today, days);
    GridCellsAnchor(year, month, today, days);
  }

  /** A lower-case hexadecimal digit. */
  predicate IsHexDigit(c: char) {
    '0' <= c <= '9' || 'a' <= c <= 'f'
  }

  /** `getEventColor(category)`: a CSS colour `#rrggbb`. */
  function GetEventColor(category: Category): (color: string)
    ensures |color| == 7 && color[0] == '#'
    ensures forall i :: 1 <= i < 7 ==> IsHexDigit(color[i])
  {
    match category
    case Work => "#3b82f6"
    case Personal => "#10b981"
    case Reminder => "#8b5cf6"
    case Holiday => "#f59e0b"
  }

  /** Distinct categories get distinct colours. */
  lemma EventColorInjective(c1: Category, c2: Category)
    requires c1 != c2
    ensures GetEventColor(c1) != GetEventColor(c2)
  {
  }
}
