/** The calendar component of src/components/CalendarCanvas.tsx without its drawing:
    the event store and its handlers, the views derived from it (the selected day's
    events, the upcoming reminders, what one grid cell shows), pointer hit-testing
    and month navigation. */
module CalendarCanvas {
  import opened Wrappers
  import opened Text
  import opened CivilDates
  import opened CalendarTypes
  import opened CalendarUtils
  import opened TimeStrings

  // ---------------------------------------------------------------------------
  // The event list and its two updates

  /** `events.filter(p)`: the events that pass `p`, in order. */
  function Filter(events: seq<CalendarEvent>, p: CalendarEvent -> bool): (r: seq<CalendarEvent>)
    ensures |r| <= |events|
    ensures forall e :: e in r <==> e in events && p(e)
  {
    if events == [] then []
    else
      assert events == [events[0]] + events[1..];
      (if p(events[0]) then [events[0]] else []) + Filter(events[1..], p)
  }

  /** Filtering never repeats an event: each one is kept at most as often as it
      is stored. */
  lemma {:induction false} FilterSubMultiset(events: seq<CalendarEvent>, p: CalendarEvent -> bool)
    ensures multiset(Filter(events, p)) <= multiset(events)
  {
    if events != [] {
      FilterSubMultiset(events[1..], p);
      assert events == [events[0]] + events[1..];
    }
  }

  /** Filtering a concatenation filters each part, keeping their order. */
  lemma {:induction false} FilterAppend(xs: seq<CalendarEvent>, ys: seq<CalendarEvent>, p: CalendarEvent -> bool)
    ensures Filter(xs + ys, p) == Filter(xs, p) + Filter(ys, p)
  {
    if xs != [] {
      assert (xs + ys)[0] == xs[0];
      assert (xs + ys)[1..] == xs[1..] + ys;
      FilterAppend(xs[1..], ys, p);
    } else {
      assert xs + ys == ys;
    }
  }

  /** Filtering with a test every event passes changes nothing. */
  lemma {:induction false} FilterKeepsAll(events: seq<CalendarEvent>, p: CalendarEvent -> bool)
    requires forall i :: 0 <= i < |events| ==> p(events[i])
    ensures Filter(events, p) == events
  {
    if events != [] {
      FilterKeepsAll(events[1..], p);
    }
  }

  /** No two events share an id. */
  ghost predicate UniqueIds(events: seq<CalendarEvent>) {
    forall i, j :: 0 <= i < j < |events| ==> events[i].id != events[j].id
  }

  /** `events.findIndex(e => e.id === id)`: the first position holding `id`, or -1. */
  function FindIndex(events: seq<CalendarEvent>, id: string): (k: int)
    ensures -1 <= k < |events|
    ensures k == -1 <==> forall j :: 0 <= j < |events| ==> events[j].id != id
    ensures k >= 0 ==> events[k].id == id && forall j :: 0 <= j < k ==> events[j].id != id
  {
    if events == [] then -1
    else if events[0].id == id then 0
    else
      var k := FindIndex(events[1..], id);
      if k < 0 then -1 else k + 1
  }

  /** The update `handleSaveEvent` applies: replace the first event with the same id
      in place, or append the event when its id is new. */
  function SaveEvent(events: seq<CalendarEvent>, event: CalendarEvent): (r: seq<CalendarEvent>)
    ensures forall k :: 0 <= k < |events| && events[k].id == event.id
                        && (forall j :: 0 <= j < k ==> events[j].id != event.id)
                        ==> |r| == |events| && r[k] == event
                            && forall j :: 0 <= j < |events| && j != k ==> r[j] == events[j]
    ensures (forall j :: 0 <= j < |events| ==> events[j].id != event.id) ==> r == events + [event]
  {
    var existingIndex := FindIndex(events, event.id);
    if existingIndex >= 0 then events[existingIndex := event] else events + [event]
  }

  /** Saving keeps ids unique, and the saved event is then in the store. */
  lemma SaveKeepsIdsUnique(events: seq<CalendarEvent>, event: CalendarEvent)
    requires UniqueIds(events)
    ensures UniqueIds(SaveEvent(events, event))
    ensures event in SaveEvent(events, event)
    ensures |SaveEvent(events, event)| == |events| + (if FindIndex(events, event.id) < 0 then 1 else 0)
  {
    var k := FindIndex(events, event.id);
    var r := SaveEvent(events, event);
    if k >= 0 {
      assert r[k] == event;
      forall i, j | 0 <= i < j < |r|
        ensures r[i].id != r[j].id
      {
        assert r[i].id == events[i].id && r[j].id == events[j].id;
      }
    } else {
      assert r[|events|] == event;
    }
  }

  /** The update `handleDeleteEvent` applies: keep the events whose id differs. It
      removes every event with the id and keeps every other event; an unknown id
      leaves the list unchanged. */
  function DeleteEvent(events: seq<CalendarEvent>, eventId: string): (r: seq<CalendarEvent>)
    ensures forall e :: e in r <==> e in events && e.id != eventId
    ensures (forall j :: 0 <= j < |events| ==> events[j].id != eventId) ==> r == events
  {
    var keep := (e: CalendarEvent) => e.id != eventId;
    assert (forall j :: 0 <= j < |events| ==> events[j].id != eventId) ==> Filter(events, keep) == events by {
      if forall j :: 0 <= j < |events| ==> events[j].id != eventId {
        FilterKeepsAll(events, keep);
      }
    }
    Filter(events, keep)
  }

  /** Filtering keeps ids unique. */
  lemma {:induction false} FilterKeepsIdsUnique(events: seq<CalendarEvent>, p: CalendarEvent -> bool)
    requires UniqueIds(events)
    ensures UniqueIds(Filter(events, p))
  {
    if events != [] {
      var rest := Filter(events[1..], p);
      FilterKeepsIdsUnique(events[1..], p);
      forall e | e in rest
        ensures e.id != events[0].id
      {
        var j :| 0 <= j < |events[1..]| && events[1..][j] == e;
        assert events[j + 1] == e;
      }
      if p(events[0]) {
        var r := [events[0]] + rest;
        forall i, j | 0 <= i < j < |r|
          ensures r[i].id != r[j].id
        {
          if i == 0 {
            assert r[j] == rest[j - 1] && r[j] in rest;
          } else {
            assert r[i] == rest[i - 1] && r[j] == rest[j - 1];
          }
        }
      }
    }
  }

  // ---------------------------------------------------------------------------
  // Views derived from the store

  /** The events that fall on `date`, in store order (the list `drawCanvas` draws in
      a cell). */
  function EventsOnDay(events: seq<CalendarEvent>, date: Date): (r: seq<CalendarEvent>)
    ensures forall e :: e in r <==> e in events && e.date == date
  {
    Filter(events, (e: CalendarEvent) => IsSameDay(e.date, date))
  }

  /** `selectedDayEvents`: the selected day's events, none when no day is selected. */
  function SelectedDayEvents(events: seq<CalendarEvent>, selectedDate: Option<Date>): (r: seq<CalendarEvent>)
    ensures selectedDate.None? ==> r == []
    ensures selectedDate.Some? ==> forall e :: e in r <==> e in events && e.date == selectedDate.value
  {
    if selectedDate.Some? then EventsOnDay(events, selectedDate.value) else []
  }

  /** A saved event shows up among the events of its day. */
  lemma SavedEventIsListedOnItsDay(events: seq<CalendarEvent>, event: CalendarEvent)
    ensures event in SelectedDayEvents(SaveEvent(events, event), Some(event.date))
  {
    var k := FindIndex(events, event.id);
    if k >= 0 {
      assert SaveEvent(events, event)[k] == event;
    } else {
      assert SaveEvent(events, event)[|events|] == event;
    }
  }

  const MillisecondsPerMinute: int := 60000
  const MillisecondsPerDay: int := 1440 * MillisecondsPerMinute

  /** Midnight at the start of `d`, in milliseconds since 1970-01-01. */
  function StartOfDay(d: Date): int {
    DayNumber(d) * MillisecondsPerDay
  }

  /** The event's date at its start hour and minute (`setHours(hours, minutes)`), in
      milliseconds since 1970-01-01 of the local calendar; None when the start time
      does not read as numbers (an invalid `Date`). */
  function StartInstant(e: CalendarEvent): (r: Option<int>)
    ensures IsValidTimeFormat(e.startTime) ==>
      && MinutesOf(e.startTime).Some? && r.Some?
      && r.value == StartOfDay(e.date) + MinutesOf(e.startTime).value * MillisecondsPerMinute
      && StartOfDay(e.date) <= r.value < StartOfDay(e.date) + MillisecondsPerDay
  {
    MinutesOfValid(e.startTime);
    match HoursMinutes(e.startTime)
    case None => None
    case Some(hm) => Some((DayNumber(e.date) * 1440 + hm.0 * 60 + hm.1) * MillisecondsPerMinute)
  }

  /** The condition `getUpcomingReminders` filters on. */
  predicate IsUpcomingReminder(e: CalendarEvent, now: int) {
    StartInstant(e).Some? && StartInstant(e).value > now && e.isReminder
  }

  /** The sort key; every event that reaches the sort has a start instant. */
  function StartKey(e: CalendarEvent): int {
    match StartInstant(e)
    case Some(t) => t
    case None => 0
  }

  /** The order the reminders are sorted in: by day, and within a day by start
      time, for events whose start times are accepted by the form. */
  lemma StartKeyOrder(a: CalendarEvent, b: CalendarEvent)
    requires IsValidTimeFormat(a.startTime) && IsValidTimeFormat(b.startTime)
    ensures MinutesOf(a.startTime).Some? && MinutesOf(b.startTime).Some?
    ensures StartKey(a) < StartKey(b) <==>
      || DayNumber(a.date) < DayNumber(b.date)
      || (DayNumber(a.date) == DayNumber(b.date) && MinutesOf(a.startTime).value < MinutesOf(b.startTime).value)
  {
    MinutesOfValid(a.startTime);
    MinutesOfValid(b.startTime);
    var ka, kb := StartInstant(a), StartInstant(b);
    assert StartKey(a) == ka.value && StartKey(b) == kb.value;
    DayMinuteOrder(DayNumber(a.date), MinutesOf(a.startTime).value, DayNumber(b.date), MinutesOf(b.startTime).value);
  }

  /** Instants compare by day, then by minute within the day. */
  lemma DayMinuteOrder(da: int, ma: int, db: int, mb: int)
    requires 0 <= ma < 1440 && 0 <= mb < 1440
    ensures da * MillisecondsPerDay + ma * MillisecondsPerMinute < db * MillisecondsPerDay + mb * MillisecondsPerMinute
        <==> da < db || (da == db && ma < mb)
  {
    if da < db {
      assert da * MillisecondsPerDay + MillisecondsPerDay <= db * MillisecondsPerDay;
    } else if da > db {
      assert db * MillisecondsPerDay + MillisecondsPerDay <= da * MillisecondsPerDay;
    }
  }

  /** Ascending by `key`. */
  predicate SortedBy(s: seq<CalendarEvent>, key: CalendarEvent -> int) {
    forall i, j :: 0 <= i < j < |s| ==> key(s[i]) <= key(s[j])
  }

  /** An event no later than the head of a sorted list can go in front of it. */
  lemma SortedCons(x: CalendarEvent, s: seq<CalendarEvent>, key: CalendarEvent -> int)
    requires SortedBy(s, key)
    requires s == [] || key(x) <= key(s[0])
    ensures SortedBy([x] + s, key)
  {
    var r := [x] + s;
    forall i, j | 0 <= i < j < |r|
      ensures key(r[i]) <= key(r[j])
    {
      if i == 0 && j > 1 {
        assert key(s[0]) <= key(s[j - 1]);
      }
    }
  }

  /** Insert `e` before the first event whose key is not smaller. */
  function InsertBy(e: CalendarEvent, s: seq<CalendarEvent>, key: CalendarEvent -> int): (r: seq<CalendarEvent>)
    requires SortedBy(s, key)
    ensures SortedBy(r, key)
    ensures multiset(r) == multiset(s) + multiset{e}
    ensures r[0] == e || (s != [] && r[0] == s[0])
  {
    if s == [] || key(e) <= key(s[0]) then
      SortedCons(e, s, key);
      [e] + s
    else
      assert SortedBy(s[1..], key);
      var rest := InsertBy(e, s[1..], key);
      assert s == [s[0]] + s[1..];
      SortedCons(s[0], rest, key);
      [s[0]] + rest
  }

  /** `.sort((a, b) => key(a) - key(b))`, as an insertion sort that keeps equal keys
      in list order. */
  function SortBy(s: seq<CalendarEvent>, key: CalendarEvent -> int): (r: seq<CalendarEvent>)
    ensures SortedBy(r, key)
    ensures multiset(r) == multiset(s)
  {
    if s == [] then []
    else
      assert s == [s[0]] + s[1..];
      InsertBy(s[0], SortBy(s[1..], key), key)
  }

  /** Sequences with the same elements counted with multiplicity hold the same
      elements. */
  lemma SameMembers(a: seq<CalendarEvent>, b: seq<CalendarEvent>)
    requires multiset(a) == multiset(b)
    ensures forall x :: x in a <==> x in b
  {
    forall x
      ensures x in a <==> x in b
    {
      assert x in a <==> x in multiset(a);
      assert x in b <==> x in multiset(b);
    }
  }

  /** `getUpcomingReminders()` with the current instant passed in as `now`: the
      reminders starting after `now`, earliest first, at most five. */
  function UpcomingReminders(events: seq<CalendarEvent>, now: int): (r: seq<CalendarEvent>)
    ensures |r| <= 5
    ensures forall e :: e in r ==> e in events && IsUpcomingReminder(e, now)
    ensures SortedBy(r, StartKey)
    ensures multiset(r) <= multiset(events)
  {
    var p := (e: CalendarEvent) => IsUpcomingReminder(e, now);
    var sorted := SortBy(Filter(events, p), StartKey);
    var k := if |sorted| < 5 then |sorted| else 5;
    SortedFilterPrefix(events, p, StartKey, k);
    sorted[..k]
  }

  /** A prefix of the sorted filtered list holds only stored events that pass the
      test, none more often than it is stored. */
  lemma SortedFilterPrefix(events: seq<CalendarEvent>, p: CalendarEvent -> bool, key: CalendarEvent -> int, k: int)
    requires 0 <= k <= |SortBy(Filter(events, p), key)|
    ensures forall e :: e in SortBy(Filter(events, p), key)[..k] ==> e in events && p(e)
    ensures multiset(SortBy(Filter(events, p), key)[..k]) <= multiset(events)
  {
    var filtered := Filter(events, p);
    var sorted := SortBy(filtered, key);
    SameMembers(sorted, filtered);
    PrefixSubMultiset(sorted, k);
    FilterSubMultiset(events, p);
  }

  /** A prefix holds each element at most as often as the whole sequence. */
  lemma PrefixSubMultiset(s: seq<CalendarEvent>, k: int)
    requires 0 <= k <= |s|
    ensures forall e :: e in s[..k] ==> e in s
    ensures multiset(s[..k]) <= multiset(s)
  {
    assert s == s[..k] + s[k..];
  }

  /** An upcoming reminder left out of the list is left out because five reminders
      start no later than it does. */
  lemma UpcomingAreEarliest(events: seq<CalendarEvent>, now: int, e: CalendarEvent)
    requires e in events && IsUpcomingReminder(e, now)
    requires e !in UpcomingReminders(events, now)
    ensures |UpcomingReminders(events, now)| == 5
    ensures forall x :: x in UpcomingReminders(events, now) ==> StartKey(x) <= StartKey(e)
  {
    var futureEvents := Filter(events, (e: CalendarEvent) => IsUpcomingReminder(e, now));
    var sorted := SortBy(futureEvents, StartKey);
    assert UpcomingReminders(events, now) == sorted[..if |sorted| < 5 then |sorted| else 5];
    SameMembers(sorted, futureEvents);
    LeftOutOfSortedPrefix(sorted, StartKey, e);
  }

  /** An element of a sorted list that is not among its first five comes after
      five elements whose keys are no larger. */
  lemma LeftOutOfSortedPrefix(sorted: seq<CalendarEvent>, key: CalendarEvent -> int, e: CalendarEvent)
    requires SortedBy(sorted, key) && e in sorted
    requires e !in sorted[..if |sorted| < 5 then |sorted| else 5]
    ensures |sorted| > 5
    ensures forall x :: x in sorted[..5] ==> key(x) <= key(e)
  {
    var k :| 0 <= k < |sorted| && sorted[k] == e;
    assert k >= 5;
    forall x | x in sorted[..5]
      ensures key(x) <= key(e)
    {
      var i :| 0 <= i < 5 && sorted[..5][i] == x;
      assert sorted[i] == x;
    }
  }

  // ---------------------------------------------------------------------------
  // What one grid cell shows

  /** The drawn title: the first 10 characters and "..." when it is longer. */
  function TruncateTitle(title: string): (r: string)
    ensures |r| <= 13
    ensures |title| <= 10 ==> r == title
    ensures |title| > 10 ==> |r| == 13 && r[..10] == title[..10] && r[10..] == "..."
  {
    if |title| > 10 then title[..10] + "..." else title
  }

  /** One event bar: text, fill colour and whether the reminder dot is drawn. */
  datatype EventBar = EventBar(text: string, color: string, reminderDot: bool)

  function Bar(e: CalendarEvent): EventBar {
    EventBar(TruncateTitle(e.title), e.color, e.isReminder)
  }

  /** The event part of one cell in `drawCanvas`: a bar for each of the first three
      events, and a "+N more" label at the fourth when there is one. */
  method DrawCellEvents(dayEvents: seq<CalendarEvent>) returns (bars: seq<EventBar>, more: Option<string>)
    ensures |bars| == if |dayEvents| < 3 then |dayEvents| else 3
    ensures forall k :: 0 <= k < |bars| ==> bars[k] == Bar(dayEvents[k])
    ensures more.Some? <==> |dayEvents| >= 4
    ensures more.Some? ==> more.value == "+" + NatToString(|dayEvents| - 3) + " more"
  {
    bars, more := [], None;
    for eventIndex := 0 to |dayEvents|
      invariant |bars| == if eventIndex < 3 then eventIndex else 3
      invariant forall k :: 0 <= k < |bars| ==> bars[k] == Bar(dayEvents[k])
      invariant more.Some? <==> eventIndex >= 4
      invariant more.Some? ==> more.value == "+" + NatToString(|dayEvents| - 3) + " more"
    {
      if eventIndex < 3 {
        bars := bars + [Bar(dayEvents[eventIndex])];
      } else if eventIndex == 3 {
        more := Some("+" + NatToString(|dayEvents| - 3) + " more");
      }
    }
  }

  // ---------------------------------------------------------------------------
  // Pointer hit-testing

  const CanvasWidth: real := 800.0
  const CanvasHeight: real := 600.0
  const HeaderHeight: real := 80.0
  const CellWidth: real := CanvasWidth / 7.0
  const CellHeight: real := (CanvasHeight - HeaderHeight) / 6.0

  /** `row * 7 + col` for the pointer at (x, y). */
  function CellIndexAt(x: real, y: real): int {
    ((y - HeaderHeight) / CellHeight).Floor * 7 + (x / CellWidth).Floor
  }

  /** The cell a pointer at (x, y) selects: nothing above the grid, otherwise the cell
      `row * 7 + col` when that is one of the 42. */
  function HitTest(x: real, y: real): (r: Option<int>)
    ensures y < HeaderHeight ==> r == None
    ensures r.Some? ==> 0 <= r.value < 42
  {
    if y < HeaderHeight then None
    else
      var index := CellIndexAt(x, y);
      if 0 <= index < 42 then Some(index) else None
  }

  /** Where `drawCanvas` draws cell `i`: column `i % 7`, row `i / 7`. */
  function CellLeft(i: int): real {
    (i % 7) as real * CellWidth
  }

  function CellTop(i: int): real {
    HeaderHeight + (i / 7) as real * CellHeight
  }

  predicate InCell(i: int, x: real, y: real) {
    CellLeft(i) <= x < CellLeft(i) + CellWidth && CellTop(i) <= y < CellTop(i) + CellHeight
  }

  lemma FloorBetween(r: real, k: int)
    requires k as real <= r < k as real + 1.0
    ensures r.Floor == k
  {
  }

  /** A pointer inside the rectangle where cell `i` is drawn selects cell `i`. */
  lemma HitTestInvertsLayout(i: int, x: real, y: real)
    requires 0 <= i < 42 && InCell(i, x, y)
    ensures HitTest(x, y) == Some(i)
  {
    var row, col := i / 7, i % 7;
    assert x / CellWidth == x * (7.0 / 800.0);
    assert (y - HeaderHeight) / CellHeight == (y - HeaderHeight) * (6.0 / 520.0);
    assert col as real <= x / CellWidth < col as real + 1.0;
    FloorBetween(x / CellWidth, col);
    assert row as real <= (y - HeaderHeight) / CellHeight < row as real + 1.0;
    FloorBetween((y - HeaderHeight) / CellHeight, row);
  }

  /** Every pointer on the grid area selects the cell drawn under it. */
  lemma HitTestOnGrid(x: real, y: real)
    requires 0.0 <= x < CanvasWidth && HeaderHeight <= y < CanvasHeight
    ensures HitTest(x, y).Some? && InCell(HitTest(x, y).value, x, y)
  {
    var col, row := (x / CellWidth).Floor, ((y - HeaderHeight) / CellHeight).Floor;
    assert 0 <= col < 7;
    assert 0 <= row < 6;
    var i := row * 7 + col;
    assert i / 7 == row && i % 7 == col;
  }

  /** Just right of the last column, the pointer selects the first cell of the next
      row, since the column is not checked on its own. */
  lemma HitTestPastRightEdge(x: real, y: real)
    requires CanvasWidth <= x < CanvasWidth + CellWidth
    requires HeaderHeight <= y < CanvasHeight - CellHeight
    ensures HitTest(x, y) == Some(((y - HeaderHeight) / CellHeight).Floor * 7 + 7)
  {
    FloorBetween(x / CellWidth, 7);
  }

  // ---------------------------------------------------------------------------
  // Month navigation

  datatype Direction = Prev | Next

  /** `navigateMonth` as written: `setMonth(getMonth() + delta)`, which keeps the day
      of the month. When the target month has that day the display moves by
      `delta` months; otherwise the day spills over and it moves by `delta + 1`. */
  function NavigateMonthAsWritten(current: Date, delta: int): (r: Date)
    ensures var y, m := current.year + (current.month + delta) / 12, (current.month + delta) % 12;
      && (current.day <= DaysInMonth(y, m) ==>
            r == CivilDate(y, m, current.day)
            && MonthIndex(r.year, r.month) == MonthIndex(current.year, current.month) + delta)
      && (current.day > DaysInMonth(y, m) ==>
            MonthIndex(r.year, r.month) == MonthIndex(current.year, current.month) + delta + 1
            && r.day == current.day - DaysInMonth(y, m))
  {
    NormalizeMonth(current.year, current.month + delta);
    SetMonth(current, current.month + delta)
  }

  /** From 31 January, "next" shows March rather than February: 3 March in a common
      year, 2 March in a leap year. */
  lemma NavigateFromJanuary31SkipsFebruary(year: int)
    ensures NavigateMonthAsWritten(CivilDate(year, 0, 31), 1)
         == CivilDate(year, 2, if IsLeapYear(year) then 2 else 3)
  {
    var r := NavigateMonthAsWritten(CivilDate(year, 0, 31), 1);
    assert (0 + 1) / 12 == 0 && (0 + 1) % 12 == 1;
    assert DaysInMonth(year, 1) == if IsLeapYear(year) then 29 else 28;
    assert MonthIndex(r.year, r.month) == MonthIndex(year, 2);
    assert r.year == year && r.month == 2;
  }

  /** `navigateMonth` as intended: the month `delta` months away, the day clamped to
      the length of that month. */
  function ShiftMonth(current: Date, delta: int): (r: Date)
    ensures MonthIndex(r.year, r.month) == MonthIndex(current.year, current.month) + delta
    ensures r.day == if current.day <= DaysInMonth(r.year, r.month) then current.day else DaysInMonth(r.year, r.month)
  {
    var y, m := current.year + (current.month + delta) / 12, (current.month + delta) % 12;
    NormalizeMonth(current.year, current.month + delta);
    var dim := DaysInMonth(y, m);
    CivilDate(y, m, if current.day <= dim then current.day else dim)
  }

  /** Going forward a month and back again returns to the same month. */
  lemma ShiftMonthThereAndBack(current: Date, delta: int)
    ensures var r := ShiftMonth(ShiftMonth(current, delta), -delta);
      r.year == current.year && r.month == current.month
  {
    var r := ShiftMonth(ShiftMonth(current, delta), -delta);
    assert MonthIndex(r.year, r.month) == MonthIndex(current.year, current.month);
  }

  // ---------------------------------------------------------------------------
  // The component state

  /** The component's state (`useState` in the source). */
  class CalendarState {
    var currentDate: Date
    var selectedDate: Option<Date>
    var events: seq<CalendarEvent>
    var showEventModal: bool
    var editingEvent: Option<CalendarEvent>
    var hoveredDay: Option<Date>

    /** Every handler keeps the ids in the store distinct. */
    ghost predicate Valid()
      reads this
    {
      UniqueIds(events)
    }

    /** The initial state: the current month, nothing selected, no events. */
    constructor (now: Date)
      ensures Valid()
      ensures currentDate == now && selectedDate == None && events == []
      ensures !showEventModal && editingEvent == None && hoveredDay == None
    {
      currentDate := now;
      selectedDate := None;
      events := [];
      showEventModal := false;
      editingEvent := None;
      hoveredDay := None;
    }

    /** `handleSaveEvent(event)`. */
    method HandleSaveEvent(event: CalendarEvent)
      requires Valid()
      modifies this`events
      ensures Valid()
      ensures events == SaveEvent(old(events), event)
    {
      SaveKeepsIdsUnique(events, event);
      events := SaveEvent(events, event);
    }

    /** `handleDeleteEvent(eventId)`. */
    method HandleDeleteEvent(eventId: string)
      requires Valid()
      modifies this`events
      ensures Valid()
      ensures events == DeleteEvent(old(events), eventId)
    {
      FilterKeepsIdsUnique(events, (e: CalendarEvent) => e.id != eventId);
      events := DeleteEvent(events, eventId);
    }

    /** `handleCanvasClick` for a pointer at (x, y) on the canvas. */
    method HandleCanvasClick(x: real, y: real, today: Date)
      modifies this`selectedDate
      ensures selectedDate == match HitTest(x, y)
        case Some(i) => Some(GridDate(currentDate.year, currentDate.month, i))
        case None => old(selectedDate)
    {
      if y < HeaderHeight {
        return;
      }
      var index := CellIndexAt(x, y);
      var monthDays := GetMonthDays(currentDate.year, currentDate.month, today);
      if 0 <= index < |monthDays| {
        selectedDate := Some(monthDays[index].date);
      }
    }

    /** `handleCanvasMouseMove` for a pointer at (x, y) on the canvas. */
    method HandleCanvasMouseMove(x: real, y: real, today: Date)
      modifies this`hoveredDay
      ensures hoveredDay == match HitTest(x, y)
        case Some(i) => Some(GridDate(currentDate.year, currentDate.month, i))
        case None => None
    {
      if y < HeaderHeight {
        hoveredDay := None;
        return;
      }
      var index := CellIndexAt(x, y);
      var monthDays := GetMonthDays(currentDate.year, currentDate.month, today);
      if 0 <= index < |monthDays| {
        hoveredDay := Some(monthDays[index].date);
      } else {
        hoveredDay := None;
      }
    }

    /** `handleCanvasMouseLeave`. */
    method HandleCanvasMouseLeave()
      modifies this`hoveredDay
      ensures hoveredDay == None
    {
      hoveredDay := None;
    }

    /** `navigateMonth(direction)`: `setMonth(getMonth() ± 1)` on the shown date. The
        day of the month is kept, so a day the target month lacks spills into the
        month after it. */
    method NavigateMonth(direction: Direction)
      modifies this`currentDate
      ensures var delta := if direction == Prev then -1 else 1;
        currentDate == NavigateMonthAsWritten(old(currentDate), delta)
      ensures var delta := if direction == Prev then -1 else 1;
        var y, m := old(currentDate).year + (old(currentDate).month + delta) / 12, (old(currentDate).month + delta) % 12;
        && (old(currentDate).day <= DaysInMonth(y, m) ==> currentDate == CivilDate(y, m, old(currentDate).day))
        && (old(currentDate).day > DaysInMonth(y, m) ==>
              MonthIndex(currentDate.year, currentDate.month)
              == MonthIndex(old(currentDate).year, old(currentDate).month) + delta + 1)
    {
      var delta := if direction == Prev then -1 else 1;
      var newDate := SetMonth(currentDate, currentDate.month + delta);
      currentDate := newDate;
    }

    /** `handleAddEvent`, with the current day passed in as `today`. */
    method HandleAddEvent(today: Date)
      modifies this`selectedDate, this`editingEvent, this`showEventModal
      ensures selectedDate == if old(selectedDate) == None then Some(today) else old(selectedDate)
      ensures editingEvent == None && showEventModal
    {
      if selectedDate == None {
        selectedDate := Some(today);
      }
      editingEvent := None;
      showEventModal := true;
    }

    /** `handleEditEvent(event)`. */
    method HandleEditEvent(event: CalendarEvent)
      modifies this`selectedDate, this`editingEvent, this`showEventModal
      ensures selectedDate == Some(event.date) && editingEvent == Some(event) && showEventModal
    {
      selectedDate := Some(event.date);
      editingEvent := Some(event);
      showEventModal := true;
    }

    /** The dialog's `onClose`. */
    method CloseEventModal()
      modifies this`showEventModal
      ensures !showEventModal
    {
      showEventModal := false;
    }
  }
}
