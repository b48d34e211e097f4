# calendar-demo1 in Dafny

This project models the logic of a small React month calendar. The calendar shows
a 6×7 canvas grid of days, keeps an in-memory list of events, and edits events in a
dialog. The model covers three parts of the system.

- **The date utilities** of `src/utils/calendar.ts`:
  - `isSameDay`, `getDaysInMonth` and `getFirstDayOfMonth`;
  - the 42-day grid built by `getMonthDays`;
  - the `H:MM`/`HH:MM` format check, `compareTime` and `formatTime`;
  - the category colour table.
- **The calendar component** of `src/components/CalendarCanvas.tsx`:
  - its state, as the class `CalendarState`, whose handlers update the event list, the selection, the hover and the month shown;
  - the views derived from the state: the selected day's events, the upcoming reminders and what one cell draws;
  - the hit-test from pointer coordinates to a grid cell;
  - month navigation.
- **The event dialog** of `src/components/EventModal.tsx`:
  - its state, as the class `FormState`: the form reset, `validateForm` with its field-keyed error map, and `handleSubmit`;
  - the construction of the saved event.

JavaScript's `Date` is modelled as a civil date `(year, month 0..11, day)` in module
`CivilDates`, with these operations:

- `AddDays` does day arithmetic, as `setDate` overflow does.
- `MakeDate` is `new Date(y, m, d)`, including month and day normalisation.
- `SetMonth` is `setMonth`.
- `DayNumber` counts days since 1970-01-01.
- `Weekday` is `getDay`.

The current day and the current instant are parameters, and so is the id `generateId` would return.

`handleSaveEvent` appends an event whose id is not in the store; it reports no
"not found" error.

## Model

| member | source | states |
|---|---|---|
| CalendarUtils.IsSameDay | src/utils/calendar.ts:17-23 | true exactly when year, month and day of the month agree, i.e. the two civil dates are equal (so reflexive and symmetric) |
| CalendarUtils.GetDaysInMonth | src/utils/calendar.ts:69-71 | the day of `new Date(year, month + 1, 0)` is the length of the normalised month, 28..31, and February has 29 exactly in Gregorian leap years |
| CalendarUtils.GetFirstDayOfMonth | src/utils/calendar.ts:73-75 | the weekday 0..6 (0 = Sunday) of the first of the normalised month |
| CalendarUtils.FirstDayOfNextMonth | src/utils/calendar.ts:69-75 | the first of the next month falls `getDaysInMonth` weekdays after the first of this month |
| CalendarUtils.GridOffset | src/utils/calendar.ts:32 | the offset `(getDay() + 6) % 7` lies in 0..6 |
| CalendarUtils.GridConsecutive | src/utils/calendar.ts:33-38 | each grid day is the day after the previous one |
| CalendarUtils.GridHoldsFirst | src/utils/calendar.ts:27-33 | cell `GridOffset` holds the first of the month |
| CalendarUtils.GridWeekday | src/utils/calendar.ts:31-38 | cell `i` falls on weekday `(i + 1) % 7`, so cell 0 is a Monday |
| CalendarUtils.GridDistinct | src/utils/calendar.ts:36-38 | distinct cells hold distinct days |
| CalendarUtils.GridCurrentMonth | src/utils/calendar.ts:32-40 | a cell is in the target month exactly when the month is 0..11 and the cell lies in the `getDaysInMonth` cells from `GridOffset`, and that block always fits in 42 cells |
| CalendarUtils.GridStart | src/utils/calendar.ts:27-33 | `new Date(year, month, 1)` moved back by `(getDay() + 6) % 7` days with `setDate` is grid cell 0 |
| CalendarUtils.GridFromStartDate | src/utils/calendar.ts:37-38 | `setDate(startDate.getDate() + i)` on cell 0 gives cell `i`, for every `i` |
| CalendarUtils.GridBeforeMonth | src/utils/calendar.ts:32-40 | the cells before `GridOffset` hold days outside the target month |
| CalendarUtils.GridInMonth | src/utils/calendar.ts:32-40 | the `getDaysInMonth` cells from `GridOffset` hold day 1, 2, … of the target month in order |
| CalendarUtils.GridAfterMonth | src/utils/calendar.ts:32-40 | the cells after the month's block hold days outside the target month |
| CalendarUtils.GridCellsConsecutive | src/utils/calendar.ts:36-50 | a list of the 42 grid cells holds consecutive days |
| CalendarUtils.GridCellsTodayOnce | src/utils/calendar.ts:41 | in a list of the 42 grid cells `isToday` is set on at most one cell |
| CalendarUtils.GridCellsMonthBlock | src/utils/calendar.ts:40 | in a list of the 42 grid cells `isCurrentMonth` is set exactly on the month's block |
| CalendarUtils.GridCellsAnchor | src/utils/calendar.ts:27-33 | a list of the 42 grid cells starts on a Monday and holds the first of the month at `GridOffset` |
| CalendarUtils.GetMonthDays | src/utils/calendar.ts:25-53 | exactly 42 consecutive days from a Monday; the first of the month at `GridOffset`; `isCurrentMonth` on exactly the month's block; `isToday` on at most one cell; every cell built with no events and not selected |
| CalendarUtils.GetEventColor | src/utils/calendar.ts:55-63 | each colour is a 7-character `#rrggbb` string: a `#` followed by six lower-case hexadecimal digits |
| CalendarUtils.EventColorInjective | src/utils/calendar.ts:55-63 | different categories get different colours |
| CivilDates.LastDayOfMonth | src/utils/calendar.ts:70 | `new Date(year, month + 1, 0)` is the last day of the normalised month |
| CivilDates.MakeDateInMonth | src/utils/calendar.ts:27 | `new Date(year, month, day)` with an in-range day is that day of the normalised month |
| CivilDates.SetDateShift | src/utils/calendar.ts:33-38 | `setDate(getDate() + k)` moves a date by exactly `k` days |
| CivilDates.MakeDateDayNumber | src/utils/calendar.ts:27-28 | `new Date(year, month, day)` is `day - 1` days after the first of the normalised month, for any day, so out-of-range days overflow into the neighbouring months |
| CivilDates.SetMonth | src/components/CalendarCanvas.tsx:198-201 | `setMonth(month)` keeps the day when the normalised target month has it; otherwise the date lands in the month after the target, on the day minus the target month's length |
| CivilDates.WeekdayRange | src/utils/calendar.ts:32 | `getDay` is 0..6, and 1 January 1970 is a Thursday (4) |
| CivilDates.WeekdayAddDays | src/utils/calendar.ts:74 | moving `n` days moves `getDay` by `n` modulo 7 |
| CivilDates.DayNumberAddDays | src/utils/calendar.ts:36-38 | moving `n` days moves the day number by `n` |
| TimeStrings.IsValidTimeFormat | src/utils/calendar.ts:88-91 | an accepted string has 4 or 5 characters: one or two digits, a colon, and two digits |
| TimeStrings.MinutesOfValid | src/utils/calendar.ts:93-101 | an accepted string reads as a minute count in 0..1439 |
| TimeStrings.ValidTimeSplits | src/utils/calendar.ts:94 | an accepted string splits at its colon into exactly the hour text and the minute text |
| TimeStrings.ShortTimeDecodes | src/utils/calendar.ts:88-94 | an accepted `H:MM` string reads as its hour digit and its minute 0..59, and is the text of them |
| TimeStrings.LongTimeDecodes | src/utils/calendar.ts:88-94 | an accepted `HH:MM` string reads as an hour 0..23 and a minute 0..59, and is the text of them |
| TimeStrings.ValidTimeDecodes | src/utils/calendar.ts:88-91 | every accepted string is the text of an hour 0..23 and a minute 0..59 and reads back as exactly them |
| TimeStrings.TimeTextAccepted | src/utils/calendar.ts:88-91 | every hour 0..23 and minute 0..59, written `HH:MM` (or `H:MM` below 10), is accepted |
| TimeStrings.TimeFormatExamples | src/utils/calendar.ts:88-91 | "9:30", "09:00" and "23:59" are accepted; "24:00", "12:60", "abc" and "" are rejected |
| TimeStrings.SplitColon | src/utils/calendar.ts:13 | `split(':')` gives at least one piece, no piece holds a colon, and the pieces joined with colons give back the string |
| TimeStrings.SplitTwo | src/utils/calendar.ts:94 | splitting `a:b` with colon-free `a` and `b` gives exactly `[a, b]` |
| TimeStrings.ToNumber | src/utils/calendar.ts:94 | `Number` of a digit string is a non-negative value |
| TimeStrings.CompareTime | src/utils/calendar.ts:93-101 | on two accepted strings the comparison is a number, and it is the difference of their minutes since midnight, each in 0..1439 |
| TimeStrings.CompareTimeAntisymmetric | src/utils/calendar.ts:93-101 | `compareTime(a, b) = -compareTime(b, a)` and `compareTime(a, a) = 0` |
| TimeStrings.NineOClock | src/utils/calendar.ts:88-94 | "09:00" is accepted and is 540 minutes after midnight |
| TimeStrings.TenOClock | src/utils/calendar.ts:88-94 | "10:00" is accepted and is 600 minutes after midnight |
| TimeStrings.CompareTimeExamples | src/utils/calendar.ts:93-101 | "09:00" vs "10:00" is -60, the reverse 60, equal times 0 |
| TimeStrings.FormatTime | src/utils/calendar.ts:11-15 | an accepted time string is displayed unchanged; a non-empty string without a colon gets ":undefined" appended |
| TimeStrings.FormatTimeIdempotent | src/utils/calendar.ts:11-15 | formatting a formatted string changes nothing |
| Text.Trim | src/components/EventModal.tsx:86-87 | `trim()` is never longer than the string, and the result neither starts nor ends with whitespace |
| Text.TrimShape | src/components/EventModal.tsx:86-87 | `trim()` returns the middle of the string between a blank prefix and a blank suffix, with no whitespace at either end |
| Text.TrimEmptyIffBlank | src/components/EventModal.tsx:58 | `title.trim()` is empty exactly when the title is all whitespace |
| Text.TrimIdempotent | src/components/EventModal.tsx:86-87 | trimming a trimmed string changes nothing |
| Text.NatToString | src/components/CalendarCanvas.tsx:133 | the written count is a non-empty string of digits |
| Text.DecimalRoundTrip | src/components/CalendarCanvas.tsx:133 | the count written in "+N more" reads back as N |
| CalendarCanvas.Filter | src/components/CalendarCanvas.tsx:221 | `filter` keeps exactly the events that pass the test and is never longer |
| CalendarCanvas.FilterAppend | src/components/CalendarCanvas.tsx:221 | `filter` distributes over concatenation, so it keeps the relative order of what it keeps |
| CalendarCanvas.FilterSubMultiset | src/components/CalendarCanvas.tsx:400-405 | `filter` keeps each event at most as often as it is stored |
| CalendarCanvas.FilterKeepsAll | src/components/CalendarCanvas.tsx:221 | a test every event passes leaves the list unchanged |
| CalendarCanvas.FindIndex | src/components/CalendarCanvas.tsx:226 | `findIndex` is -1 exactly when no event has the id, and otherwise the first position holding it |
| CalendarCanvas.SaveEvent | src/components/CalendarCanvas.tsx:224-234 | a known id: the first event with it is replaced in place, with length and every other position unchanged; a new id: the event is appended after the unchanged list |
| CalendarCanvas.SaveKeepsIdsUnique | src/components/CalendarCanvas.tsx:224-234 | saving keeps ids distinct, leaves the saved event in the store, and grows the list by one exactly for a new id |
| CalendarCanvas.DeleteEvent | src/components/CalendarCanvas.tsx:220-222 | after a delete an event remains exactly when it was stored and has another id; an unknown id leaves the list unchanged |
| CalendarCanvas.FilterKeepsIdsUnique | src/components/CalendarCanvas.tsx:220-222 | deleting keeps ids distinct |
| CalendarCanvas.EventsOnDay | src/components/CalendarCanvas.tsx:102 | a cell's events are exactly the stored events on its day |
| CalendarCanvas.SelectedDayEvents | src/components/CalendarCanvas.tsx:237-238 | no selection gives no events; otherwise exactly the stored events on the selected day |
| CalendarCanvas.SavedEventIsListedOnItsDay | src/components/CalendarCanvas.tsx:224-238 | a saved event is listed among the events of its day |
| CalendarCanvas.StartInstant | src/components/CalendarCanvas.tsx:400-403 | for an accepted start time the event's instant is its day's midnight plus the start minutes, and falls within that day |
| CalendarCanvas.StartKeyOrder | src/components/CalendarCanvas.tsx:407-418 | for accepted start times, one event sorts before another exactly when its day is earlier, or the day is the same and its start time is earlier |
| CalendarCanvas.SortedCons | src/components/CalendarCanvas.tsx:407-418 | an event no later than the head of a sorted list keeps it sorted when put in front |
| CalendarCanvas.InsertBy | src/components/CalendarCanvas.tsx:407-418 | inserting into a list sorted by a key (here the start instant) keeps it sorted and adds exactly the one event |
| CalendarCanvas.SortBy | src/components/CalendarCanvas.tsx:407-418 | the sorted list is ascending by the key (here the start instant) and a permutation of the input |
| CalendarCanvas.UpcomingReminders | src/components/CalendarCanvas.tsx:398-420 | at most five events, each a stored reminder starting strictly after now, none listed more often than it is stored, in ascending order of start |
| CalendarCanvas.UpcomingAreEarliest | src/components/CalendarCanvas.tsx:407-419 | a qualifying reminder is left out only when five listed reminders start no later than it, so the list is the earliest five |
| CalendarCanvas.TruncateTitle | src/components/CalendarCanvas.tsx:117-118 | a title of at most 10 characters is shown whole; a longer one as its first 10 characters and "...", never more than 13 |
| CalendarCanvas.DrawCellEvents | src/components/CalendarCanvas.tsx:102-135 | a cell with n events draws bars for the first `min(n, 3)` in order, and shows "+(n-3) more" exactly when n ≥ 4 |
| CalendarCanvas.HitTest | src/components/CalendarCanvas.tsx:152-159 | a pointer in the 80-pixel header (y < 80) selects nothing; a selection is always one of the 42 cells |
| CalendarCanvas.HitTestInvertsLayout | src/components/CalendarCanvas.tsx:152-162 | a pointer inside the rectangle where cell `i` is drawn (column `i % 7`, row `i / 7`) selects cell `i` |
| CalendarCanvas.HitTestOnGrid | src/components/CalendarCanvas.tsx:152-162 | every pointer on the grid area selects a cell, and it is the cell drawn under the pointer |
| CalendarCanvas.HitTestPastRightEdge | src/components/CalendarCanvas.tsx:154-156 | a pointer just right of the last column selects the first cell of the next row |
| CalendarCanvas.NavigateMonthAsWritten | src/components/CalendarCanvas.tsx:194-204 | `setMonth(getMonth() ± 1)` keeps the day and moves exactly `delta` months when the target month has the day; otherwise it lands `delta + 1` months away |
| CalendarCanvas.NavigateFromJanuary31SkipsFebruary | src/components/CalendarCanvas.tsx:200 | from 31 January, "next" as written shows 3 March (2 March in a leap year) |
| CalendarCanvas.ShiftMonth | src/components/CalendarCanvas.tsx:194-204 | the corrected navigation lands exactly `delta` months away, with the day clamped to that month's length |
| CalendarCanvas.ShiftMonthThereAndBack | src/components/CalendarCanvas.tsx:194-204 | a month forward and back returns to the same month |
| CalendarCanvas.CalendarState.constructor | src/components/CalendarCanvas.tsx:15-20 | the initial state: the current month, nothing selected, no events, dialog closed, nothing hovered |
| CalendarCanvas.CalendarState.HandleSaveEvent | src/components/CalendarCanvas.tsx:224-235 | the event list becomes `SaveEvent` of the old one and keeps its ids distinct |
| CalendarCanvas.CalendarState.HandleDeleteEvent | src/components/CalendarCanvas.tsx:220-222 | the event list becomes the old one without the id and keeps its ids distinct |
| CalendarCanvas.CalendarState.HandleCanvasClick | src/components/CalendarCanvas.tsx:143-163 | a hit cell selects that cell's grid day; a miss leaves the selection unchanged |
| CalendarCanvas.CalendarState.HandleCanvasMouseMove | src/components/CalendarCanvas.tsx:165-188 | a hit cell becomes the hovered day; a miss clears it |
| CalendarCanvas.CalendarState.HandleCanvasMouseLeave | src/components/CalendarCanvas.tsx:190-192 | leaving the canvas clears the hover |
| CalendarCanvas.CalendarState.NavigateMonth | src/components/CalendarCanvas.tsx:194-204 | the current date becomes `setMonth(getMonth() ± 1)` of the old one: the day is kept and the month moves by one in the chosen direction when the target month has that day, and by one more month when the day overflows |
| CalendarCanvas.CalendarState.HandleAddEvent | src/components/CalendarCanvas.tsx:206-212 | selects today when nothing is selected, clears the edited event and opens the dialog |
| CalendarCanvas.CalendarState.HandleEditEvent | src/components/CalendarCanvas.tsx:214-218 | selects the event's day, makes it the edited event and opens the dialog |
| CalendarCanvas.CalendarState.CloseEventModal | src/components/CalendarCanvas.tsx:380 | closing the dialog hides it |
| EventModal.GetCategoryColor | src/components/EventModal.tsx:100-108 | the dialog's colour table agrees with `getEventColor` for every category |
| EventModal.NoErrorsIffValid | src/components/EventModal.tsx:55-77 | the error map is empty exactly when the title is not blank, both times are accepted, and the start is strictly earlier than the end |
| EventModal.DefaultTimesInOrder | src/components/EventModal.tsx:21-28 | the default times 09:00 and 10:00 are accepted and in order |
| EventModal.DefaultFormNeedsATitle | src/components/EventModal.tsx:21-28 | the blank form is refused, and with any non-blank title it is accepted |
| EventModal.BuildEvent | src/components/EventModal.tsx:84-94 | the saved event keeps the edited event's id when it is non-empty and takes the fresh id otherwise; its title and description are the trimmed form fields; it takes the selected date, the form's times, category and reminder flag, and the category's colour |
| EventModal.BuiltEventIsWellFormed | src/components/EventModal.tsx:84-94 | a valid form builds an event with a trimmed non-empty title, a trimmed description, accepted ordered times and its category's colour |
| EventModal.EditRoundTrip | src/components/EventModal.tsx:32-94 | editing a well-formed event with a non-empty id and submitting it unchanged saves the same event, id included |
| EventModal.NewEventIsAppended | src/components/EventModal.tsx:85 | a new event with a fresh id is appended to the store, whose ids stay distinct |
| EventModal.FormState.constructor | src/components/EventModal.tsx:21-30 | the dialog starts with the blank form and no errors |
| EventModal.FormState.ResetForm | src/components/EventModal.tsx:32-53 | opening copies the edited event's fields, or the defaults 09:00/10:00/personal/no reminder without one, and clears the errors |
| EventModal.FormState.ValidateForm | src/components/EventModal.tsx:55-77 | a title error iff the trimmed title is empty; a start error iff the start is rejected; an end error iff the end is rejected or both times are non-empty and not in order, with the ordering message replacing the format message; the result is true iff the form is valid |
| EventModal.FormState.HandleSubmit | src/components/EventModal.tsx:79-98 | the errors are recorded; an event is saved exactly when the form is valid and a date is selected, and it is the built, well-formed event |

## Left out

- Canvas drawing is not modelled: contexts, fonts, colours, coordinates, the header and the weekday and month labels (`getWeekdays`, `getMonthNames`, `getCategoryLabel`). Only the 3-bar cap, the "+N more" label and the title cut of a cell are kept.
- JSX, icons and React's hook machinery are not modelled. Each `setX` call is a field assignment, and the reset effect is an explicit `ResetForm` call.
- `formatDate` is not modelled: it is a locale library call (`toLocaleDateString`).
- `generateId` is not modelled: it reads the clock and `Math.random`. Its result is the `freshId` parameter, and `NewEventIsAppended` assumes the id is new to the store.
- The ambient clock is not modelled. `new Date()` in `getMonthDays`, `handleAddEvent` and `getUpcomingReminders` becomes the `today` and `now` parameters, and the initial `useState(new Date())` of the current date becomes the `now` parameter of the `CalendarState` constructor.
- Time zones, daylight saving time and the 19xx mapping of two-digit years are not modelled. Instants are counted in local-calendar milliseconds.
- The seconds and milliseconds that `setHours(h, m)` keeps on a date created by `handleAddEvent` are not modelled. Dates are whole days.
- ToNumber: `Number` of a split piece is modelled only for ASCII digit strings (the empty string reads as 0); anything else is NaN. Signs, surrounding blanks, decimals, exponents and hexadecimal are not read.
- Text.IsSpace: `trim` strips ASCII whitespace only, not the other Unicode spaces and line terminators.
- TruncateTitle: lengths count Unicode code points, not the UTF-16 code units of JavaScript strings.
- HitTest: cell sizes `800/7` and `520/6` are exact rationals, not floating point. A pointer exactly on a cell boundary may fall in a different cell than the browser computes.
- SortBy: the sort is an insertion sort that keeps equal start instants in list order. The model does not prove that it is stable, as `Array.prototype.sort` is.
- The unused `lastDay` of `getMonthDays` (src/utils/calendar.ts:28) is not modelled.
- `<input type="time">` browser behaviour and the texts of the error messages are not modelled. The messages are one constructor each of `ErrorMessage`.

## Findings

| source | as written | input that shows it | evidently intended | confidence | as-written member | corrected member |
|---|---|---|---|---|---|---|
| src/components/CalendarCanvas.tsx:194-204 | `navigateMonth` calls `setMonth(getMonth() ± 1)` on the current date, which keeps the day of the month; when the target month is shorter, the day overflows into the month after it | current date 31 January 2025, direction "next": the new date is 3 March 2025, so February is skipped (likewise 31 March "prev" gives 3 March) | move exactly one month, clamping the day to the target month's length | high; not executed | CalendarCanvas.NavigateFromJanuary31SkipsFebruary | CalendarCanvas.ShiftMonth |
