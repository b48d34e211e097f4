/** The event dialog of src/components/EventModal.tsx without its markup: the form
    state, the reset when the dialog opens, validation, and the construction of the
    event handed to the calendar on submit. */
module EventModal {
  import opened Wrappers
  import opened Text
  import opened CivilDates
  import opened CalendarTypes
  import opened CalendarUtils
  import opened TimeStrings
  import CalendarCanvas

  /** The form fields that can carry an error. */
  datatype Field = Title | StartTime | EndTime

  /** The error texts, one constructor per message the form can show. */
  datatype ErrorMessage = TitleRequired | InvalidStartTime | InvalidEndTime | EndNotAfterStart

  /** `getCategoryColor`: the dialog's own colour table, the same as `getEventColor`. */
  function GetCategoryColor(category: Category): (color: string)
    ensures color == GetEventColor(category)
  {
    match category
    case Work => "#3b82f6"
    case Personal => "#10b981"
    case Reminder => "#8b5cf6"
    case Holiday => "#f59e0b"
  }

  /** The blank form: no title, 09:00 to 10:00, personal, not a reminder. */
  function DefaultForm(): EventFormData {
    EventFormData("", "", "09:00", "10:00", Personal, false)
  }

  /** The form filled from an event being edited. */
  function FormFromEvent(e: CalendarEvent): EventFormData {
    EventFormData(e.title, e.description, e.startTime, e.endTime, e.category, e.isReminder)
  }

  /** The ordering test: both times non-empty and `compareTime(start, end) >= 0`
      (a NaN difference fails the test). */
  predicate EndNotAfterStartTime(f: EventFormData) {
    var order := CompareTime(f.startTime, f.endTime);
    f.startTime != "" && f.endTime != "" && order.Some? && order.value >= 0
  }

  /** What a submittable form is: a title that is not blank, two well-formed times,
      and the start strictly earlier in the day than the end. */
  predicate FormIsValid(f: EventFormData) {
    && Trim(f.title) != []
    && IsValidTimeFormat(f.startTime)
    && IsValidTimeFormat(f.endTime)
    && MinutesOf(f.startTime).Some? && MinutesOf(f.endTime).Some?
    && MinutesOf(f.startTime).value < MinutesOf(f.endTime).value
  }

  /** The error map `validateForm` records for `f`, field by field. */
  predicate ReportsErrorsOf(errors: map<Field, ErrorMessage>, f: EventFormData) {
    && (Title in errors <==> Trim(f.title) == [])
    && (Title in errors ==> errors[Title] == TitleRequired)
    && (StartTime in errors <==> !IsValidTimeFormat(f.startTime))
    && (StartTime in errors ==> errors[StartTime] == InvalidStartTime)
    && (EndTime in errors <==> !IsValidTimeFormat(f.endTime) || EndNotAfterStartTime(f))
    && (EndTime in errors ==> errors[EndTime] == if EndNotAfterStartTime(f) then EndNotAfterStart else InvalidEndTime)
  }

  /** An empty error map is exactly a valid form. */
  lemma NoErrorsIffValid(errors: map<Field, ErrorMessage>, f: EventFormData)
    requires ReportsErrorsOf(errors, f)
    ensures errors == map[] <==> FormIsValid(f)
  {
    if IsValidTimeFormat(f.startTime) && IsValidTimeFormat(f.endTime) {
      assert f.startTime != "" && f.endTime != "";
    }
    if errors != map[] {
      var k :| k in errors;
      assert k == Title || k == StartTime || k == EndTime;
    }
  }

  /** `Object.keys(m).length === 0` exactly when the map is empty. */
  lemma NoKeysIffEmpty(m: map<Field, ErrorMessage>)
    ensures |m.Keys| == 0 <==> m == map[]
  {
    if m != map[] {
      var k :| k in m;
      assert k in m.Keys;
    }
  }

  /** The blank form's times are accepted and in order: 540 and 600 minutes. */
  lemma DefaultTimesInOrder()
    ensures var f := DefaultForm();
      && IsValidTimeFormat(f.startTime) && IsValidTimeFormat(f.endTime)
      && MinutesOf(f.startTime) == Some(540) && MinutesOf(f.endTime) == Some(600)
  {
    NineOClock();
    TenOClock();
  }

  /** The blank form is refused only for its missing title: with any title that is
      not blank it can be submitted. */
  lemma DefaultFormNeedsATitle(title: string)
    ensures !FormIsValid(DefaultForm())
    ensures FormIsValid(DefaultForm().(title := title)) <==> Trim(title) != []
  {
    DefaultTimesInOrder();
  }

  /** The event `handleSubmit` builds from the form for `date`: the edited event's
      id when it has a non-empty one, otherwise `freshId` (the value of
      `generateId()`); title and description trimmed; the colour of the category. */
  function BuildEvent(form: EventFormData, date: Date, editingEvent: Option<CalendarEvent>, freshId: string): (e: CalendarEvent)
    ensures e.date == date && e.category == form.category && e.isReminder == form.isReminder
    ensures e.startTime == form.startTime && e.endTime == form.endTime
    ensures e.color == GetEventColor(form.category)
    ensures editingEvent.Some? && editingEvent.value.id != "" ==> e.id == editingEvent.value.id
    ensures editingEvent.None? || editingEvent.value.id == "" ==> e.id == freshId
    ensures e.title == Trim(form.title) && e.description == Trim(form.description)
  {
    var id := if editingEvent.Some? && editingEvent.value.id != "" then editingEvent.value.id else freshId;
    CalendarEvent(id, Trim(form.title), Trim(form.description), date, form.startTime, form.endTime,
                  form.category, GetCategoryColor(form.category), form.isReminder)
  }

  /** An event as the dialog saves it: trimmed non-empty title, trimmed
      description, well-formed times in order, the colour of its category. */
  predicate WellFormed(e: CalendarEvent) {
    && e.title != [] && Trim(e.title) == e.title
    && Trim(e.description) == e.description
    && FormIsValid(FormFromEvent(e))
    && e.color == GetEventColor(e.category)
  }

  /** A valid form builds a well-formed event. */
  lemma BuiltEventIsWellFormed(form: EventFormData, date: Date, editingEvent: Option<CalendarEvent>, freshId: string)
    requires FormIsValid(form)
    ensures WellFormed(BuildEvent(form, date, editingEvent, freshId))
  {
    var e := BuildEvent(form, date, editingEvent, freshId);
    TrimIdempotent(form.title);
    TrimIdempotent(form.description);
    assert FormFromEvent(e) == form.(title := e.title, description := e.description);
  }

  /** Opening a well-formed event for editing and submitting it unchanged saves
      the same event. */
  lemma EditRoundTrip(e: CalendarEvent, freshId: string)
    requires WellFormed(e) && e.id != ""
    ensures BuildEvent(FormFromEvent(e), e.date, Some(e), freshId) == e
  {
  }

  /** A new event whose id is fresh is appended to the store, which keeps its ids
      distinct. */
  lemma NewEventIsAppended(events: seq<CalendarEvent>, form: EventFormData, date: Date, freshId: string)
    requires CalendarCanvas.UniqueIds(events)
    requires forall j :: 0 <= j < |events| ==> events[j].id != freshId
    ensures var e := BuildEvent(form, date, None, freshId);
      && CalendarCanvas.SaveEvent(events, e) == events + [e]
      && CalendarCanvas.UniqueIds(CalendarCanvas.SaveEvent(events, e))
  {
    CalendarCanvas.SaveKeepsIdsUnique(events, BuildEvent(form, date, None, freshId));
  }

  /** The dialog's state. */
  class FormState {
    var formData: EventFormData
    var errors: map<Field, ErrorMessage>

    constructor ()
      ensures formData == DefaultForm() && errors == map[]
    {
      formData := DefaultForm();
      errors := map[];
    }

    /** The effect run when the dialog opens or the edited event changes. */
    method ResetForm(editingEvent: Option<CalendarEvent>)
      modifies this
      ensures formData == match editingEvent
        case Some(e) => FormFromEvent(e)
        case None => DefaultForm()
      ensures errors == map[]
    {
      if editingEvent.Some? {
        var e := editingEvent.value;
        formData := EventFormData(e.title, e.description, e.startTime, e.endTime, e.category, e.isReminder);
      } else {
        formData := EventFormData("", "", "09:00", "10:00", Personal, false);
      }
      errors := map[];
    }

    /** `validateForm()`: records the errors of the current form and reports
        whether there are none. */
    method ValidateForm() returns (ok: bool)
      modifies this`errors
      ensures ReportsErrorsOf(errors, formData)
      ensures ok <==> errors == map[]
      ensures ok <==> FormIsValid(formData)
    {
      var f := formData;
      var newErrors: map<Field, ErrorMessage> := map[];
      if Trim(f.title) == [] {
        newErrors := newErrors[Title := TitleRequired];
      }
      assert newErrors.Keys <= {Title} && (Title in newErrors <==> Trim(f.title) == []);
      if !IsValidTimeFormat(f.startTime) {
        newErrors := newErrors[StartTime := InvalidStartTime];
      }
      assert newErrors.Keys <= {Title, StartTime} && (StartTime in newErrors <==> !IsValidTimeFormat(f.startTime));
      if !IsValidTimeFormat(f.endTime) {
        newErrors := newErrors[EndTime := InvalidEndTime];
      }
      var order := CompareTime(f.startTime, f.endTime);
      if f.startTime != "" && f.endTime != "" && order.Some? && order.value >= 0 {
        newErrors := newErrors[EndTime := EndNotAfterStart];
      }
      assert ReportsErrorsOf(newErrors, f);
      NoErrorsIffValid(newErrors, f);
      errors := newErrors;
      ok := |newErrors.Keys| == 0;
      NoKeysIffEmpty(newErrors);
    }

    /** `handleSubmit` for the selected day and edited event, with `freshId` standing
        for `generateId()`: the event passed to `onSave`, or None when nothing is
        saved. */
    method HandleSubmit(selectedDate: Option<Date>, editingEvent: Option<CalendarEvent>, freshId: string)
      returns (saved: Option<CalendarEvent>)
      modifies this`errors
      ensures ReportsErrorsOf(errors, formData)
      ensures saved.Some? <==> FormIsValid(formData) && selectedDate.Some?
      ensures saved.Some? ==> saved.value == BuildEvent(formData, selectedDate.value, editingEvent, freshId)
      ensures saved.Some? ==> WellFormed(saved.value)
    {
      var ok := ValidateForm();
      if !ok || selectedDate.None? {
        return None;
      }
      var id := if editingEvent.Some? && editingEvent.value.id != "" then editingEvent.value.id else freshId;
      var event := CalendarEvent(id, Trim(formData.title), Trim(formData.description), selectedDate.value,
                                 formData.startTime, formData.endTime, formData.category,
                                 GetCategoryColor(formData.category), formData.isReminder);
      BuiltEventIsWellFormed(formData, selectedDate.value, editingEvent, freshId);
      saved := Some(event);
    }
  }
}
