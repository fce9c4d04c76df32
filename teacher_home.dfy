/** The teacher's pages: the attendance form, the weekly teaching-load table with its total, the
    Mark Done button, and the message box. */
module TeacherHome {
  import opened Wrappers
  import opened Records
  import opened JsString
  import opened SlotDuration

  // ---------------------------------------------------------------------------
  // Attendance form

  datatype AttendanceForm = AttendanceForm(date: string, subject: string, classSection: string, hoursTaught: string)

  const EmptyAttendanceForm := AttendanceForm("", "", "", "")

  /** The `name` of each input of the form. */
  datatype Field = Date | Subject | ClassSection | HoursTaught

  function FieldValue(f: AttendanceForm, field: Field): string {
    match field
    case Date => f.date
    case Subject => f.subject
    case ClassSection => f.classSection
    case HoursTaught => f.hoursTaught
  }

  /** `handleChange`: `{ ...prev, [name]: value }`. */
  function HandleChange(f: AttendanceForm, field: Field, value: string): (r: AttendanceForm)
    ensures FieldValue(r, field) == value
    ensures forall g :: g != field ==> FieldValue(r, g) == FieldValue(f, g)
  {
    match field
    case Date => f.(date := value)
    case Subject => f.(subject := value)
    case ClassSection => f.(classSection := value)
    case HoursTaught => f.(hoursTaught := value)
  }

  /** Edits of different inputs do not interfere, and a later edit of the same input wins. */
  lemma ChangesCommute(f: AttendanceForm, a: Field, x: string, b: Field, y: string)
    ensures a != b ==> HandleChange(HandleChange(f, a, x), b, y) == HandleChange(HandleChange(f, b, y), a, x)
    ensures HandleChange(HandleChange(f, a, x), a, y) == HandleChange(f, a, y)
  {
  }

  datatype AttendanceState = AttendanceState(form: AttendanceForm, submitted: bool, error: string)

  /** The body posted to the attendance endpoint; `parseFloat` of the hours is taken as given. */
  datatype AttendanceRequest = AttendanceRequest(teacherId: Option<int>, date: string, subject: string,
                                                 classSection: string, hoursTaught: real)

  predicate AttendanceFilled(f: AttendanceForm) {
    f.date != "" && f.subject != "" && f.classSection != "" && f.hoursTaught != ""
  }

  /** `handleSubmit` as written: a request only when every field is filled; on success the form
      is reset and the success banner shown, but an earlier error message is left in place. */
  function SubmitAttendance(st: AttendanceState, teacherId: Option<int>, parseFloat: string -> real, reply: Reply)
    : (r: (AttendanceState, Option<AttendanceRequest>))
    ensures r.1.Some? <==> AttendanceFilled(st.form)
    ensures r.1.None? ==> r.0 == st.(error := "All fields are required")
    ensures r.1.Some? ==> r.1.value == AttendanceRequest(teacherId, st.form.date, st.form.subject,
                                                          st.form.classSection, parseFloat(st.form.hoursTaught))
    ensures r.1.Some? && reply.Accepted? ==> r.0 == st.(form := EmptyAttendanceForm, submitted := true)
    ensures r.1.Some? && reply.Refused? ==> r.0 == st
    ensures r.1.Some? && reply.Failed? ==> r.0 == st.(error := "Failed to submit attendance")
  {
    var f := st.form;
    if f.date == "" || f.subject == "" || f.classSection == "" || f.hoursTaught == "" then
      (st.(error := "All fields are required"), None)
    else
      var request := AttendanceRequest(teacherId, f.date, f.subject, f.classSection, parseFloat(f.hoursTaught));
      var next := match reply
        case Accepted => st.(form := EmptyAttendanceForm, submitted := true)
        case Refused(_) => st
        case Failed(_) => st.(error := "Failed to submit attendance");
      (next, Some(request))
  }

  /** After a successful submission the four fields are empty, so submitting again sends
      nothing. */
  lemma SubmitAgainAfterSuccess(st: AttendanceState, teacherId: Option<int>, parseFloat: string -> real, reply: Reply)
    requires AttendanceFilled(st.form)
    ensures var (after, _) := SubmitAttendance(st, teacherId, parseFloat, Accepted);
      SubmitAttendance(after, teacherId, parseFloat, reply).1 == None
  {
  }

  /** A teacher who first submits an incomplete form and then a complete one that the server
      accepts sees the success banner and the stale "All fields are required" together. */
  lemma StaleErrorAfterSuccess(teacherId: Option<int>, parseFloat: string -> real)
    ensures var incomplete := AttendanceState(AttendanceForm("2024-05-06", "", "", ""), false, "");
      var (rejected, _) := SubmitAttendance(incomplete, teacherId, parseFloat, Accepted);
      var completed := rejected.(form := AttendanceForm("2024-05-06", "Math", "7-A", "2"));
      var (after, _) := SubmitAttendance(completed, teacherId, parseFloat, Accepted);
      after.submitted && after.error == "All fields are required"
  {
  }

  /** `handleSubmit` with the error cleared once the fields are complete, so that a success
      never shows an error. */
  function SubmitAttendanceClearingError(st: AttendanceState, teacherId: Option<int>,
                                         parseFloat: string -> real, reply: Reply)
    : (r: (AttendanceState, Option<AttendanceRequest>))
    ensures r.1 == SubmitAttendance(st, teacherId, parseFloat, reply).1
    ensures r.1.Some? && reply.Accepted? ==> r.0.submitted && r.0.error == "" && r.0.form == EmptyAttendanceForm
    ensures r.1.None? ==> r.0.error == "All fields are required"
  {
    if AttendanceFilled(st.form) then SubmitAttendance(st.(error := ""), teacherId, parseFloat, reply)
    else SubmitAttendance(st, teacherId, parseFloat, reply)
  }

  // ---------------------------------------------------------------------------
  // Weekly total and per-row duration

  /** The function passed to `rows.reduce`, in minutes: the running sum, plus the row's slot
      when both hours are numbers. */
  function ReduceStep(sum: int, item: TeachingLoad): (r: int)
    ensures r == sum + match SlotMinutes(item) case None => 0 case Some(m) => m
  {
    StepMinutes(sum, ClockParts(item.startTime), ClockParts(item.endTime))
  }

  function StepMinutes(sum: int, startParts: (Option<int>, Option<int>), endParts: (Option<int>, Option<int>)): (r: int)
    ensures r == sum + match Span(startParts, endParts) case None => 0 case Some(m) => m
  {
    var (sh, sm) := startParts;
    var (eh, em) := endParts;
    if sh.None? || eh.None? then sum
    else
      var start := ClockMinutes(sh.value, sm);
      var end := ClockMinutes(eh.value, em);
      var end' := if end < start then end + MinutesPerDay else end;
      sum + (end' - start)
  }

  /** `rows.reduce(step, 0)`, from the first row to the last. */
  function WeeklyMinutes(rows: seq<TeachingLoad>): int {
    if rows == [] then 0 else ReduceStep(WeeklyMinutes(rows[..|rows| - 1]), rows[|rows| - 1])
  }

  /** Adding up rows one list after another is adding up the two lists: the total does not
      depend on how the rows are split or in which order they are added. */
  lemma {:induction false} WeeklyMinutesAppend(rows: seq<TeachingLoad>, more: seq<TeachingLoad>)
    ensures WeeklyMinutes(rows + more) == WeeklyMinutes(rows) + WeeklyMinutes(more)
  {
    if more == [] {
      assert rows + more == rows;
    } else {
      var init := more[..|more| - 1];
      var last := more[|more| - 1];
      assert (rows + more)[..|rows + more| - 1] == rows + init;
      assert (rows + more)[|rows + more| - 1] == last;
      WeeklyMinutesAppend(rows, init);
    }
  }

  /** `+total.toFixed(2)`, the "Total Hours/Week" figure: the weekly total rounded to a whole
      hundredth of an hour, so within 1/200 of an hour of the exact weekly total. */
  function TotalHoursPerWeek(rows: seq<TeachingLoad>): (r: real)
    ensures r == Hundredths(WeeklyMinutes(rows)) as real / 100.0
    ensures -1.0 / 200.0 < r - WeeklyMinutes(rows) as real / 60.0 < 1.0 / 200.0
  {
    RoundedHoursClose(WeeklyMinutes(rows));
    RoundedHours(WeeklyMinutes(rows))
  }

  /** A row whose start or end hour is not a number adds nothing to the total. */
  lemma {:induction false} UnreadableRowAddsNothing(rows: seq<TeachingLoad>, item: TeachingLoad)
    requires SlotMinutes(item).None?
    ensures WeeklyMinutes(rows + [item]) == WeeklyMinutes(rows)
  {
    assert (rows + [item])[..|rows|] == rows;
  }

  /** The total when every row was picked from the time inputs: between 0 and 24 hours per row. */
  lemma {:induction false} PickedRowsTotal(rows: seq<TeachingLoad>)
    requires forall i :: 0 <= i < |rows| ==> SlotMinutes(rows[i]).Some? && 0 <= SlotMinutes(rows[i]).value < MinutesPerDay
    ensures 0 <= WeeklyMinutes(rows) < MinutesPerDay * |rows| || rows == []
  {
    if rows != [] {
      var init := rows[..|rows| - 1];
      PickedRowsTotal(init);
    }
  }

  /** The per-row figures added up, each rounded on its own. */
  function RowHoursSum(rows: seq<TeachingLoad>): real {
    if rows == [] then 0.0 else RowHoursSum(rows[..|rows| - 1]) + SlotHours(rows[|rows| - 1])
  }

  lemma {:induction false} RowHoursSumClose(rows: seq<TeachingLoad>)
    ensures -(|rows| as real) / 200.0 <= RowHoursSum(rows) - WeeklyMinutes(rows) as real / 60.0 <= (|rows| as real) / 200.0
  {
    if rows != [] {
      var init := rows[..|rows| - 1];
      RowHoursSumClose(init);
    }
  }

  /** The total is rounded once, the rows each on their own: the total differs from the sum
      of the figures in the table by less than (n + 1)/200 hours for n rows. */
  lemma TotalNearRowSum(rows: seq<TeachingLoad>)
    ensures var gap := TotalHoursPerWeek(rows) - RowHoursSum(rows);
      -(|rows| as real + 1.0) / 200.0 < gap < (|rows| as real + 1.0) / 200.0
  {
    RowHoursSumClose(rows);
  }

  /** The text in the "Hours/Session" cell: `(end - start).toFixed(2)`, or "0.0" when an hour
      is not a number. It reads back as the same hundredths the admin page shows. */
  function RowDurationText(item: TeachingLoad): (t: string)
    ensures FixedValue(t) == Some(SlotHundredths(item))
    ensures SlotMinutes(item).None? ==> t == "0.0"
    ensures SlotMinutes(item).Some? && SlotMinutes(item).value >= 0 ==> t == FixedText(SlotHundredths(item))
    ensures SlotMinutes(item).Some? && SlotMinutes(item).value < 0 ==> t == "-" + FixedText(-SlotHundredths(item))
  {
    RowText(ClockParts(item.startTime), ClockParts(item.endTime))
  }

  function RowText(startParts: (Option<int>, Option<int>), endParts: (Option<int>, Option<int>)): (t: string)
    ensures FixedValue(t) == Some(SpanHundredths(startParts, endParts))
    ensures Span(startParts, endParts).None? ==> t == "0.0"
    ensures Span(startParts, endParts).Some? && Span(startParts, endParts).value >= 0
         ==> t == FixedText(SpanHundredths(startParts, endParts))
    ensures Span(startParts, endParts).Some? && Span(startParts, endParts).value < 0
         ==> t == "-" + FixedText(-SpanHundredths(startParts, endParts))
  {
    var (sh, sm) := startParts;
    var (eh, em) := endParts;
    if sh.None? || eh.None? then
      ZeroText();
      "0.0"
    else
      var start := ClockMinutes(sh.value, sm);
      var end := ClockMinutes(eh.value, em);
      var end' := if end < start then end + MinutesPerDay else end;
      var m := end' - start;
      assert Span(startParts, endParts) == Some(m);
      if m < 0 then
        NegativeText(m);
        "-" + FixedText(Hundredths(-m))
      else
        PositiveText(m);
        FixedText(Hundredths(m))
  }

  /** The text shown for an unreadable row reads back as 0. */
  lemma ZeroText()
    ensures FixedValue("0.0") == Some(0)
  {
    assert UnsignedFixedValue("0.0") == Some(0) by { SplitJoin(["0", "0"], '.'); }
  }

  /** `toFixed(2)` of a negative length writes a minus sign, then the magnitude's hundredths. */
  lemma NegativeText(m: int)
    requires m < 0
    ensures FixedValue("-" + FixedText(Hundredths(-m))) == Some(Hundredths(m))
    ensures Hundredths(m) == -Hundredths(-m)
  {
    HundredthsMonotonic(0, -m);
    FixedTextRoundTrip(Hundredths(-m));
    HundredthsUnique(m, -Hundredths(-m));
  }

  /** `toFixed(2)` of a non-negative length reads back as its hundredths. */
  lemma PositiveText(m: int)
    requires m >= 0
    ensures FixedValue(FixedText(Hundredths(m))) == Some(Hundredths(m))
  {
    HundredthsMonotonic(0, m);
    FixedTextRoundTrip(Hundredths(m));
  }

  // ---------------------------------------------------------------------------
  // Mark Done button

  function MarkDoneDisabled(marking: Option<int>, item: TeachingLoad): bool {
    marking == Some(item.id) || item.completionStatus == "pending" || item.completionStatus == "approved"
  }

  /** The button text, with precedence Processing > Approved > Pending > Mark Done. */
  function MarkDoneLabel(marking: Option<int>, item: TeachingLoad): (text: string)
    ensures text == "Processing..." <==> marking == Some(item.id)
    ensures text == "✓ Approved" <==> marking != Some(item.id) && item.completionStatus == "approved"
    ensures text == "⏳ Pending" <==>
      marking != Some(item.id) && item.completionStatus != "approved" && item.completionStatus == "pending"
    ensures text == "Mark Done" <==>
      marking != Some(item.id) && item.completionStatus != "approved" && item.completionStatus != "pending"
  {
    if marking == Some(item.id) then "Processing..."
    else if item.completionStatus == "approved" then "✓ Approved"
    else if item.completionStatus == "pending" then "⏳ Pending"
    else "Mark Done"
  }

  /** The button can be pressed exactly when it reads "Mark Done". */
  lemma MarkDoneEnabledIffLabel(marking: Option<int>, item: TeachingLoad)
    ensures !MarkDoneDisabled(marking, item) <==> MarkDoneLabel(marking, item) == "Mark Done"
  {
  }

  // ---------------------------------------------------------------------------
  // Message box

  /** `handleSendMessage`: nothing happens when the text is blank or the teacher id is not set;
      otherwise the untrimmed text goes to the admins, and the box is cleared on success. */
  function SendMessage(input: string, teacherId: Option<int>, reply: Reply): (r: (string, Option<MessageRequest>))
    ensures r.1.Some? <==> !IsBlank(input) && IsChosen(teacherId)
    ensures r.1.Some? ==> r.1.value == MessageRequest(teacherId, "teacher", None, "admin", input)
    ensures r.0 == if r.1.Some? && reply.Accepted? then "" else input
  {
    if IsBlank(input) || !IsChosen(teacherId) then (input, None)
    else
      var request := MessageRequest(teacherId, "teacher", None, "admin", input);
      (if reply.Accepted? then "" else input, Some(request))
  }

  /** Every message sent holds at least one character that is not white space. */
  lemma SentMessageHasText(input: string, teacherId: Option<int>, reply: Reply)
    requires SendMessage(input, teacherId, reply).1.Some?
    ensures exists i :: 0 <= i < |input| && !IsWhitespace(input[i])
  {
    BlankIffAllWhitespace(input);
  }
}
