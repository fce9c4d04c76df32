/** The admin's teaching-load page: the duration and status of each scheduled class, the
    per-teacher table, and the assignment form. */
module AdminTeachingLoad {
  import opened Wrappers
  import opened Records
  import opened Seqs
  import opened SlotDuration

  /** `computeDurationHours`: the hours of a class slot, rounded to hundredths, 0 when the start
      or end hour is not a number. */
  method ComputeDurationHours(load: TeachingLoad) returns (hours: real)
    ensures hours == SlotHours(load)
  {
    hours := HoursBetween(ClockParts(load.startTime), ClockParts(load.endTime));
  }

  /** The arithmetic of `computeDurationHours` once both times are split and parsed. */
  method HoursBetween(startParts: (Option<int>, Option<int>), endParts: (Option<int>, Option<int>))
    returns (hours: real)
    ensures hours == SpanHundredths(startParts, endParts) as real / 100.0
  {
    var sh, sm := startParts.0, startParts.1;
    var eh, em := endParts.0, endParts.1;
    if sh.None? || eh.None? {
      return 0.0;
    }
    var start := ClockMinutes(sh.value, sm);
    var end := ClockMinutes(eh.value, em);
    if end < start {
      end := end + MinutesPerDay;
    }
    hours := Hundredths(end - start) as real / 100.0;
  }

  /** `hours >= 1.67`. */
  predicate IsCompleted(hours: real) {
    hours >= 1.67
  }

  /** The badge of a completed row. The file stores its check mark as the UTF-8 bytes of "✓"
      decoded as Mac Roman, three characters. */
  const CompletedBadge := "Completed \U{201A}\U{FA}\U{EC}"

  /** The status badge of a row. */
  function LoadStatus(load: TeachingLoad): (badge: string)
    ensures badge == CompletedBadge || badge == "Active"
    ensures badge == "Active" <==> !IsCompleted(SlotHours(load))
  {
    if IsCompleted(SlotHours(load)) then CompletedBadge else "Active"
  }

  /** The threshold in minutes: a slot counts as completed exactly when it lasts at least
      100 minutes (1 h 40 min rounds to 1.67 h, 99 minutes to 1.65 h). */
  lemma CompletedIffHundredMinutes(load: TeachingLoad)
    ensures IsCompleted(SlotHours(load))
        <==> SlotMinutes(load).Some? && SlotMinutes(load).value >= 100
  {
    match SlotMinutes(load)
    case None =>
    case Some(m) =>
      if m >= 100 {
        HundredthsMonotonic(100, m);
        assert Hundredths(100) == 167;
      } else {
        HundredthsMonotonic(m, 99);
        assert Hundredths(99) == 165;
      }
  }

  /** `selectedTeacher ? teachingLoads.filter(load => load.teacher_id === selectedTeacher) : []`. */
  function TeacherLoads(loads: seq<TeachingLoad>, selected: Option<int>): (r: seq<TeachingLoad>)
    ensures !IsChosen(selected) ==> r == []
    ensures IsChosen(selected) ==> forall i :: 0 <= i < |r| ==> r[i].teacherId == selected.value
    ensures IsChosen(selected) ==>
      forall l :: multiset(r)[l] == if l.teacherId == selected.value then multiset(loads)[l] else 0
  {
    if IsChosen(selected) then
      var ofTeacher := (l: TeachingLoad) => l.teacherId == selected.value;
      FilterElements(loads, ofTeacher);
      Filter(loads, ofTeacher)
    else []
  }

  /** The rows of the table: every load when no teacher is chosen, otherwise exactly the
      chosen teacher's loads, each as often as it occurs. */
  function VisibleLoads(loads: seq<TeachingLoad>, selected: Option<int>): (r: seq<TeachingLoad>)
    ensures !IsChosen(selected) ==> r == loads
    ensures forall l ::
      multiset(r)[l] == if !IsChosen(selected) || l.teacherId == selected.value then multiset(loads)[l] else 0
    ensures IsChosen(selected) ==> forall i :: 0 <= i < |r| ==> r[i].teacherId == selected.value
  {
    if IsChosen(selected) then TeacherLoads(loads, selected) else loads
  }

  // ---------------------------------------------------------------------------
  // Assignment form

  datatype LoadForm = LoadForm(subject: string, classSection: string, day: string,
                               startTime: string, endTime: string)

  const EmptyLoadForm := LoadForm("", "", "", "", "")

  /** The body posted to create a teaching load. */
  datatype AssignRequest = AssignRequest(teacherId: int, subject: string, classSection: string,
                                         day: string, startTime: string, endTime: string)

  datatype AssignState = AssignState(selected: Option<int>, form: LoadForm, message: Option<Banner>)

  predicate FormFilled(selected: Option<int>, f: LoadForm) {
    IsChosen(selected) && f.subject != "" && f.classSection != "" && f.day != ""
    && f.startTime != "" && f.endTime != ""
  }

  /** The guard of `handleAssignTeachingLoad`: a request carrying the chosen teacher and the
      form's fields, or "Please fill all fields" when a teacher or any field is missing. */
  function CheckAssignment(selected: Option<int>, f: LoadForm): (r: Result<AssignRequest, string>)
    ensures r.Ok? <==> FormFilled(selected, f)
    ensures r.Err? ==> r.error == "Please fill all fields"
    ensures r.Ok? ==> r.value == AssignRequest(selected.value, f.subject, f.classSection, f.day,
                                               f.startTime, f.endTime)
  {
    if !IsChosen(selected) || f.subject == "" || f.classSection == "" || f.day == ""
       || f.startTime == "" || f.endTime == "" then
      Err("Please fill all fields")
    else
      Ok(AssignRequest(selected.value, f.subject, f.classSection, f.day, f.startTime, f.endTime))
  }

  /** `handleAssignTeachingLoad`: the request sent, if any, and the form after the reply. A
      success clears the form and the teacher; a thrown error shows the server's message or a
      fallback and keeps the form; a response without the success flag changes nothing. */
  function AssignTeachingLoad(st: AssignState, reply: Reply): (r: (AssignState, Option<AssignRequest>))
    ensures r.1.Some? <==> FormFilled(st.selected, st.form)
    ensures r.1.Some? ==> CheckAssignment(st.selected, st.form) == Ok(r.1.value)
    ensures r.1.None? ==> r.0 == st.(message := Some(Banner(ErrorBanner, "Please fill all fields")))
    ensures r.1.Some? && reply.Accepted? ==>
      r.0 == AssignState(None, EmptyLoadForm, Some(Banner(SuccessBanner, "Teaching load assigned successfully!")))
    ensures r.1.Some? && reply.Refused? ==> r.0 == st
    ensures r.1.Some? && reply.Failed? ==>
      r.0 == st.(message := Some(Banner(ErrorBanner, OrDefault(reply.message, "Error assigning teaching load"))))
  {
    match CheckAssignment(st.selected, st.form)
    case Err(e) => (st.(message := Some(Banner(ErrorBanner, e))), None)
    case Ok(request) =>
      var next := match reply
        case Accepted =>
          AssignState(None, EmptyLoadForm, Some(Banner(SuccessBanner, "Teaching load assigned successfully!")))
        case Refused(_) => st
        case Failed(m) =>
          st.(message := Some(Banner(ErrorBanner, OrDefault(m, "Error assigning teaching load"))));
      (next, Some(request))
  }

  /** After a successful assignment the form is empty, so pressing the button again sends
      nothing and asks for the fields. */
  lemma AssignAgainAfterSuccess(st: AssignState, reply: Reply)
    requires FormFilled(st.selected, st.form)
    ensures var (after, _) := AssignTeachingLoad(st, Accepted);
      AssignTeachingLoad(after, reply).1 == None
      && AssignTeachingLoad(after, reply).0.message == Some(Banner(ErrorBanner, "Please fill all fields"))
  {
  }
}
