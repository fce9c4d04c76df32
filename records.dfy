/** The records the dashboards receive from the backend and the replies they get to requests.
    Field names follow the JSON keys (`teacher_name` is `teacherName`). A field the backend may
    leave out is an `Option`; numbers are exact (`real`, `int`). */
module Records {
  import opened Wrappers

  /** An attendance entry submitted by a teacher; `status` is "Submitted" or "Verified". */
  datatype Submission = Submission(
    id: int,
    teacherName: string,
    subject: string,
    classSection: string,
    date: string,
    hoursTaught: real,
    status: string)

  /** A notification shown on the dashboard; `kind` is the JSON `type`. */
  datatype Alert = Alert(id: int, kind: string, message: string, relatedTo: string)

  datatype Teacher = Teacher(id: int, name: string, email: string, department: string)

  /** A scheduled class; start and end are "HH:MM" texts when the admin form filled them in. */
  datatype TeachingLoad = TeachingLoad(
    id: int,
    teacherId: int,
    subject: string,
    classSection: string,
    day: string,
    startTime: Option<string>,
    endTime: Option<string>,
    completionStatus: string)

  datatype Message = Message(
    id: int,
    senderId: int,
    senderType: string,
    receiverId: Option<int>,
    receiverType: string,
    content: string,
    createdAt: string)

  /** The body posted to the send-message endpoint; a sender id that is NaN is sent as null
      (`None`). */
  datatype MessageRequest = MessageRequest(
    senderId: Option<int>,
    senderType: string,
    receiverId: Option<int>,
    receiverType: string,
    content: string)

  /** What came back from a request: a success flag, a response with the flag off (and its
      `message`, "" when absent), or a thrown error (and its response message, "" when absent). */
  datatype Reply = Accepted | Refused(message: string) | Failed(message: string)

  /** A status banner of a form. */
  datatype BannerKind = SuccessBanner | ErrorBanner
  datatype Banner = Banner(kind: BannerKind, text: string)

  /** A numeric id held in component state counts as chosen only when it is truthy:
      neither null nor 0. */
  predicate IsChosen(id: Option<int>) {
    id.Some? && id.value != 0
  }

  /** `text || fallback` for a string. */
  function OrDefault(text: string, fallback: string): (r: string)
    requires fallback != ""
    ensures r != ""
    ensures r == text || r == fallback
    ensures text != "" ==> r == text
  {
    if text != "" then text else fallback
  }
}
