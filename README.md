# Teacher-attendance dashboards: the logic behind the views

This project models the logic inside two React views of a school attendance and teaching-load front end, and proves properties of it in Dafny.

- **AdminDashboard.tsx** (the administrator's dashboard) covers:
  - the overview figures: the teacher filter, the pending and verified counts, the sorted list of teacher names, the hours per teacher for the pie chart, the total hours and the alert list;
  - approving and adjusting attendance submissions;
  - the duration and the "Completed" badge of each teaching-load slot;
  - the form that assigns a teaching load;
  - the password-change form;
  - the inbox, which groups messages by sender, shows one teacher's conversation and sends replies.
- **TeacherHome.tsx** (the teacher's pages) covers:
  - the attendance form;
  - the weekly total of the teaching-load table and each row's duration;
  - the Mark Done button;
  - the message box.

## How the JavaScript is modelled

Records from the backend are datatypes (`Records`). A field the backend may leave out is an `Option`.

The JavaScript string operations the views rely on are written out on `seq<char>` (`JsString`):
- `split` on one character;
- `parseInt(v, 10)`: ECMAScript white space, a sign, then the longest digit prefix; NaN becomes `None`;
- `parseInt(v)` with no radix, used for the stored admin id: the same, except that "0x" or "0X" after the sign switches to hexadecimal digits;
- `trim`;
- `toFixed(2)`;
- the default `sort()` order.

The insertion order of a `Set`, a `Map` or an object's keys is `Seqs.Distinct` (order of first appearance). `filter` is `Seqs.Filter`.

### Slot durations

Every slot time is a whole number of minutes, so durations are kept as exact integers (`SlotDuration`):
- `sh + sm/60` hours is modelled as `60*sh + sm` minutes;
- `+x.toFixed(2)` is modelled as a whole number of hundredths of an hour.

Rounding m minutes to hundredths never meets a tie, because 5m/3 is never a whole number plus one half. This makes the model's rounding exact.

The code computes the duration three times: the admin's `computeDurationHours`, the teacher page's `reduce` step, and the teacher page's row text. Each copy is modelled separately, and each carries a contract tying it to `SlotDuration.SlotMinutes` or `SlotDuration.SlotHours`. Together these contracts show that the three copies agree.

### Form handlers

A form handler becomes a function from the form's state and the server's reply to the new state and the request it sends, if any. The reply (`Records.Reply`) is one of three cases:
- accepted;
- answered without the success flag;
- a thrown error carrying the server's message.

### Notes on the code as written

- Durations can be negative. Hours outside 0–23 are not rejected: a start of "30:00" and an end of "00:00" gives −6 h.
- The admin file stores the check mark of "Completed ✓" as three characters, the UTF-8 bytes of "✓" decoded as Mac Roman. `AdminTeachingLoad.CompletedBadge` keeps those three characters. The teacher file's "✓ Approved" and "⏳ Pending" are stored correctly.

## Model

| member | source | states |
|---|---|---|
| JsString.TrimStart | dashboard-frontend/dashboard-frontend/src/teacher/TeacherHome.tsx:527 | the result is a suffix of the input; what was dropped is all white space; the result does not start with white space |
| JsString.TrimEnd | dashboard-frontend/dashboard-frontend/src/teacher/TeacherHome.tsx:527 | the result is a prefix of the input; what was dropped is all white space; the result does not end with white space |
| JsString.Trim | dashboard-frontend/dashboard-frontend/src/teacher/TeacherHome.tsx:527 | `trim` leaves a piece of the input with only white space before and after it, and the piece neither starts nor ends with white space |
| JsString.BlankIffAllWhitespace | dashboard-frontend/dashboard-frontend/src/teacher/TeacherHome.tsx:527 | `!s.trim()` holds exactly when every character of s is ECMAScript white space or a line terminator |
| JsString.Split | dashboard-frontend/dashboard-frontend/src/admin/AdminDashboard.tsx:1140 | `split(':')` always yields at least one part, and no part contains the separator |
| JsString.JoinSplit | dashboard-frontend/dashboard-frontend/src/admin/AdminDashboard.tsx:1140 | joining the parts of a split with the separator gives back the input |
| JsString.SplitJoin | dashboard-frontend/dashboard-frontend/src/admin/AdminDashboard.tsx:1140 | splitting a join of separator-free parts gives back the parts |
| JsString.SplitWhole | dashboard-frontend/dashboard-frontend/src/admin/AdminDashboard.tsx:1140 | a text without the separator splits into itself alone |
| JsString.NatText | dashboard-frontend/dashboard-frontend/src/teacher/TeacherHome.tsx:314 | the decimal digits of n: at least one, no leading zero, reading back as n |
| JsString.Digits2 | dashboard-frontend/dashboard-frontend/src/teacher/TeacherHome.tsx:314 | a two-digit, zero-padded text of n < 100 that reads back as n |
| JsString.DigitPrefix | dashboard-frontend/dashboard-frontend/src/admin/AdminDashboard.tsx:1140 | the longest run of digits at the start of a text |
| JsString.ParseIntLeadingDigits | dashboard-frontend/dashboard-frontend/src/admin/AdminDashboard.tsx:1140 | `parseInt` of a text that starts with digits is the value of those digits |
| JsString.ParseIntNoDigits | dashboard-frontend/dashboard-frontend/src/admin/AdminDashboard.tsx:1140 | `parseInt` of a text without any digit is NaN |
| JsString.ParseIntNaN | dashboard-frontend/dashboard-frontend/src/admin/AdminDashboard.tsx:1140 | `parseInt` is NaN whenever, after leading white space and an optional sign, the next character is not a digit ("x9", "-a1") |
| JsString.ParseIntSigned | dashboard-frontend/dashboard-frontend/src/admin/AdminDashboard.tsx:1140-1141 | `parseInt` skips leading white space, takes an optional sign, and reads the digits up to the first non-digit (" 9" is 9, "-5px" is −5) |
| JsString.ParseIntHex | dashboard-frontend/dashboard-frontend/src/admin/AdminDashboard.tsx:1599 | `parseInt` with no radix skips white space, takes an optional sign, and after "0x" or "0X" reads hexadecimal digits up to the first non-hex-digit (" 0x1F" is 31, "-0X10" is −16) |
| JsString.AnyRadixIsDecimal | dashboard-frontend/dashboard-frontend/src/admin/AdminDashboard.tsx:1599 | without a "0x"/"0X" prefix after the white space and the sign, `parseInt(v)` agrees with `parseInt(v, 10)` |
| JsString.HexVersusDecimal | dashboard-frontend/dashboard-frontend/src/admin/AdminDashboard.tsx:1599 | the two differ: "0x10" is 16 with no radix and 0 in base 10 |
| JsString.FixedTextParts | dashboard-frontend/dashboard-frontend/src/teacher/TeacherHome.tsx:314 | `toFixed(2)` of n hundredths writes n div 100, a point, then n mod 100 in two digits |
| JsString.UnsignedFixedRoundTrip | dashboard-frontend/dashboard-frontend/src/teacher/TeacherHome.tsx:314 | the text `toFixed(2)` writes reads back as the same number of hundredths |
| JsString.FixedTextRoundTrip | dashboard-frontend/dashboard-frontend/src/teacher/TeacherHome.tsx:314 | what `toFixed(2)` writes (`FixedText`), read back by `FixedValue`, is the same number of hundredths, with and without a minus sign |
| JsString.StrLessIrreflexive | dashboard-frontend/dashboard-frontend/src/admin/AdminDashboard.tsx:129 | the default `sort()` order is irreflexive |
| JsString.StrLessAsymmetric | dashboard-frontend/dashboard-frontend/src/admin/AdminDashboard.tsx:129 | the default `sort()` order is asymmetric |
| JsString.StrLessTransitive | dashboard-frontend/dashboard-frontend/src/admin/AdminDashboard.tsx:129 | the default `sort()` order is transitive |
| JsString.StrLessTotal | dashboard-frontend/dashboard-frontend/src/admin/AdminDashboard.tsx:129 | any two different strings are ordered one way or the other |
| Seqs.Distinct | dashboard-frontend/dashboard-frontend/src/admin/AdminDashboard.tsx:129 | `new Set` / `new Map` key order: no duplicates, the same elements as the input, no longer than the input |
| Seqs.DistinctOrder | dashboard-frontend/dashboard-frontend/src/admin/AdminDashboard.tsx:155-163 | the keys come in the order of their first occurrence: an earlier key first occurs before a later one |
| Seqs.FindFirst | dashboard-frontend/dashboard-frontend/src/admin/AdminDashboard.tsx:348 | `find` by id (of a submission here, of a teacher at line 1642): the first element with that id, and none exactly when no element has it |
| Seqs.DistinctSnoc | dashboard-frontend/dashboard-frontend/src/admin/AdminDashboard.tsx:155-159 | inserting a key already present keeps its place; a new key goes at the end |
| Seqs.Filter | dashboard-frontend/dashboard-frontend/src/admin/AdminDashboard.tsx:132-137 | `filter`: every kept element satisfies the predicate, and the result is no longer than the input |
| Seqs.FilterElements | dashboard-frontend/dashboard-frontend/src/admin/AdminDashboard.tsx:132-137 | `filter` keeps each element that satisfies the predicate as often as it occurs, and no other |
| Seqs.FilterAppend | dashboard-frontend/dashboard-frontend/src/admin/AdminDashboard.tsx:132-137 | `filter` keeps the order: it distributes over concatenation |
| Seqs.FilterUpdate | dashboard-frontend/dashboard-frontend/src/admin/AdminDashboard.tsx:136-137 | replacing one element changes a filtered count by what the old and the new element contribute |
| Seqs.Slice | dashboard-frontend/dashboard-frontend/src/admin/AdminDashboard.tsx:161-163 | `slice(0, n)`: the first min(n, length) elements, in order; so the pie keeps at most five entries (and the alert list at line 51 at most five alerts) |
| SlotDuration.Span | dashboard-frontend/dashboard-frontend/src/admin/AdminDashboard.tsx:1142-1145 | NaN exactly when an hour is NaN; otherwise end − start in minutes, plus a day when that is negative |
| SlotDuration.Hundredths | dashboard-frontend/dashboard-frontend/src/admin/AdminDashboard.tsx:1146 | `+(m/60).toFixed(2)` is the hundredth of an hour nearest to m minutes: |100m − 60r| < 30 |
| SlotDuration.HundredthsUnique | dashboard-frontend/dashboard-frontend/src/admin/AdminDashboard.tsx:1146 | only one whole number of hundredths lies that close, so the rounding is determined |
| SlotDuration.HundredthsMonotonic | dashboard-frontend/dashboard-frontend/src/admin/AdminDashboard.tsx:1146 | rounding keeps the order of durations and the sign of non-negative ones |
| SlotDuration.RoundedHoursClose | dashboard-frontend/dashboard-frontend/src/admin/AdminDashboard.tsx:1146 | the rounded hours lie within 1/200 h of the exact duration |
| SlotDuration.SlotHundredths | dashboard-frontend/dashboard-frontend/src/admin/AdminDashboard.tsx:1146 | the slot length in hundredths of an hour: 0 when an hour is NaN, otherwise the whole number of hundredths within half a hundredth of minutes/60, which `HundredthsUnique` shows is the only one; it has the sign of the length |
| SlotDuration.SlotHours | dashboard-frontend/dashboard-frontend/src/admin/AdminDashboard.tsx:1138-1150 | `computeDurationHours` as a number: 0 when an hour is NaN, otherwise the slot length rounded to a whole hundredth of an hour (`SlotHundredths` / 100), hence within 1/200 h of the exact length |
| SlotDuration.ClockTextParts | dashboard-frontend/dashboard-frontend/src/admin/AdminDashboard.tsx:1140-1141 | an "HH:MM" time splits and parses back into its hour and minute |
| SlotDuration.MissingMinuteIsZero | dashboard-frontend/dashboard-frontend/src/admin/AdminDashboard.tsx:1140-1145 | a time without ':' has no minute part, which `(sm || 0)` counts as 0 |
| SlotDuration.ClockSpan | dashboard-frontend/dashboard-frontend/src/admin/AdminDashboard.tsx:1143-1145 | for clock times, the wrapped difference is (end − start) mod 1440 minutes |
| SlotDuration.DayLengthHours | dashboard-frontend/dashboard-frontend/src/admin/AdminDashboard.tsx:1146 | a duration under a day rounds to under 24 h |
| SlotDuration.PickedSlot | dashboard-frontend/dashboard-frontend/src/admin/AdminDashboard.tsx:1138-1150 | for well-formed HH:MM times the duration is (end − start) mod a day, in [0, 24) h |
| SlotDuration.UnreadableSlotIsZero | dashboard-frontend/dashboard-frontend/src/admin/AdminDashboard.tsx:1142 | the duration is 0 when the start or end hour is NaN |
| AdminSummary.FilterByTeacher | dashboard-frontend/dashboard-frontend/src/admin/AdminDashboard.tsx:132-134 | an empty selection keeps every submission; otherwise exactly that teacher's submissions, each as often as in the list |
| AdminSummary.CountStatus | dashboard-frontend/dashboard-frontend/src/admin/AdminDashboard.tsx:136-137 | a status count is at most the number of records, and 0 exactly when no record has that status |
| AdminSummary.CountStatusSnoc | dashboard-frontend/dashboard-frontend/src/admin/AdminDashboard.tsx:136-137 | the status count is the number of matching records: 0 for none, and one more for each further record with that status |
| AdminSummary.StatusCountsBounded | dashboard-frontend/dashboard-frontend/src/admin/AdminDashboard.tsx:136-137 | the counts of two different statuses add up to at most the list length, so pending + verified ≤ the filtered length |
| AdminSummary.InsertElements | dashboard-frontend/dashboard-frontend/src/admin/AdminDashboard.tsx:129 | inserting into a list adds exactly that element |
| AdminSummary.InsertSorted | dashboard-frontend/dashboard-frontend/src/admin/AdminDashboard.tsx:129 | inserting a new name into an ascending list keeps it strictly ascending |
| AdminSummary.InsertBelowHead | dashboard-frontend/dashboard-frontend/src/admin/AdminDashboard.tsx:129 | an insertion past the head leaves the head below every element after it |
| AdminSummary.SortSorted | dashboard-frontend/dashboard-frontend/src/admin/AdminDashboard.tsx:129 | `sort()` of distinct names is a strictly ascending permutation |
| AdminSummary.UniqueTeachersSorted | dashboard-frontend/dashboard-frontend/src/admin/AdminDashboard.tsx:129 | the dropdown (`UniqueTeachers`) is strictly ascending, has no duplicates, and holds exactly the names that occur |
| AdminSummary.HoursByTeacher | dashboard-frontend/dashboard-frontend/src/admin/AdminDashboard.tsx:155-159 | the `forEach` leaves one key per teacher in first-appearance order, each holding that teacher's hours |
| AdminSummary.TallyStep | dashboard-frontend/dashboard-frontend/src/admin/AdminDashboard.tsx:155-159 | one turn of the `forEach` (store the record's hours under its name, append the name if new) keeps the keys and hours right for the longer list |
| AdminSummary.KeysStep | dashboard-frontend/dashboard-frontend/src/admin/AdminDashboard.tsx:155-159 | one more record appends its name to the keys exactly when the name is new |
| AdminSummary.HoursStep | dashboard-frontend/dashboard-frontend/src/admin/AdminDashboard.tsx:155-159 | one more record adds its hours under its own name and changes no other name's hours |
| AdminSummary.HoursOfAbsent | dashboard-frontend/dashboard-frontend/src/admin/AdminDashboard.tsx:155-159 | a name with no record has no hours |
| AdminSummary.HoursOfAllStep | dashboard-frontend/dashboard-frontend/src/admin/AdminDashboard.tsx:155-166 | one more record adds its hours once to a distinct-name total that includes its teacher |
| AdminSummary.HoursAddUp | dashboard-frontend/dashboard-frontend/src/admin/AdminDashboard.tsx:155-166 | the per-teacher sums add up to `totalHours` (`TotalHours`) for the same filtered list |
| AdminSummary.Entries | dashboard-frontend/dashboard-frontend/src/admin/AdminDashboard.tsx:161-162 | one entry per teacher name, each name once, every name of a record present, in first-appearance order, each holding that teacher's hours |
| AdminSummary.EntriesAddUp | dashboard-frontend/dashboard-frontend/src/admin/AdminDashboard.tsx:155-166 | the chart entries' hours add up to `totalHours` for the same filtered list |
| AdminSummary.PieChartData | dashboard-frontend/dashboard-frontend/src/admin/AdminDashboard.tsx:161-163 | the pie data holds the first min(5, number of teachers) entries, each name once, each with that teacher's hours |
| AdminSummary.PieSliceIgnoresHours | dashboard-frontend/dashboard-frontend/src/admin/AdminDashboard.tsx:161-163 | as written, the pie data of six records (five teachers with 1 h, a sixth with 5 h) leaves out the teacher with the most hours |
| AdminSummary.InsertByHoursElements | dashboard-frontend/dashboard-frontend/src/admin/AdminDashboard.tsx:163 | inserting by hours adds exactly that entry |
| AdminSummary.InsertByHoursSorted | dashboard-frontend/dashboard-frontend/src/admin/AdminDashboard.tsx:163 | inserting by hours keeps the hours descending |
| AdminSummary.SortByHoursSorted | dashboard-frontend/dashboard-frontend/src/admin/AdminDashboard.tsx:163 | sorting by hours gives a descending permutation |
| AdminSummary.TopFiveKeepsMost | dashboard-frontend/dashboard-frontend/src/admin/AdminDashboard.tsx:163 | the corrected chart (`TopFive`) keeps min(5, n) entries, and no entry left out has more hours than one kept |
| AdminSummary.LatestAlerts | dashboard-frontend/dashboard-frontend/src/admin/AdminDashboard.tsx:51 | the alert list is the first min(5, n) alerts, in the server's order |
| AdminVerify.MarkVerified | dashboard-frontend/dashboard-frontend/src/admin/AdminDashboard.tsx:330-334 | same length; a record with the id becomes "Verified" and nothing else in it changes; every other record is unchanged |
| AdminVerify.Approve | dashboard-frontend/dashboard-frontend/src/admin/AdminDashboard.tsx:323-342 | the list changes only when the server accepted, and then as `MarkVerified` |
| AdminVerify.ApproveIdempotent | dashboard-frontend/dashboard-frontend/src/admin/AdminDashboard.tsx:330-334 | approving twice is approving once |
| AdminVerify.ApproveOne | dashboard-frontend/dashboard-frontend/src/admin/AdminDashboard.tsx:330-334 | with unique ids, approving rewrites exactly one record |
| AdminVerify.ApproveCounts | dashboard-frontend/dashboard-frontend/src/admin/AdminDashboard.tsx:330-334 | approving a pending record moves one from the pending count to the verified count |
| AdminVerify.SetHours | dashboard-frontend/dashboard-frontend/src/admin/AdminDashboard.tsx:359-365 | same length; a record with the id gets the new hours and "Verified"; every other record is unchanged |
| AdminVerify.Adjust | dashboard-frontend/dashboard-frontend/src/admin/AdminDashboard.tsx:344-374 | a request only when the prompt gave a non-empty text and a record has the id, carrying that record with the new hours and status; the list changes only on acceptance |
| AdminVerify.ApproveAfterAdjust | dashboard-frontend/dashboard-frontend/src/admin/AdminDashboard.tsx:330-334 | approving an adjusted record changes nothing |
| AdminVerify.AdjustOne | dashboard-frontend/dashboard-frontend/src/admin/AdminDashboard.tsx:359-365 | with unique ids, adjusting rewrites exactly one record |
| AdminTeachingLoad.ComputeDurationHours | dashboard-frontend/dashboard-frontend/src/admin/AdminDashboard.tsx:1138-1150 | `computeDurationHours` returns the slot's rounded hours, `SlotDuration.SlotHours` |
| AdminTeachingLoad.HoursBetween | dashboard-frontend/dashboard-frontend/src/admin/AdminDashboard.tsx:1142-1146 | the arithmetic after parsing, with `end` reassigned, gives the rounded span |
| AdminTeachingLoad.LoadStatus | dashboard-frontend/dashboard-frontend/src/admin/AdminDashboard.tsx:1299-1322 | the badge is "Active" exactly when the rounded hours are below 1.67, and the completed badge otherwise |
| AdminTeachingLoad.CompletedIffHundredMinutes | dashboard-frontend/dashboard-frontend/src/admin/AdminDashboard.tsx:1299 | a slot is Completed exactly when its duration is at least 100 minutes |
| AdminTeachingLoad.TeacherLoads | dashboard-frontend/dashboard-frontend/src/admin/AdminDashboard.tsx:1134-1136 | no teacher chosen: empty; otherwise exactly the chosen teacher's loads |
| AdminTeachingLoad.VisibleLoads | dashboard-frontend/dashboard-frontend/src/admin/AdminDashboard.tsx:1297 | every load when no teacher is chosen; otherwise exactly the chosen teacher's loads, each as often as it occurs |
| AdminTeachingLoad.CheckAssignment | dashboard-frontend/dashboard-frontend/src/admin/AdminDashboard.tsx:1105-1119 | a request exactly when a teacher is chosen and all five fields are filled, carrying them; otherwise "Please fill all fields" |
| AdminTeachingLoad.AssignTeachingLoad | dashboard-frontend/dashboard-frontend/src/admin/AdminDashboard.tsx:1104-1131 | success clears the form and the teacher; a thrown error shows the server message or "Error assigning teaching load"; a reply without success changes nothing |
| AdminTeachingLoad.AssignAgainAfterSuccess | dashboard-frontend/dashboard-frontend/src/admin/AdminDashboard.tsx:1121-1124 | after a success, assigning again sends nothing and asks for the fields |
| AdminSettings.CheckPasswordChange | dashboard-frontend/dashboard-frontend/src/admin/AdminDashboard.tsx:1363-1374 | the three checks in order: each message holds exactly when the earlier checks pass and its own fails; a request exactly when all pass |
| AdminSettings.ChangePassword | dashboard-frontend/dashboard-frontend/src/admin/AdminDashboard.tsx:1362-1395 | a request only when the checks pass; success clears the three fields; otherwise the server message or "Error changing password" |
| AdminSettings.RequestIsConfirmed | dashboard-frontend/dashboard-frontend/src/admin/AdminDashboard.tsx:1363-1381 | every request carries a confirmed new password of at least 6 characters and a current password |
| AdminSettings.ChangeAgainAfterSuccess | dashboard-frontend/dashboard-frontend/src/admin/AdminDashboard.tsx:1383-1387 | after a success, submitting again sends nothing and reports "All fields are required" |
| AdminMessages.TeacherName | dashboard-frontend/dashboard-frontend/src/admin/AdminDashboard.tsx:1642 | the shown name is the name of the first teacher with that id when it is not empty, and "Unknown Teacher" when no teacher has the id or that name is empty; never empty |
| AdminMessages.SenderGroupsSpec | dashboard-frontend/dashboard-frontend/src/admin/AdminDashboard.tsx:1635-1645 | the sender list (`SenderGroups`): one group per distinct sender id, in first-message order; each is named `TeacherName` of its id, and its count is that sender's number of messages, at least one |
| AdminMessages.CountFromPositive | dashboard-frontend/dashboard-frontend/src/admin/AdminDashboard.tsx:1643 | a sender of some message has a count of at least one |
| AdminMessages.CountsOfStep | dashboard-frontend/dashboard-frontend/src/admin/AdminDashboard.tsx:1643 | one more message adds one to a distinct-id total that includes its sender |
| AdminMessages.CountFromAbsent | dashboard-frontend/dashboard-frontend/src/admin/AdminDashboard.tsx:1643 | an id that sent nothing counts zero |
| AdminMessages.CountsAddUp | dashboard-frontend/dashboard-frontend/src/admin/AdminDashboard.tsx:1643 | the counts over the distinct senders add up to the number of messages |
| AdminMessages.GroupCountsSum | dashboard-frontend/dashboard-frontend/src/admin/AdminDashboard.tsx:1635-1645 | the counts on the sender list add up to the number of messages |
| AdminMessages.SumCountsOfIds | dashboard-frontend/dashboard-frontend/src/admin/AdminDashboard.tsx:1635-1645 | the list's counts add up to the counts of its ids |
| AdminMessages.TeacherMessages | dashboard-frontend/dashboard-frontend/src/admin/AdminDashboard.tsx:1619-1621 | empty when no teacher is chosen; otherwise exactly the messages whose sender id is that id |
| AdminMessages.HandleReply | dashboard-frontend/dashboard-frontend/src/admin/AdminDashboard.tsx:1591-1617 | a request exactly when the reply is not blank and a teacher is chosen, carrying the untrimmed text to that teacher, sent as `parseInt` with no radix of the stored admin id, or of "1" when none is stored or it is empty; the box is cleared only on success |
| AdminMessages.ReplyFromDefaultAdmin | dashboard-frontend/dashboard-frontend/src/admin/AdminDashboard.tsx:1595-1599 | without a stored admin id, a reply is sent as admin 1 |
| AdminMessages.GroupingMixesAdminReplies | dashboard-frontend/dashboard-frontend/src/admin/AdminDashboard.tsx:1619-1645 | as written, an admin reply is listed under the teacher with the admin's id, shown in that teacher's pane and missing from the addressee's |
| AdminMessages.Conversation | dashboard-frontend/dashboard-frontend/src/admin/AdminDashboard.tsx:1619-1621 | corrected pane: exactly the chosen teacher's messages and the admin's messages to that teacher |
| AdminMessages.TeacherGroupsSpec | dashboard-frontend/dashboard-frontend/src/admin/AdminDashboard.tsx:1635-1645 | corrected list: exactly the teachers who sent messages, once each, with counts adding up to the teacher messages |
| Records.OrDefault | dashboard-frontend/dashboard-frontend/src/admin/AdminDashboard.tsx:1127-1128 | `text || fallback` on a server message: never empty, and the server's own text whenever it has one |
| TeacherHome.HandleChange | dashboard-frontend/dashboard-frontend/src/teacher/TeacherHome.tsx:121-127 | the named field gets the value and every other field is unchanged |
| TeacherHome.ChangesCommute | dashboard-frontend/dashboard-frontend/src/teacher/TeacherHome.tsx:121-127 | edits of different fields commute; the later edit of the same field wins |
| TeacherHome.SubmitAttendance | dashboard-frontend/dashboard-frontend/src/teacher/TeacherHome.tsx:129-154 | a request exactly when all four fields are filled, carrying them; otherwise "All fields are required"; success resets the form; a thrown error sets "Failed to submit attendance" |
| TeacherHome.SubmitAgainAfterSuccess | dashboard-frontend/dashboard-frontend/src/teacher/TeacherHome.tsx:145-147 | after a success the fields are empty, so submitting again sends nothing |
| TeacherHome.StaleErrorAfterSuccess | dashboard-frontend/dashboard-frontend/src/teacher/TeacherHome.tsx:131-152 | as written, an earlier error stays on screen next to the success banner |
| TeacherHome.SubmitAttendanceClearingError | dashboard-frontend/dashboard-frontend/src/teacher/TeacherHome.tsx:129-154 | corrected: the same requests, and a success shows no error |
| TeacherHome.ReduceStep | dashboard-frontend/dashboard-frontend/src/teacher/TeacherHome.tsx:233-245 | the `reduce` step adds the row's slot minutes, the same as `SlotDuration.SlotMinutes`, and adds 0 when an hour is NaN |
| TeacherHome.StepMinutes | dashboard-frontend/dashboard-frontend/src/teacher/TeacherHome.tsx:235-241 | the step's own arithmetic agrees with the shared span |
| TeacherHome.UnreadableRowAddsNothing | dashboard-frontend/dashboard-frontend/src/teacher/TeacherHome.tsx:237 | a row whose hour is NaN leaves the weekly total unchanged |
| TeacherHome.WeeklyMinutesAppend | dashboard-frontend/dashboard-frontend/src/teacher/TeacherHome.tsx:233-245 | the `reduce` total (`WeeklyMinutes`) of two lists one after the other is the sum of their totals, so the order of the rows does not matter |
| TeacherHome.TotalHoursPerWeek | dashboard-frontend/dashboard-frontend/src/teacher/TeacherHome.tsx:246 | the "Total Hours/Week" figure is the weekly total rounded to a whole hundredth of an hour, hence within 1/200 h of the exact weekly hours |
| TeacherHome.PickedRowsTotal | dashboard-frontend/dashboard-frontend/src/teacher/TeacherHome.tsx:233-246 | with well-formed times the weekly total lies between 0 and 24 h per row |
| TeacherHome.RowHoursSumClose | dashboard-frontend/dashboard-frontend/src/teacher/TeacherHome.tsx:306-317 | the row figures add up to within n/200 h of the exact weekly minutes |
| TeacherHome.TotalNearRowSum | dashboard-frontend/dashboard-frontend/src/teacher/TeacherHome.tsx:233-246 | the rounded weekly total differs from the sum of the rounded rows by less than (n+1)/200 h |
| TeacherHome.RowDurationText | dashboard-frontend/dashboard-frontend/src/teacher/TeacherHome.tsx:306-317 | the cell text is exactly `toFixed(2)` of the admin view's hundredths for the same slot (a minus sign and the magnitude when negative), so it reads back as those hundredths; it is "0.0" when an hour is NaN |
| TeacherHome.NegativeText | dashboard-frontend/dashboard-frontend/src/teacher/TeacherHome.tsx:314 | `toFixed(2)` of a negative length, read back, is the same rounded hundredths as the admin view's |
| TeacherHome.PositiveText | dashboard-frontend/dashboard-frontend/src/teacher/TeacherHome.tsx:314 | `toFixed(2)` of a non-negative length reads back as its rounded hundredths |
| TeacherHome.ZeroText | dashboard-frontend/dashboard-frontend/src/teacher/TeacherHome.tsx:310 | the text "0.0" of an unreadable row reads back as 0 |
| TeacherHome.RowText | dashboard-frontend/dashboard-frontend/src/teacher/TeacherHome.tsx:308-316 | the inline expression's text is `toFixed(2)` of the rounded span, signed, and reads back as it; "0.0" when an hour is NaN |
| TeacherHome.MarkDoneLabel | dashboard-frontend/dashboard-frontend/src/teacher/TeacherHome.tsx:332 | the label follows Processing > Approved > Pending > Mark Done, each as an if-and-only-if |
| TeacherHome.MarkDoneEnabledIffLabel | dashboard-frontend/dashboard-frontend/src/teacher/TeacherHome.tsx:329-332 | the button is enabled (`MarkDoneDisabled` false) exactly when it reads "Mark Done" |
| TeacherHome.SendMessage | dashboard-frontend/dashboard-frontend/src/teacher/TeacherHome.tsx:526-549 | a request exactly when the text is not blank and the teacher id is set, carrying the untrimmed text to the admins; the box is cleared only on success |
| TeacherHome.SentMessageHasText | dashboard-frontend/dashboard-frontend/src/teacher/TeacherHome.tsx:527 | every sent message has a character that is not white space |

## Left out

- The HTTP calls (axios and `fetch`) are left out. Each handler takes the server's answer as a `Reply` parameter: accepted, refused with a message, or failed by throwing. The data refreshes that follow a success are also left out: `onRefresh()` after an approval or an adjustment (AdminDashboard.tsx lines 335 and 366), `fetchTeachingLoads()` after an assignment (line 1125), `fetchMessages()` after a reply or a sent message (AdminDashboard.tsx line 1609, TeacherHome.tsx line 543) and `fetchData()` after a load is marked done (TeacherHome.tsx line 260).
- The `setInterval` polling for messages and online status is left out, as concurrency. So is the `setTimeout` that hides the attendance success banner after three seconds.
- `localStorage` becomes a parameter: the stored admin id, given to `AdminMessages.HandleReply`. The admin id inside the password-change URL is not modelled.
- `alert` and `window.confirm` are left out. `prompt` becomes a parameter: the entered hours text, or none when it is cancelled.
- Left out: the monthly chart (`new Date` parsing and month names), the online-status mock, deleting teachers and loads, salary, CSV and payslip downloads, and adding teachers.
- The Mark-Done request handler itself is not modelled. Only the button's enabled state and its label are.
- Loading and submitting flags are left out, apart from the one row being marked done, which decides the button.
- IEEE floating point is not modelled. Durations are exact whole minutes, and rounded hours are exact hundredths. `parseFloat` in the adjust handler is a parameter, so a NaN result is whatever that parameter returns.
- Submission hours are `real`. The branch where `hours_taught` arrives as a string, and the `|| 0` fallback in the totals, are not modelled.
- `AdminSettings.CheckPasswordChange`: counts the length in characters, not UTF-16 code units.
- `JsString.StrLessTotal` and the other order lemmas: the order compares code points, not UTF-16 code units. The two differ only outside the Basic Multilingual Plane.
- AdminSummary.HoursByTeacher: the tally `hoursData` is a plain `{}` (AdminDashboard.tsx line 155) and so inherits the members of `Object.prototype`; the model's tally inherits nothing. For a teacher named after an inherited member ("constructor", "toString", "valueOf", "hasOwnProperty" and the like), `hoursData[name] || 0` at line 158 is that function, and adding the hours gives a string such as "function Object() { [native code] }2", where the model holds that teacher's hours. For a teacher named "__proto__", the assignment creates no own key, and `Object.entries` at line 161 leaves that teacher out, where the model keeps the name. The model also keeps keys in insertion order, where JavaScript would put integer-like keys (a teacher named "12") first.
- AdminSummary.Entries: inherits the gap of AdminSummary.HoursByTeacher for teachers named after an `Object.prototype` member or "__proto__", and for integer-like names.
- AdminSummary.PieChartData: inherits the same gap, through AdminSummary.Entries.
- The `try/catch` around the three duration computations is not modelled. With string or absent times, nothing inside them can throw.
- Stale React closures and overlapping requests are concurrency, and are left out.
- `TeacherHome.HandleChange`: covers the form's four input names. An event naming another field would add a new key, which the record type cannot hold.
- Display text is left out: the `{hours} hrs` and `toFixed(1)` renderings, and the "Unknown" / "Select Teacher" lookups in the load table.
- The corrected members (`AdminSummary.TopFive`, `AdminMessages.Conversation`, `AdminMessages.TeacherGroups`, `TeacherHome.SubmitAttendanceClearingError`) sit beside the as-written ones. The as-written members stay as the model of the current views.

## Findings

| source | as written | input that shows it | evidently intended | confidence | as-written member | corrected member |
|---|---|---|---|---|---|---|
| dashboard-frontend/dashboard-frontend/src/admin/AdminDashboard.tsx:161-163 | the "Teaching Hours by Teacher (Top 5)" pie takes the first five per-teacher entries in first-appearance order | six teachers; the first five have 1.0 h each, the sixth has 5.0 h, so the sixth is left out of the pie | the five teachers with the most hours | medium, not executed | AdminSummary.PieSliceIgnoresHours | AdminSummary.TopFiveKeepsMost |
| dashboard-frontend/dashboard-frontend/src/admin/AdminDashboard.tsx:1619-1645 | the inbox groups and filters every message by `sender_id` alone, though the list also holds the admin's replies (line 1582) | teacher Ben (id 7) writes; admin 1 replies to Ben; teacher Ana has id 1. Ana is listed as a sender, the reply shows in Ana's pane, and Ben's pane lacks it | a teacher's conversation is their messages plus the admin's replies to them, and only teachers are listed as senders | medium, not executed | AdminMessages.GroupingMixesAdminReplies | AdminMessages.Conversation, AdminMessages.TeacherGroupsSpec |
| dashboard-frontend/dashboard-frontend/src/teacher/TeacherHome.tsx:129-152 | `handleSubmit` never clears the error message | an incomplete submit, then a complete one the server accepts; both the error and the success banner show | a successful submission clears the earlier error | medium, not executed | TeacherHome.StaleErrorAfterSuccess | TeacherHome.SubmitAttendanceClearingError |
