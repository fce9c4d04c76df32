/** The length of a class slot, computed from its "HH:MM" start and end texts. Both dashboards
    compute it the same way: split each text on ':', read the hour and the minute with
    `parseInt`, give up (0 hours) when an hour is NaN, count a missing minute as 0, add a day
    when the end is before the start, and round the hours with `toFixed(2)`.
    Minutes are whole numbers here, so hours are kept as whole minutes and the rounded hours
    as whole hundredths; both are exact. */
module SlotDuration {
  import opened Wrappers
  import opened JsString
  import opened Records

  const MinutesPerDay: int := 1440

  /** `(t || '').split(':').map(v => parseInt(v, 10))` destructured as `[h, m]`. */
  function ClockParts(t: Option<string>): (Option<int>, Option<int>) {
    var parts := Split(if t.Some? then t.value else "", ':');
    (ParseInt(parts[0]), if |parts| >= 2 then ParseInt(parts[1]) else None)
  }

  /** `h + (m || 0) / 60`, in minutes. */
  function ClockMinutes(hour: int, minute: Option<int>): int {
    60 * hour + (if minute.Some? then minute.value else 0)
  }

  /** The minutes from a start to an end clock reading; `None` when either hour is NaN, and a
      day added when the end comes before the start. */
  function Span(start: (Option<int>, Option<int>), end: (Option<int>, Option<int>)): (r: Option<int>)
    ensures r.None? <==> start.0.None? || end.0.None?
    ensures r.Some? ==>
      var span := ClockMinutes(end.0.value, end.1) - ClockMinutes(start.0.value, start.1);
      r.value == if span < 0 then span + MinutesPerDay else span
  {
    if start.0.None? || end.0.None? then None
    else
      var s := ClockMinutes(start.0.value, start.1);
      var e := ClockMinutes(end.0.value, end.1);
      Some(if e < s then e + MinutesPerDay - s else e - s)
  }

  /** The slot length in minutes. */
  function SlotMinutes(load: TeachingLoad): Option<int> {
    Span(ClockParts(load.startTime), ClockParts(load.endTime))
  }

  /** `+(m / 60).toFixed(2)` in hundredths of an hour: the hundredth nearest to m/60. Writing
      m = 3k + j, m/60 hours is 5k + 5j/3 hundredths, so the nearest is 5k plus 0, 2 or 3, and a
      tie never occurs. As no tie occurs, rounding the magnitude of a negative value, as
      `toFixed` does, gives the same nearest hundredth. */
  function Hundredths(m: int): (r: int)
    ensures -30 < 100 * m - 60 * r < 30
  {
    var k, j := m / 3, m % 3;
    assert m == 3 * k + j && 0 <= j < 3;
    5 * k + (if j == 0 then 0 else if j == 1 then 2 else 3)
  }

  /** Only one whole number of hundredths is within half a hundredth of m/60. */
  lemma HundredthsUnique(m: int, r: int)
    requires -30 <= 100 * m - 60 * r <= 30
    ensures r == Hundredths(m)
  {
    var h := Hundredths(m);
    assert -60 < 60 * r - 60 * h < 60;
  }

  /** Rounding preserves the sign and keeps the order of minutes. */
  lemma HundredthsMonotonic(a: int, b: int)
    requires a <= b
    ensures Hundredths(a) <= Hundredths(b)
    ensures a >= 0 ==> Hundredths(a) >= 0
  {
  }

  function RoundedHours(m: int): real {
    Hundredths(m) as real / 100.0
  }

  /** The rounded hours are within 1/200 of an hour of the exact length. */
  lemma RoundedHoursClose(m: int)
    ensures -1.0 / 200.0 < RoundedHours(m) - m as real / 60.0 < 1.0 / 200.0
  {
    var r := Hundredths(m);
    assert -30 < 100 * m - 60 * r < 30;
    assert -30.0 < 100.0 * (m as real) - 60.0 * (r as real) < 30.0;
  }

  /** The slot length in hundredths of an hour: 0 when an hour is NaN, and otherwise the
      whole number of hundredths within half a hundredth of the length (by HundredthsUnique,
      the only one). */
  function SlotHundredths(load: TeachingLoad): (r: int)
    ensures SlotMinutes(load).None? ==> r == 0
    ensures SlotMinutes(load).Some? ==> -30 < 100 * SlotMinutes(load).value - 60 * r < 30
    ensures SlotMinutes(load).Some? ==> (r >= 0 <==> SlotMinutes(load).value >= 0)
  {
    SpanHundredths(ClockParts(load.startTime), ClockParts(load.endTime))
  }

  /** The rounded length, in hundredths of an hour, between two clock readings. */
  function SpanHundredths(start: (Option<int>, Option<int>), end: (Option<int>, Option<int>)): int {
    match Span(start, end)
    case None => 0
    case Some(m) => Hundredths(m)
  }

  /** `computeDurationHours` as a number: 0 when an hour is NaN, otherwise the slot length
      rounded to a whole hundredth of an hour, so within 1/200 of an hour of the exact length. */
  function SlotHours(load: TeachingLoad): (r: real)
    ensures SlotMinutes(load).None? ==> r == 0.0
    ensures SlotMinutes(load).Some? ==> r == Hundredths(SlotMinutes(load).value) as real / 100.0
    ensures r == SlotHundredths(load) as real / 100.0
    ensures SlotMinutes(load).Some? ==>
      -1.0 / 200.0 < r - SlotMinutes(load).value as real / 60.0 < 1.0 / 200.0
  {
    match SlotMinutes(load)
    case None => 0.0
    case Some(m) =>
      RoundedHoursClose(m);
      RoundedHours(m)
  }

  /** The text the admin form stores for a time picked as h:m. */
  function ClockText(h: nat, m: nat): (t: string)
    requires h < 24 && m < 60
  {
    Digits2(h) + ":" + Digits2(m)
  }

  /** An "HH:MM" text reads back as its hour and minute. */
  lemma ClockTextParts(h: nat, m: nat)
    requires h < 24 && m < 60
    ensures ClockParts(Some(ClockText(h, m))) == (Some(h), Some(m))
  {
    var a, b := Digits2(h), Digits2(m);
    assert forall i :: 0 <= i < |a| ==> IsDigit(a[i]);
    assert ':' !in a && ':' !in b;
    SplitJoin([a, b], ':');
    assert Join([a, b], ':') == a + ":" + b == ClockText(h, m);
    ParseIntLeadingDigits(a, []);
    ParseIntLeadingDigits(b, []);
    assert a + [] == a && b + [] == b;
  }

  /** A time without ':' has no minute part, so the minute counts as 0. */
  lemma MissingMinuteIsZero(t: string)
    requires ':' !in t
    ensures ClockParts(Some(t)).1 == None
  {
    SplitWhole(t, ':');
  }

  /** A slot whose start and end were picked as clock times lasts between 0 and 24 hours:
      its length is the end minus the start modulo a day. */
  lemma PickedSlot(load: TeachingLoad, sh: nat, sm: nat, eh: nat, em: nat)
    requires sh < 24 && sm < 60 && eh < 24 && em < 60
    requires load.startTime == Some(ClockText(sh, sm)) && load.endTime == Some(ClockText(eh, em))
    ensures SlotMinutes(load) == Some(((60 * eh + em) - (60 * sh + sm)) % MinutesPerDay)
    ensures 0 <= SlotMinutes(load).value < MinutesPerDay
    ensures 0.0 <= SlotHours(load) < 24.0
  {
    ClockTextParts(sh, sm);
    ClockTextParts(eh, em);
    assert ClockParts(load.startTime) == (Some(sh), Some(sm));
    assert ClockParts(load.endTime) == (Some(eh), Some(em));
    ClockSpan(sh, sm, eh, em);
    DayLengthHours(SlotMinutes(load).value);
  }

  lemma ClockSpan(sh: nat, sm: nat, eh: nat, em: nat)
    requires sh < 24 && sm < 60 && eh < 24 && em < 60
    ensures var start, end := 60 * sh + sm, 60 * eh + em;
      Span((Some(sh), Some(sm)), (Some(eh), Some(em))) == Some((end - start) % MinutesPerDay)
  {
  }

  lemma DayLengthHours(m: int)
    requires 0 <= m < MinutesPerDay
    ensures 0 <= Hundredths(m) < 2400
  {
    HundredthsMonotonic(0, m);
    HundredthsMonotonic(m, MinutesPerDay - 1);
    assert Hundredths(MinutesPerDay - 1) == 2398;
  }

  /** When a start or end hour is NaN the slot counts as 0 hours. */
  lemma UnreadableSlotIsZero(load: TeachingLoad)
    requires ClockParts(load.startTime).0.None? || ClockParts(load.endTime).0.None?
    ensures SlotHours(load) == 0.0
  {
  }
}
