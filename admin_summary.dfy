/** The figures on the admin overview: the teacher filter, the status counts, the teacher-name
    dropdown, the per-teacher hours behind the pie chart, the total hours and the alert list. */
module AdminSummary {
  import opened Records
  import opened Seqs
  import opened JsString

  // ---------------------------------------------------------------------------
  // Filter and counts

  /** `selectedTeacher ? submissions.filter(s => s.teacher_name === selectedTeacher) : submissions`:
      the empty selection means every teacher. */
  function FilterByTeacher(subs: seq<Submission>, selected: string): (r: seq<Submission>)
    ensures selected == "" ==> r == subs
    ensures selected != "" ==> forall i :: 0 <= i < |r| ==> r[i].teacherName == selected
    ensures selected != "" ==>
      forall s :: multiset(r)[s] == if s.teacherName == selected then multiset(subs)[s] else 0
  {
    if selected != "" then
      var byTeacher := (s: Submission) => s.teacherName == selected;
      FilterElements(subs, byTeacher);
      Filter(subs, byTeacher)
    else subs
  }

  /** `subs.filter(s => s.status === status).length`: at most the number of records, and 0
      exactly when no record has that status. */
  function CountStatus(subs: seq<Submission>, status: string): (r: nat)
    ensures r <= |subs|
    ensures r == 0 <==> forall i :: 0 <= i < |subs| ==> subs[i].status != status
  {
    var hasStatus := (s: Submission) => s.status == status;
    var kept := Filter(subs, hasStatus);
    FilterElements(subs, hasStatus);
    if kept != [] then
      assert multiset(subs)[kept[0]] > 0;
      |kept|
    else
      assert forall i :: 0 <= i < |subs| ==> subs[i] in multiset(subs);
      |kept|
  }

  /** The count is the number of records with the status: none for no records, and one more
      for each further record that has it. */
  lemma {:induction false} CountStatusSnoc(subs: seq<Submission>, s: Submission, status: string)
    ensures CountStatus([], status) == 0
    ensures CountStatus(subs + [s], status) == CountStatus(subs, status) + (if s.status == status then 1 else 0)
  {
    var hasStatus := (x: Submission) => x.status == status;
    FilterAppend(subs, [s], hasStatus);
    assert Filter([s], hasStatus) == if s.status == status then [s] else [];
  }

  /** Two different statuses are counted over disjoint records, so their counts add up to at
      most the number of records; in particular pending + verified never exceeds the list. */
  lemma {:induction false} StatusCountsBounded(subs: seq<Submission>, a: string, b: string)
    requires a != b
    ensures CountStatus(subs, a) + CountStatus(subs, b) <= |subs|
  {
    if subs != [] {
      StatusCountsBounded(subs[..|subs| - 1], a, b);
    }
  }

  // ---------------------------------------------------------------------------
  // Teacher-name dropdown

  function Names(subs: seq<Submission>): (r: seq<string>)
    ensures |r| == |subs| && forall i :: 0 <= i < |subs| ==> r[i] == subs[i].teacherName
  {
    seq(|subs|, i requires 0 <= i < |subs| => subs[i].teacherName)
  }

  predicate StrictlySorted(s: seq<string>) {
    forall i, j :: 0 <= i < j < |s| ==> StrLess(s[i], s[j])
  }

  /** Inserts a name into an ascending list before the first larger name. */
  function Insert(x: string, s: seq<string>): seq<string> {
    if s == [] then [x]
    else if StrLess(x, s[0]) then [x] + s
    else [s[0]] + Insert(x, s[1..])
  }

  /** `sort()` with the default comparison. */
  function Sort(s: seq<string>): seq<string> {
    if s == [] then [] else Insert(s[0], Sort(s[1..]))
  }

  lemma {:induction false} InsertElements(x: string, s: seq<string>)
    ensures multiset(Insert(x, s)) == multiset(s) + multiset{x}
  {
    if s != [] && !StrLess(x, s[0]) {
      InsertElements(x, s[1..]);
      assert s == [s[0]] + s[1..];
    }
  }

  lemma {:induction false} InsertSorted(x: string, s: seq<string>)
    requires StrictlySorted(s) && x !in s
    ensures StrictlySorted(Insert(x, s))
  {
    if s == [] {
    } else if StrLess(x, s[0]) {
      forall j | 0 < j < |s| ensures StrLess(x, s[j]) {
        StrLessTransitive(x, s[0], s[j]);
      }
    } else {
      var tail := s[1..];
      InsertBelowHead(x, s);
      InsertSorted(x, tail);
    }
  }

  /** When x goes after the head, the head is below everything in the rest of the insertion. */
  lemma InsertBelowHead(x: string, s: seq<string>)
    requires StrictlySorted(s) && x !in s && s != [] && !StrLess(x, s[0])
    ensures forall j :: 0 <= j < |Insert(x, s[1..])| ==> StrLess(s[0], Insert(x, s[1..])[j])
  {
    StrLessTotal(x, s[0]);
    var tail := s[1..];
    InsertElements(x, tail);
    var t := Insert(x, tail);
    forall j | 0 <= j < |t| ensures StrLess(s[0], t[j]) {
      if t[j] != x {
        assert t[j] in multiset(t);
        var k :| 0 <= k < |tail| && tail[k] == t[j];
        assert s[k + 1] == t[j];
      }
    }
  }

  lemma {:induction false} SortSorted(s: seq<string>)
    requires NoDuplicates(s)
    ensures multiset(Sort(s)) == multiset(s)
    ensures StrictlySorted(Sort(s))
  {
    if s != [] {
      var tail := s[1..];
      assert NoDuplicates(tail);
      SortSorted(tail);
      assert s[0] !in multiset(tail);
      InsertElements(s[0], Sort(tail));
      InsertSorted(s[0], Sort(tail));
      assert s == [s[0]] + tail;
    }
  }

  /** `Array.from(new Set(submissions.map(s => s.teacher_name))).sort()`. */
  function UniqueTeachers(subs: seq<Submission>): seq<string> {
    Sort(Distinct(Names(subs)))
  }

  /** The dropdown lists every teacher name that occurs, once, in ascending order. */
  lemma UniqueTeachersSorted(subs: seq<Submission>)
    ensures var r := UniqueTeachers(subs);
      StrictlySorted(r) && NoDuplicates(r)
      && forall n :: n in r <==> exists i :: 0 <= i < |subs| && subs[i].teacherName == n
  {
    var names := Names(subs);
    var d := Distinct(names);
    SortSorted(d);
    var r := Sort(d);
    forall i, j | 0 <= i < j < |r| ensures r[i] != r[j] {
      StrLessIrreflexive(r[i]);
    }
    forall n ensures n in r <==> exists i :: 0 <= i < |subs| && subs[i].teacherName == n {
      assert n in r <==> n in multiset(d);
      if n in names {
        var i :| 0 <= i < |names| && names[i] == n;
        assert subs[i].teacherName == n;
      }
      if exists i :: 0 <= i < |subs| && subs[i].teacherName == n {
        var i :| 0 <= i < |subs| && subs[i].teacherName == n;
        assert names[i] == n;
      }
    }
  }

  // ---------------------------------------------------------------------------
  // Hours per teacher and in total

  /** The hours of the records with the given teacher name. */
  function HoursOf(subs: seq<Submission>, name: string): real {
    if subs == [] then 0.0
    else
      var s := subs[|subs| - 1];
      HoursOf(subs[..|subs| - 1], name) + (if s.teacherName == name then s.hoursTaught else 0.0)
  }

  /** `subs.reduce((sum, s) => sum + s.hours_taught, 0)`. */
  function TotalHours(subs: seq<Submission>): real {
    if subs == [] then 0.0 else TotalHours(subs[..|subs| - 1]) + subs[|subs| - 1].hoursTaught
  }

  /** `keys` and `hours` are what the `forEach` has built from the records `done`: one key per
      teacher in first-appearance order, each holding that teacher's hours. */
  ghost predicate Tallied(done: seq<Submission>, keys: seq<string>, hours: map<string, real>) {
    && keys == Distinct(Names(done))
    && (forall n :: n in hours <==> n in keys)
    && (forall n :: n in hours ==> hours[n] == HoursOf(done, n))
  }

  /** The `hoursData` object after the `forEach`: its keys in insertion order, and the hours
      stored under each key. */
  method HoursByTeacher(subs: seq<Submission>) returns (keys: seq<string>, hours: map<string, real>)
    ensures keys == Distinct(Names(subs))
    ensures forall n :: n in hours <==> n in keys
    ensures forall n :: n in hours ==> hours[n] == HoursOf(subs, n)
  {
    keys, hours := [], map[];
    var i := 0;
    while i < |subs|
      invariant 0 <= i <= |subs|
      invariant Tallied(subs[..i], keys, hours)
    {
      ghost var keys0, hours0 := keys, hours;
      var name := subs[i].teacherName;
      var previous := if name in hours then hours[name] else 0.0;
      hours := hours[name := previous + subs[i].hoursTaught];
      if name !in keys {
        keys := keys + [name];
      }
      TallyPrefix(subs, i, keys0, hours0, keys, hours);
      i := i + 1;
    }
    WholePrefix(subs);
  }

  /** One turn of the `forEach`: storing the next record's hours under its name, and adding
      the name as a key when it is new, keeps the tally right for the longer list. */
  lemma TallyStep(done: seq<Submission>, s: Submission, keys: seq<string>, hours: map<string, real>,
                  keys': seq<string>, hours': map<string, real>)
    requires Tallied(done, keys, hours)
    requires var name := s.teacherName;
      && keys' == (if name in keys then keys else keys + [name])
      && hours' == hours[name := (if name in hours then hours[name] else 0.0) + s.hoursTaught]
    ensures Tallied(done + [s], keys', hours')
  {
    KeysStep(done, s);
    HoursStep(done, s, hours);
    assert forall n :: n in hours' <==> n in keys';
  }

  /** `TallyStep` for the records the loop has gone through. */
  lemma TallyPrefix(subs: seq<Submission>, i: nat, keys: seq<string>, hours: map<string, real>,
                    keys': seq<string>, hours': map<string, real>)
    requires i < |subs| && Tallied(subs[..i], keys, hours)
    requires var name := subs[i].teacherName;
      && keys' == (if name in keys then keys else keys + [name])
      && hours' == hours[name := (if name in hours then hours[name] else 0.0) + subs[i].hoursTaught]
    ensures Tallied(subs[..i + 1], keys', hours')
  {
    PrefixSnoc(subs, i);
    TallyStep(subs[..i], subs[i], keys, hours, keys', hours');
  }

  /** The keys after one more record: its name is added when it is new. */
  lemma KeysStep(done: seq<Submission>, s: Submission)
    ensures Distinct(Names(done + [s])) ==
      var d := Distinct(Names(done)); if s.teacherName in d then d else d + [s.teacherName]
  {
    var next := done + [s];
    assert next[..|next| - 1] == done;
    NamesSnoc(next);
    DistinctSnoc(Names(done), s.teacherName);
  }

  /** The hours after one more record: its hours are added under its name only. */
  lemma HoursStep(done: seq<Submission>, s: Submission, hours: map<string, real>)
    requires forall n :: n in hours ==> hours[n] == HoursOf(done, n)
    requires s.teacherName !in hours ==> s.teacherName !in Names(done)
    ensures var name := s.teacherName;
      var hours' := hours[name := (if name in hours then hours[name] else 0.0) + s.hoursTaught];
      forall n :: n in hours' ==> hours'[n] == HoursOf(done + [s], n)
  {
    var name := s.teacherName;
    var next := done + [s];
    assert next[..|next| - 1] == done;
    if name !in hours {
      HoursOfAbsent(done, name);
    }
    var hours' := hours[name := (if name in hours then hours[name] else 0.0) + s.hoursTaught];
    forall n | n in hours' ensures hours'[n] == HoursOf(next, n) {
      if n != name {
        assert hours'[n] == hours[n];
      }
    }
  }

  /** A name that occurs in no record has no hours. */
  lemma {:induction false} HoursOfAbsent(subs: seq<Submission>, name: string)
    requires name !in Names(subs)
    ensures HoursOf(subs, name) == 0.0
  {
    if subs != [] {
      var init := subs[..|subs| - 1];
      assert Names(init) == Names(subs)[..|subs| - 1];
      HoursOfAbsent(init, name);
    }
  }

  /** The hours of the given names added up. */
  function HoursOfAll(names: seq<string>, subs: seq<Submission>): real {
    if names == [] then 0.0
    else HoursOfAll(names[..|names| - 1], subs) + HoursOf(subs, names[|names| - 1])
  }

  /** Adding one record adds its hours once to a list of distinct names that holds its
      teacher, and nothing otherwise. */
  lemma {:induction false} HoursOfAllStep(names: seq<string>, subs: seq<Submission>)
    requires subs != [] && NoDuplicates(names)
    ensures var s := subs[|subs| - 1];
      HoursOfAll(names, subs)
      == HoursOfAll(names, subs[..|subs| - 1]) + (if s.teacherName in names then s.hoursTaught else 0.0)
  {
    if names != [] {
      var init := names[..|names| - 1];
      assert NoDuplicates(init);
      HoursOfAllStep(init, subs);
      assert names == init + [names[|names| - 1]];
    }
  }

  lemma NamesSnoc(subs: seq<Submission>)
    requires subs != []
    ensures Names(subs) == Names(subs[..|subs| - 1]) + [subs[|subs| - 1].teacherName]
  {
  }

  /** The per-teacher sums behind the pie chart add up to the total hours. */
  lemma {:induction false} HoursAddUp(subs: seq<Submission>)
    ensures HoursOfAll(Distinct(Names(subs)), subs) == TotalHours(subs)
  {
    if subs != [] {
      var init := subs[..|subs| - 1];
      var s := subs[|subs| - 1];
      var name := s.teacherName;
      var d := Distinct(Names(init));
      HoursAddUp(init);
      assert TotalHours(subs) == TotalHours(init) + s.hoursTaught;
      NamesSnoc(subs);
      DistinctSnoc(Names(init), name);
      HoursOfAllStep(d, subs);
      if name in d {
        assert Distinct(Names(subs)) == d;
        assert HoursOfAll(d, subs) == HoursOfAll(d, init) + s.hoursTaught;
      } else {
        var d' := d + [name];
        assert Distinct(Names(subs)) == d';
        assert d'[..|d'| - 1] == d;
        assert HoursOfAll(d', subs) == HoursOfAll(d, subs) + HoursOf(subs, name);
        HoursOfAbsent(init, name);
        assert HoursOf(subs, name) == s.hoursTaught;
        assert HoursOfAll(d, subs) == HoursOfAll(d, init);
      }
    }
  }

  // ---------------------------------------------------------------------------
  // Pie chart

  /** `Object.entries(hoursData).map(([teacher, hours]) => ({ name: teacher, value: hours }))`. */
  /** One entry per teacher name, each name once, every name of a record present, in the order
      of first appearance; each entry holds that teacher's hours. */
  function Entries(subs: seq<Submission>): (r: seq<(string, real)>)
    ensures var keys := Distinct(Names(subs));
      |r| == |keys| && forall i :: 0 <= i < |r| ==> r[i].0 == keys[i]
    ensures forall i :: 0 <= i < |r| ==> r[i].1 == HoursOf(subs, r[i].0)
    ensures forall i, j :: 0 <= i < j < |r| ==> r[i].0 != r[j].0
    ensures forall n :: n in Names(subs) <==> exists i :: 0 <= i < |r| && r[i].0 == n
  {
    var keys := Distinct(Names(subs));
    var r := seq(|keys|, i requires 0 <= i < |keys| => (keys[i], HoursOf(subs, keys[i])));
    assert forall k :: 0 <= k < |keys| ==> r[k].0 == keys[k];
    r
  }

  /** The hours of the entries added up. */
  function EntriesTotal(entries: seq<(string, real)>): real {
    if entries == [] then 0.0 else EntriesTotal(entries[..|entries| - 1]) + entries[|entries| - 1].1
  }

  lemma {:induction false} EntriesTotalOf(keys: seq<string>, subs: seq<Submission>, entries: seq<(string, real)>)
    requires |entries| == |keys|
    requires forall i :: 0 <= i < |keys| ==> entries[i] == (keys[i], HoursOf(subs, keys[i]))
    ensures EntriesTotal(entries) == HoursOfAll(keys, subs)
  {
    if keys != [] {
      var n := |keys| - 1;
      EntriesTotalOf(keys[..n], subs, entries[..n]);
    }
  }

  /** The pie chart's slices, before the cut to five, add up to the total hours of all
      records. */
  lemma EntriesAddUp(subs: seq<Submission>)
    ensures EntriesTotal(Entries(subs)) == TotalHours(subs)
  {
    var entries := Entries(subs);
    var keys := Distinct(Names(subs));
    assert forall i :: 0 <= i < |keys| ==> entries[i] == (keys[i], HoursOf(subs, keys[i]));
    EntriesTotalOf(keys, subs, entries);
    HoursAddUp(subs);
  }

  /** `.slice(0, 5)` of the entries, as written: the first five teachers in the order their
      first record appears. */
  function PieSlice(entries: seq<(string, real)>): seq<(string, real)> {
    Slice(entries, 5)
  }

  /** The pie chart's data: the first five teachers, fewer when there are fewer, each once and
      with that teacher's hours. */
  function PieChartData(subs: seq<Submission>): (r: seq<(string, real)>)
    ensures var teachers := |Distinct(Names(subs))|;
      |r| == if teachers < 5 then teachers else 5
    ensures forall i :: 0 <= i < |r| ==> r[i] == Entries(subs)[i]
    ensures forall i :: 0 <= i < |r| ==> r[i].0 in Names(subs) && r[i].1 == HoursOf(subs, r[i].0)
    ensures forall i, j :: 0 <= i < j < |r| ==> r[i].0 != r[j].0
  {
    var entries := Entries(subs);
    var r := PieSlice(entries);
    assert forall i :: 0 <= i < |r| ==> r[i] == entries[i];
    r
  }

  /** A record of `hours` taught by `name`. */
  function Taught(name: string, hours: real): Submission {
    Submission(0, name, "", "", "", hours, "verified")
  }

  /** Five teachers with one hour each, then a sixth with five hours. */
  const SixTeachers := [Taught("A", 1.0), Taught("B", 1.0), Taught("C", 1.0),
                        Taught("D", 1.0), Taught("E", 1.0), Taught("F", 5.0)]

  lemma SixTeachersNames()
    ensures Distinct(Names(SixTeachers)) == ["A", "B", "C", "D", "E", "F"]
  {
    assert Names(SixTeachers) == ["A", "B", "C", "D", "E", "F"];
    DistinctLetters();
  }

  lemma DistinctLetters()
    ensures Distinct(["A", "B", "C", "D", "E", "F"]) == ["A", "B", "C", "D", "E", "F"]
  {
    var letters := ["A", "B", "C", "D", "E", "F"];
    forall i, j | 0 <= i < j < |letters| ensures letters[i] != letters[j] {
      assert letters[i][0] != letters[j][0];
    }
    DistinctOfNoDuplicates(letters);
  }

  /** The slice keeps teachers by position, not by hours: with six teachers where the sixth has
      the most hours, that teacher is left out of the "top 5". */
  lemma PieSliceIgnoresHours()
    ensures var pie := PieChartData(SixTeachers);
      |pie| == 5 && forall i :: 0 <= i < |pie| ==> pie[i].0 != "F"
  {
    SixTeachersNames();
    var pie := PieChartData(SixTeachers);
    var entries := Entries(SixTeachers);
    assert forall i :: 0 <= i < |pie| ==> pie[i].0 == ["A", "B", "C", "D", "E", "F"][i];
  }

  predicate Descending(s: seq<(string, real)>) {
    forall i, j :: 0 <= i < j < |s| ==> s[i].1 >= s[j].1
  }

  /** Inserts an entry into a list of descending hours after every entry with at least as
      many hours, which keeps equal entries in their original order. */
  function InsertByHours(e: (string, real), s: seq<(string, real)>): seq<(string, real)> {
    if s == [] then [e]
    else if e.1 > s[0].1 then [e] + s
    else [s[0]] + InsertByHours(e, s[1..])
  }

  /** `.sort((a, b) => b.value - a.value)`, stable. */
  function SortByHours(s: seq<(string, real)>): seq<(string, real)> {
    if s == [] then [] else InsertByHours(s[|s| - 1], SortByHours(s[..|s| - 1]))
  }

  lemma {:induction false} InsertByHoursElements(e: (string, real), s: seq<(string, real)>)
    ensures multiset(InsertByHours(e, s)) == multiset(s) + multiset{e}
  {
    if s != [] && e.1 <= s[0].1 {
      var tail := s[1..];
      InsertByHoursElements(e, tail);
      assert s == [s[0]] + tail;
      assert multiset(s) == multiset{s[0]} + multiset(tail);
      var t := InsertByHours(e, tail);
      assert InsertByHours(e, s) == [s[0]] + t;
      assert multiset([s[0]] + t) == multiset{s[0]} + multiset(t);
    }
  }

  lemma {:induction false} InsertByHoursSorted(e: (string, real), s: seq<(string, real)>)
    requires Descending(s)
    ensures Descending(InsertByHours(e, s))
  {
    if s != [] && e.1 <= s[0].1 {
      var tail := s[1..];
      InsertByHoursSorted(e, tail);
      InsertByHoursElements(e, tail);
      var t := InsertByHours(e, tail);
      forall j | 0 <= j < |t| ensures s[0].1 >= t[j].1 {
        if t[j] != e {
          assert t[j] in multiset(t);
          var k :| 0 <= k < |tail| && tail[k] == t[j];
          assert s[k + 1] == t[j];
        }
      }
    }
  }

  lemma {:induction false} SortByHoursSorted(s: seq<(string, real)>)
    ensures multiset(SortByHours(s)) == multiset(s)
    ensures Descending(SortByHours(s))
  {
    if s != [] {
      var init := s[..|s| - 1];
      SortByHoursSorted(init);
      InsertByHoursElements(s[|s| - 1], SortByHours(init));
      InsertByHoursSorted(s[|s| - 1], SortByHours(init));
      assert s == init + [s[|s| - 1]];
    }
  }

  /** The five entries with the most hours, as the "Top 5" chart intends. */
  function TopFive(entries: seq<(string, real)>): seq<(string, real)> {
    PieSlice(SortByHours(entries))
  }

  /** The corrected chart keeps min(5, n) of the entries, and every entry it leaves out has no
      more hours than any entry it keeps. */
  lemma TopFiveKeepsMost(entries: seq<(string, real)>)
    ensures var r := TopFive(entries);
      |r| == (if |entries| < 5 then |entries| else 5)
      && multiset(r) <= multiset(entries)
      && forall e :: e in entries && e !in r ==> forall i :: 0 <= i < |r| ==> r[i].1 >= e.1
  {
    var t := SortByHours(entries);
    SortByHoursSorted(entries);
    var r := Slice(t, 5);
    assert r == TopFive(entries);
    var rest := t[|r|..];
    assert t == r + rest;
    assert multiset(t) == multiset(r) + multiset(rest);
    forall e | e in entries && e !in r ensures e in rest {
      assert e in multiset(t);
    }
    DescendingSplit(t, |r|);
  }

  /** In a descending list, everything from position k on has no more hours than anything
      before k. */
  lemma DescendingSplit(t: seq<(string, real)>, k: nat)
    requires Descending(t) && k <= |t|
    ensures forall e :: e in t[k..] ==> forall i :: 0 <= i < k ==> t[i].1 >= e.1
  {
    forall e | e in t[k..] ensures forall i :: 0 <= i < k ==> t[i].1 >= e.1 {
      var j :| k <= j < |t| && t[j] == e;
    }
  }

  /** The pie chart with the intended selection. */
  function TopFivePieData(subs: seq<Submission>): seq<(string, real)> {
    TopFive(Entries(subs))
  }

  // ---------------------------------------------------------------------------
  // Alerts

  /** `data.slice(0, 5)`: the first five alerts the server lists, fewer when there are fewer. */
  function LatestAlerts(alerts: seq<Alert>): (r: seq<Alert>)
    ensures |r| == if |alerts| < 5 then |alerts| else 5
    ensures forall i :: 0 <= i < |r| ==> r[i] == alerts[i]
  {
    Slice(alerts, 5)
  }
}
