/** The attendance screen (AttendanceManagement.jsx): the batches to choose
    from, the marks of the day for the students of a batch, the records
    submitted for them, the history of a day filtered by status, and the
    check that reports a student absent three or more times in a row. */
module Attendance {
  import opened Common
  import opened Seqs

  datatype AttendanceStatus = PRESENT | ABSENT | OtherStatus(name: string)

  /** One attendance record: the student, the date as an ISO string
      (`yyyy-mm-dd`), the batch and the status. */
  datatype Mark = Mark(studentId: string, date: string, batchTiming: string, status: AttendanceStatus)

  // ---------------------------------------------------------------------
  // Batches

  function Timings(admissions: seq<Admission>): (ts: seq<string>)
    ensures |ts| == |admissions|
    ensures forall i :: 0 <= i < |ts| ==> ts[i] == admissions[i].timing
  {
    seq(|admissions|, i requires 0 <= i < |admissions| => admissions[i].timing)
  }

  /** `[...new Set(admissions.map(s => s.timing))].filter(Boolean)`. */
  function Batches(admissions: seq<Admission>): seq<string> {
    Filter(Distinct(Timings(admissions)), (t: string) => t != [])
  }

  /** The batch list names every non-empty timing of an admission once, and
      nothing else, in the order of the first admission with each timing. */
  lemma BatchesDistinct(admissions: seq<Admission>)
    ensures NoDuplicates(Batches(admissions))
    ensures forall t :: t in Batches(admissions) <==> t != [] && exists i :: 0 <= i < |admissions| && admissions[i].timing == t
    ensures InFirstOccurrenceOrder(Batches(admissions), Timings(admissions))
  {
    var ts := Timings(admissions);
    FilterNoDuplicates(Distinct(ts), (t: string) => t != []);
    DistinctOrder(ts);
    FilterKeepsOrder(Distinct(ts), (t: string) => t != [], ts);
    forall t | t != [] && exists i :: 0 <= i < |admissions| && admissions[i].timing == t
      ensures t in ts
    {
      var i :| 0 <= i < |admissions| && admissions[i].timing == t;
      assert ts[i] == t;
    }
  }

  // ---------------------------------------------------------------------
  // The marks of the day

  /** The id of every student. */
  function Ids(students: seq<Admission>): set<string> {
    set i | 0 <= i < |students| :: students[i].id
  }

  /** Every student marked with the same status. */
  function UniformMarks(students: seq<Admission>, status: AttendanceStatus): (att: map<string, AttendanceStatus>)
    ensures att.Keys == Ids(students)
    ensures forall id :: id in att ==> att[id] == status
  {
    map id | id in Ids(students) :: status
  }

  /** `markAllPresent` / `markAllAbsent`, and the marks set when a batch is
      loaded: a fresh dictionary filled student by student. */
  method MarkAll(students: seq<Admission>, status: AttendanceStatus) returns (att: map<string, AttendanceStatus>)
    ensures att == UniformMarks(students, status)
  {
    att := map[];
    var n := 0;
    while n < |students|
      invariant 0 <= n <= |students|
      invariant att == UniformMarks(students[..n], status)
    {
      att := att[students[n].id := status];
      assert Ids(students[..n + 1]) == Ids(students[..n]) + {students[n].id} by {
        assert forall i :: 0 <= i < n ==> students[..n + 1][i] == students[..n][i];
        assert students[..n + 1][n] == students[n];
      }
      n := n + 1;
    }
    assert students[..n] == students;
  }

  /** `fetchStudents` once the admissions are handed in: no batch selected
      clears the list and the marks; otherwise the students of the batch,
      each marked PRESENT. */
  method LoadBatch(admissions: seq<Admission>, batch: string) returns (students: seq<Admission>, att: map<string, AttendanceStatus>)
    ensures batch == [] ==> students == [] && att == map[]
    ensures batch != [] ==> students == Filter(admissions, (s: Admission) => s.timing == batch)
    ensures batch != [] ==> att == UniformMarks(students, PRESENT)
    ensures forall s :: s in students ==> s in admissions && s.timing == batch
  {
    if batch == [] {
      return [], map[];
    }
    students := Filter(admissions, (s: Admission) => s.timing == batch);
    att := MarkAll(students, PRESENT);
  }

  /** `toggleAttendance`: ABSENT becomes PRESENT, anything else, a missing
      mark included, becomes ABSENT. */
  function Toggle(att: map<string, AttendanceStatus>, id: string): (r: map<string, AttendanceStatus>)
    ensures r.Keys == att.Keys + {id}
    ensures forall k :: k in att && k != id ==> r[k] == att[k]
    ensures r[id] == ABSENT <==> !(id in att && att[id] == ABSENT)
    ensures r[id] == PRESENT <==> id in att && att[id] == ABSENT
  {
    att[id := if id in att && att[id] == ABSENT then PRESENT else ABSENT]
  }

  /** Toggling a student marked PRESENT or ABSENT twice restores the marks. */
  lemma ToggleTwice(att: map<string, AttendanceStatus>, id: string)
    requires id in att && (att[id] == PRESENT || att[id] == ABSENT)
    ensures Toggle(Toggle(att, id), id) == att
  {
  }

  /** `handleSubmit`: refused without a batch or without students;
      otherwise one record per student, in order, a student without a mark
      counted PRESENT. */
  function BuildRecords(students: seq<Admission>, att: map<string, AttendanceStatus>, date: string, batch: string): (r: Option<seq<Mark>>)
    ensures r.None? <==> batch == [] || students == []
    ensures r.Some? ==> |r.value| == |students|
    ensures r.Some? ==> forall i :: 0 <= i < |students| ==>
      && r.value[i].studentId == students[i].id
      && r.value[i].date == date && r.value[i].batchTiming == batch
      && r.value[i].status == (if students[i].id in att then att[students[i].id] else PRESENT)
  {
    if batch == [] || students == [] then None
    else Some(seq(|students|, i requires 0 <= i < |students| =>
      Mark(students[i].id, date, batch, if students[i].id in att then att[students[i].id] else PRESENT)))
  }

  /** After "mark all", every submitted record carries that status. */
  lemma SubmitAfterMarkAll(students: seq<Admission>, status: AttendanceStatus, date: string, batch: string)
    requires batch != [] && students != []
    ensures var r := BuildRecords(students, UniformMarks(students, status), date, batch);
      r.Some? && forall i :: 0 <= i < |r.value| ==> r.value[i].status == status
  {
    var att := UniformMarks(students, status);
    forall i | 0 <= i < |students| ensures students[i].id in att {
      assert students[i].id in Ids(students);
    }
  }

  // ---------------------------------------------------------------------
  // History of a day

  datatype StatusChoice = AllStatuses | StatusIs(status: AttendanceStatus)

  /** `filteredAttendanceHistory`. */
  function HistoryFilter(history: seq<Mark>, choice: StatusChoice): (r: seq<Mark>)
    ensures choice.AllStatuses? ==> r == history
    ensures IsSubsequence(r, history)
    ensures choice.StatusIs? ==> forall m :: m in r <==> m in history && m.status == choice.status
    ensures choice.StatusIs? ==> forall m ::
      multiset(r)[m] == if m.status == choice.status then multiset(history)[m] else 0
  {
    if choice.AllStatuses? then
      FilterAllKept(history, (m: Mark) => true);
      history
    else
      Filter(history, (m: Mark) => m.status == choice.status)
  }

  // ---------------------------------------------------------------------
  // Sorting by date

  /** `a.localeCompare(b) <= 0` on ASCII date strings: lexicographic order. */
  predicate DateLeq(a: string, b: string) {
    if a == [] then true
    else if b == [] then false
    else if a[0] != b[0] then a[0] < b[0]
    else DateLeq(a[1..], b[1..])
  }

  lemma {:induction false} DateLeqTotal(a: string, b: string)
    ensures DateLeq(a, b) || DateLeq(b, a)
  {
    if a != [] && b != [] && a[0] == b[0] {
      DateLeqTotal(a[1..], b[1..]);
    }
  }

  predicate SortedByDate(s: seq<Mark>) {
    forall i :: 0 <= i && i + 1 < |s| ==> DateLeq(s[i].date, s[i + 1].date)
  }

  function InsertByDate(x: Mark, s: seq<Mark>): (r: seq<Mark>)
    requires SortedByDate(s)
    ensures SortedByDate(r)
    ensures multiset(r) == multiset(s) + multiset{x}
    ensures |r| == |s| + 1
    ensures r[0] == x || (s != [] && r[0] == s[0])
  {
    if s == [] then [x]
    else if DateLeq(x.date, s[0].date) then [x] + s
    else
      DateLeqTotal(x.date, s[0].date);
      var rest := InsertByDate(x, s[1..]);
      assert s == [s[0]] + s[1..];
      [s[0]] + rest
  }

  /** `[...marks].sort((a, b) => a.date.localeCompare(b.date))`: the marks
      in ascending date order, marks of the same date in their original
      order. */
  function SortByDate(s: seq<Mark>): (r: seq<Mark>)
    ensures SortedByDate(r)
    ensures multiset(r) == multiset(s)
  {
    if s == [] then []
    else
      assert s == [s[0]] + s[1..];
      InsertByDate(s[0], SortByDate(s[1..]))
  }

  // ---------------------------------------------------------------------
  // Consecutive absences

  /** Marks `start` to `start + len - 1` are all ABSENT. */
  predicate IsRun(s: seq<Mark>, start: int, len: int) {
    0 <= start && 0 <= len && start + len <= |s|
    && forall k :: start <= k < start + len ==> s[k].status == ABSENT
  }

  function DatesOf(ms: seq<Mark>): (ds: seq<string>)
    ensures |ds| == |ms|
    ensures forall i :: 0 <= i < |ms| ==> ds[i] == ms[i].date
  {
    seq(|ms|, i requires 0 <= i < |ms| => ms[i].date)
  }

  lemma DatesOfAppend(ms: seq<Mark>, m: Mark)
    ensures DatesOf(ms + [m]) == DatesOf(ms) + [m.date]
  {
  }

  /** Extending a slice by one mark extends its dates by that mark's date. */
  lemma DatesOfExtend(s: seq<Mark>, from: nat, to: nat)
    requires from <= to < |s|
    ensures DatesOf(s[from..to + 1]) == DatesOf(s[from..to]) + [s[to].date]
  {
    assert s[from..to + 1] == s[from..to] + [s[to]];
    DatesOfAppend(s[from..to], s[to]);
  }

  /** `len` is the length of the longest run of ABSENT marks in `s`, and
      `dates` are the dates of the first run of that length. */
  ghost predicate FirstLongestRun(s: seq<Mark>, len: nat, dates: seq<string>) {
    && (forall i, l :: IsRun(s, i, l) ==> l <= len)
    && exists start :: IsRun(s, start, len) && dates == DatesOf(s[start..start + len])
                       && forall j :: 0 <= j < start ==> !IsRun(s, j, len)
  }

  /** The runs that end at mark `n`: none but the empty one when mark `n`
      is not ABSENT, and none longer than the current streak plus one when
      it is. */
  lemma RunsEndingAt(s: seq<Mark>, n: nat, cur: nat)
    requires cur <= n < |s| && IsRun(s, n - cur, cur)
    requires n - cur == 0 || s[n - cur - 1].status != ABSENT
    ensures forall i, l :: IsRun(s, i, l) && i + l == n + 1 ==> l <= (if s[n].status == ABSENT then cur + 1 else 0)
  {
    forall i, l | IsRun(s, i, l) && i + l == n + 1
      ensures l <= (if s[n].status == ABSENT then cur + 1 else 0)
    {
    }
  }

  /** Marks `n - cur` to `n - 1` are the current streak: all ABSENT, with
      the mark before them (if any) not ABSENT. */
  predicate CurrentRun(s: seq<Mark>, n: nat, cur: nat) {
    cur <= n <= |s| && IsRun(s, n - cur, cur)
    && (n - cur == 0 || s[n - cur - 1].status != ABSENT)
  }

  /** Among the first `n` marks, `max` is the longest run, `start` is where
      the first run of that length begins and `dates` are its dates. */
  ghost predicate BestSoFar(s: seq<Mark>, n: nat, max: nat, dates: seq<string>, start: nat) {
    && start + max <= n <= |s|
    && IsRun(s, start, max)
    && dates == DatesOf(s[start..start + max])
    && (forall i, l :: IsRun(s, i, l) && i + l <= n ==> l <= max)
    && forall j :: 0 <= j < start && j + max <= n ==> !IsRun(s, j, max)
  }

  /** The state of the scan after the first `n` marks: the current streak
      and its dates, and the best streak so far. */
  ghost predicate Scanned(s: seq<Mark>, n: nat, cur: nat, temp: seq<string>,
                          max: nat, dates: seq<string>, start: nat) {
    && CurrentRun(s, n, cur)
    && temp == DatesOf(s[n - cur..n])
    && BestSoFar(s, n, max, dates, start)
  }

  /** An ABSENT mark lengthens the current streak and its dates; the streak
      becomes the best one exactly when it is now strictly longer. */
  lemma AbsentStep(s: seq<Mark>, n: nat, cur: nat, temp: seq<string>,
                   max: nat, dates: seq<string>, start: nat)
    requires Scanned(s, n, cur, temp, max, dates, start) && n < |s|
    requires s[n].status == ABSENT
    ensures cur + 1 > max ==>
      Scanned(s, n + 1, cur + 1, temp + [s[n].date], cur + 1, temp + [s[n].date], n - cur)
    ensures cur + 1 <= max ==>
      Scanned(s, n + 1, cur + 1, temp + [s[n].date], max, dates, start)
  {
    RunsEndingAt(s, n, cur);
    DatesOfExtend(s, n - cur, n);
  }

  /** The same step, stated for the values the scan holds after it. */
  lemma AbsentStepTo(s: seq<Mark>, n: nat, cur: nat, temp: seq<string>,
                     max: nat, dates: seq<string>, start: nat,
                     cur': nat, temp': seq<string>, max': nat, dates': seq<string>, start': nat)
    requires Scanned(s, n, cur, temp, max, dates, start) && n < |s|
    requires s[n].status == ABSENT
    requires cur' == cur + 1 && temp' == temp + [s[n].date]
    requires cur' > max ==> max' == cur' && dates' == temp' && start' == n + 1 - cur'
    requires cur' <= max ==> max' == max && dates' == dates && start' == start
    ensures Scanned(s, n + 1, cur', temp', max', dates', start')
  {
    AbsentStep(s, n, cur, temp, max, dates, start);
  }

  /** Any other mark resets the current streak and keeps the best one. */
  lemma OtherStep(s: seq<Mark>, n: nat, cur: nat, temp: seq<string>,
                  max: nat, dates: seq<string>, start: nat)
    requires Scanned(s, n, cur, temp, max, dates, start) && n < |s|
    requires s[n].status != ABSENT
    ensures Scanned(s, n + 1, 0, [], max, dates, start)
  {
    RunsEndingAt(s, n, cur);
  }

  /** Once every mark is scanned, the best streak so far is the first
      longest run. */
  lemma BestOfAll(s: seq<Mark>, max: nat, dates: seq<string>, start: nat)
    requires BestSoFar(s, |s|, max, dates, start)
    ensures FirstLongestRun(s, max, dates) && |dates| == max
  {
    assert IsRun(s, start, max) && dates == DatesOf(s[start..start + max]);
  }

  /** The scan of `fetchDefaulters` over marks sorted by date: every ABSENT
      mark lengthens the current streak and its dates, any other status
      resets both, and the best streak and its dates are replaced only by a
      strictly longer one. */
  method AbsentStreak(s: seq<Mark>) returns (maxStreak: nat, streakDates: seq<string>)
    ensures FirstLongestRun(s, maxStreak, streakDates)
    ensures |streakDates| == maxStreak
  {
    maxStreak := 0;
    var currentStreak: nat := 0;
    streakDates := [];
    var tempStreakDates: seq<string> := [];
    ghost var start: nat := 0;
    var n := 0;
    while n < |s|
      invariant n <= |s|
      invariant Scanned(s, n, currentStreak, tempStreakDates, maxStreak, streakDates, start)
    {
      var record := s[n];
      ghost var cur0, temp0, max0, dates0, start0 := currentStreak, tempStreakDates, maxStreak, streakDates, start;
      if record.status == ABSENT {
        currentStreak := currentStreak + 1;
        tempStreakDates := tempStreakDates + [record.date];
        if currentStreak > maxStreak {
          maxStreak := currentStreak;
          streakDates := tempStreakDates;
          start := n + 1 - currentStreak;
        }
        AbsentStepTo(s, n, cur0, temp0, max0, dates0, start0,
                     currentStreak, tempStreakDates, maxStreak, streakDates, start);
      } else {
        OtherStep(s, n, currentStreak, tempStreakDates, maxStreak, streakDates, start);
        currentStreak := 0;
        tempStreakDates := [];
      }
      n := n + 1;
    }
    BestOfAll(s, maxStreak, streakDates, start);
  }

  /** The longest streak reaches `threshold` exactly when some run of that
      length exists. */
  lemma LongestReaches(s: seq<Mark>, len: nat, dates: seq<string>, threshold: nat)
    requires FirstLongestRun(s, len, dates)
    ensures len >= threshold <==> exists i :: IsRun(s, i, threshold)
  {
    var start :| IsRun(s, start, len) && dates == DatesOf(s[start..start + len])
                 && forall j :: 0 <= j < start ==> !IsRun(s, j, len);
    if len >= threshold {
      assert IsRun(s, start, threshold);
    }
  }

  const DefaulterThreshold := 3

  /** A student reported by the defaulter check, with the streak and its
      dates. */
  datatype Defaulter = Defaulter(student: Admission, absentStreak: nat, absentDates: seq<string>)

  /** The check of one student in `fetchDefaulters`, the student's marks
      handed in: sort them by date, scan for the longest streak, report the
      student when it reaches 3. */
  method CheckDefaulter(student: Admission, marks: seq<Mark>) returns (d: Option<Defaulter>)
    ensures d.Some? <==> IsDefaulter(marks)
    ensures d.Some? ==> Reports(d.value, student, Some(marks))
  {
    var sorted := SortByDate(marks);
    var maxStreak, streakDates := AbsentStreak(sorted);
    LongestReaches(sorted, maxStreak, streakDates, DefaulterThreshold);
    assert sorted == SortByDate(marks);
    if maxStreak >= DefaulterThreshold {
      d := Some(Defaulter(student, maxStreak, streakDates));
    } else {
      d := None;
    }
  }

  /** The student's marks reach three absences in a row. */
  ghost predicate IsDefaulter(marks: seq<Mark>) {
    exists i :: IsRun(SortByDate(marks), i, DefaulterThreshold)
  }

  /** The students among the first `n` whose marks were fetched and reach
      three absences in a row, in list order. */
  ghost function Flagged(students: seq<Admission>, fetched: seq<Option<seq<Mark>>>, n: nat): seq<Admission>
    requires n <= |students| == |fetched|
  {
    if n == 0 then []
    else Flagged(students, fetched, n - 1)
         + (if fetched[n - 1].Some? && IsDefaulter(fetched[n - 1].value) then [students[n - 1]] else [])
  }

  /** `d` reports `student`, whose marks were fetched, with the longest
      streak of those marks (at least three) and the dates of its first
      occurrence. */
  ghost predicate Reports(d: Defaulter, student: Admission, fetched: Option<seq<Mark>>) {
    && fetched.Some? && d.student == student && d.absentStreak >= DefaulterThreshold
    && FirstLongestRun(SortByDate(fetched.value), d.absentStreak, d.absentDates)
  }

  ghost predicate ReportsOne(d: Defaulter, students: seq<Admission>, fetched: seq<Option<seq<Mark>>>)
    requires |fetched| == |students|
  {
    exists i :: 0 <= i < |students| && Reports(d, students[i], fetched[i])
  }

  function StudentsOf(ds: seq<Defaulter>): (r: seq<Admission>)
    ensures |r| == |ds| && forall k :: 0 <= k < |ds| ==> r[k] == ds[k].student
  {
    seq(|ds|, k requires 0 <= k < |ds| => ds[k].student)
  }

  lemma StudentsOfAppend(ds: seq<Defaulter>, d: Defaulter)
    ensures StudentsOf(ds + [d]) == StudentsOf(ds) + [d.student]
  {
  }

  /** The defaulters found among the first `n` students: the flagged ones,
      each with a report of its own marks. */
  ghost predicate FoundSoFar(result: seq<Defaulter>, students: seq<Admission>, fetched: seq<Option<seq<Mark>>>, n: nat)
    requires n <= |students| == |fetched|
  {
    && StudentsOf(result) == Flagged(students, fetched, n)
    && forall k :: 0 <= k < |result| ==> ReportsOne(result[k], students, fetched)
  }

  /** A student whose marks reach the threshold is appended. */
  lemma FoundAppended(result: seq<Defaulter>, d: Defaulter, students: seq<Admission>, fetched: seq<Option<seq<Mark>>>, n: nat)
    requires n < |students| == |fetched| && FoundSoFar(result, students, fetched, n)
    requires fetched[n].Some? && IsDefaulter(fetched[n].value) && Reports(d, students[n], fetched[n])
    ensures FoundSoFar(result + [d], students, fetched, n + 1)
  {
    StudentsOfAppend(result, d);
    assert ReportsOne(d, students, fetched);
  }

  /** Any other student is skipped. */
  lemma FoundSkipped(result: seq<Defaulter>, students: seq<Admission>, fetched: seq<Option<seq<Mark>>>, n: nat)
    requires n < |students| == |fetched| && FoundSoFar(result, students, fetched, n)
    requires !(fetched[n].Some? && IsDefaulter(fetched[n].value))
    ensures FoundSoFar(result, students, fetched, n + 1)
  {
    assert Flagged(students, fetched, n + 1) == Flagged(students, fetched, n) + [];
  }

  /** One student handled: `d` is what checking the student produced. */
  lemma FoundStep(result: seq<Defaulter>, d: Option<Defaulter>, students: seq<Admission>, fetched: seq<Option<seq<Mark>>>, n: nat)
    requires n < |students| == |fetched| && FoundSoFar(result, students, fetched, n)
    requires d.Some? <==> fetched[n].Some? && IsDefaulter(fetched[n].value)
    requires d.Some? ==> Reports(d.value, students[n], fetched[n])
    ensures FoundSoFar(if d.Some? then result + [d.value] else result, students, fetched, n + 1)
  {
    if d.Some? {
      FoundAppended(result, d.value, students, fetched, n);
    } else {
      FoundSkipped(result, students, fetched, n);
    }
  }

  /** `fetchDefaulters` with the per-student fetches handed in: `fetched[i]`
      is the marks of student `i`, `None` when the request failed or threw.
      No batch or no student gives no defaulter; otherwise every student
      whose fetched marks reach three absences in a row is reported, in list
      order, with the longest streak and its first dates. */
  method FindDefaulters(batch: string, students: seq<Admission>, fetched: seq<Option<seq<Mark>>>)
    returns (result: seq<Defaulter>)
    requires |fetched| == |students|
    ensures batch == [] ==> result == []
    ensures batch != [] ==> StudentsOf(result) == Flagged(students, fetched, |students|)
    ensures forall k :: 0 <= k < |result| ==> ReportsOne(result[k], students, fetched)
  {
    if batch == [] || students == [] {
      return [];
    }
    result := [];
    var n := 0;
    while n < |students|
      invariant 0 <= n <= |students|
      invariant FoundSoFar(result, students, fetched, n)
    {
      var d: Option<Defaulter> := None;
      if fetched[n].Some? {
        d := CheckDefaulter(students[n], fetched[n].value);
      }
      FoundStep(result, d, students, fetched, n);
      if d.Some? {
        result := result + [d.value];
      }
      n := n + 1;
    }
  }
}
