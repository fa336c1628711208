/** The fee screen (FeeManagement.jsx): the ledger of each student, taken
    from the fee summary when the server has a record for the student and
    computed from the course fee otherwise; the status shown for it; the
    payment form opened for a student; the searchable, paginated list of
    display records and the totals above it. */
module FeeManagement {
  import opened Common
  import opened Text
  import opened Seqs
  import opened RecordPayment

  // ---------------------------------------------------------------------
  // Ledger

  datatype FeeStatus = PAID | PARTIAL | OVERDUE | PENDING | OtherStatus(name: string)

  /** One entry of the fee summary the server returns. `monthsOverdue` may
      be missing. */
  datatype FeeRecord = FeeRecord(
    studentId: string,
    courseFee: int,
    totalPaid: int,
    balance: int,
    isOverdue: bool,
    monthsOverdue: Option<int>,
    status: FeeStatus,
    lastPaymentDate: Option<string>
  )

  datatype PaymentStatus = PaymentStatus(
    totalDue: int,
    totalPaid: int,
    balance: int,
    isOverdue: bool,
    monthsOverdue: int
  )

  /** `feeRecords.find(fee => fee.student_id === id)`: the first record of
      the student, if any. */
  function FindFeeRecord(records: seq<FeeRecord>, id: string): (r: Option<FeeRecord>)
    ensures r.None? <==> forall i :: 0 <= i < |records| ==> records[i].studentId != id
    ensures r.Some? ==> exists i :: 0 <= i < |records| && records[i] == r.value
                                    && forall j :: 0 <= j < i ==> records[j].studentId != id
    ensures r.Some? ==> r.value.studentId == id
  {
    if records == [] then None
    else if records[0].studentId == id then
      assert records[0] == records[0];
      Some(records[0])
    else
      var r := FindFeeRecord(records[1..], id);
      if r.Some? then
        var i :| 0 <= i < |records[1..]| && records[1..][i] == r.value
                 && forall j :: 0 <= j < i ==> records[1..][j].studentId != id;
        assert records[i + 1] == r.value;
        assert forall j :: 0 <= j < i + 1 ==> records[j].studentId != id by {
          forall j | 0 <= j < i + 1 ensures records[j].studentId != id {
            if j > 0 {
              assert records[j] == records[1..][j - 1];
            }
          }
        }
        r
      else
        r
  }

  /** The fee of each course; `getCourseFee` falls back to 2000. */
  const CourseFees: map<string, int> := map[
    "MS-CIT" := 3000,
    "ADVANCE TALLY - CIT" := 2500,
    "ADVANCE TALLY - KLIC" := 2500,
    "ADVANCE EXCEL - CIT" := 2000,
    "ENGLISH TYPING - MKCL" := 1500,
    "ENGLISH TYPING - CIT" := 1500,
    "ENGLISH TYPING - GOVT" := 1500,
    "MARATHI TYPING - MKCL" := 1500,
    "MARATHI TYPING - CIT" := 1500,
    "MARATHI TYPING - GOVT" := 1500,
    "DTP - CIT" := 2000,
    "DTP - KLIC" := 2000,
    "IT - KLIC" := 2500,
    "KLIC DIPLOMA" := 3500
  ]

  const DefaultCourseFee := 2000

  function GetCourseFee(courseName: string): int {
    if courseName in CourseFees && CourseFees[courseName] != 0 then CourseFees[courseName]
    else DefaultCourseFee
  }

  /** A listed course gets its table fee and any other name the default;
      every fee lies between 1500 and 3500. */
  lemma CourseFeeLookup(courseName: string)
    ensures courseName in CourseFees ==> GetCourseFee(courseName) == CourseFees[courseName]
    ensures courseName !in CourseFees ==> GetCourseFee(courseName) == 2000
    ensures 1500 <= GetCourseFee(courseName) <= 3500
  {
    assert forall c :: c in CourseFees ==> 1500 <= CourseFees[c] <= 3500;
  }

  /** Whole months from the admission month to the current month. */
  function MonthsDiff(admitted: YearMonth, today: YearMonth): int {
    (today.year - admitted.year) * 12 + (today.month - admitted.month)
  }

  function Max(a: int, b: int): int {
    if a < b then b else a
  }

  /** The ledger computed when the server has no record: the course fee for
      every month since admission, the current one included, nothing paid. */
  function FallbackStatus(courseFee: int, monthsDiff: int): PaymentStatus {
    var totalDue := courseFee * Max(1, monthsDiff + 1);
    var totalPaid := 0;
    var balance := totalDue - totalPaid;
    var isOverdue := balance > 0 && monthsDiff > 0;
    PaymentStatus(totalDue, totalPaid, balance, isOverdue, if isOverdue then monthsDiff else 0)
  }

  /** The fallback ledger owes at least one month's fee, even for an
      admission dated in the future, owes all of it, and is overdue exactly
      when a month has passed; the months overdue are never negative. */
  lemma FallbackLedger(courseFee: int, monthsDiff: int)
    requires courseFee > 0
    ensures var s := FallbackStatus(courseFee, monthsDiff);
      && s.totalDue >= courseFee
      && s.totalDue == courseFee * (if monthsDiff < 0 then 1 else monthsDiff + 1)
      && s.totalPaid == 0
      && s.balance == s.totalDue - s.totalPaid
      && (s.isOverdue <==> monthsDiff > 0)
      && s.monthsOverdue == Max(0, monthsDiff)
      && s.monthsOverdue >= 0
  {
    var s := FallbackStatus(courseFee, monthsDiff);
    var m := Max(1, monthsDiff + 1);
    assert m >= 1;
    assert courseFee * m >= courseFee * 1 by {
      assert courseFee * m - courseFee == courseFee * (m - 1);
    }
  }

  /** `calculatePaymentStatus`: the student's fee record copied, its missing
      months overdue read as 0, or the fallback ledger. */
  function CalculatePaymentStatus(records: seq<FeeRecord>, student: Admission, today: YearMonth): PaymentStatus {
    match FindFeeRecord(records, student.id)
    case Some(f) => PaymentStatus(f.courseFee, f.totalPaid, f.balance, f.isOverdue, f.monthsOverdue.GetOr(0))
    case None => FallbackStatus(GetCourseFee(student.courseName), MonthsDiff(student.admitted, today))
  }

  /** Which of the two ledgers a student gets. */
  lemma PaymentStatusSource(records: seq<FeeRecord>, student: Admission, today: YearMonth)
    ensures var s := CalculatePaymentStatus(records, student, today);
      (exists i :: 0 <= i < |records| && records[i].studentId == student.id)
      ==> exists f :: f in records && f.studentId == student.id
                      && s == PaymentStatus(f.courseFee, f.totalPaid, f.balance, f.isOverdue,
                                            if f.monthsOverdue.Some? then f.monthsOverdue.value else 0)
    ensures var s := CalculatePaymentStatus(records, student, today);
      (forall i :: 0 <= i < |records| ==> records[i].studentId != student.id)
      ==> && s == FallbackStatus(GetCourseFee(student.courseName), MonthsDiff(student.admitted, today))
          && s.totalDue >= GetCourseFee(student.courseName)
          && s.totalPaid == 0
          && s.balance == s.totalDue
          && (s.isOverdue <==> MonthsDiff(student.admitted, today) > 0)
          && s.monthsOverdue >= 0
  {
    CourseFeeLookup(student.courseName);
    FallbackLedger(GetCourseFee(student.courseName), MonthsDiff(student.admitted, today));
    var r := FindFeeRecord(records, student.id);
    if r.Some? {
      var i :| 0 <= i < |records| && records[i] == r.value;
      assert r.value in records;
    }
  }

  /** The status shown when the server has no record: PAID when nothing is
      owed, then PARTIAL when something was paid, then OVERDUE when overdue,
      PENDING otherwise. */
  function FallbackFeeStatus(s: PaymentStatus): FeeStatus {
    if s.balance <= 0 then PAID
    else if s.totalPaid > 0 then PARTIAL
    else if s.isOverdue then OVERDUE
    else PENDING
  }

  /** The fallback status decided case by case: each status holds exactly
      when the earlier ones do not and its own condition does. */
  lemma FallbackFeeStatusCases(s: PaymentStatus)
    ensures FallbackFeeStatus(s) == PAID <==> s.balance <= 0
    ensures FallbackFeeStatus(s) == PARTIAL <==> s.balance > 0 && s.totalPaid > 0
    ensures FallbackFeeStatus(s) == OVERDUE <==> s.balance > 0 && s.totalPaid <= 0 && s.isOverdue
    ensures FallbackFeeStatus(s) == PENDING <==> s.balance > 0 && s.totalPaid <= 0 && !s.isOverdue
    ensures !FallbackFeeStatus(s).OtherStatus?
  {
  }

  /** A student without a record is never PARTIAL or PAID: OVERDUE once a
      month has passed since admission, PENDING before. */
  lemma FallbackNeverPartial(courseName: string, monthsDiff: int)
    ensures var st := FallbackFeeStatus(FallbackStatus(GetCourseFee(courseName), monthsDiff));
      && st != PARTIAL && st != PAID
      && (st == OVERDUE <==> monthsDiff > 0)
      && (st == PENDING <==> monthsDiff <= 0)
  {
    CourseFeeLookup(courseName);
    FallbackLedger(GetCourseFee(courseName), monthsDiff);
  }

  // ---------------------------------------------------------------------
  // Display records

  /** One row of the fee table. */
  datatype DisplayRecord = DisplayRecord(
    studentId: string,
    studentName: string,
    courseName: string,
    mobileNumber: string,
    admitted: YearMonth,
    totalDue: int,
    totalPaid: int,
    balance: int,
    status: FeeStatus,
    isOverdue: bool,
    monthsOverdue: int,
    lastPaymentDate: Option<string>
  )

  /** First, middle and last name separated by single spaces; a missing
      middle name leaves two spaces. */
  function StudentName(student: Admission): (name: string)
    ensures |name| == |student.firstName| + |student.middleName| + |student.lastName| + 2
    ensures name[..|student.firstName|] == student.firstName
    ensures name[|student.firstName|] == ' '
    ensures name[|name| - |student.lastName|..] == student.lastName
  {
    var name := student.firstName + " " + student.middleName + " " + student.lastName;
    assert name[..|student.firstName|] == student.firstName;
    assert name[|name| - |student.lastName|..] == student.lastName;
    name
  }

  /** The row `generateFeeRecords` builds for one student. */
  function ToDisplayRecord(records: seq<FeeRecord>, student: Admission, today: YearMonth): DisplayRecord {
    var s := CalculatePaymentStatus(records, student, today);
    var f := FindFeeRecord(records, student.id);
    DisplayRecord(
      student.id, StudentName(student), student.courseName, student.mobileNumber, student.admitted,
      s.totalDue, s.totalPaid, s.balance,
      if f.Some? then f.value.status else FallbackFeeStatus(s),
      s.isOverdue, s.monthsOverdue,
      if f.Some? then f.value.lastPaymentDate else None)
  }

  /** `generateFeeRecords`: one row per student, in order. */
  function GenerateFeeRecords(records: seq<FeeRecord>, students: seq<Admission>, today: YearMonth): (rows: seq<DisplayRecord>)
    ensures |rows| == |students|
    ensures forall i :: 0 <= i < |rows| ==> rows[i] == ToDisplayRecord(records, students[i], today)
  {
    seq(|students|, i requires 0 <= i < |students| => ToDisplayRecord(records, students[i], today))
  }

  /** A row takes its status and last payment date from the student's fee
      record when there is one; otherwise the status is the fallback one,
      OVERDUE once a month has passed and PENDING before, and there is no
      last payment date. */
  lemma DisplayRecordStatus(records: seq<FeeRecord>, student: Admission, today: YearMonth)
    ensures var row := ToDisplayRecord(records, student, today);
      (forall i :: 0 <= i < |records| ==> records[i].studentId != student.id)
      ==> row.status != PARTIAL && row.lastPaymentDate.None?
          && (row.status == OVERDUE <==> MonthsDiff(student.admitted, today) > 0)
          && (row.status == PENDING <==> MonthsDiff(student.admitted, today) <= 0)
    ensures var row := ToDisplayRecord(records, student, today);
      forall i :: (0 <= i < |records| && records[i].studentId == student.id
                   && (forall j :: 0 <= j < i ==> records[j].studentId != student.id))
        ==> (row.status == records[i].status && row.lastPaymentDate == records[i].lastPaymentDate
             && row.balance == records[i].balance)
  {
    var f := FindFeeRecord(records, student.id);
    if f.None? {
      FallbackNeverPartial(student.courseName, MonthsDiff(student.admitted, today));
    } else {
      var k :| 0 <= k < |records| && records[k] == f.value
               && forall j :: 0 <= j < k ==> records[j].studentId != student.id;
      assert f.value in records;
      forall i | 0 <= i < |records| && records[i].studentId == student.id
                 && (forall j :: 0 <= j < i ==> records[j].studentId != student.id)
        ensures records[i] == f.value
      {
      }
    }
  }

  // ---------------------------------------------------------------------
  // Search and filters

  datatype StatusChoice = AllStatuses | StatusIs(status: FeeStatus)

  datatype CourseChoice = AllCourses | CourseIs(course: string)

  /** The search box: empty, or a case-insensitive match in the name, or a
      match in the student id or the mobile number. */
  predicate MatchesSearch(row: DisplayRecord, term: string) {
    term == []
    || Contains(Lower(row.studentName), Lower(term))
    || Contains(row.studentId, term)
    || Contains(row.mobileNumber, term)
  }

  predicate KeepRow(row: DisplayRecord, term: string, status: StatusChoice, course: CourseChoice) {
    && MatchesSearch(row, term)
    && (status.AllStatuses? || row.status == status.status)
    && (course.AllCourses? || row.courseName == course.course)
  }

  /** `filteredDisplayRecords`: the rows kept by the search and both
      filters, in their order. */
  function FilteredDisplayRecords(rows: seq<DisplayRecord>, term: string, status: StatusChoice, course: CourseChoice): (kept: seq<DisplayRecord>)
    ensures IsSubsequence(kept, rows)
    ensures forall r :: r in kept <==> r in rows && KeepRow(r, term, status, course)
    ensures forall r :: multiset(kept)[r] == if KeepRow(r, term, status, course) then multiset(rows)[r] else 0
  {
    Filter(rows, r => KeepRow(r, term, status, course))
  }

  /** No search and no filter keeps every row. */
  lemma UnfilteredKeepsAll(rows: seq<DisplayRecord>)
    ensures FilteredDisplayRecords(rows, [], AllStatuses, AllCourses) == rows
  {
    FilterAllKept(rows, r => KeepRow(r, [], AllStatuses, AllCourses));
  }

  // ---------------------------------------------------------------------
  // Pagination

  const RecordsPerPage := 12

  /** `Math.ceil(n / 12)`: the fewest pages of 12 that hold `n` rows. */
  function TotalPages(n: nat): (pages: nat)
    ensures pages * RecordsPerPage >= n
    ensures pages > 0 ==> (pages - 1) * RecordsPerPage < n
    ensures n == 0 <==> pages == 0
  {
    (n + RecordsPerPage - 1) / RecordsPerPage
  }

  function MinNat(a: nat, b: nat): nat {
    if a < b then a else b
  }

  /** `rows.slice((page - 1) * 12, page * 12)`; the slice stops at the end
      of `rows`. The page number is always at least 1. */
  function PageSlice<T>(rows: seq<T>, page: nat): (slice: seq<T>)
    requires page >= 1
    ensures |slice| <= RecordsPerPage
    ensures forall k :: 0 <= k < |slice| ==>
      (page - 1) * RecordsPerPage + k < |rows| && slice[k] == rows[(page - 1) * RecordsPerPage + k]
    ensures page <= TotalPages(|rows|) <==> slice != []
  {
    rows[MinNat((page - 1) * RecordsPerPage, |rows|)..MinNat(page * RecordsPerPage, |rows|)]
  }

  /** Pages `from` to `to`, in order. */
  function Pages<T>(rows: seq<T>, from: nat, to: nat): seq<seq<T>>
    requires 1 <= from
    decreases if to < from then 0 else to - from + 1
  {
    if from > to then [] else [PageSlice(rows, from)] + Pages(rows, from + 1, to)
  }

  /** Pages `from` to the last one, put back together, are the rows from
      the start of page `from` on. */
  lemma {:induction false} PagesFrom<T>(rows: seq<T>, from: nat)
    requires 1 <= from <= TotalPages(|rows|) + 1
    ensures Flatten(Pages(rows, from, TotalPages(|rows|))) == rows[MinNat((from - 1) * RecordsPerPage, |rows|)..]
    decreases TotalPages(|rows|) + 1 - from
  {
    var last := TotalPages(|rows|);
    if from > last {
      assert (from - 1) * RecordsPerPage >= |rows|;
    } else {
      PagesFrom(rows, from + 1);
      var a, b := MinNat((from - 1) * RecordsPerPage, |rows|), MinNat(from * RecordsPerPage, |rows|);
      assert Pages(rows, from, last) == [PageSlice(rows, from)] + Pages(rows, from + 1, last);
      assert Flatten(Pages(rows, from, last)) == rows[a..b] + rows[b..];
      assert rows[a..b] + rows[b..] == rows[a..];
    }
  }

  /** All pages together hold every row once, in order. */
  lemma PagesCoverRows<T>(rows: seq<T>)
    ensures Flatten(Pages(rows, 1, TotalPages(|rows|))) == rows
  {
    PagesFrom(rows, 1);
  }

  /** "Previous": one page back, never below page 1. */
  function PreviousPage(page: nat): (p: nat)
    ensures p >= 1
    ensures page > 1 ==> p == page - 1
    ensures page <= 1 ==> p == 1
  {
    if page - 1 < 1 then 1 else page - 1
  }

  /** "Next": one page on, never past the last page. */
  function NextPage(page: nat, totalPages: nat): (p: nat)
    ensures p <= totalPages && p <= page + 1
    ensures page < totalPages ==> p == page + 1
    ensures page >= totalPages ==> p == totalPages
  {
    if totalPages < page + 1 then totalPages else page + 1
  }

  /** From a page that has a next one, "Next" then "Previous" comes back,
      and both buttons keep a valid page valid. */
  lemma PageSteps(page: nat, totalPages: nat)
    requires 1 <= page <= totalPages
    ensures 1 <= NextPage(page, totalPages) <= totalPages
    ensures 1 <= PreviousPage(page) <= totalPages
    ensures page < totalPages ==> PreviousPage(NextPage(page, totalPages)) == page
  {
  }

  // ---------------------------------------------------------------------
  // Totals above the table

  /** `displayRecords.reduce((sum, r) => sum + r.balance, 0)`. */
  function TotalBalance(rows: seq<DisplayRecord>): int {
    if rows == [] then 0 else rows[0].balance + TotalBalance(rows[1..])
  }

  lemma {:induction false} TotalBalanceAppend(a: seq<DisplayRecord>, b: seq<DisplayRecord>)
    ensures TotalBalance(a + b) == TotalBalance(a) + TotalBalance(b)
  {
    if a == [] {
      assert a + b == b;
    } else {
      assert (a + b)[1..] == a[1..] + b;
      TotalBalanceAppend(a[1..], b);
    }
  }

  /** The status each row shows, in row order. */
  function Statuses(rows: seq<DisplayRecord>): (ss: seq<FeeStatus>)
    ensures |ss| == |rows| && forall i :: 0 <= i < |rows| ==> ss[i] == rows[i].status
  {
    seq(|rows|, i requires 0 <= i < |rows| => rows[i].status)
  }

  function HasStatus(status: FeeStatus): DisplayRecord -> bool {
    (r: DisplayRecord) => r.status == status
  }

  /** The count cards, `filter(r => r.status === s).length`: how many rows
      show the status, so never more than the rows. */
  function CountStatus(rows: seq<DisplayRecord>, status: FeeStatus): (n: nat)
    ensures n == multiset(Statuses(rows))[status]
    ensures n <= |rows|
  {
    FilterStatusCount(rows, status);
    |Filter(rows, HasStatus(status))|
  }

  lemma {:induction false} FilterStatusCount(rows: seq<DisplayRecord>, status: FeeStatus)
    ensures |Filter(rows, HasStatus(status))| == multiset(Statuses(rows))[status]
  {
    if rows != [] {
      FilterStatusCount(rows[1..], status);
      assert Statuses(rows) == [rows[0].status] + Statuses(rows[1..]);
    }
  }

  /** A row shows one status, so the PENDING, PARTIAL and PAID cards never
      add up to more than the number of rows. */
  lemma {:induction false} StatusCountsBounded(rows: seq<DisplayRecord>)
    ensures CountStatus(rows, PENDING) + CountStatus(rows, PARTIAL) + CountStatus(rows, PAID) <= |rows|
  {
    var m := multiset(Statuses(rows));
    DistinctCountsBounded(m, PENDING, PARTIAL, PAID);
  }

  /** Three different elements occur in a multiset at most its size times
      together. */
  lemma DistinctCountsBounded(m: multiset<FeeStatus>, a: FeeStatus, b: FeeStatus, c: FeeStatus)
    requires a != b && b != c && a != c
    ensures m[a] + m[b] + m[c] <= |m|
  {
    var rest := m[a := 0][b := 0][c := 0];
    var picked := multiset{}[a := m[a]][b := m[b]][c := m[c]];
    assert m == picked + rest;
  }

  // ---------------------------------------------------------------------
  // Opening the payment form

  function MinReal(a: real, b: real): real {
    if a < b then a else b
  }

  /** `handleAddPayment`: the form a payment for the student starts from;
      `paymentDate` is today's date, handed in. */
  function DefaultPayment(student: Admission, s: PaymentStatus, paymentDate: string): PaymentData {
    PaymentData(
      student.id, IntToString(s.balance), paymentDate, CASH, "", "",
      if s.isOverdue then MinReal(500.0, s.balance as real * 0.1) else 0.0,
      0, None, None, None)
  }

  /** The form proposes the whole balance as a cash payment with no
      discount, and a late fee only when overdue: a tenth of the balance,
      at most 500. So the cash it expects is the balance plus that fee. */
  lemma DefaultPaymentAmounts(student: Admission, s: PaymentStatus, paymentDate: string)
    ensures var p := DefaultPayment(student, s, paymentDate);
      && AmountValue(p.amount) == s.balance
      && p.paymentMethod == CASH && p.discount == 0
      && p.lateFee <= 500.0
      && (!s.isOverdue ==> p.lateFee == 0.0)
      && (s.isOverdue && s.balance >= 0 ==> 0.0 <= p.lateFee && p.lateFee * 10.0 <= s.balance as real)
      && (s.isOverdue ==> p.lateFee == 500.0 || p.lateFee * 10.0 == s.balance as real)
      && ExpectedCashTotal(p) == s.balance as real + p.lateFee
  {
    ParseIntToString(s.balance);
  }
}
