/** The admissions list (StudentAdmissionsList.jsx): the search and course
    filter, the course drop-down, the course label shown with its first
    hyphen turned into a space, and the spaced Aadhaar number. */
module Admissions {
  import opened Common
  import opened Text
  import opened Seqs

  // ---------------------------------------------------------------------
  // Search and course filter

  /** The search box: the lower-cased term occurs in the lower-cased first
      name, last name, course name or certificate name, or the term as
      typed occurs in the mobile number. */
  predicate MatchesSearch(a: Admission, term: string) {
    var t := Lower(term);
    || Contains(Lower(a.firstName), t)
    || Contains(Lower(a.lastName), t)
    || Contains(a.mobileNumber, term)
    || Contains(Lower(a.courseName), t)
    || Contains(Lower(a.certificateName), t)
  }

  /** The course filter: "All Courses" (the empty value) or that course. */
  predicate MatchesCourse(a: Admission, filterCourse: string) {
    filterCourse == [] || a.courseName == filterCourse
  }

  /** `filteredAdmissions`: the admissions that match both the search and
      the course filter, in their original order. */
  function FilteredAdmissions(admissions: seq<Admission>, term: string, filterCourse: string): (r: seq<Admission>)
    ensures IsSubsequence(r, admissions)
    ensures forall a :: a in r <==> a in admissions && MatchesSearch(a, term) && MatchesCourse(a, filterCourse)
    ensures forall a ::
      multiset(r)[a] == if MatchesSearch(a, term) && MatchesCourse(a, filterCourse) then multiset(admissions)[a] else 0
  {
    Filter(admissions, (a: Admission) => MatchesSearch(a, term) && MatchesCourse(a, filterCourse))
  }

  /** With an empty search and "All Courses" every admission is listed. */
  lemma EmptyFiltersKeepAll(admissions: seq<Admission>)
    ensures FilteredAdmissions(admissions, "", "") == admissions
  {
    FilterAllKept(admissions, (a: Admission) => MatchesSearch(a, "") && MatchesCourse(a, ""));
  }

  /** Choosing a course only narrows the list the search alone gives. */
  lemma CourseNarrows(admissions: seq<Admission>, term: string, filterCourse: string)
    ensures forall a :: a in FilteredAdmissions(admissions, term, filterCourse) ==>
      a in FilteredAdmissions(admissions, term, "") && MatchesCourse(a, filterCourse)
    ensures |FilteredAdmissions(admissions, term, filterCourse)| <= |FilteredAdmissions(admissions, term, "")|
  {
    FilterCount(admissions, term, filterCourse);
  }

  lemma {:induction false} FilterCount(admissions: seq<Admission>, term: string, filterCourse: string)
    ensures |FilteredAdmissions(admissions, term, filterCourse)| <= |FilteredAdmissions(admissions, term, "")|
  {
    if admissions != [] {
      FilterCount(admissions[1..], term, filterCourse);
    }
  }

  // ---------------------------------------------------------------------
  // Course drop-down

  function CourseNames(admissions: seq<Admission>): (names: seq<string>)
    ensures |names| == |admissions|
    ensures forall i :: 0 <= i < |names| ==> names[i] == admissions[i].courseName
  {
    seq(|admissions|, i requires 0 <= i < |admissions| => admissions[i].courseName)
  }

  /** `[...new Set(admissions.map(a => a.courseName))]`: every course name of
      an admission, once, in order of first appearance. */
  function CourseOptions(admissions: seq<Admission>): seq<string> {
    Distinct(CourseNames(admissions))
  }

  /** The drop-down lists each course name of an admission exactly once and
      nothing else, in the order of the first admission to each course. */
  lemma CourseOptionsOnce(admissions: seq<Admission>)
    ensures NoDuplicates(CourseOptions(admissions))
    ensures forall c :: c in CourseOptions(admissions) <==> exists i :: 0 <= i < |admissions| && admissions[i].courseName == c
    ensures forall c :: c in CourseOptions(admissions) ==> multiset(CourseOptions(admissions))[c] == 1
    ensures InFirstOccurrenceOrder(CourseOptions(admissions), CourseNames(admissions))
  {
    DistinctOrder(CourseNames(admissions));
    var names := CourseNames(admissions);
    forall c | exists i :: 0 <= i < |admissions| && admissions[i].courseName == c
      ensures c in names
    {
      var i :| 0 <= i < |admissions| && admissions[i].courseName == c;
      assert names[i] == c;
    }
    forall c | c in CourseOptions(admissions)
      ensures multiset(CourseOptions(admissions))[c] == 1
    {
      OnceInDistinct(CourseOptions(admissions), c);
    }
  }

  /** An element of a sequence without duplicates occurs in it once. */
  lemma {:induction false} OnceInDistinct<T(!new)>(s: seq<T>, x: T)
    requires NoDuplicates(s) && x in s
    ensures multiset(s)[x] == 1
  {
    assert s == [s[0]] + s[1..];
    if s[0] == x {
      assert x !in s[1..];
    } else {
      OnceInDistinct(s[1..], x);
    }
  }

  // ---------------------------------------------------------------------
  // Course label

  /** The index of the first hyphen of `s`, or `|s|` when there is none. */
  function FirstHyphen(s: string): (k: nat)
    ensures k <= |s| && '-' !in s[..k]
    ensures k < |s| <==> '-' in s
    ensures k < |s| ==> s[k] == '-'
  {
    if s == [] || s[0] == '-' then 0
    else
      var k := FirstHyphen(s[1..]);
      assert s[..k + 1] == [s[0]] + s[1..][..k];
      k + 1
  }

  /** `courseName.replace("-", " ")`: a string pattern, so only the first
      hyphen becomes a space and every other character is kept. */
  function CourseLabel(s: string): (r: string)
    ensures |r| == |s|
    ensures '-' !in s ==> r == s
    ensures forall j :: 0 <= j < |s| && j != FirstHyphen(s) ==> r[j] == s[j]
    ensures '-' in s ==> r[FirstHyphen(s)] == ' '
  {
    var k := FirstHyphen(s);
    if k < |s| then s[..k] + " " + s[k + 1..] else s
  }

  /** The label has exactly one hyphen fewer than the name when the name has
      one, and one space more. */
  lemma CourseLabelCounts(s: string)
    requires '-' in s
    ensures multiset(CourseLabel(s))['-'] == multiset(s)['-'] - 1
    ensures multiset(CourseLabel(s))[' '] == multiset(s)[' '] + 1
  {
    var k := FirstHyphen(s);
    assert s == s[..k] + [s[k]] + s[k + 1..];
  }

  // ---------------------------------------------------------------------
  // Aadhaar number

  /** Twelve digits in a row start at `i`. */
  predicate RunAt(s: string, i: int) {
    0 <= i && i + 12 <= |s| && AllDigits(s[i..i + 12])
  }

  /** The leftmost start, at `from` or later, of twelve digits in a row. */
  function FirstRunFrom(s: string, from: nat): (r: Option<nat>)
    requires from <= |s|
    ensures r.None? <==> forall i :: from <= i ==> !RunAt(s, i)
    ensures r.Some? ==> (from <= r.value && RunAt(s, r.value)
      && forall i :: from <= i < r.value ==> !RunAt(s, i))
    decreases |s| - from
  {
    if from + 12 > |s| then None
    else if AllDigits(s[from..from + 12]) then
      assert RunAt(s, from);
      Some(from)
    else FirstRunFrom(s, from + 1)
  }

  /** `aadharNumber.replace(/(\d{4})(\d{4})(\d{4})/, "$1 $2 $3")`: the
      leftmost twelve digits in a row get a space after their fourth and
      eighth digit; without such a run the number is shown as it is. */
  function FormatAadhar(s: string): string {
    match FirstRunFrom(s, 0)
    case None => s
    case Some(i) => s[..i + 4] + " " + s[i + 4..i + 8] + " " + s[i + 8..]
  }

  /** A number with no twelve digits in a row is unchanged. */
  lemma FormatAadharNoRun(s: string)
    requires forall i :: !RunAt(s, i)
    ensures FormatAadhar(s) == s
  {
  }

  /** Twelve digits become `dddd dddd dddd`. */
  lemma FormatAadharTwelve(s: string)
    requires |s| == 12 && AllDigits(s)
    ensures FormatAadhar(s) == s[..4] + " " + s[4..8] + " " + s[8..]
    ensures |FormatAadhar(s)| == 14 && FormatAadhar(s)[4] == ' ' && FormatAadhar(s)[9] == ' '
  {
    assert s[0..12] == s;
  }

  /** Formatting adds two spaces inside the first run and nothing else: its
      digits, and everything but those two spaces, are the number's. */
  lemma FormatAadharKeeps(s: string)
    ensures DigitsOnly(FormatAadhar(s)) == DigitsOnly(s)
    ensures FirstRunFrom(s, 0).Some? ==> var i := FirstRunFrom(s, 0).value;
      var r := FormatAadhar(s);
      |r| == |s| + 2 && r[i + 4] == ' ' && r[i + 9] == ' '
      && r[..i + 4] + r[i + 5..i + 9] + r[i + 10..] == s
  {
    match FirstRunFrom(s, 0)
    case None =>
    case Some(i) =>
      var a, b, c := s[..i + 4], s[i + 4..i + 8], s[i + 8..];
      assert s == a + b + c;
      SpacedDigits(a, b, c);
      SpacedParts(a, b, c);
  }

  /** Two inserted spaces are not digits. */
  lemma SpacedDigits(a: string, b: string, c: string)
    ensures DigitsOnly(a + " " + b + " " + c) == DigitsOnly(a + b + c)
  {
    var ab := a + " " + b;
    DigitsOnlyAppend(ab + " ", c);
    SpaceDropped(ab);
    DigitsOnlyAppend(a + " ", b);
    SpaceDropped(a);
    DigitsOnlyAppend(a + b, c);
    DigitsOnlyAppend(a, b);
  }

  lemma SpaceDropped(x: string)
    ensures DigitsOnly(x + " ") == DigitsOnly(x)
  {
    DigitsOnlyAppend(x, " ");
    assert DigitsOnly(" ") == [];
  }

  /** Where the three parts and the two spaces sit in `a + " " + b + " " + c`. */
  lemma SpacedParts(a: string, b: string, c: string)
    ensures var r := a + " " + b + " " + c;
      |r| == |a| + |b| + |c| + 2 && r[|a|] == ' ' && r[|a| + |b| + 1] == ' '
      && r[..|a|] == a && r[|a| + 1..|a| + |b| + 1] == b && r[|a| + |b| + 2..] == c
  {
  }

  lemma {:induction false} DigitsOnlyAppend(a: string, b: string)
    ensures DigitsOnly(a + b) == DigitsOnly(a) + DigitsOnly(b)
  {
    if a != [] {
      assert (a + b)[1..] == a[1..] + b;
      DigitsOnlyAppend(a[1..], b);
    } else {
      assert a + b == b;
    }
  }
}
