# Fee and attendance logic of the training-institute front end, in Dafny

This project models the logic that sits inside five React screens of a
training institute's administration front end, and proves properties of that
model. The screens are:

- **Fee management** (`FeeManagement.jsx`, module `FeeManagement`). It holds:
  - the course fee table;
  - the ledger of one student. This is either the server's fee record or a fallback computed from the months since admission.
  - the status chosen when no record exists;
  - the payment form pre-filled by "Add payment";
  - the search and filters over the display rows, pagination by 12, and the counters and total above the table.
- **Record payment dialog** (`RecordPaymentModal.jsx`, module `RecordPayment`). It holds:
  - the cash denomination table and its total;
  - the total expected in cash, `amount + late fee - discount`;
  - the count and serial-number updates;
  - the amount and discount clamps;
  - the submit check, which rejects a cash payment whose notes do not add up;
  - the normalised list of notes;
  - the layout of the 500-note serial inputs four to a row.
- **Attendance** (`AttendanceManagement.jsx`, module `Attendance`). It holds:
  - the batch list;
  - the map of the day's marks (load, mark all, toggle);
  - the records submitted;
  - the status filter of a day's history;
  - the defaulter check. It sorts each student's marks by date, scans once for the longest run of ABSENT marks, keeps the first of equally long runs, and reports the student at three or more.
- **Fee receipt** (`FeeReceipt.jsx`, modules `FeeReceipt` and `ReceiptAmount`). It holds:
  - `numberToWords` in the Indian system (Crore, Lakh, Thousand, Hundred), with its helper `convertHundreds`;
  - `amountToWords`, which gives "Rupees ... [and ... Paise] Only";
  - the receipt total.
- **Admissions list** (`StudentAdmissionsList.jsx`, module `Admissions`). It holds:
  - the case-insensitive search over several fields, and the course filter;
  - the course drop-down;
  - the course label, which turns the first hyphen into a space;
  - the `dddd dddd dddd` Aadhaar format.

Three modules hold shared helpers:

- `Common`: `Option` and the admission record.
- `Text`: ASCII case mapping, the digit filter, `parseInt`, `toString` and `includes`.
- `Seqs`: filter, de-duplication, subsequence and flatten.

Form of the model:

- Code that computes a value is modelled as functions and lemmas.
- The loops are modelled as methods with loop invariants, each proved against a specification function. The loops are:
  - `convertHundreds` and `numberToWords`, which append to a string;
  - mark-all, which fills a dictionary;
  - the streak scan and the loop over the students of a batch;
  - the serial rows of four.

Modelling choices:

- Money is `int` rupees. JavaScript numbers are modelled as exact `real`s where the code computes fractions: the late fee, the receipt total and the paise.
- Dates are ISO strings compared character by character. The months since admission are an integer input.
- Every `fetch` is replaced by its result, handed in as a parameter. `fetchDefaulters` receives one optional list of marks per student, `None` when the request failed.

Behaviour worth noting:

- The streak is reset by any status other than ABSENT, PRESENT or not.
- The only submit-time rejection is the cash total check. The amount and discount limits are applied while typing (the clamps). The cheque fields are required only through HTML `required`. There is no rejection for an amount above the balance or a missing bank name.
- Marks are ordered by `localeCompare` on the date string. No date type is involved.
- Students are checked one after another. Malformed marks are not skipped or counted: the scan reads whatever was fetched.

## Model

| member | source | states |
|---|---|---|
| FeeManagement.FindFeeRecord | src/components/FeeManagement.jsx:146-148 | `find`: None exactly when no fee record carries the student id; otherwise the first record with that id |
| FeeManagement.CourseFeeLookup | src/components/FeeManagement.jsx:182-201 | a course in the table gets its table fee, any other course 2000; every fee lies between 1500 and 3500 |
| FeeManagement.FallbackLedger | src/components/FeeManagement.jsx:160-178 | without a record: total due is fee × max(1, months+1), so at least one month's fee even for a future admission; nothing paid; balance = due − paid; overdue exactly when a month has passed; months overdue = max(0, months) ≥ 0 |
| FeeManagement.PaymentStatusSource | src/components/FeeManagement.jsx:144-180 | with a record for the student the ledger is that record's due, paid, balance and overdue flag, months overdue defaulting to 0; without one it is exactly the fallback ledger of the course fee and the months since admission, whose due is at least the fee, with nothing paid, the whole due as balance, overdue iff a month has passed |
| FeeManagement.FallbackFeeStatusCases | src/components/FeeManagement.jsx:271-282 | the fallback status is PAID iff balance ≤ 0, else PARTIAL iff something was paid, else OVERDUE iff overdue, else PENDING; never any other status |
| FeeManagement.FallbackNeverPartial | src/components/FeeManagement.jsx:160-178 | a student without a record is never PARTIAL or PAID: OVERDUE exactly when a month has passed, PENDING otherwise |
| FeeManagement.StudentName | src/components/FeeManagement.jsx:295 | the display name starts with the first name and a space, ends with the last name, and is as long as the three names and two spaces |
| FeeManagement.GenerateFeeRecords | src/components/FeeManagement.jsx:263-308 | one display row per student, in order |
| FeeManagement.DisplayRecordStatus | src/components/FeeManagement.jsx:263-308 | a row takes status, last payment date and balance from the student's first fee record; without one its status is the fallback: OVERDUE iff a month has passed, PENDING otherwise, never PARTIAL or PAID, and it has no last payment date |
| FeeManagement.FilteredDisplayRecords | src/components/FeeManagement.jsx:311-326 | the kept rows are an order-preserving subsequence of the rows; a row is kept iff it matches the search, the status choice and the course choice, and then as often as it occurs |
| FeeManagement.UnfilteredKeepsAll | src/components/FeeManagement.jsx:311-326 | empty search, ALL statuses and ALL courses keep every row |
| FeeManagement.TotalPages | src/components/FeeManagement.jsx:333-338 | the page count is ⌈n / 12⌉: enough pages of 12 for n rows, one fewer would not do, zero exactly for no rows |
| FeeManagement.PageSlice | src/components/FeeManagement.jsx:339-342 | a page holds at most 12 rows, row k of page p is row 12(p−1)+k, and the page is non-empty iff p ≤ the page count |
| FeeManagement.PagesCoverRows | src/components/FeeManagement.jsx:333-342 | pages 1 to the last, put together, are exactly the filtered rows |
| FeeManagement.PreviousPage | src/components/FeeManagement.jsx:694 | "Previous" goes one page back and never below 1 |
| FeeManagement.NextPage | src/components/FeeManagement.jsx:711-714 | "Next" goes one page on and never past the last page |
| FeeManagement.PageSteps | src/components/FeeManagement.jsx:692-716 | from a page in range both buttons stay in range, and "Previous" undoes "Next" below the last page |
| FeeManagement.TotalBalanceAppend | src/components/FeeManagement.jsx:466-469 | the balance total of two lists of rows is the sum of their totals |
| FeeManagement.CountStatus | src/components/FeeManagement.jsx:403-405 | a status counter is the number of times the status occurs among the rows' statuses, so never more than the rows |
| FeeManagement.StatusCountsBounded | src/components/FeeManagement.jsx:403-447 | the PENDING, PARTIAL and PAID counters together never exceed the number of rows |
| FeeManagement.DefaultPaymentAmounts | src/components/FeeManagement.jsx:203-219 | "Add payment" proposes the whole balance in cash with no discount, a late fee only when overdue, a tenth of the balance capped at 500 (it equals one of the two and exceeds neither); the expected cash is the balance plus that fee |
| RecordPayment.InitialShape | src/components/modals/RecordPaymentModal.jsx:5-24 | the table opens with notes 500, 200, 100, 50, 20, 10, all counts empty, only the 500 row holding one empty serial, total 0 |
| RecordPayment.ZeroCountsTotal | src/components/modals/RecordPaymentModal.jsx:46-49 | empty counts add nothing to the cash total |
| RecordPayment.ResizeSerials | src/components/modals/RecordPaymentModal.jsx:66-69 | the 500-note serial list gets the new count as length, keeps the old serials as a prefix, and fills new slots with "" |
| RecordPayment.DenominationChange | src/components/modals/RecordPaymentModal.jsx:58-76 | a count edit changes only that row: its count, and its serials resized for the 500 note or emptied for any other |
| RecordPayment.SerialChange | src/components/modals/RecordPaymentModal.jsx:79-92 | a serial edit changes only that serial of that row, to the upper-cased text |
| RecordPayment.UpdatesKeepShape | src/components/modals/RecordPaymentModal.jsx:58-92 | both edits keep the table's notes and order |
| RecordPayment.ChangeMovesTotal | src/components/modals/RecordPaymentModal.jsx:46-76 | a count edit moves the cash total by (new count − old count) × the note's value |
| RecordPayment.SerialChangeKeepsTotal | src/components/modals/RecordPaymentModal.jsx:46-92 | serial edits leave the cash total unchanged |
| RecordPayment.ClampAmount | src/components/modals/RecordPaymentModal.jsx:194-211 | the amount kept is the smaller of the digits typed and the balance, and it is the digits themselves when they do not exceed the balance |
| RecordPayment.ClampDiscount | src/components/modals/RecordPaymentModal.jsx:300-319 | the discount kept is the digits typed, capped at min(balance, amount) |
| RecordPayment.ClampedDiscountKeepsLateFee | src/components/modals/RecordPaymentModal.jsx:52-55 | with a clamped discount the expected cash total is never below the late fee |
| RecordPayment.Normalise | src/components/modals/RecordPaymentModal.jsx:119-130 | the submitted notes are the rows with a non-zero count, in table order, counts as integers, and they add up to the cash total |
| RecordPayment.CustomSubmit | src/components/modals/RecordPaymentModal.jsx:103-132 | rejected iff the method is CASH and the cash total differs from the expected total; otherwise submitted with the cheque details merged in for CHEQUE, the normalised notes for CASH, and unchanged for any other method |
| RecordPayment.AcceptedCashAddsUp | src/components/modals/RecordPaymentModal.jsx:105-130 | the notes of an accepted cash payment add up to the expected total, each with a positive count |
| RecordPayment.SerialRows | src/components/modals/RecordPaymentModal.jsx:135-156 | ⌈n/4⌉ rows; row k starts at serial 4k and holds one to four serials; the rows put together are the serial list |
| Attendance.BatchesDistinct | src/components/AttendanceManagement.jsx:43-46 | the batch list holds each non-empty timing of an admission exactly once and nothing else, in the order of each timing's first admission, as a `Set` iterates |
| Attendance.MarkAll | src/components/AttendanceManagement.jsx:91-105 | mark all: a map whose keys are exactly the students' ids, each with the chosen status |
| Attendance.LoadBatch | src/components/AttendanceManagement.jsx:57-84 | no batch clears students and marks; otherwise the students of that batch, in order, each marked PRESENT |
| Attendance.Toggle | src/components/AttendanceManagement.jsx:108-113 | ABSENT becomes PRESENT, anything else (a missing mark included) becomes ABSENT, and every other student's mark is unchanged |
| Attendance.ToggleTwice | src/components/AttendanceManagement.jsx:108-113 | toggling a PRESENT or ABSENT mark twice restores the marks |
| Attendance.BuildRecords | src/components/AttendanceManagement.jsx:122-134 | refused iff there is no batch or no student; otherwise one record per student in order, with the date, the batch and the student's mark, PRESENT when unmarked |
| Attendance.SubmitAfterMarkAll | src/components/AttendanceManagement.jsx:91-134 | after mark all, every submitted record carries that status |
| Attendance.HistoryFilter | src/components/AttendanceManagement.jsx:189-194 | ALL returns the history unchanged; otherwise the order-preserving subsequence of the records with that status, each as often as it occurs |
| Attendance.SortByDate | src/components/AttendanceManagement.jsx:231-233 | the marks sorted ascending by date string, a permutation of the marks |
| Attendance.InsertByDate | src/components/AttendanceManagement.jsx:231-233 | inserting a mark into a date-sorted list keeps it sorted and adds exactly that mark |
| Attendance.DateLeqTotal | src/components/AttendanceManagement.jsx:232 | any two dates compare one way or the other, so the order sorts every list |
| Attendance.AbsentStreak | src/components/AttendanceManagement.jsx:235-251 | the longest run of consecutive ABSENT marks, and the dates of the first run of that length |
| Attendance.LongestReaches | src/components/AttendanceManagement.jsx:252 | the longest run reaches a length exactly when some run of that length exists |
| Attendance.CheckDefaulter | src/components/AttendanceManagement.jsx:229-258 | a student is reported iff the date-sorted marks hold three absences in a row, with the longest streak (at least 3) and the dates of its first occurrence |
| Attendance.FindDefaulters | src/components/AttendanceManagement.jsx:216-266 | no batch gives no defaulters; otherwise exactly the students whose marks were fetched and hold three absences in a row, in list order, each with its own report |
| FeeReceipt.ConvertHundreds | src/components/FeeReceipt.jsx:53-66 | the words of 0 ≤ n < 2000: the hundreds word and "Hundred", then a tens word from 20 up, then 1 to 19 from the ones table, each followed by a space |
| FeeReceipt.NumberToWords | src/components/FeeReceipt.jsx:15-103 | the text is the number's words, Crore, Lakh, Thousand and Hundred groups, joined by single spaces with no space at either end |
| FeeReceipt.AppendGroups | src/components/FeeReceipt.jsx:76-100 | from 1000 up, the string built group by group is the words of the number, each followed by a space |
| FeeReceipt.GroupText | src/components/FeeReceipt.jsx:78-97 | one group: its count's words and then the group word |
| FeeReceipt.TrimmedText | src/components/FeeReceipt.jsx:98-102 | trimming the built string of a number from 1000 up leaves its words joined by single spaces |
| FeeReceipt.NegativeText | src/components/FeeReceipt.jsx:70 | a negative number reads "Negative " and then the words of its absolute value |
| FeeReceipt.NumberTextTrimmed | src/components/FeeReceipt.jsx:16-71 | 0 gives "Zero"; a negative number gives "Negative " and the words of its absolute value; the text is never empty and has no space at either end |
| FeeReceipt.GroupWordsPresent | src/components/FeeReceipt.jsx:77-100 | "Crore" appears iff n ≥ 10^7, "Lakh" iff n mod 10^7 ≥ 10^5, "Thousand" iff n mod 10^5 ≥ 1000 |
| FeeReceipt.IndianGroups | src/components/FeeReceipt.jsx:77-100 | the group counts n/10^7, (n mod 10^7)/10^5, (n mod 10^5)/1000 and the rest n mod 1000 put n back together |
| FeeReceipt.HundredsWordsShape | src/components/FeeReceipt.jsx:53-66 | the words of a hundreds group are empty iff it is 0 and never contain a group word |
| FeeReceipt.NumberWordsRoundTrip | src/components/FeeReceipt.jsx:15-103 | reading the words back, unit by unit, gives the number: the words name it exactly |
| ReceiptAmount.AsWrittenSplit | src/components/FeeReceipt.jsx:110-111 | the receipt's split as written: rupees are the floor, paise between 0 and 100 inclusive |
| ReceiptAmount.RoundedSplit | src/components/FeeReceipt.jsx:110-111 | the corrected split: the amount rounded to whole paise, paise below 100 |
| ReceiptAmount.SplitsAgree | src/components/FeeReceipt.jsx:110-111 | the two splits agree except when the paise round to 100, where the corrected one carries a rupee |
| ReceiptAmount.AmountTextIsWords | src/components/FeeReceipt.jsx:113-120 | the amount line is "Rupees", the rupees' words, the paise clause and "Only", joined by single spaces |
| ReceiptAmount.AmountTextEnds | src/components/FeeReceipt.jsx:113-120 | the line starts with "Rupees " and ends with " Only" |
| ReceiptAmount.PaiseClause | src/components/FeeReceipt.jsx:115-117 | "and ... Paise" appears iff there are paise |
| ReceiptAmount.AmountWordsRoundTrip | src/components/FeeReceipt.jsx:106-121 | reading the amount line's words back gives the rupees and paise it was built from |
| ReceiptAmount.AsWrittenAgrees | src/components/FeeReceipt.jsx:106-121 | `amountToWords` as written prints the same line as the corrected one whenever its paise stay below 100 |
| ReceiptAmount.AsWrittenHundredPaiseText | src/components/FeeReceipt.jsx:106-121 | as written, 12.999 prints "Rupees Twelve and One Hundred Paise Only"; corrected, it prints "Rupees Thirteen Only" |
| ReceiptAmount.AsWrittenHundredPaise | src/components/FeeReceipt.jsx:110-111 | as written, 12.999 splits into 12 rupees and 100 paise and reads back so; the corrected split is 13 rupees and no paise |
| ReceiptAmount.AmountToWordsMeaning | src/components/FeeReceipt.jsx:106-121 | NaN gives "Invalid Amount"; otherwise the line of the amount rounded to paise, which reads back as those rupees and fewer than 100 paise |
| ReceiptAmount.ReceiptShowsExpectedTotal | src/components/FeeReceipt.jsx:139-143 | when the amount holds a number, the receipt total is amount + late fee − discount, the total the payment dialog checked the cash against |
| ReceiptAmount.CashReceiptReadsNotesTotal | src/components/FeeReceipt.jsx:139-143 | for an accepted cash payment the receipt total is what the submitted notes add up to, and its line reads back as that many rupees and no paise |
| ReceiptAmount.WholeRupees | src/components/FeeReceipt.jsx:110-111 | a whole number of rupees splits into itself and no paise |
| Admissions.FilteredAdmissions | src/components/StudentAdmissionsList.jsx:70-84 | an order-preserving subsequence of the admissions; an admission is kept iff the lower-cased term occurs in its lower-cased first, last, course or certificate name, or the raw term occurs in its mobile number, and the course filter is empty or equal |
| Admissions.EmptyFiltersKeepAll | src/components/StudentAdmissionsList.jsx:71-81 | an empty search with "All Courses" keeps every admission |
| Admissions.CourseNarrows | src/components/StudentAdmissionsList.jsx:80-83 | choosing a course keeps only admissions the search alone keeps, and never more of them |
| Admissions.CourseOptionsOnce | src/components/StudentAdmissionsList.jsx:173-177 | the drop-down lists each course name of an admission exactly once and no other name, in the order of each course's first admission, as a `Set` iterates |
| Admissions.CourseLabel | src/components/StudentAdmissionsList.jsx:179 | only the first hyphen becomes a space; every other character is kept; a name with no hyphen is unchanged |
| Admissions.CourseLabelCounts | src/components/StudentAdmissionsList.jsx:223 | the label has one hyphen fewer and one space more than a name with a hyphen |
| Admissions.FirstRunFrom | src/components/StudentAdmissionsList.jsx:66 | the leftmost start of twelve digits in a row, none iff there is no such run |
| Admissions.FormatAadharNoRun | src/components/StudentAdmissionsList.jsx:65-67 | a number without twelve digits in a row is shown unchanged |
| Admissions.FormatAadharTwelve | src/components/StudentAdmissionsList.jsx:65-67 | twelve digits become `dddd dddd dddd` |
| Admissions.FormatAadharKeeps | src/components/StudentAdmissionsList.jsx:65-67 | formatting keeps the digits: it only inserts spaces after the 4th and 8th digit of the first run, and removing them gives back the number |

## Left out

- Network and UI: every `fetch`, the JSON handling, toasts, alerts, the Escape-key listener, React state wiring and the markup are not modelled. Fetched data and today's date are parameters.
- Payment submission to the server: `handlePaymentSubmit` (`FeeManagement.jsx:221-255`) is network I/O and UI feedback, so it is not modelled. Read from the code, it would not carry the dialog's result through:
  - `customSubmit` hands it the merged data object (`RecordPaymentModal.jsx:131`, wired at `FeeManagement.jsx:733`).
  - Its first statement, `e.preventDefault()` (`FeeManagement.jsx:222`), sits outside the `try` and would throw on a plain object. The POST and the receipt dialog would then not be reached.
  - Even past that, it posts the `paymentData` state (`FeeManagement.jsx:230`) rather than the merged data, so the normalised notes and cheque details would not be sent.
  - CustomSubmit and ReceiptAmount.CashReceiptReadsNotesTotal therefore describe the dialog and the receipt each on its own terms. They do not describe a path the program as written completes.
- The unused filter effect in `FeeManagement.jsx`: it computes a list it discards, so it is not modelled.
- `Date` arithmetic and `toLocaleDateString`: the months since admission are an input, and dates are ISO strings.
- JavaScript numbers are modelled as exact integers and reals. Floating-point rounding of `balance * 0.1` and of the receipt total is not modelled.
- Text.Lower / Text.Upper: map only the ASCII letters, where the code calls Unicode `toLowerCase` and `toUpperCase`. So FeeManagement.MatchesSearch and Admissions.MatchesSearch do not match "É" against a search for "é". RecordPayment.SerialChange keeps a serial's length and characters, where JavaScript turns "ß" into "SS".
- Text.ParseInt: leading white space, which `parseInt` skips, is not modelled.
- RecordPayment.Count: reads only unsigned digit strings. Both count inputs strip every non-digit in `onChange` before `handleDenominationChange` runs (`RecordPaymentModal.jsx:411-414`, `448-451`), so a count is always a digit string and signs never reach `parseInt`.
- FeeManagement.CourseFeeLookup: JavaScript object lookups on prototype keys such as `"constructor"` are not modelled. The table is a map.
- FeeReceipt.NumberToWords: defined for magnitudes below 2·10^10. Beyond that the crore count is 2000 or more, and `convertHundreds` reads past the 20-entry ones table and prints "undefined".
- ReceiptAmount.AmountToWords: same range, for the rupees and the paise.
- ReceiptAmount.ReceiptTotal: an amount with no digits gives NaN, modelled as `None`. The payment dialog's own total reads such an amount as 0. The two agree whenever the amount holds a number.
- ReceiptAmount.ReceiptTotal: reads the amount with the integer parser where the receipt calls `parseFloat`. The amount is a digit string (typed, then clamped by RecordPayment.ClampAmount) or the balance written as a signed whole number (by `handleAddPayment`, and by the clamp, which stores the balance itself). On those strings `parseInt` and `parseFloat` agree.
- Attendance.DateLeq: compares dates by character code where the code calls `localeCompare`. The two orders agree on ISO dates, which hold only digits and hyphens. Locale collation of other text is not modelled.
- Attendance.SortByDate: the result is sorted and a permutation of the marks. The sort is stable, as `Array.prototype.sort` is, but stability is not stated as a property.
- Attendance.FindDefaulters: the students are checked one after another, as in the code. Running the fetches in parallel would not change the result, and it is not modelled.
- The cheque fields' HTML `required` check and the rest of the receipt's HTML layout are markup, so they are not modelled.

## Findings

| source | as written | input that shows it | evidently intended | confidence | as-written member | corrected member |
|---|---|---|---|---|---|---|
| src/components/FeeReceipt.jsx:110-111 | `paise = Math.round((amount - Math.floor(amount)) * 100)` can round up to 100, which is then printed as paise | a total of 12.999 prints "Rupees Twelve and One Hundred Paise Only" | paise below 100, with the extra rupee carried: "Rupees Thirteen Only" | not executed | ReceiptAmount.AsWrittenHundredPaiseText | ReceiptAmount.AmountToWordsMeaning |
