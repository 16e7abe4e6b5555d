# Pharmacy hub leave requests, modelled in Dafny

The pharmacy hub is a small staff portal. This project models its leave-request core:

- employees submit 연차 (full day), 반차 (half day) or, for the director (국장), 해외 (overseas stay) days on the request page;
- they edit or delete their own requests there;
- chiefs, the deputy director (부국장) and the director approve, reject or revert the requests of the ranks below them on the approval page;
- three pages count "used" leave against an allowance:
  - the request page,
  - the main page, which also shades an annual grid and a three-month schedule calendar,
  - the staff-management page, which also lists, sorts and edits employees.

The model is pure functions over immutable data:

- The `pharmacy_schedules` table is a `Store`. It holds a sequence of rows in insertion order, plus the database's next id and clock.
- Every handler is a function from the old store to a new store, or to an error.
- Position and leave-kind strings are enums. Each enum keeps a constructor for any other text, so unknown values stay representable.
- Dates in rows stay strings, as in the database. A separate calendar (`Calendar`, `DateStrings`, `DateRanges`) gives them meaning:
  - `new Date(s)` is `ParseIso`;
  - `toISOString().split('T')[0]` is `IsoDate`;
  - `toDateStr` and the grid's `${year}-${mm}-${dd}` use JavaScript's `String(n)` and `padStart`;
  - string `<=` and `sort()` are code-unit order (`LexLe`).

Modules:

- `Wrappers`: `Option` and `Result`.
- `Seqs`: `Array.prototype.filter` and counting.
- `Sorting`: a stable insertion sort over any total preorder.
- `Lex`: string order.
- Calendar handling:
  - `Calendar` and `DateStrings`: the calendar and the two date spellings;
  - `DateRanges`: expanding a start/end pair into days;
  - `CalendarExamples`: worked cases.
- `Positions`: ranks, the approval table and navigation.
- `Staff`: employee management.
- `LeaveRequests`: submit, edit, delete, status changes and the buttons that offer them.
- `Approvals`: the approver's list.
- `LeaveBalance`: the three used-leave counts, the staff list merge and sort, and the low-balance flag.
- `Overview`: the main page's calendars.
- `Holidays`: the public-holiday table.

Behaviours of the code worth noting, which the model follows:

- **부국장 cannot approve 국장.** The approval table gives 부국장 the five lower ranks only (app/admin/page.tsx:30). It does not give the two top ranks authority over each other.
- **Approve and reject are offered only on pending rows.** Revert is offered on decided rows (app/admin/page.tsx:77-88). The status update itself has no guard.
- **The pages count used leave differently.**
  - The staff page counts approved 연차/반차 only (app/employees/page.tsx:88-96).
  - The main page also counts 연차/반차 only (app/page.tsx:60).
  - The request page also counts 해외 (app/leave/page.tsx:142).
- **A batch submission is not atomic.** Each date is a separate insert whose error is ignored, and the loop goes on to the next date (app/leave/page.tsx:75-84). Nothing rolls back, so the stored dates can be any subsequence of the sorted selection. `SubmitWithOutcomes` takes each insert's outcome as a parameter.
- **An edit inserts even when its delete failed.** The delete's error is ignored too (app/leave/page.tsx:118). The old request then stays beside the new rows. `EditRequestWithOutcomes` takes the delete's outcome as a parameter.
- **The main page and the staff page read the allowance differently.** The main page's `maybeSingle()` gives no data when two rows of `user_leave_status` share the user's id, so its total stays 0 (app/page.tsx:50-52). The staff page takes the first matching row (app/employees/page.tsx:95,100).
- **`handleDelete` does not check the status.** It deletes whatever row is targeted (app/leave/page.tsx:135-140). Only the button is limited to pending rows (app/leave/page.tsx:251-258).

## Model

| member | source | states |
|---|---|---|
| Seqs.Filter | app/leave/page.tsx:142 | the filtered list holds exactly the elements that satisfy the test, and is never longer than the input |
| Seqs.FilterAppend | app/leave/page.tsx:142 | filtering preserves order: filtering a concatenation is concatenating the filtered parts |
| Seqs.FilterPermutation | app/page.tsx:60 | filtering two rearrangements of the same rows gives rearrangements of each other, with equal counts |
| Seqs.CountSplit | app/leave/page.tsx:142 | a count by one test splits into the matches that pass a second test and those that fail it |
| Seqs.CountChangedAt | app/admin/page.tsx:51 | updating one row changes a count only by what that row contributed before and after |
| Sorting.Sort | app/employees/page.tsx:102-107 | sorting returns a permutation of its input in ascending comparator order |
| Sorting.SortedUnique | app/leave/page.tsx:72 | under an antisymmetric order, two sorted permutations of the same elements are equal |
| Sorting.SortIgnoresOrder | app/leave/page.tsx:72 | sorting by an antisymmetric order forgets the input order |
| Sorting.InsertStable | app/employees/page.tsx:102-107 | inserting an element leaves the relative order of the elements tied with any given element unchanged, with the new element placed in front of its ties |
| Sorting.SortStable | app/employees/page.tsx:102-107 | the sort is stable: the elements tied with any given element appear in the same relative order as in the input, as `Array.prototype.sort` guarantees |
| Lex.LexIsTotalOrder | app/leave/page.tsx:72 | string comparison is total, transitive and antisymmetric, so it is a valid `sort()` order |
| Lex.LexLeConcat | app/page.tsx:93 | strings that start with equal-length prefixes compare by their prefixes, or by the rest when the prefixes are equal |
| Lex.SortStrings | app/leave/page.tsx:72 | `[...dates].sort()` returns the same dates in ascending string order |
| Lex.SortStringsIgnoresOrder | app/leave/page.tsx:72 | the sorted selection depends only on which dates were clicked, not on the click order |
| Calendar.DaysInMonth | app/leave/page.tsx:59 | a month has 28 to 31 days, and 29 exactly for February of a leap year |
| Calendar.NextDay | app/leave/page.tsx:99 | the next calendar day is valid, strictly later, and no valid day lies between |
| Calendar.DaysBetween | app/leave/page.tsx:95-100 | walking day by day from start to end gives every valid day in between exactly once, in order, starting with the start day; the walk is empty exactly when start is after end |
| Calendar.DaysBetweenSingle | app/leave/page.tsx:95-100 | a range whose start and end are the same day yields that one day |
| Calendar.DaysBetweenLeapDay | app/leave/page.tsx:99 | 28 February to 1 March spans three days in 2024 and two in 2025 |
| DateStrings.Decimal | app/leave/page.tsx:61-62 | `String(n)` is a non-empty digit string without a leading zero |
| DateStrings.PadStart2 | app/leave/page.tsx:62 | `padStart(2, '0')` keeps the string as its suffix, adds only zeros in front, and reaches length 2 unless the string is already longer |
| DateStrings.DigitsThenValue | app/page.tsx:71 | reading back a k-digit spelling of a number below 10^k gives the number |
| DateStrings.ValueThenDigits | app/leave/page.tsx:95 | spelling the value of a digit string with its own width gives the string back |
| DateStrings.DigitsOrder | app/page.tsx:93 | fixed-width digit strings compare as strings exactly as their numbers compare |
| DateStrings.DecimalIsDigits | app/leave/page.tsx:61-62 | `String(n)` of an n with exactly k digits is its k-digit spelling |
| DateStrings.PadStart2IsDigits | app/page.tsx:269-270 | `String(n).padStart(2, '0')` is the two-digit spelling for 0..99 |
| DateStrings.ToDateStr | app/page.tsx:89-90 | for a valid day with a four-digit year, `toDateStr` with a zero-based month spells the day exactly as `toISOString` does |
| DateStrings.ParseIso | app/leave/page.tsx:95-96 | a string parses to a date only if it has the "YYYY-MM-DD" shape, and the date is a valid calendar day with a four-digit year |
| DateStrings.ParseIsoDate | app/leave/page.tsx:95-98 | parsing what `toISOString` wrote gives the same day back |
| DateStrings.IsoDateOfParse | app/leave/page.tsx:95-98 | every date string that parses is already in the spelling `toISOString` gives its day |
| DateStrings.IsoDateInjective | app/page.tsx:71 | two days have the same ISO spelling exactly when they are the same day |
| DateStrings.IsoDateOrder | app/page.tsx:92-93 | string order of ISO date strings is chronological order of the days, in both directions |
| DateRanges.ExpandRange | app/leave/page.tsx:94-100 | expanding a start/end pair gives distinct ascending date strings, all within the range; when both ends parse it gives every date string in the range; when either end does not parse it gives nothing |
| DateRanges.ExpandRangeSound | app/page.tsx:68-73 | each day the loop writes is a valid date string inside the range, and the days are distinct and ascending |
| DateRanges.ExpandRangeComplete | app/page.tsx:68-73 | every valid date string between the two ends is written by the loop |
| DateRanges.ExpandRangeSingleDay | app/leave/page.tsx:94-100 | a single-day row expands to exactly its one date |
| DateRanges.ExpandRangeOfDates | app/leave/page.tsx:94-100 | the string loop agrees with the calendar walk between the parsed ends |
| CalendarExamples.ExpandRangeAcrossMonths | app/page.tsx:68-73 | 2025-01-30..2025-02-01 expands to three month-correct days |
| Positions.FromLabel | app/employees/page.tsx:7 | reading a stored position string keeps its text, gives an unlisted position exactly when the text is none of the seven ranks, and never gives an unlisted position spelled like a listed one |
| Positions.FromLabelOfLabel | app/employees/page.tsx:7 | reading back the label of a listed rank gives the rank |
| Positions.Rank | app/employees/page.tsx:21-29 | each position's rank in both directions: 국장 alone is 1, 부국장 alone 2, the two chiefs 3, 약사 alone 4, the two assistants 5, and unknown positions 99; no other value occurs |
| Positions.SeniorityOrder | app/employees/page.tsx:21-29 | 국장 precedes 부국장, who precedes the chiefs, who precede 약사, who precedes the assistants, who precede any unknown position; the two chiefs tie and the two assistants tie |
| Positions.ApprovableBy | app/admin/page.tsx:27-35 | only 조제실장, 전산실장, 부국장 and 국장 approve anyone; a chief approves exactly the junior positions of the chief's own room; 부국장 and 국장 approve exactly the listed positions junior to them; nobody approves their own rank or 국장 |
| Positions.ChiefsApproveTheirOwnAssistants | app/admin/page.tsx:28-29 | 조제실장 approves exactly 조제보조, and 전산실장 exactly 전산보조 |
| Positions.ApprovalTableNested | app/admin/page.tsx:27-32 | each chief's set is within 부국장's; 국장 approves what 부국장 does plus 부국장, which is every listed rank but 국장 |
| Positions.LeaveLinkFor | app/page.tsx:114-119 | the main page shows the overseas-stay link instead of the leave-request link exactly for the auto-approved rank |
| Positions.IsAutoApproved | app/leave/page.tsx:73 | a submission is approved on the spot exactly for the most senior rank |
| Positions.IsAdmin | app/employees/page.tsx:8 | the management page admits exactly the two most senior ranks, both of which have an approval entry |
| Positions.ShowsApprovalLink | app/page.tsx:120-122 | the approval link appears exactly for the ranks that have an entry in the approval table |
| Positions.ShowsEmployeesLink | app/page.tsx:123-125 | the staff-management link appears exactly for the ranks the management page admits |
| Staff.AddEmployee | app/employees/page.tsx:118-157 | adding fails for a missing name, email or password before any call; it succeeds exactly when the sign-up and the insert both succeed; on success exactly one employee with the form's fields is appended, with an empty hire date stored as null |
| Staff.EditEmployee | app/employees/page.tsx:159-175 | without a target or a name nothing changes; otherwise exactly the target's name and position change |
| Staff.DeleteEmployee | app/employees/page.tsx:177-193 | the remaining employees are exactly those without the target id |
| Staff.CanOpenEmployeesPage | app/employees/page.tsx:65-67 | a signed-in user stays on the management page exactly when the main page would show them its link; anyone without a profile is sent away |
| LeaveRequests.KindFromLabel | app/leave/page.tsx:92 | reading a stored kind string keeps its text, gives another kind exactly when the text is none of 연차, 반차 and 해외, and never gives another kind spelled like a known one |
| LeaveRequests.KindFromLabelOfLabel | app/leave/page.tsx:92 | reading back the label of a known kind gives the kind |
| LeaveRequests.StatusOnSubmit | app/leave/page.tsx:73-82 | a new row is approved exactly for the auto-approved rank, and is otherwise pending, never rejected |
| LeaveRequests.SelectableKinds | app/leave/page.tsx:181-190 | 해외 can be picked exactly by the director; everyone else picks among full and half day |
| LeaveRequests.InitialKind | app/leave/page.tsx:41 | the form starts on a selectable kind, which is 해외 exactly for the director |
| LeaveRequests.FormSubmissionsByPosition | app/leave/page.tsx:41 | through the form, the director records approved overseas days and everyone else requests pending full or half days |
| LeaveRequests.SubmittedRow | app/leave/page.tsx:76-83 | each inserted row carries the submitter, the title, the kind and a single day, and takes the next id and creation time |
| LeaveRequests.InsertDays | app/leave/page.tsx:75-84 | the insert loop keeps the old rows as a prefix and appends the i-th date's row with the i-th fresh id |
| LeaveRequests.InsertDaysKeepsWf | app/leave/page.tsx:75-84 | the loop hands out fresh ids, so ids stay unique |
| LeaveRequests.InsertDaysTail | app/leave/page.tsx:75-84 | the appended rows carry the dates in loop order, each submitted by the user with the chosen kind |
| LeaveRequests.InsertDaysMembers | app/leave/page.tsx:75-84 | after the loop every old row is present, and every new row is the submitter's with a fresh id |
| LeaveRequests.InsertDaysAppend | app/leave/page.tsx:75-84 | running the loop over two pieces of a date list is running it over the whole list |
| LeaveRequests.Title | app/leave/page.tsx:78 | a row's title is the user's name, one space, then the kind's label |
| LeaveRequests.Accepted | app/leave/page.tsx:75-84 | the dates whose insert succeeded: as many as the successful inserts, drawn from the batch, containing every date whose insert succeeded, all of them when every insert succeeds and none when every insert fails |
| LeaveRequests.TryInsertDay | app/leave/page.tsx:76-83 | an insert whose result is ignored either adds the day's row or leaves the table as it was |
| LeaveRequests.InsertDaysWithOutcomes | app/leave/page.tsx:75-84 | the loop keeps the old rows as a prefix whichever inserts fail |
| LeaveRequests.InsertDaysWithOutcomesIsAccepted | app/leave/page.tsx:75-84 | because a failed insert does not stop the loop, the table ends as if exactly the accepted dates had been inserted, in loop order |
| LeaveRequests.Submit | app/leave/page.tsx:70-87 | submitting fails exactly for an empty selection; otherwise the old rows stay and one single-day row per selected date is appended, with the same dates counted with multiplicity, in ascending order, all the submitter's, ids unique |
| LeaveRequests.SubmitWithOutcomes | app/leave/page.tsx:70-87 | with each insert's outcome given, submitting fails exactly for an empty selection; otherwise the old rows stay and the new rows carry exactly the accepted dates of the sorted selection, all the submitter's, ids unique; when every insert succeeds it is the plain submission |
| LeaveRequests.MiddleInsertFails | app/leave/page.tsx:75-84 | when the middle of three inserts fails, the first and third dates are still stored, and the result is not any prefix of the complete batch |
| LeaveRequests.SubmitIgnoresSelectionOrder | app/leave/page.tsx:72 | the stored result of a submission depends only on the dates selected, not on the order they were clicked |
| LeaveRequests.DeleteRequest | app/leave/page.tsx:135-140 | with no target nothing changes; otherwise the remaining rows are exactly those with another id; ids stay unique |
| LeaveRequests.DeleteKeepsOrder | app/leave/page.tsx:137 | deleting acts on each part of the table separately, so the remaining rows keep their order |
| LeaveRequests.UniqueIdCount | app/leave/page.tsx:137 | with unique ids, a delete by id matches at most one row, and exactly one when the id is present |
| LeaveRequests.DeleteRemovesOne | app/leave/page.tsx:137 | deleting an existing request removes exactly one row, and its id is gone |
| LeaveRequests.EditRequest | app/leave/page.tsx:113-133 | editing fails exactly without a target or dates; otherwise every other row stays, every new row is the editor's with a fresh id, the target's row is gone, the size changes by the dates added minus the rows removed, ids stay unique |
| LeaveRequests.EditRequestWithOutcomes | app/leave/page.tsx:113-133 | with the delete's and each insert's outcome given, editing fails exactly without a target or dates; the inserts run whether or not the delete succeeded; the old row is gone only if the delete succeeded; the size changes by the accepted dates minus the rows deleted; ids stay unique; with every call succeeding it is the plain edit |
| LeaveRequests.RejectedDeleteKeepsOldRow | app/leave/page.tsx:118-130 | when the delete fails and the inserts succeed, the old request stays beside the new rows, so the table grows by every selected date |
| LeaveRequests.EditIsDeleteThenSubmit | app/leave/page.tsx:113-133 | editing is deleting the target and then submitting the new dates |
| LeaveRequests.EditReplacesRow | app/leave/page.tsx:118-130 | editing an existing request replaces its one row by one row per new date, and the old id disappears |
| LeaveRequests.EditDates | app/leave/page.tsx:90-105 | opening the editor pre-selects days within the row's range; a single-day row pre-selects exactly its day |
| LeaveRequests.ResubmitUnchanged | app/leave/page.tsx:90-133 | re-submitting an approved single-day request unchanged keeps the table size and puts the same day back as pending under a new id |
| LeaveRequests.UpdateStatus | app/admin/page.tsx:50-53 | a status update changes only the status, and only of the row with that id |
| LeaveRequests.UpdateStatusUndo | app/admin/page.tsx:85-88 | setting a row's status and then setting its old status back restores the table |
| LeaveRequests.OfferedStatuses | app/admin/page.tsx:77-88 | pending rows offer approve and reject; decided rows offer only the revert to pending |
| LeaveRequests.OfferedStatusesReversible | app/admin/page.tsx:77-88 | every offered move can be undone by an offered move, and any status reaches any other in at most two moves |
| LeaveRequests.OwnerActions | app/leave/page.tsx:251-262 | delete is offered exactly on pending rows; edit on pending rows, and on approved rows for everyone but the director |
| LeaveRequests.OwnerActionsAfterSubmit | app/leave/page.tsx:251-262 | a fresh request offers edit and delete, except the director's, which offers nothing; a rejected one offers nothing |
| LeaveRequests.ToggleDate | app/leave/page.tsx:64-68 | clicking a day flips its membership in the selection and leaves every other day as it was, without creating duplicates |
| LeaveRequests.ToggleTwice | app/leave/page.tsx:64-68 | clicking a day twice restores the selected set, and the list itself when the day was not selected |
| Approvals.TargetIdsMatchAuthors | app/admin/page.tsx:37-45 | the id filter keeps exactly the rows written by an employee holding an approvable rank |
| Approvals.NewerFirstIsTotalPreorder | app/admin/page.tsx:46 | newest-first by creation time is a valid sort order |
| Approvals.FetchApprovals | app/admin/page.tsx:25-48 | no query is made for a rank without approval rights or when no employee holds an approvable rank; otherwise the list holds exactly the rows written by holders of approvable ranks, each as often as in the table, newest first |
| Approvals.ShownAfter | app/admin/page.tsx:7-47 | starting from the empty list, the page shows the rows of the latest fetch that got that far, or nothing if none did |
| Approvals.NonApproverListStaysEmpty | app/admin/page.tsx:34-35 | a position without an approval entry sees an empty list however many times the page fetches |
| Approvals.StaleListAfterEarlyReturn | app/admin/page.tsx:39-47 | after the only dispensing assistant is made a pharmacist, the chief's refetch returns early and the assistant's request stays listed although its author is no longer approvable by the chief |
| Approvals.ApproverOutranksAuthors | app/admin/page.tsx:27-46 | every listed request belongs to a strictly junior employee other than the approver, never the director |
| Approvals.NonApproversSeeNothing | app/admin/page.tsx:34-35 | pharmacists, assistants and unknown positions get no list |
| Approvals.AssistantRequestsReachTheirChiefs | app/admin/page.tsx:28-31 | an assistant's request, of either room, reaches the chief of that room, the deputy director and the director, and never the other room's chief |
| LeaveBalance.Used | app/leave/page.tsx:142 | the reference count of approved rows of one user and a set of kinds is zero exactly when no row qualifies |
| LeaveBalance.LaterStartFirstIsTotalPreorder | app/leave/page.tsx:55 | later start date first is a valid sort order |
| LeaveBalance.OwnRequests | app/leave/page.tsx:53-57 | the request page lists exactly the user's rows, each as often as stored, later start first |
| LeaveBalance.RequestPageUsed | app/leave/page.tsx:142 | the request page counts exactly the user's approved 연차, 반차 and 해외 rows, never more than the user's listed requests |
| LeaveBalance.MainPageUsed | app/page.tsx:56-61 | the main page counts exactly the user's approved 연차 and 반차 rows |
| LeaveBalance.EmployeesPageUsed | app/employees/page.tsx:88-96 | the staff page counts exactly each employee's approved 연차 and 반차 rows |
| LeaveBalance.UsedSplitsByKind | app/leave/page.tsx:142 | the request page's count is the full/half-day count plus the overseas count |
| LeaveBalance.PagesAgreeOnUsedLeave | app/employees/page.tsx:88-96 | the main and staff pages agree, and the request page exceeds them by exactly the approved overseas days |
| LeaveBalance.ApprovalRaisesUsedByOne | app/admin/page.tsx:50-53 | approving a pending row raises a user's used count by one if it is that user's row of a counted kind, and leaves it otherwise |
| LeaveBalance.TotalFor | app/employees/page.tsx:95-100 | the allowance is the first matching entry's total, with a missing total or entry read as 0 |
| LeaveBalance.Merge | app/employees/page.tsx:94-101 | each listed employee is paired with their used count and allowance |
| LeaveBalance.SeniorFirstIsTotalPreorder | app/employees/page.tsx:102-107 | rank, then hire date, is a valid sort order |
| LeaveBalance.SortStaff | app/employees/page.tsx:102-107 | the list is a permutation sorted by rank, and by hire date within a rank |
| LeaveBalance.SortStaffStable | app/employees/page.tsx:102-107 | employees with the same rank and hire date keep the order in which they were fetched |
| LeaveBalance.SortStaffExtremes | app/employees/page.tsx:21-29 | the director, when present, is listed first, and unknown positions come last |
| LeaveBalance.Remaining | app/employees/page.tsx:259 | the remaining balance never exceeds the allowance, equals it exactly when nothing is used, and is negative exactly when more is used than allowed |
| LeaveBalance.IsLow | app/employees/page.tsx:259-260 | only a positive allowance can be low; an allowance used up is low; more than three days left is not low |
| LeaveBalance.IsLowMonotone | app/employees/page.tsx:259-260 | a low balance stays low as more leave is used; with no allowance nothing is low; three or fewer days left of a positive allowance is low |
| LeaveBalance.MainPageTotal | app/page.tsx:50-52 | the main page's total is the user's allowance only when exactly one allowance row has the user's id, with a null total counting as 0; with no such row or several, it stays 0 |
| LeaveBalance.TotalForSingleRow | app/employees/page.tsx:95-100 | with exactly one allowance row for the user, the staff list's first-match lookup and the main page's single-row read give the same total |
| LeaveBalance.DuplicateAllowanceRows | app/page.tsx:50-52 | with two allowance rows for one user, the main page reads a total of 0 while the staff list takes the first row's total |
| LeaveBalance.MainPageRemainingMatchesList | app/page.tsx:97 | for a user with at most one allowance row, the main page's remaining leave equals the remaining leave on that user's line of the staff list |
| Overview.SchedulesForDay | app/page.tsx:92-93 | the day's list holds exactly the rows whose start is not after the day and whose end is not before it |
| Overview.Covers | app/page.tsx:93 | for well-formed dates, the string interval test holds exactly when the day lies in the day-by-day expansion of the row's range |
| Overview.SchedulesForDayKeepsOrder | app/page.tsx:92-93 | the day's list keeps the fetch order |
| Overview.SingleDayRowListedOnItsDay | app/page.tsx:92-93 | a single-day row is listed on exactly its own day |
| Overview.DayCellFor | app/page.tsx:193-199 | a day cell shows at most three entries, taken from the front, and the "+n" counter accounts for the rest |
| Overview.UsedDates | app/page.tsx:63-75 | a day is in the used set exactly when it lies in the expansion of one of the user's approved 연차/반차 rows |
| Overview.UsedDatesAreCoveredDays | app/page.tsx:63-75 | for well-formed rows, the used set is exactly the days on which the schedule view lists one of the user's approved 연차/반차 rows |
| Overview.UsedDatesSingleDay | app/page.tsx:68-73 | a single-day row contributes exactly its day |
| Overview.NextMonth | app/page.tsx:149 | the forward arrow moves to the next month, wrapping December into January of the next year |
| Overview.PrevMonth | app/page.tsx:140 | the back arrow moves to the previous month, wrapping January into December of the previous year |
| Overview.NextPrevInverse | app/page.tsx:140-149 | the two arrows undo each other |
| Overview.DisplayedMonth | app/page.tsx:161-163 | the three shown months are the current month and the next two, with the year advanced after December |
| Overview.DisplayedMonthsAreNextSteps | app/page.tsx:161-163 | offsets 1 and 2 are one and two forward-arrow steps |
| Overview.GridKey | app/page.tsx:269-271 | for a valid day with a four-digit year, the annual grid's key is that day's ISO spelling |
| Overview.AnnualCell | app/page.tsx:256-280 | days past the month's end are blank; otherwise used beats holiday beats weekend beats plain |
| Overview.ApprovedLeaveShowsInGrid | app/page.tsx:271-278 | every day inside an approved 연차/반차 row of the user is shaded as used |
| Holidays.KoreanHolidays | app/page.tsx:7-26 | the set holds the eight fixed days and the year's lunar table; outside 2024..2027 it is just the fixed days |
| Holidays.FixedHolidaysAreGridKeys | app/page.tsx:8-17 | the fixed holidays are spelled exactly as the annual grid spells those days |
| Holidays.FixedHolidaysShowInGrid | app/page.tsx:273-279 | in any year the fixed holidays are in the set under the grid's spelling, so 1 January and 25 December are shaded used or holiday |
| Holidays.FixedHolidaysDistinct | app/page.tsx:8-17 | the eight fixed days are distinct |
| Holidays.HolidayCountOtherYears | app/page.tsx:24-25 | outside 2024..2027 a year has exactly 8 holidays |
| Holidays.HolidayCount2024 | app/page.tsx:19 | 2024 has 15 holidays |
| Holidays.HolidayCount2025 | app/page.tsx:20 | 2025 has 14 holidays, because its lunar table repeats 어린이날 |
| Holidays.HolidayCount2026 | app/page.tsx:21 | 2026 has 15 holidays |
| Holidays.HolidayCount2027 | app/page.tsx:22 | 2027 has 15 holidays |

## Left out

- The database client, authentication, sessions and page redirects are left out. Query results are parameters or the `Store`. The sign-up and insert outcomes of adding an employee are parameters.
- Rendering, modals, loading flags, messages and their `setTimeout` are left out. So is the re-fetch after each write; the new `Store` stands for it.
- The recommended-usage guide on the main page is left out, because it uses floating-point arithmetic.
- Day of week is left out: JavaScript's `getDay`, the first-weekday offset and weekend colouring. `AnnualCell` takes "is a weekend" as a parameter.
- Time zones are left out. `new Date("YYYY-MM-DD")` and `toISOString` are both modelled in UTC, where they agree.
- DateStrings.ParseIso: returns no date for a non-existent day such as "2025-02-30". JavaScript rolls such a day into the next month. Every row is written from a calendar cell, so such strings do not occur.
- `localeCompare` for hire dates is modelled as code-unit order. The hire dates are "YYYY-MM-DD" strings, where both orders agree.
- Row ids are natural numbers from a counter rather than database UUIDs. The model only compares ids for equality.
- Concurrency is left out. The handlers' awaits are modelled as sequential steps.
- Partial failure of an employee edit or delete is left out: the error is shown and the list is unchanged.
- LeaveRequests.SubmitWithOutcomes: takes the outcome of each insert, and of an edit's delete, as parameters. Why the database refuses a call is not modelled.
- Holidays.KoreanHolidays: states only the years with a four-digit year string when it relates holidays to the grid. `FixedHolidaysShowInGrid` holds for every year.
- The other pages of the application are not part of this model: the board, contacts and login pages.
