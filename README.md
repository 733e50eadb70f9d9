# ASISTO — a verified model of the classroom logic

ASISTO is a teacher's classroom assistant. Its data lives in a hosted
database. Its pages and modals do the following:

- take attendance, by roll call, by hand for a past day, or on a month calendar;
- define evaluation criteria and their assignments for a subject;
- grade students by scanning their QR codes;
- compute a student's final grade per criterion;
- edit a subject's weekly schedule and its grading-period dates;
- plan the subject's classes, from pasted text or from an assistant's reply.

This project models the logic those pages run, in Dafny, and proves what
it promises. The model has three parts.

- **Values and pure logic** become datatypes and functions:
  - the calendar arithmetic behind `Date` and the `YYYY-MM-DD` text
    (the `full-date` form of section 5.6 of RFC 3339);
  - the school-year event map;
  - the session-date list;
  - the grade breakdown;
  - the parsers of pasted text;
  - the form checks.
- **Loops** that build collections become methods with loop invariants,
  proved equal to a specification function. These are the event map, the
  session dates, attendance by date, participations by student, the grade
  summary and the class-date assignment.
- **Component state** becomes a class whose fields are the page's state,
  with one method per handler. These are the schedule editor, roll call,
  the manual-attendance modal, the grading-period manager and both scanner
  pages.

Supporting modules:

- `Dates`: days since 1970-01-01 and instants in milliseconds. It gives the
  proleptic Gregorian conversion with its round trip, and the ISO weekday
  (Monday 1 .. Sunday 7).
- `FullDate`: formatting and parsing of `YYYY-MM-DD`, with both round trips.
- `OrderedMaps`: association lists that keep insertion order, as a
  JavaScript `Map` does.
- `Text`: `split`, `trim` and `toLowerCase`, and the "non-empty trimmed
  lines" idiom used by two modals.
- `Seqs`: filter, gather, sums and subsequences.

Some behaviours of the code are easy to misread, so they are stated here:

- **Final grade scale.** The final grade is the simple sum of
  `average / 10 × percentage` over the criteria. With percentages capped at
  100 in total, it lies between 0 and 100 (`StudentDetail.FinalGradeBounds`),
  not between 0 and 10.
- **Ungraded assignments.** An ungraded assignment counts as 0 in its
  criterion's average; it is not left out of the denominator.
- **Grading periods.** Criteria, grades and averages are not scoped by
  grading period. The period dates are stored and edited, but nothing
  reads them.
- **Percentage cap.** The 100 % cap covers all of a subject's criteria,
  not each period's criteria separately.
- **One final-grade convention.** The weighted sum above is the only one;
  there is no normalized variant that rescales by the total percentage.

## Model

| member | source | states |
|---|---|---|
| Dates.MonthLength | components/AttendanceCalendar.tsx:134 | A month has 28 to 31 days, and 29 exactly for February of a leap year. |
| Dates.FromDay | pages/SubjectDetail.tsx:476-492 | Every day number is a valid calendar date that converts back to the same day. |
| Dates.FromDayToDay | pages/SubjectDetail.tsx:476-492 | Converting a valid date to a day number and back gives the same date. |
| Dates.ToDayInjective | pages/SubjectDetail.tsx:476-492 | Two valid dates with the same day number are the same date. |
| Dates.IsoWeekday | pages/SubjectDetail.tsx:482 | The ISO weekday is 1..7; Sunday (`getUTCDay() === 0`) maps to 7 and every other weekday keeps its number. |
| Dates.IsoWeekdayNext | pages/SubjectDetail.tsx:492 | The next day's weekday is the weekday after this one, wrapping from Sunday to Monday. |
| Dates.IsoWeekdayShift | pages/SubjectDetail.tsx:492 | k days later the weekday is k steps later, modulo 7. |
| Dates.DayOf | components/StudentDetailModal.tsx:59 | An instant belongs to exactly one UTC day, the one whose [start, next start) window contains it. |
| Dates.StartOf | pages/SubjectDetail.tsx:481 | A day's first instant belongs to that day. |
| Dates.StartOfAtMost | pages/SubjectDetail.tsx:481 | A day has started by instant t exactly when it is at most t's day. |
| Dates.NoonOf | components/ManualAttendanceModal.tsx:42-43 | Noon of an instant's day is on the same day, twelve hours after its start. |
| FullDate.ParseFormat | pages/SubjectDetail.tsx:484 | Parsing the `YYYY-MM-DD` text of a day with a four-digit year gives back that day. |
| FullDate.FormatParse | pages/SubjectDetail.tsx:484 | Any text that parses is exactly the formatted text of the parsed day. |
| FullDate.FormatInjective | pages/SubjectDetail.tsx:484 | Different days have different date strings, so the strings are sound keys for maps. |
| Text.Split | components/BulkAddModal.tsx:57 | `split` gives at least one part, and no part contains the separator. |
| Text.JoinSplit | components/BulkAddModal.tsx:57 | Joining the parts of a split with the separator gives back the text. |
| Text.SplitJoin | components/BulkAddModal.tsx:57 | Splitting a join of separator-free parts gives back the parts. |
| Text.Trim | components/BulkAddModal.tsx:35 | `trim` never lengthens its input. |
| Text.TrimSlice | components/BulkAddModal.tsx:35 | `trim` returns a slice of its input with only whitespace cut off before and after it. |
| Text.TrimEnds | components/BulkAddModal.tsx:35 | A trimmed text is empty or neither starts nor ends with whitespace. |
| Text.TrimEmpty | components/BulkAddModal.tsx:35 | A text trims to "" exactly when it is all whitespace. |
| Text.TrimIdempotent | components/BulkAddModal.tsx:60-62 | Trimming twice is trimming once. |
| Text.ToLower | components/BulkAddModal.tsx:52 | `toLowerCase` keeps the length, lowers each ASCII capital and leaves every other character alone. |
| Text.TrimmedLinesSpec | components/AddStudentsModal.tsx:19-21 | The kept lines are, in order, the trimmed lines that are not empty, and each is already trimmed. |
| OrderedMaps.Lookup | pages/RollCall.tsx:79 | `get` finds a key exactly when it is present, and returns a value stored under it. |
| OrderedMaps.PutLookup | pages/RollCall.tsx:79 | After `set(k, v)`, `get(k)` is v and every other key reads as before. |
| OrderedMaps.PutKeys | pages/RollCall.tsx:79 | `set` keeps the key order, and a new key goes at the end. |
| OrderedMaps.PutDistinct | pages/RollCall.tsx:79 | `set` keeps the keys distinct. |
| OrderedMaps.LookupIn | pages/RollCall.tsx:79 | With distinct keys, a pair is in the map exactly when `get` returns its value. |
| Types.ScheduleDays | pages/SubjectDetail.tsx:475 | The schedule's day list has one entry per schedule row, and a weekday is in it exactly when some row is on that day. |
| SchoolCalendar.FillSpec | pages/SubjectDetail.tsx:463-470 | Filling a date range sets every day in it to the event and leaves every other day as it was. |
| SchoolCalendar.ApplySpec | pages/SubjectDetail.tsx:460-471 | Applying one event covers its single day or its inclusive range, and nothing else changes. |
| SchoolCalendar.BuildEventMap | pages/SubjectDetail.tsx:459-472 | The imperative `forEach` builds the event map that the specification function defines. |
| SchoolCalendar.EventMapDomain | pages/SubjectDetail.tsx:459-472 | A day has an entry exactly when some event covers it. |
| SchoolCalendar.EventMapLastWriter | pages/SubjectDetail.tsx:460-472 | A day's entry is the last event in the list that covers it. |
| SchoolCalendar.SeptemberOctoberDates | pages/SubjectDetail.tsx:432-437 | The day numbers written in the table for the September and October entries are those of their calendar dates. |
| SchoolCalendar.NovemberDates | pages/SubjectDetail.tsx:438-442 | The same for the November entries. |
| SchoolCalendar.DecemberDates | pages/SubjectDetail.tsx:443-449 | The same for the December entries. |
| SchoolCalendar.JanuaryFebruaryDates | pages/SubjectDetail.tsx:450-456 | The same for the January and February entries. |
| SchoolCalendar.EndOfTermIsVacation | pages/SubjectDetail.tsx:448-450 | 19 December 2025 keeps the vacation entry, the last of the exam, end-of-term and vacation entries that cover it, so it is non-lective. |
| SchoolCalendar.JanuaryExamsAreLective | pages/SubjectDetail.tsx:450-452 | 5 January 2026 holds the later resit-exam entry over the vacation and stays lective; 7 January is vacation and non-lective. |
| SchoolCalendar.ExamsOverwriteConferences | pages/SubjectDetail.tsx:443-444 | On 4 December 2025 the later exam entry wins over the conference range; 2 December keeps the conference. |
| SchoolCalendar.UncoveredDayHasNoEvent | pages/SubjectDetail.tsx:431-457 | 2 September 2025 has no entry. |
| SubjectDetail.WalkSessionDays | pages/SubjectDetail.tsx:474-495 | Over any event map, the walk lists a day exactly when it is a session day under that map, in strictly increasing order. |
| SubjectDetail.ScheduledSessionDates | pages/SubjectDetail.tsx:426-495 | An absent or empty schedule gives no dates. Otherwise a day is listed exactly when it is a session day: on or after 2025-09-01 (`SemesterStart`) and no later than now's UTC day, on a scheduled weekday, and not non-lective. The list is strictly increasing. |
| SubjectDetail.ResitExamDayIsSessionDay | pages/SubjectDetail.tsx:481-490 | A Monday class meets on the 5 January 2026 exam day once that day has started. |
| SubjectDetail.EndOfTermIsNoSessionDay | pages/SubjectDetail.tsx:486-488 | No schedule makes 19 December 2025 a session day. |
| SubjectDetail.ToggleCheckbox | pages/SubjectDetail.tsx:31-39 | Ticking one type box flips it, and unticking the other may happen only alongside it. The two boxes are never both ticked, and the other fields do not change. |
| SubjectDetail.ToggleTwice | pages/SubjectDetail.tsx:31-39 | Toggling the same box twice restores the form, unless the first toggle cleared the other box. |
| SubjectDetail.CheckCriterion | pages/SubjectDetail.tsx:41-71 | A criterion is accepted exactly when it has a name, a positive percentage, a total of at most 100 and, for participation, positive points. The built row has `attendance` type iff that box is ticked, `participation` iff only that one is, `single` limit for both, `max_points` iff participation, and otherwise the chosen limit. |
| SubjectDetail.AcceptedKeepsTotalCapped | pages/SubjectDetail.tsx:47 | Storing an accepted criterion leaves the total percentage at most 100. |
| SubjectDetail.SubmitCriterion | pages/SubjectDetail.tsx:41-84 | A row is inserted exactly when the check passes, and it is the checked row. The form resets only after a successful insert. |
| SubjectDetail.AvailableCriteriaSpec | pages/SubjectDetail.tsx:169 | The criteria offered for new assignments are, in order, exactly the `default` ones. |
| SubjectDetail.FindCriterion | pages/SubjectDetail.tsx:170 | `find` fails exactly when no criterion has the id, and otherwise returns the first criterion with that id. |
| SubjectDetail.AddAssignment | pages/SubjectDetail.tsx:176-189 | An assignment is inserted exactly when name and criterion are set and the criterion is not a `single` criterion that already has an assignment. |
| SubjectDetail.CountFor | pages/SubjectDetail.tsx:172-174 | A criterion's assignment count is zero exactly when it has none. |
| SubjectDetail.CountAppend | pages/SubjectDetail.tsx:172-174 | Adding an assignment raises its own criterion's count by one and no other count. |
| SubjectDetail.AddAssignmentKeepsLimits | pages/SubjectDetail.tsx:172-182 | If every `single` criterion has at most one assignment, an accepted insert keeps that so. |
| SubjectDetail.DailyOfSpec | pages/SubjectDetail.tsx:269-277 | A participation is in a student's daily list exactly when it is theirs and on the selected date. |
| SubjectDetail.PointsOfBounds | pages/SubjectDetail.tsx:272 | Non-negative point entries give a non-negative total. |
| SubjectDetail.ParticipationsByStudent | pages/SubjectDetail.tsx:266-279 | Every student of the subject gets exactly one tally, holding their total points and that day's entries. |
| AttendanceCalendar.NamesOnSpec | components/AttendanceCalendar.tsx:109-121 | A name is listed under a day exactly when some named record with that name was created on that UTC day (`HasNameOn`). |
| AttendanceCalendar.NamesOnNonEmpty | components/AttendanceCalendar.tsx:109-121 | A day's list is non-empty exactly when a named record falls on it. |
| AttendanceCalendar.NamesOnCount | components/AttendanceCalendar.tsx:109-121 | A day's list has one name per named record of that day, duplicates kept. |
| AttendanceCalendar.AttendanceByDate | components/AttendanceCalendar.tsx:109-121 | The loop-built map has a key exactly for days with a named record, and holds that day's names in record order. |
| AttendanceCalendar.DaysInMonthSpec | components/AttendanceCalendar.tsx:134 | `new Date(y, m + 1, 0).getDate()` is the length of month m. |
| AttendanceCalendar.LastDayOfMonthDay | components/AttendanceCalendar.tsx:134 | The day before the next month's first is numbered with this month's length. |
| AttendanceCalendar.MonthDay | components/AttendanceCalendar.tsx:139-153 | The i-th day after the first of a month is the valid date i + 1 of that month. |
| AttendanceCalendar.LastDayOfMonth | components/AttendanceCalendar.tsx:134 | Day 0 of the next month is the last day of this month. |
| AttendanceCalendar.NextMonthStart | components/AttendanceCalendar.tsx:134-139 | The first of the next month comes one month length after this month's first. |
| AttendanceCalendar.MonthsToRenderTile | components/AttendanceCalendar.tsx:123-126 | The six grids drawn start on 2025-09-01, each begins the day after the previous one ends, and the last ends on 2026-02-28. |
| AttendanceCalendar.FirstDayOffset | components/AttendanceCalendar.tsx:135-136 | The leading blank count is 0..6, the Monday-based weekday of the 1st. |
| AttendanceCalendar.Facts | components/AttendanceCalendar.tsx:153-164 | A day's facts are the following. It is scheduled iff its weekday is in the schedule. Its attendees are the map's list, or none. Its event is the map's entry. It is past iff it started before today. |
| AttendanceCalendar.Classify | components/AttendanceCalendar.tsx:166-189 | The styling has a priority order. Attended: iff someone came. Pending: iff nobody came, the day is past and scheduled, and it carries no non-lective event. Event: otherwise, when there is an event. Scheduled: otherwise, when the day is scheduled. |
| AttendanceCalendar.ClickableIff | components/AttendanceCalendar.tsx:167-175 | A cell is clickable exactly when someone attended or the day is a pending session. |
| AttendanceCalendar.PendingSessionDay | components/AttendanceCalendar.tsx:173-175 | A scheduled, lective, past day with no attendance is shown as pending. |
| AttendanceCalendar.RenderMonth | components/AttendanceCalendar.tsx:128-155 | Without a schedule, or with an empty one, nothing is drawn. Otherwise there is one cell per day of the month, in date order from the 1st, each styled by `Classify` of that day's facts. |
| AttendanceCalendar.Cells | components/AttendanceCalendar.tsx:152-164 | n consecutive cells from a first day, each on its own date and styled by that date's facts. |
| AttendanceCalendar.AbsenteesSpec | components/AttendanceCalendar.tsx:196 | The absentees are, in roster order, the roster names not among the attendees. |
| AttendanceCalendar.Click | components/AttendanceCalendar.tsx:193-201 | Clicking shows the attendance (with its absentees) on an attended day. It asks for manual attendance on a pending day. Otherwise it does nothing. |
| StudentDetail.AttendancePartition | components/StudentDetailModal.tsx:62-63 | Attended and missed dates split the session dates: in order, disjoint, covering, with counts adding up. |
| StudentDetail.AttendedIff | components/StudentDetailModal.tsx:56-62 | A session date is attended exactly when one of the student's records was created that UTC day. |
| StudentDetail.AttendedAscending | components/StudentDetailModal.tsx:62-63 | Both lists stay in increasing date order. |
| StudentDetail.AttendanceAverage | components/StudentDetailModal.tsx:76-78 | The attendance average is 0..10. It is 0 with no sessions and 10 with full attendance. |
| StudentDetail.EffectiveMaxPoints | components/StudentDetailModal.tsx:82 | The divisor is the criterion's `max_points`, or 1 when it is missing or 0. It is never 0. |
| StudentDetail.ParticipationAverage | components/StudentDetailModal.tsx:81-83 | The participation average is points / max × 10, capped at 10, and non-negative for non-negative points. |
| StudentDetail.FindGrade | components/StudentDetailModal.tsx:88 | `find` fails exactly when no grade is for the assignment, and otherwise returns the first grade for it. |
| StudentDetail.DefaultRows | components/StudentDetailModal.tsx:86-93 | There is one row per assignment of the criterion, with its name, and a score exactly when a grade exists (that grade's score). |
| StudentDetail.DefaultAverage | components/StudentDetailModal.tsx:86-101 | A `default` criterion lists exactly its own assignments. Its average is absent with none, and otherwise the score sum (ungraded as 0) over their count. |
| StudentDetail.DetailWellFormed | components/StudentDetailModal.tsx:72-114 | Every breakdown's average is its rows' mean score (ungraded as 0) when it has rows, and absent only when it has none. An attendance or participation criterion's one row carries its average. |
| StudentDetail.DetailsAt | components/StudentDetailModal.tsx:72 | The i-th breakdown is that of the i-th criterion. |
| StudentDetail.Breakdown | components/StudentDetailModal.tsx:73-102 | The imperative breakdown of one criterion equals its specification. |
| StudentDetail.GradeSummary | components/StudentDetailModal.tsx:69-121 | The loop produces the specified breakdown of every criterion, and the final grade as their weighted sum. |
| StudentDetail.FinalGradeSnoc | components/StudentDetailModal.tsx:104-106 | Adding a criterion adds its weighted average to the final grade. |
| StudentDetail.ContributionSumScale | components/StudentDetailModal.tsx:153 | The per-assignment contributions shown add up to the criterion's weighted average. |
| StudentDetail.DisplayedIsWeighted | components/StudentDetailModal.tsx:153 | The contribution shown for a criterion equals its weighted average. |
| StudentDetail.DisplayedAddsUpToFinal | components/StudentDetailModal.tsx:105 | The contributions shown add up to the final grade. |
| StudentDetail.ScoreSumBounds | components/StudentDetailModal.tsx:97 | The sum of scores of 0..10, ungraded as 0, lies between 0 and 10 times the number of rows. |
| StudentDetail.AverageBounds | components/StudentDetailModal.tsx:76-101 | With scores and points in range, every criterion average is 0..10. |
| StudentDetail.WeightedBounds | components/StudentDetailModal.tsx:105 | A weighted average lies between 0 and the criterion's percentage. |
| StudentDetail.FinalGradeBounds | components/StudentDetailModal.tsx:104-106 | With sane inputs the final grade lies between 0 and the total percentage, so at most 100. |
| StudentDetail.FullMarksGiveOneHundred | components/StudentDetailModal.tsx:105 | A single 100 % criterion with a 10 on its one assignment gives a final grade of 100. |
| Planner.ScheduledWithinAWeek | components/BulkAddModal.tsx:84-88 | If some weekday 1..7 is scheduled, one falls within seven days of any start. |
| Planner.NextScheduledUnique | components/BulkAddModal.tsx:84-88 | The first scheduled day on or after a date is unique. |
| Planner.NextScheduledWithinAWeek | components/BulkAddModal.tsx:84-88 | That first scheduled day is less than a week later. |
| Planner.NoWeekdayNeverStops | components/BulkAddModal.tsx:84-88 | With no weekday 1..7 scheduled, no day ever stops the search. |
| Planner.AssignClassDates | components/BulkAddModal.tsx:79-99 | The loop gives each topic, in order, the first scheduled day after the previous class, beginning at the start date, with status `planned`. |
| Planner.ScheduledDates | components/BulkAddModal.tsx:83-99 | Class dates are scheduled weekdays, on or after the start, strictly increasing, and less than a week apart. |
| Planner.ScheduledUnique | components/BulkAddModal.tsx:83-99 | The scheduling relation determines the rows. |
| Planner.HolidaysAreNotSkipped | components/BulkAddModal.tsx:83-88 | Starting Monday 15 September 2025 on a Tuesday schedule, the first class is on 16 September: the calendar is not consulted. |
| Planner.HeaderIsTema | components/BulkAddModal.tsx:52 | A line is a header exactly when its lower-cased text contains "tema". |
| Planner.DropHeader | components/BulkAddModal.tsx:52-54 | A header first line is dropped; otherwise the lines are kept. |
| Planner.ParseLineSpec | components/BulkAddModal.tsx:56-70 | A line parses only if it has at least two tab-separated parts. The title is empty only when both theme and sub-theme are. A theme prefixes it as "theme: ". The description is the trimmed third part when non-empty. |
| Planner.ParseFullLine | components/BulkAddModal.tsx:57-69 | Any three non-blank trimmed cells "A⇥B⇥C" give the topic "A: B" with description "C". |
| Planner.TrimmedLineHasTheme | components/BulkAddModal.tsx:57-64 | A trimmed line with a second field always has a non-blank theme. |
| Planner.BulkThemesNeverBlank | components/BulkAddModal.tsx:48-64 | Every line reaching the parser has a non-blank theme when it has a sub-theme, so the `tema ? … : subtema` fallback at line 64 is never taken. |
| Planner.BulkOfOneLine | components/BulkAddModal.tsx:48-56 | A one-line text that is not a header reaches the parser as its trimmed line. |
| Planner.EmptyThemeShiftsColumns | components/BulkAddModal.tsx:48-70 | A row "⇥B⇥C" with an empty theme cell loses its leading tab to the trim and gives the topic "B: C" with no description. |
| Planner.LoneSubThemeIsDropped | components/BulkAddModal.tsx:48-70 | A row "⇥B" becomes the one-field line "B" and gives no topic. |
| Planner.ParseNoTab | components/BulkAddModal.tsx:57-58 | A line without a tab gives no topic. |
| Planner.Kept | components/BulkAddModal.tsx:58-70 | A line yields at most one topic, and only a parsed one with a title. |
| Planner.ParseTopicsMembership | components/BulkAddModal.tsx:56-70 | A topic is produced exactly when it has a title and some line parses to it. |
| Planner.ParseTopicsTitles | components/BulkAddModal.tsx:70 | Every topic produced has a title. |
| Planner.ParseTopicsAppend | components/BulkAddModal.tsx:56-70 | Parsing is line by line: parsing two blocks is parsing each and concatenating. |
| Planner.CheckBulkAdd | components/BulkAddModal.tsx:35-46 | Refused with the text-or-date error iff the text is blank or there is no date. Next, with the schedule error iff there is no schedule. Then, with the no-topics error iff nothing parses. Otherwise the parsed topics are returned. |
| Planner.WeekdayScheduleStops | components/BulkAddModal.tsx:79-88 | A non-empty schedule of weekdays 1..7 makes the date search stop. |
| Planner.BulkAdd | components/BulkAddModal.tsx:33-101 | It fails exactly as the check does. Otherwise the rows are the parsed topics scheduled from the start date. |
| Planner.CheckGeneratorForm | components/SyllabusGeneratorModal.tsx:35-43 | Refused as incomplete iff the description is blank, the count is missing or not positive, or there is no date. Next, refused for the schedule iff there is none. |
| Planner.AsTopics | components/SyllabusGeneratorModal.tsx:87-93 | Each generated topic becomes one planner topic, in order. |
| Planner.Generate | components/SyllabusGeneratorModal.tsx:31-99 | A failed form check is reported as such. Otherwise the reply is refused exactly when it is not a non-empty list. An accepted reply's topics are scheduled from the start date. |
| ScheduleEditing.InsertPermutes | pages/AddSubject.tsx:23 | Inserting an entry adds exactly that entry. |
| ScheduleEditing.InsertSorted | pages/AddSubject.tsx:23 | Inserting into a day-sorted list keeps it sorted. |
| ScheduleEditing.SortSpec | pages/AddSubject.tsx:23 | Sorting by day gives a sorted permutation. |
| ScheduleEditing.SortSorted | pages/AddSubject.tsx:23 | Sorting an already sorted list changes nothing (the sort is stable). |
| ScheduleEditing.AddKeepsOrder | pages/AddSubject.tsx:22-24 | Adding a new day to a schedule with distinct ascending days keeps the days distinct and ascending, and adds exactly the default entry. |
| ScheduleEditing.WithTime | pages/AddSubject.tsx:32-34 | Changing a day's time changes only that field of that day's entries. |
| ScheduleEditing.WithDuration | pages/AddSubject.tsx:32-34 | Changing a day's duration changes only that field of that day's entries. |
| ScheduleEditing.RemoveSpec | pages/AddSubject.tsx:28-30 | Removing a day keeps, in order, exactly the entries of other days, and keeps the days ascending. |
| ScheduleEditing.EditsKeepDays | pages/AddSubject.tsx:32-34 | Time and duration edits keep the set and order of days. |
| ScheduleEditing.Stored | pages/AddSubject.tsx:58 | An empty schedule is stored as null; any other is stored as is. |
| ScheduleEditing.CheckSchedule | components/ScheduleModal.tsx:42-56 | The schedule is refused exactly when some entry lacks a time or a positive duration; otherwise it is stored. |
| ScheduleEditing.CheckNewSubject | pages/AddSubject.tsx:36-58 | Refused for a blank name iff the name is blank. Next, for the schedule iff an entry is incomplete. Otherwise the schedule is stored. |
| ScheduleEditing.SavedSchedulesAreComplete | components/ScheduleModal.tsx:46-50 | Every entry of a stored schedule has a time and a positive duration. |
| ScheduleEditing.ScheduleEditor.Empty | pages/AddSubject.tsx:15 | A new subject's editor starts with no days. |
| ScheduleEditing.ScheduleEditor.FromSubject | components/ScheduleModal.tsx:22-24 | The modal starts from the subject's schedule, or from none. |
| ScheduleEditing.ScheduleEditor.AddDay | components/ScheduleModal.tsx:26-32 | Ticking a day already present changes nothing. Otherwise the default entry is added and the list re-sorted by day. Ascending days stay ascending, and the day is then present. |
| ScheduleEditing.ScheduleEditor.RemoveDay | components/ScheduleModal.tsx:34-36 | Unticking a day removes all of its entries and keeps the rest in order. |
| ScheduleEditing.ScheduleEditor.ChangeTime | components/ScheduleModal.tsx:38-40 | The new schedule is the old one with that day's time replaced. |
| ScheduleEditing.ScheduleEditor.ChangeDuration | components/ScheduleModal.tsx:38-40 | The new schedule is the old one with that day's duration replaced. |
| RollCall.AllAsSpec | pages/RollCall.tsx:83-89 | Marking all gives every roster student, and nobody else, that status, with distinct keys. |
| RollCall.PresentIds | pages/RollCall.tsx:106-108 | The present list is no longer than the status map. |
| RollCall.PresentIdsSpec | pages/RollCall.tsx:106-108 | A student is saved as present exactly when their status is `present`, in map order. |
| RollCall.NoneAbsentSaved | pages/RollCall.tsx:106-110 | If everyone is absent, there are no attendance rows. |
| RollCall.MarkAllOutcomes | pages/RollCall.tsx:83-89 | "All absent" saves nobody; "all present" saves exactly the roster. |
| RollCall.RecordsFor | pages/RollCall.tsx:111-115 | One attendance row per present student, in order, for the session and the subject. |
| RollCall.LocalDayWindow | pages/RollCall.tsx:29-39 | The local-midnight to 23:59:59.999 window holds exactly the instants on today's local day. |
| RollCall.RollCallPage.Load | pages/RollCall.tsx:23-64 | Without a subject nothing loads. Otherwise the roster loads with everyone present, and "already taken" holds iff a session of the subject falls on today's local day. |
| RollCall.RollCallPage.StatusChange | pages/RollCall.tsx:77-81 | One student's status is set, and the rest of the state is kept. |
| RollCall.RollCallPage.MarkAllAs | pages/RollCall.tsx:83-89 | Every roster student gets the status. |
| RollCall.RollCallPage.Save | pages/RollCall.tsx:91-120 | Nothing is saved without a subject or once taken today. Otherwise a session is created, with one row per present student, or none when nobody is present. |
| RollCall.EditsKeepKeysDistinct | pages/RollCall.tsx:77-81 | Status edits keep one entry per student, and presence follows the last edit. |
| ManualAttendance.SetOf | components/ManualAttendanceModal.tsx:15 | `new Set(ids)` has no duplicates and the same members. |
| ManualAttendance.Ids | components/ManualAttendanceModal.tsx:15 | The roster's ids, in order. |
| ManualAttendance.ToggledSpec | components/ManualAttendanceModal.tsx:19-27 | Toggling flips one student's membership and keeps the set duplicate-free. |
| ManualAttendance.ToggleTwice | components/ManualAttendanceModal.tsx:19-27 | Toggling twice restores the membership, and restores the sequence when the student was out. |
| ManualAttendance.RecordsFor | components/ManualAttendanceModal.tsx:55-60 | One record per selected student, at the session's instant. |
| ManualAttendance.ManualAttendanceModal.constructor | components/ManualAttendanceModal.tsx:15 | The modal opens with every student selected, no id twice. |
| ManualAttendance.ManualAttendanceModal.Toggle | components/ManualAttendanceModal.tsx:19-27 | The selection is toggled for that student and stays duplicate-free. |
| ManualAttendance.ManualAttendanceModal.SelectAll | components/ManualAttendanceModal.tsx:29-31 | Every roster student is selected. |
| ManualAttendance.ManualAttendanceModal.DeselectAll | components/ManualAttendanceModal.tsx:33-35 | Nobody is selected. |
| ManualAttendance.ManualAttendanceModal.Submit | components/ManualAttendanceModal.tsx:37-64 | The session is stamped at noon UTC on the chosen day. With nobody selected no records are written; otherwise one per selected student, and no student gets two. |
| ManualAttendance.SubmissionRecords | components/ManualAttendanceModal.tsx:54-60 | Each record is for a selected student on the chosen day, every selected student gets one, and no student gets two. |
| ManualAttendance.SelectAllSpec | components/ManualAttendanceModal.tsx:29-31 | After "select all", a student is selected exactly when on the roster. |
| AddStudents.RowsFor | components/AddStudentsModal.tsx:28-31 | One student row per name, in order, for the subject. |
| AddStudents.Submit | components/AddStudentsModal.tsx:16-31 | Refused exactly when no non-empty line remains; otherwise one row per kept line. |
| AddStudents.SubmitNames | components/AddStudentsModal.tsx:19-31 | Every row is for the subject and holds a non-empty, already-trimmed name. A name is inserted exactly when it is a non-empty trimmed line. There are at most as many rows as lines. |
| AddStudents.BlankTextIsRejected | components/AddStudentsModal.tsx:23-26 | A text whose every line is blank is refused, for any subject. |
| AddStudents.DuplicatesAreKept | components/AddStudentsModal.tsx:19-31 | Any trimmed one-line name written twice, with a blank line between, gives two identical student rows. |
| GradingPeriods.PutExtends | components/GradingPeriodManager.tsx:15 | Editing a date keeps the draft an extension of the stored dates, keys in stored order first. |
| GradingPeriods.ChangedIff | components/GradingPeriodManager.tsx:34 | For a draft edited from the stored dates, the pair lists differ exactly when some period reads differently. |
| GradingPeriods.DifferIff | components/GradingPeriodManager.tsx:34 | The two objects' texts differ exactly when some key reads differently in them. |
| GradingPeriods.GradingPeriodManager.constructor | components/GradingPeriodManager.tsx:11 | The draft starts as the stored dates, with no changes and saving disabled. |
| GradingPeriods.GradingPeriodManager.DateChange | components/GradingPeriodManager.tsx:14-48 | In any state, that period's date is set and no other. "Has changes" holds exactly when the new date differs from the stored one or some other period already did. |
| GradingPeriods.GradingPeriodManager.BeginSave | components/GradingPeriodManager.tsx:18-22 | The draft is sent as is, and saving disables the button. |
| GradingPeriods.GradingPeriodManager.EndSave | components/GradingPeriodManager.tsx:30 | Saving ends and the draft is kept. |
| GradingPeriods.GradingPeriodManager.SubjectReloaded | components/GradingPeriodManager.tsx:28-34 | After the parent refetches the subject, "has changes" holds exactly when some period of the kept draft reads differently from the newly stored dates; when every period reads the same, in whatever key order, nothing is left to save. |
| GradingPeriods.ReorderedReloadIsNoChange | components/GradingPeriodManager.tsx:15-34 | Stored {"2": b}, period 1 set to a, then reloaded as {"1": a, "2": b}: nothing is left to save. |
| GradingPeriods.RevertIsNoChange | components/GradingPeriodManager.tsx:34 | Setting a period back to its stored date restores the stored dates exactly. |
| GradingPeriods.NewPeriodIsChange | components/GradingPeriodManager.tsx:34 | Setting a period that had no date is a change. |
| Cameras.FindIndex | pages/MultiGradeScanner.tsx:171 | `findIndex` is -1 exactly when the id is absent, and otherwise the first position of the id. |
| Cameras.NextCamera | pages/MultiGradeScanner.tsx:169-174 | With fewer than two cameras, or no active one, nothing changes. Otherwise the next camera is one of the list, and the first when the active one is not listed. |
| Cameras.Rotated | pages/MultiGradeScanner.tsx:172 | k steps from a position stay within the list. |
| Cameras.RotatedIsMod | pages/MultiGradeScanner.tsx:172 | k steps from position i land on (i + k) mod n. |
| Cameras.NextOfIndex | pages/MultiGradeScanner.tsx:171-173 | With distinct ids, one press moves from camera i to the next, wrapping after the last. |
| Cameras.PressesRotate | pages/MultiGradeScanner.tsx:169-174 | k presses from camera i select camera i + k, wrapping. |
| Cameras.FullTurn | pages/MultiGradeScanner.tsx:169-174 | As many presses as cameras come back to the start. |
| GradeStore.UpsertAllSpec | pages/MultiGradeScanner.tsx:104 | After an upsert on (student, assignment), a named pair holds its row's score, replacing any old one, and every other pair keeps its value. |
| MultiGradeScanning.FindByName | pages/MultiGradeScanner.tsx:51 | `find` by name fails exactly when no student has it, and otherwise returns the first one that does. |
| MultiGradeScanning.LastScore | pages/MultiGradeScanner.tsx:66-68 | A stored score is found exactly when the assignment has a grade. |
| MultiGradeScanning.BlanksSpec | pages/MultiGradeScanner.tsx:64 | Every assignment starts empty, with one entry each. |
| MultiGradeScanning.WithExistingSpec | pages/MultiGradeScanner.tsx:65-69 | Existing grades overwrite the blanks: the last one for an assignment wins. |
| MultiGradeScanning.InitialGrades | pages/MultiGradeScanner.tsx:63-69 | After a scan, a field holds the student's stored score when there is one, and otherwise is empty for each of the subject's assignments. Stored grades of other assignments get fields too; nothing else does. |
| MultiGradeScanning.ToScore | pages/MultiGradeScanner.tsx:79 | An empty field becomes the empty score, and a number stays a number. |
| MultiGradeScanning.UpsertRows | pages/MultiGradeScanner.tsx:89-96 | Every row is for the scanned student and the subject. |
| MultiGradeScanning.UpsertRowsKeys | pages/MultiGradeScanner.tsx:89-96 | Every row names an assignment listed in the typed grades. |
| MultiGradeScanning.HeadRow | pages/MultiGradeScanner.tsx:89-91 | The first listed assignment gets a row exactly when its field holds a number. |
| MultiGradeScanning.PastHeadRow | pages/MultiGradeScanner.tsx:89-91 | For any other assignment, whether it gets a row and whether it holds a number do not depend on the first entry. |
| MultiGradeScanning.UpsertRowsDistinct | pages/MultiGradeScanner.tsx:89-96 | No two rows name the same pair. |
| MultiGradeScanning.UpsertRowsFor | pages/MultiGradeScanner.tsx:89-91 | An assignment gets a row exactly when its field holds a number. |
| MultiGradeScanning.UpsertRowsScore | pages/MultiGradeScanner.tsx:92-96 | Each row carries the number typed for its assignment. |
| MultiGradeScanning.SavedScoresLand | pages/MultiGradeScanner.tsx:89-104 | After saving, each typed score is stored for the student, and every other pair in the table is untouched. |
| MultiGradeScanning.MultiGradeScanner.Load | pages/MultiGradeScanner.tsx:27-48 | Both lists load, or the error shows with empty lists; no student is selected. |
| MultiGradeScanning.MultiGradeScanner.Scan | pages/MultiGradeScanner.tsx:50-76 | An unknown name shows the not-found message. A known one selects the student and fills the fields from the blanks and the student's grades. |
| MultiGradeScanning.MultiGradeScanner.GradeChange | pages/MultiGradeScanner.tsx:78-83 | Empty or 0..10 input sets that field only; anything else is ignored. Nothing else of the page changes. |
| MultiGradeScanning.MultiGradeScanner.SaveGrades | pages/MultiGradeScanner.tsx:85-115 | No student (or no subject) writes nothing. No numbers gives the nothing-to-save message. Otherwise the number rows are upserted, with success or error shown. Only the message changes. |
| MultiGradeScanning.MultiGradeScanner.ScanAnother | pages/MultiGradeScanner.tsx:117-122 | Student, fields and message are cleared; the loaded lists and the cameras stay. |
| MultiGradeScanning.MultiGradeScanner.CameraSwitch | pages/MultiGradeScanner.tsx:169-174 | The active camera moves to the next one; nothing else changes. |
| GradeScanning.CheckScore | pages/GradeScanner.tsx:17-22 | A score is passed on exactly when the field holds a number in 0..10. |
| GradeScanning.SameRangeAsMultiScanner | pages/GradeScanner.tsx:19 | The single scanner and the multi scanner accept the same numbers; only an empty field is treated differently. |
| GradeScanning.ScoreBoundaries | pages/GradeScanner.tsx:19 | 0 and 10 are accepted; -0.1, 10.1 and empty are not. |
| GradeScanning.SingleStudentSpec | pages/GradeScanner.tsx:95-104 | `.single()` finds a student of that name in the assignment's subject, and only when exactly one matches. |
| GradeScanning.RepeatedNameNotFound | pages/GradeScanner.tsx:95-98 | Two students with the same name in the subject make the scan fail. |
| GradeScanning.GradeScanner.Load | pages/GradeScanner.tsx:71-85 | A missing assignment shows the not-found message. |
| GradeScanning.GradeScanner.Scan | pages/GradeScanner.tsx:87-112 | Without an assignment nothing happens. A unique match is selected; otherwise the not-found message shows. |
| GradeScanning.GradeScanner.GradeSubmit | pages/GradeScanner.tsx:114-134 | One upsert for the student and assignment. The student is cleared whether or not the write fails, and the message says which. |
| GradeScanning.GradeScanner.ModalSubmit | pages/GradeScanner.tsx:17-26 | A refused score changes nothing. An accepted one is submitted for the scanned student. |
| GradeScanning.GradeScanner.CameraSwitch | pages/GradeScanner.tsx:184-189 | The active camera moves to the next one; nothing else changes. |
| GradeScanning.SecondScoreReplacesFirst | pages/GradeScanner.tsx:117-122 | Grading the same pair twice keeps only the second score and touches nothing else. |

## Left out

- Database I/O, authentication and routing. Every query becomes a parameter
  (the loaded rows, `Option` for a failed load, `writeFails` for a failed
  write), and every insert or upsert becomes a returned value.
- Rendering, Spanish labels, alerts' wording, date display formatting and
  navigation after a save.
- Camera and QR hardware. A scan is its decoded name. The initial
  back-camera pick (pages/MultiGradeScanner.tsx:132-139) is not modelled.
- The AI assistant call. Its reply is an input (`GeneratorReply`): a list
  of topics, or something else.
- Timers and in-flight flags: clearing messages after a delay, and the
  `isSaving`/`isSubmitting` disabling of buttons. `GradingPeriodManager`
  Begin/EndSave is the exception.
- Deleting criteria, assignments and participations, and adding
  participations: these are single database writes with no logic.
- pages/ScanAttendance.tsx is not part of this model.
- Floating point: percentages, scores and averages are exact reals, and a
  number field is never NaN.
- RollCall.LocalDayWindow: the browser's local day is a fixed UTC offset
  (no daylight-saving changes within a day).
- AttendanceCalendar.RenderMonth: the school event map is built once from
  the fixed table and passed in as `events`, where the component builds it
  on every render to the same value. Records are grouped by UTC day, as the
  code does. The month grid uses the proleptic Gregorian calendar, and the
  local-time `Date(y, m, 1)` is taken to name the same calendar day.
- Text.ToLower: only ASCII letters are lowered. `toLowerCase` also lowers
  other scripts.
- A blank duration field is modelled as 0. The code stores `''` itself
  (`e.target.value === '' ? '' : +e.target.value`), and the save check
  `s.duration > 0` refuses it because `'' > 0` is false; 0 is refused by
  the same check, so the model gives the same verdict.
- FullDate.Format: only four-digit years (0000..9999) are formatted, as
  `toISOString` writes them without a sign.
- ScheduleEditing.SortByDay: `Array.prototype.sort` with a day comparator
  is modelled as a stable insertion sort.
- GradingPeriods.GradingPeriodManager.DateChange: requires a period among
  the four the form shows, the only ones it can be called with. The
  `JSON.stringify` test for changes is modelled as a key-by-key comparison
  (`Differ`): an object lists the integer keys "1".."4" in numeric order
  whatever order they were set in. Non-integer keys in the stored column,
  which JS would list in insertion order, are compared key by key too.
- Planner.BulkAdd and Planner.Generate: require every schedule day to be a
  weekday 1..7. With no such day the modal's date search never ends, and
  Planner.NoWeekdayNeverStops states why.
- RollCall.RollCallPage.Load: the failed-load path (an error text, with the
  state otherwise unchanged) is not modelled; the loads are inputs.
- SubjectDetail.ParticipationsByStudent: the daily entries are the
  filtered list; their display labels are not modelled.
- Grading-period scoping and a normalized final-grade convention: neither
  exists in the code (see above).
