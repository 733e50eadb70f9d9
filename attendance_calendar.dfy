/** The attendance calendar: the names recorded on each UTC date, the month
    grid, the colouring of each day and what a click on a day does. */
module AttendanceCalendar {
  import opened Wrappers
  import opened Dates
  import opened Seqs
  import opened Types
  import opened SchoolCalendar

  // ---------------------------------------------------------------- attendance by date

  /** `record.students?.name` is truthy: the join found a non-empty name. */
  predicate Named(r: AttendanceRecord) {
    r.studentName.Some? && r.studentName.value != ""
  }

  /** The names of the named records whose UTC date is d, in record order. */
  function NamesOn(records: seq<AttendanceRecord>, d: Day): seq<string> {
    if records == [] then []
    else
      var last := records[|records| - 1];
      NamesOn(records[..|records| - 1], d) + (if Named(last) && DayOf(last.createdAt) == d then [last.studentName.value] else [])
  }

  /** Some named record falls on d. */
  predicate HasRecordOn(records: seq<AttendanceRecord>, d: Day) {
    exists k :: 0 <= k < |records| && Named(records[k]) && DayOf(records[k].createdAt) == d
  }

  /** Some named record with that name falls on d. */
  predicate HasNameOn(records: seq<AttendanceRecord>, d: Day, name: string) {
    exists k :: 0 <= k < |records| && Named(records[k]) && DayOf(records[k].createdAt) == d && records[k].studentName.value == name
  }

  /** A name is listed under d exactly when a named record with that name falls
      on d; unnamed records are dropped. */
  lemma {:induction false} NamesOnSpec(records: seq<AttendanceRecord>, d: Day, name: string)
    ensures name in NamesOn(records, d) <==> HasNameOn(records, d, name)
  {
    if records != [] {
      NamesOnSpec(records[..|records| - 1], d, name);
      HasNameOnSnoc(records, d, name);
    }
  }

  lemma HasNameOnSnoc(records: seq<AttendanceRecord>, d: Day, name: string)
    requires records != []
    ensures var last := records[|records| - 1];
      HasNameOn(records, d, name) <==>
        (HasNameOn(records[..|records| - 1], d, name) || (Named(last) && DayOf(last.createdAt) == d && last.studentName.value == name))
  {
    var init := records[..|records| - 1];
    if HasNameOn(init, d, name) {
      var k :| 0 <= k < |init| && Named(init[k]) && DayOf(init[k].createdAt) == d && init[k].studentName.value == name;
      assert records[k] == init[k];
    }
    if HasNameOn(records, d, name) {
      var k :| 0 <= k < |records| && Named(records[k]) && DayOf(records[k].createdAt) == d && records[k].studentName.value == name;
      if k < |init| {
        assert init[k] == records[k];
      }
    }
  }

  /** A day's list is non-empty exactly when some named record falls on it. */
  lemma {:induction false} NamesOnNonEmpty(records: seq<AttendanceRecord>, d: Day)
    ensures NamesOn(records, d) != [] <==> HasRecordOn(records, d)
  {
    if records != [] {
      var init := records[..|records| - 1];
      NamesOnNonEmpty(init, d);
      HasRecordOnSnoc(records, d);
    }
  }

  lemma HasRecordOnSnoc(records: seq<AttendanceRecord>, d: Day)
    requires records != []
    ensures var last := records[|records| - 1];
      HasRecordOn(records, d) <==> HasRecordOn(records[..|records| - 1], d) || (Named(last) && DayOf(last.createdAt) == d)
  {
    var init := records[..|records| - 1];
    if HasRecordOn(init, d) {
      var k :| 0 <= k < |init| && Named(init[k]) && DayOf(init[k].createdAt) == d;
      assert records[k] == init[k];
    }
    if HasRecordOn(records, d) {
      var k :| 0 <= k < |records| && Named(records[k]) && DayOf(records[k].createdAt) == d;
      if k < |init| {
        assert init[k] == records[k];
      }
    }
  }

  function NamedOn(d: Day): AttendanceRecord -> bool {
    (r: AttendanceRecord) => Named(r) && DayOf(r.createdAt) == d
  }

  /** A day's list has one name per named record of that day, duplicates kept. */
  lemma {:induction false} NamesOnCount(records: seq<AttendanceRecord>, d: Day)
    ensures |NamesOn(records, d)| == |Filter(records, NamedOn(d))|
  {
    if records != [] {
      var init := records[..|records| - 1];
      var last := records[|records| - 1];
      NamesOnCount(init, d);
      assert records == init + [last];
      FilterAppend(init, [last], NamedOn(d));
      assert [last][1..] == [];
    }
  }

  /** `attendanceByDate`: each named record's name is pushed under the UTC date
      of its timestamp. */
  method AttendanceByDate(records: seq<AttendanceRecord>) returns (m: map<Day, seq<string>>)
    ensures forall d :: d in m <==> HasRecordOn(records, d)
    ensures forall d :: d in m ==> m[d] == NamesOn(records, d)
  {
    m := map[];
    for j := 0 to |records|
      invariant forall d :: d in m <==> HasRecordOn(records[..j], d)
      invariant forall d :: d in m ==> m[d] == NamesOn(records[..j], d)
      invariant forall d :: d !in m ==> NamesOn(records[..j], d) == []
    {
      var record := records[j];
      assert records[..j + 1][..j] == records[..j];
      forall d ensures HasRecordOn(records[..j + 1], d) <==> HasRecordOn(records[..j], d) || (Named(record) && DayOf(record.createdAt) == d) {
        HasRecordOnSnoc(records[..j + 1], d);
      }
      if Named(record) {
        var dateString := DayOf(record.createdAt);
        if dateString !in m {
          m := m[dateString := []];
        }
        m := m[dateString := m[dateString] + [record.studentName.value]];
      }
    }
    assert records[..|records|] == records;
  }

  // ---------------------------------------------------------------- month grid

  /** The months shown, as (year, 0-based month): September 2025 to February 2026. */
  const MonthsToRender: seq<(int, int)> := [(2025, 8), (2025, 9), (2025, 10), (2025, 11), (2026, 0), (2026, 1)]

  /** `Date.UTC(y, m0, 1)` for a 0-based month, where month 12 is January of
      the next year. */
  function FirstOfMonth(y: int, m0: int): Day
    requires 0 <= m0 <= 12
  {
    if m0 == 12 then ToDay(Date(y + 1, 1, 1)) else ToDay(Date(y, m0 + 1, 1))
  }

  /** `new Date(y, m0 + 1, 0).getDate()`: day 0 of the next month is the last
      day of this one. */
  function DaysInMonth(y: int, m0: int): int
    requires 0 <= m0 <= 11
  {
    DayOfMonth(FirstOfMonth(y, m0 + 1) - 1)
  }

  /** `getDate()`: the day of the month of day n. */
  function DayOfMonth(n: Day): int {
    FromDay(n).day
  }

  /** The day before the first of the next month is the month's last day, so
      its day of the month is the month's length. */
  lemma DaysInMonthSpec(y: int, m0: int)
    requires 0 <= m0 <= 11
    ensures DaysInMonth(y, m0) == MonthLength(y, m0 + 1)
  {
    LastDayOfMonthDay(y, m0);
  }

  lemma LastDayOfMonthDay(y: int, m0: int)
    requires 0 <= m0 <= 11
    ensures DayOfMonth(FirstOfMonth(y, m0 + 1) - 1) == MonthLength(y, m0 + 1)
  {
    var m := m0 + 1;
    var last := FirstOfMonth(y, m) - 1;
    LastDayOfMonth(y, m);
    assert FromDay(last) == Date(y, m, MonthLength(y, m));
    assert DayOfMonth(last) == MonthLength(y, m);
  }

  lemma LastDayNumber(y: int, m: int)
    requires 1 <= m <= 12
    ensures FirstOfMonth(y, m) - 1 == ToDay(Date(y, m, MonthLength(y, m)))
  {
    MonthStep(y, m);
    if m == 12 {
      YearStep(y);
    }
  }

  lemma LastDayOfMonth(y: int, m: int)
    requires 1 <= m <= 12
    ensures FromDay(FirstOfMonth(y, m) - 1) == Date(y, m, MonthLength(y, m))
  {
    LastDayNumber(y, m);
    FromDayToDay(Date(y, m, MonthLength(y, m)));
  }

  /** The first of the next month comes one month length after this month's first. */
  lemma NextMonthStart(y: int, m0: int)
    requires 0 <= m0 <= 11
    ensures FirstOfMonth(y, m0) + MonthLength(y, m0 + 1) == FirstOfMonth(y, m0 + 1)
  {
    LastDayNumber(y, m0 + 1);
  }

  /** The day after the last cell of the grid of (year, 0-based month). */
  function MonthEnd(ym: (int, int)): Day
    requires 0 <= ym.1 <= 11
  {
    FirstOfMonth(ym.0, ym.1) + MonthLength(ym.0, ym.1 + 1)
  }

  /** The six grids drawn tile the term: the first starts on 2025-09-01, each
      starts the day after the previous one ends, and the last ends on
      2026-02-28, so every day in between is drawn exactly once. */
  lemma MonthsToRenderTile()
    ensures forall k :: 0 <= k < |MonthsToRender| ==> 0 <= MonthsToRender[k].1 <= 11
    ensures FirstOfMonth(MonthsToRender[0].0, MonthsToRender[0].1) == On(2025, 9, 1)
    ensures forall k :: 0 <= k < |MonthsToRender| - 1 ==>
      MonthEnd(MonthsToRender[k]) == FirstOfMonth(MonthsToRender[k + 1].0, MonthsToRender[k + 1].1)
    ensures MonthEnd(MonthsToRender[|MonthsToRender| - 1]) == On(2026, 3, 1)
  {
    var ms := MonthsToRender;
    forall k | 0 <= k < |ms| - 1
      ensures MonthEnd(ms[k]) == FirstOfMonth(ms[k + 1].0, ms[k + 1].1)
    {
      NextMonthStart(ms[k].0, ms[k].1);
      assert ms[k + 1] == if k == 3 then (ms[k].0 + 1, 0) else (ms[k].0, ms[k].1 + 1);
    }
    NextMonthStart(2026, 1);
  }

  /** The Monday-first column of the month's first day: Sunday is 6, any other
      day is `getDay() - 1`. */
  function FirstDayOffset(y: int, m0: int): (k: int)
    requires 0 <= m0 <= 11
    ensures 0 <= k <= 6
    ensures k == IsoWeekday(FirstOfMonth(y, m0)) - 1
  {
    var w := UtcWeekday(FirstOfMonth(y, m0));
    if w == 0 then 6 else w - 1
  }

  // ---------------------------------------------------------------- day cells

  /** How a day is drawn. `Pending` is a past class day without attendance,
      drawn dashed and open for manual entry. */
  datatype DayClass =
    | Attended
    | Pending(event: Option<EventKind>)
    | EventDay(kind: EventKind)
    | ScheduledDay
    | Inactive

  predicate IsClickable(c: DayClass) {
    c.Attended? || c.Pending?
  }

  /** What the calendar knows about one day. */
  datatype DayFacts = DayFacts(
    scheduled: bool,
    attendees: seq<string>,
    event: Option<CalendarEvent>,
    isPast: bool)

  function Lookup<V>(m: map<Day, V>, d: Day): Option<V> {
    if d in m then Some(m[d]) else None
  }

  /** The facts of day d: its weekday against the schedule, its attendance list
      (empty when absent), its event and whether it precedes today's UTC date. */
  function Facts(schedule: seq<ScheduleEntry>, attendance: map<Day, seq<string>>, events: map<Day, CalendarEvent>, now: Instant, d: Day): (f: DayFacts)
    ensures f.scheduled <==> HasDay(schedule, IsoWeekday(d))
    ensures f.attendees == (if d in attendance then attendance[d] else [])
    ensures f.event.Some? <==> d in events
    ensures f.event.Some? ==> f.event.value == events[d]
    ensures f.isPast <==> StartOf(d) < StartOf(DayOf(now))
  {
    DayFacts(
      exists i :: 0 <= i < |schedule| && schedule[i].day == IsoWeekday(d),
      if d in attendance then attendance[d] else [],
      Lookup(events, d),
      d < DayOf(now))
  }

  predicate NonLectiveEvent(f: DayFacts) {
    f.event.Some? && (f.event.value.kind == Holiday || f.event.value.kind == Vacation)
  }

  /** The branch chain that colours a day, checked in order: attendance taken,
      past lective class day, event, class day, nothing. */
  function Classify(f: DayFacts): (c: DayClass)
    ensures c.Attended? <==> f.attendees != []
    ensures c.Pending? <==> f.attendees == [] && f.isPast && f.scheduled && !NonLectiveEvent(f)
    ensures c.EventDay? <==> f.attendees == [] && !(f.isPast && f.scheduled && !NonLectiveEvent(f)) && f.event.Some?
    ensures c.ScheduledDay? <==> f.attendees == [] && !(f.isPast && f.scheduled && !NonLectiveEvent(f)) && f.event.None? && f.scheduled
    ensures c.Pending? ==> c.event == (if f.event.Some? then Some(f.event.value.kind) else None)
    ensures c.EventDay? ==> c.kind == f.event.value.kind
  {
    if |f.attendees| > 0 then Attended
    else if f.isPast && f.scheduled && !NonLectiveEvent(f) then
      Pending(if f.event.Some? then Some(f.event.value.kind) else None)
    else if f.event.Some? then EventDay(f.event.value.kind)
    else if f.scheduled then ScheduledDay
    else Inactive
  }

  /** A day can be clicked exactly when it has attendance, or it is a past
      scheduled day that is not a holiday or vacation. */
  lemma ClickableIff(f: DayFacts)
    ensures IsClickable(Classify(f)) <==> f.attendees != [] || (f.isPast && f.scheduled && !NonLectiveEvent(f))
  {
  }

  /** A past class day that the session walk keeps, with no attendance yet, is
      open for manual entry. */
  lemma PendingSessionDay(schedule: seq<ScheduleEntry>, attendance: map<Day, seq<string>>, now: Instant, d: Day)
    requires HasDay(schedule, IsoWeekday(d)) && !IsNonLective(EventMap(SchoolEvents), d)
    requires d < DayOf(now) && d !in attendance
    ensures Classify(Facts(schedule, attendance, EventMap(SchoolEvents), now, d)).Pending?
  {
  }

  /** A cell of a rendered month. */
  datatype DayCell = DayCell(date: Day, style: DayClass)

  /** The cells of month m0 of year y, days 1 to the month's length, against
      the module-level event map; `None` when the subject has no schedule and
      no calendar is drawn. */
  function RenderMonth(schedule: Option<seq<ScheduleEntry>>, attendance: map<Day, seq<string>>, events: map<Day, CalendarEvent>,
                       now: Instant, y: int, m0: int): (cells: Option<seq<DayCell>>)
    requires 0 <= m0 <= 11
    ensures cells.None? <==> schedule.None? || schedule.value == []
    ensures cells.Some? ==> |cells.value| == MonthLength(y, m0 + 1)
    ensures cells.Some? ==> forall i :: 0 <= i < |cells.value| ==>
      cells.value[i].date == FirstOfMonth(y, m0) + i &&
      cells.value[i].style == Classify(Facts(schedule.value, attendance, events, now, FirstOfMonth(y, m0) + i))
  {
    if schedule.None? || schedule.value == [] then None
    else
      DaysInMonthSpec(y, m0);
      Some(Cells(schedule.value, attendance, events, now, FirstOfMonth(y, m0), DaysInMonth(y, m0)))
  }

  /** The cells of n consecutive days from day first. */
  function Cells(schedule: seq<ScheduleEntry>, attendance: map<Day, seq<string>>, events: map<Day, CalendarEvent>,
                 now: Instant, first: Day, n: nat): (cells: seq<DayCell>)
    ensures |cells| == n
    ensures forall i :: 0 <= i < n ==>
      cells[i].date == first + i && cells[i].style == Classify(Facts(schedule, attendance, events, now, first + i))
  {
    seq(n, i requires 0 <= i < n => DayCell(first + i, Classify(Facts(schedule, attendance, events, now, first + i))))
  }

  /** Cell i of a month is day i + 1 of that month, a valid date. */
  lemma MonthDay(y: int, m0: int, i: int)
    requires 0 <= m0 <= 11 && 0 <= i < MonthLength(y, m0 + 1)
    ensures ValidDate(Date(y, m0 + 1, i + 1)) && FirstOfMonth(y, m0) + i == ToDay(Date(y, m0 + 1, i + 1))
  {
  }

  // ---------------------------------------------------------------- clicks

  datatype ClickOutcome =
    | NoAction
    | ShowAttendance(date: Day, attendees: seq<string>, absentees: seq<string>)
    | RequestManualAttendance(date: Day)

  /** `allStudentNames.filter(name => !attendees.includes(name))`. */
  function Absentees(allNames: seq<string>, attendees: seq<string>): seq<string> {
    Filter(allNames, (n: string) => n !in attendees)
  }

  /** The absentees are the roster names not among the attendees, in roster
      order: no attendee is listed absent and every other name is. */
  lemma AbsenteesSpec(allNames: seq<string>, attendees: seq<string>)
    ensures forall n :: n in Absentees(allNames, attendees) <==> n in allNames && n !in attendees
    ensures IsSubsequence(Absentees(allNames, attendees), allNames)
  {
    var p := (n: string) => n !in attendees;
    forall n ensures n in Filter(allNames, p) <==> n in allNames && p(n) {
      FilterMembership(allNames, p, n);
    }
    FilterIsSubsequence(allNames, p);
  }

  /** `handleClick`: nothing on a day that cannot be clicked; the attendance
      summary on a day with attendance; otherwise a request for manual entry. */
  function Click(f: DayFacts, d: Day, allNames: seq<string>): (o: ClickOutcome)
    ensures o.NoAction? <==> !IsClickable(Classify(f))
    ensures o.ShowAttendance? <==> f.attendees != []
    ensures o.ShowAttendance? ==> o == ShowAttendance(d, f.attendees, Absentees(allNames, f.attendees))
    ensures o.RequestManualAttendance? <==> Classify(f).Pending?
    ensures o.RequestManualAttendance? ==> o.date == d
  {
    if !IsClickable(Classify(f)) then NoAction
    else if |f.attendees| > 0 then ShowAttendance(d, f.attendees, Absentees(allNames, f.attendees))
    else RequestManualAttendance(d)
  }
}
