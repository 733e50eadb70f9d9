/** The subject page: the dates on which classes were due, the rules for adding
    evaluation criteria and assignments, and the per-student participation
    tallies. */
module SubjectDetail {
  import opened Wrappers
  import opened Dates
  import opened Seqs
  import opened Types
  import opened SchoolCalendar

  // ---------------------------------------------------------------- session dates

  /** The first day of the term, 2025-09-01. */
  const SemesterStart: Day := On(2025, 9, 1)

  /** Day d is a class day up to instant `now`: it lies between the start of
      term and now's UTC date, falls on a scheduled weekday, and is not a
      holiday or vacation day. Exam, grade and other event days count. */
  predicate IsSessionDay(schedule: seq<ScheduleEntry>, d: Day, now: Instant) {
    IsSessionDayIn(EventMap(SchoolEvents), schedule, d, now)
  }

  /** The same test against a given date-to-event map. */
  predicate IsSessionDayIn(events: map<Day, CalendarEvent>, schedule: seq<ScheduleEntry>, d: Day, now: Instant) {
    SemesterStart <= d <= DayOf(now) &&
    HasDay(schedule, IsoWeekday(d)) &&
    !IsNonLective(events, d)
  }

  /** `scheduledSessionDates`: walks every day from the start of term while its
      midnight is not after `now`, keeping the scheduled, lective ones. */
  method ScheduledSessionDates(schedule: Option<seq<ScheduleEntry>>, now: Instant) returns (dates: seq<Day>)
    ensures schedule.None? || schedule.value == [] ==> dates == []
    ensures forall d :: d in dates <==> IsSessionDay(schedule.GetOr([]), d, now)
    ensures StrictlyIncreasing(dates)
  {
    if schedule.None? || schedule.value == [] {
      return [];
    }
    var eventMap := BuildEventMap(SchoolEvents);
    dates := WalkSessionDays(eventMap, schedule.value, now);
  }

  /** The walk itself, against a given date-to-event map. */
  method WalkSessionDays(eventMap: map<Day, CalendarEvent>, schedule: seq<ScheduleEntry>, now: Instant) returns (dates: seq<Day>)
    ensures forall d :: d in dates <==> IsSessionDayIn(eventMap, schedule, d, now)
    ensures StrictlyIncreasing(dates)
  {
    var scheduleDays := ScheduleDays(schedule);
    dates := [];
    var current := SemesterStart;
    while StartOf(current) <= now
      invariant SemesterStart <= current
      invariant current > SemesterStart ==> current - 1 <= DayOf(now)
      invariant forall d :: d in dates <==> IsSessionDayIn(eventMap, schedule, d, now) && d < current
      invariant StrictlyIncreasing(dates)
      invariant forall k :: 0 <= k < |dates| ==> dates[k] < current
      decreases now - StartOf(current)
    {
      StartOfAtMost(current, now);
      var weekday := IsoWeekday(current);
      if weekday in scheduleDays {
        var isNonLectiveDay := current in eventMap && (eventMap[current].kind == Holiday || eventMap[current].kind == Vacation);
        if !isNonLectiveDay {
          dates := dates + [current];
        }
      }
      current := current + 1;
    }
    StartOfAtMost(current, now);
  }

  /** The January re-sit exams fall inside the vacation range but are written
      after it, so a Monday class on 2026-01-05 is a class day. */
  lemma ResitExamDayIsSessionDay(schedule: seq<ScheduleEntry>, now: Instant)
    requires HasDay(schedule, 1)
    requires On(2026, 1, 5) <= DayOf(now)
    ensures IsSessionDay(schedule, On(2026, 1, 5), now)
  {
    JanuaryExamsAreLective();
    ResitDayIsMonday();
  }

  /** 2026-01-05 is day 20458, a Monday, and falls after the start of term. */
  lemma ResitDayIsMonday()
    ensures On(2026, 1, 5) == 20458 && IsoWeekday(20458) == 1 && SemesterStart < 20458
  {
  }

  /** Vacation days are never class days, whatever the schedule. */
  lemma EndOfTermIsNoSessionDay(schedule: seq<ScheduleEntry>, now: Instant)
    ensures !IsSessionDay(schedule, On(2025, 12, 19), now)
  {
    EndOfTermIsVacation();
  }

  // ---------------------------------------------------------------- evaluation criteria

  /** The new-criterion form: name, percentage and max-points inputs (`None`
      while empty), the limit selector and the two type checkboxes. */
  datatype CriterionForm = CriterionForm(
    name: string,
    percentage: Option<real>,
    limit: AssignmentLimit,
    isAttendance: bool,
    isParticipation: bool,
    maxPoints: Option<real>)

  const EmptyCriterionForm: CriterionForm := CriterionForm("", None, MultipleAssignments, false, false, None)

  datatype Checkbox = AttendanceBox | ParticipationBox

  /** `handleCheckboxChange`: flips the box; checking one unchecks the other.
      Both updates read the value from before the click. */
  function ToggleCheckbox(f: CriterionForm, box: Checkbox): (g: CriterionForm)
    ensures !(g.isAttendance && g.isParticipation)
    ensures box == AttendanceBox ==> g.isAttendance == !f.isAttendance && (g.isParticipation ==> f.isParticipation)
    ensures box == ParticipationBox ==> g.isParticipation == !f.isParticipation && (g.isAttendance ==> f.isAttendance)
    ensures g.name == f.name && g.percentage == f.percentage && g.limit == f.limit && g.maxPoints == f.maxPoints
  {
    match box
    case AttendanceBox =>
      f.(isAttendance := !f.isAttendance, isParticipation := if !f.isAttendance then false else f.isParticipation)
    case ParticipationBox =>
      f.(isParticipation := !f.isParticipation, isAttendance := if !f.isParticipation then false else f.isAttendance)
  }

  /** Clicking the same checkbox twice, starting from a form with at most one
      box checked, gives the form back. */
  lemma ToggleTwice(f: CriterionForm, box: Checkbox)
    requires !(f.isAttendance && f.isParticipation)
    ensures ToggleCheckbox(ToggleCheckbox(f, box), box) == f || (box == AttendanceBox && f.isParticipation) || (box == ParticipationBox && f.isAttendance)
  {
  }

  /** The criterion row the page inserts. */
  datatype NewCriterion = NewCriterion(
    subjectId: Id,
    name: string,
    percentage: real,
    kind: CriterionType,
    limit: AssignmentLimit,
    maxPoints: Option<real>)

  datatype CriterionError = NameOrPercentageInvalid | TotalAbove100 | MaxPointsMissing

  /** `handleAddCriterion`'s checks and the row it builds. The checks run in
      order: name and percentage, then the 100% cap, then max points. */
  function CheckCriterion(subjectId: Id, criteria: seq<EvaluationCriterion>, f: CriterionForm): (r: Result<NewCriterion, CriterionError>)
    ensures r.Ok? <==>
      f.name != "" && f.percentage.Some? && f.percentage.value > 0.0 &&
      TotalPercentage(criteria) + f.percentage.value <= 100.0 &&
      (f.isParticipation ==> f.maxPoints.Some? && f.maxPoints.value > 0.0)
    ensures r == Err(NameOrPercentageInvalid) <==> f.name == "" || f.percentage.None? || f.percentage.value <= 0.0
    ensures r.Ok? ==> r.value.subjectId == subjectId && r.value.name == f.name && r.value.percentage == f.percentage.value
    ensures r.Ok? ==> (r.value.kind == AttendanceType <==> f.isAttendance)
    ensures r.Ok? ==> (r.value.kind == ParticipationType <==> !f.isAttendance && f.isParticipation)
    ensures r.Ok? ==> (r.value.kind == DefaultType ==> r.value.limit == f.limit)
    ensures r.Ok? ==> (r.value.kind != DefaultType ==> r.value.limit == SingleAssignment)
    ensures r.Ok? ==> (r.value.maxPoints.Some? <==> r.value.kind == ParticipationType)
    ensures r.Ok? && r.value.maxPoints.Some? ==> r.value.maxPoints.value > 0.0
  {
    if f.name == "" || f.percentage.None? || f.percentage.value <= 0.0 then Err(NameOrPercentageInvalid)
    else if TotalPercentage(criteria) + f.percentage.value > 100.0 then Err(TotalAbove100)
    else if f.isParticipation && (f.maxPoints.None? || f.maxPoints.value <= 0.0) then Err(MaxPointsMissing)
    else
      var base := NewCriterion(subjectId, f.name, f.percentage.value, DefaultType, f.limit, None);
      if f.isAttendance then Ok(base.(kind := AttendanceType, limit := SingleAssignment))
      else if f.isParticipation then Ok(base.(kind := ParticipationType, limit := SingleAssignment, maxPoints := f.maxPoints))
      else Ok(base)
  }

  /** The stored criterion, once the database has given it an id and a timestamp. */
  function Stored(row: NewCriterion, id: Id, createdAt: Instant): EvaluationCriterion {
    EvaluationCriterion(id, createdAt, row.subjectId, row.name, row.percentage, row.limit, row.kind, row.maxPoints, None)
  }

  /** An accepted criterion never takes the subject's total past 100%. */
  lemma AcceptedKeepsTotalCapped(subjectId: Id, criteria: seq<EvaluationCriterion>, f: CriterionForm, id: Id, createdAt: Instant)
    requires CheckCriterion(subjectId, criteria, f).Ok?
    ensures TotalPercentage(criteria + [Stored(CheckCriterion(subjectId, criteria, f).value, id, createdAt)]) <= 100.0
  {
    var c := Stored(CheckCriterion(subjectId, criteria, f).value, id, createdAt);
    SumAppend(criteria, [c], Percentage);
  }

  /** The whole submit: the row to insert (none when a check fails) and the
      form afterwards, cleared only once the insert succeeded. */
  function SubmitCriterion(subjectId: Id, criteria: seq<EvaluationCriterion>, f: CriterionForm, inserted: bool): (out: (Option<NewCriterion>, CriterionForm))
    ensures out.0.Some? <==> CheckCriterion(subjectId, criteria, f).Ok?
    ensures out.0.Some? ==> out.0.value == CheckCriterion(subjectId, criteria, f).value
    ensures out.1 == EmptyCriterionForm <==> (out.0.Some? && inserted) || f == EmptyCriterionForm
    ensures out.1 != f ==> out.0.Some? && inserted
  {
    match CheckCriterion(subjectId, criteria, f)
    case Err(_) => (None, f)
    case Ok(row) => (Some(row), if inserted then EmptyCriterionForm else f)
  }

  // ---------------------------------------------------------------- assignments

  /** `criteria.filter(c => c.type === 'default')`: the criteria offered for
      new assignments. */
  function AvailableCriteria(criteria: seq<EvaluationCriterion>): seq<EvaluationCriterion> {
    Filter(criteria, (c: EvaluationCriterion) => c.kind == DefaultType)
  }

  /** Exactly the default-type criteria are offered, in their order. */
  lemma AvailableCriteriaSpec(criteria: seq<EvaluationCriterion>)
    ensures forall c :: c in AvailableCriteria(criteria) <==> c in criteria && c.kind == DefaultType
    ensures IsSubsequence(AvailableCriteria(criteria), criteria)
  {
    var p := (c: EvaluationCriterion) => c.kind == DefaultType;
    forall c ensures c in Filter(criteria, p) <==> c in criteria && p(c) {
      FilterMembership(criteria, p, c);
    }
    FilterIsSubsequence(criteria, p);
  }

  /** `criteria.find(c => c.id === id)`: the first criterion with that id. */
  function FindCriterion(criteria: seq<EvaluationCriterion>, id: Id): (r: Option<EvaluationCriterion>)
    ensures r.None? <==> forall i :: 0 <= i < |criteria| ==> criteria[i].id != id
    ensures r.Some? ==> exists i :: (0 <= i < |criteria| && criteria[i] == r.value && r.value.id == id
      && forall j :: 0 <= j < i ==> criteria[j].id != id)
  {
    if criteria == [] then None
    else if criteria[0].id == id then Some(criteria[0])
    else
      assert forall i :: 1 <= i < |criteria| ==> criteria[i] == criteria[1..][i - 1];
      var r := FindCriterion(criteria[1..], id);
      if r.Some? then
        var i :| 0 <= i < |criteria[1..]| && criteria[1..][i] == r.value && r.value.id == id
          && forall j :: 0 <= j < i ==> criteria[1..][j].id != id;
        assert criteria[i + 1] == r.value;
        r
      else r
  }

  predicate HasAssignmentFor(assignments: seq<Assignment>, criterionId: Id) {
    exists k :: 0 <= k < |assignments| && assignments[k].criterionId == criterionId
  }

  /** `canAddAssignment`: the selected criterion exists and either allows
      several assignments or has none yet. */
  function CanAddAssignment(criteria: seq<EvaluationCriterion>, assignments: seq<Assignment>, criterionId: Id): bool {
    match FindCriterion(criteria, criterionId)
    case None => false
    case Some(c) => c.assignmentLimit == MultipleAssignments || !HasAssignmentFor(assignments, criterionId)
  }

  datatype NewAssignment = NewAssignment(subjectId: Id, name: string, criterionId: Id)

  /** `handleAddAssignment`: rejects an empty name, no selection or a
      criterion that may take no more assignments. */
  function AddAssignment(subjectId: Id, criteria: seq<EvaluationCriterion>, assignments: seq<Assignment>, name: string, criterionId: Id): (r: Option<NewAssignment>)
    ensures r.Some? <==> name != "" && criterionId != "" && CanAddAssignment(criteria, assignments, criterionId)
    ensures r.Some? ==> r.value == NewAssignment(subjectId, name, criterionId)
  {
    if name == "" || criterionId == "" || !CanAddAssignment(criteria, assignments, criterionId) then None
    else Some(NewAssignment(subjectId, name, criterionId))
  }

  /** Criterion ids are the table's primary key. */
  predicate DistinctIds(criteria: seq<EvaluationCriterion>) {
    forall i, j :: 0 <= i < j < |criteria| ==> criteria[i].id != criteria[j].id
  }

  /** Number of assignments of a criterion. */
  function CountFor(assignments: seq<Assignment>, criterionId: Id): (n: nat)
    ensures n == 0 <==> !HasAssignmentFor(assignments, criterionId)
  {
    if assignments == [] then 0
    else
      var n := (if assignments[0].criterionId == criterionId then 1 else 0) + CountFor(assignments[1..], criterionId);
      assert forall k :: 1 <= k < |assignments| ==> assignments[k] == assignments[1..][k - 1];
      assert HasAssignmentFor(assignments[1..], criterionId) ==> HasAssignmentFor(assignments, criterionId);
      n
  }

  lemma {:induction false} CountAppend(assignments: seq<Assignment>, a: Assignment, criterionId: Id)
    ensures CountFor(assignments + [a], criterionId) == CountFor(assignments, criterionId) + (if a.criterionId == criterionId then 1 else 0)
  {
    if assignments != [] {
      assert (assignments + [a])[1..] == assignments[1..] + [a];
      CountAppend(assignments[1..], a, criterionId);
    }
  }

  /** Every single-assignment criterion has at most one assignment. */
  predicate LimitsRespected(criteria: seq<EvaluationCriterion>, assignments: seq<Assignment>) {
    forall i :: 0 <= i < |criteria| && criteria[i].assignmentLimit == SingleAssignment ==>
      CountFor(assignments, criteria[i].id) <= 1
  }

  /** Adding the assignment the page accepts keeps every single-assignment
      criterion at one assignment or fewer. */
  lemma AddAssignmentKeepsLimits(subjectId: Id, criteria: seq<EvaluationCriterion>, assignments: seq<Assignment>,
                                 name: string, criterionId: Id, stored: Assignment)
    requires DistinctIds(criteria) && LimitsRespected(criteria, assignments)
    requires AddAssignment(subjectId, criteria, assignments, name, criterionId).Some?
    requires stored.criterionId == criterionId
    ensures LimitsRespected(criteria, assignments + [stored])
  {
    var c := FindCriterion(criteria, criterionId).value;
    forall i | 0 <= i < |criteria| && criteria[i].assignmentLimit == SingleAssignment
      ensures CountFor(assignments + [stored], criteria[i].id) <= 1
    {
      CountAppend(assignments, stored, criteria[i].id);
      if criteria[i].id == criterionId {
        var k :| 0 <= k < |criteria| && criteria[k] == c;
        assert k == i;
      }
    }
  }

  // ---------------------------------------------------------------- participations

  /** A student's line in the participation panel. */
  datatype Tally = Tally(semesterTotal: real, daily: seq<Participation>)

  /** The sum of the points the student earned, in record order. */
  function PointsOf(ps: seq<Participation>, studentId: Id): real {
    if ps == [] then 0.0
    else PointsOf(ps[..|ps| - 1], studentId) + (if ps[|ps| - 1].studentId == studentId then ps[|ps| - 1].points else 0.0)
  }

  /** The student's records dated `date`, in record order. */
  function DailyOf(ps: seq<Participation>, studentId: Id, date: Day): seq<Participation> {
    if ps == [] then []
    else
      var last := ps[|ps| - 1];
      DailyOf(ps[..|ps| - 1], studentId, date) + (if last.studentId == studentId && last.date == date then [last] else [])
  }

  /** A record counts for a student exactly when it is that student's; records of
      other or unknown students never change the tally. */
  lemma {:induction false} DailyOfSpec(ps: seq<Participation>, studentId: Id, date: Day, p: Participation)
    ensures p in DailyOf(ps, studentId, date) <==> p in ps && p.studentId == studentId && p.date == date
  {
    if ps != [] {
      DailyOfSpec(ps[..|ps| - 1], studentId, date, p);
      assert ps == ps[..|ps| - 1] + [ps[|ps| - 1]];
    }
  }

  /** Non-negative points add up to a non-negative total. */
  lemma {:induction false} PointsOfBounds(ps: seq<Participation>, studentId: Id)
    requires forall k :: 0 <= k < |ps| ==> ps[k].points >= 0.0
    ensures PointsOf(ps, studentId) >= 0.0
  {
    if ps != [] {
      PointsOfBounds(ps[..|ps| - 1], studentId);
    }
  }

  /** `participationsByStudent`: every roster student starts at zero; each
      record of a roster student adds its points and, when dated
      `selectedDate`, joins the day's list. */
  method ParticipationsByStudent(students: seq<Student>, ps: seq<Participation>, selectedDate: Day) returns (m: map<Id, Tally>)
    ensures m.Keys == set i | 0 <= i < |students| :: students[i].id
    ensures forall id :: id in m ==> m[id] == Tally(PointsOf(ps, id), DailyOf(ps, id, selectedDate))
  {
    m := map[];
    for i := 0 to |students|
      invariant m.Keys == set k | 0 <= k < i :: students[k].id
      invariant forall id :: id in m ==> m[id] == Tally(0.0, [])
    {
      m := m[students[i].id := Tally(0.0, [])];
    }
    for j := 0 to |ps|
      invariant m.Keys == set k | 0 <= k < |students| :: students[k].id
      invariant forall id :: id in m ==> m[id] == Tally(PointsOf(ps[..j], id), DailyOf(ps[..j], id, selectedDate))
    {
      var p := ps[j];
      assert ps[..j + 1][..j] == ps[..j];
      if p.studentId in m {
        var current := m[p.studentId];
        current := current.(semesterTotal := current.semesterTotal + p.points);
        if p.date == selectedDate {
          current := current.(daily := current.daily + [p]);
        }
        m := m[p.studentId := current];
      }
    }
    assert ps[..|ps|] == ps;
  }
}
