/** The application's records, as the database returns them.

    Identifiers are texts, `created_at` timestamps are instants, `YYYY-MM-DD`
    date columns are day numbers (the `FullDate` round trips show the two
    forms are interchangeable), and numeric columns are reals. A column that
    may be `null` or absent is an `Option`. */
module Types {
  import opened Wrappers
  import opened Dates
  import opened Seqs

  type Id = string

  /** One weekly class: weekday 1 (Monday) .. 7 (Sunday), start time text and
      duration in hours. */
  datatype ScheduleEntry = ScheduleEntry(day: int, time: string, duration: real)

  datatype Term = Semestre | Cuatrimestre

  datatype Subject = Subject(
    id: Id,
    createdAt: Instant,
    name: string,
    term: Term,
    schedule: Option<seq<ScheduleEntry>>,
    /** Period number text to start-date text, in the object's key order. */
    gradingPeriodsDates: Option<seq<(string, string)>>)

  datatype Student = Student(id: Id, createdAt: Instant, name: string, subjectId: Id)

  datatype AttendanceSession = AttendanceSession(id: Id, createdAt: Instant, subjectId: Id)

  /** An attendance record, with the joined student's name when the join found one. */
  datatype AttendanceRecord = AttendanceRecord(
    id: int,
    createdAt: Instant,
    studentId: Id,
    sessionId: Id,
    subjectId: Id,
    studentName: Option<string>)

  datatype AssignmentLimit = SingleAssignment | MultipleAssignments

  datatype CriterionType = DefaultType | AttendanceType | ParticipationType

  datatype EvaluationCriterion = EvaluationCriterion(
    id: Id,
    createdAt: Instant,
    subjectId: Id,
    name: string,
    percentage: real,
    assignmentLimit: AssignmentLimit,
    kind: CriterionType,
    maxPoints: Option<real>,
    gradingPeriod: Option<int>)

  datatype Assignment = Assignment(id: Id, createdAt: Instant, subjectId: Id, name: string, criterionId: Id)

  datatype Grade = Grade(id: Id, createdAt: Instant, studentId: Id, assignmentId: Id, score: real)

  datatype Participation = Participation(
    id: Id,
    createdAt: Instant,
    studentId: Id,
    subjectId: Id,
    points: real,
    date: Day)

  datatype ClassStatus = Planned | Completed | Cancelled

  datatype PlannedClass = PlannedClass(
    id: Id,
    createdAt: Instant,
    subjectId: Id,
    classDate: Day,
    title: string,
    description: Option<string>,
    status: ClassStatus)

  /** The sum of the percentages of the criteria (`totalPercentage`). */
  function TotalPercentage(criteria: seq<EvaluationCriterion>): real {
    Sum(criteria, Percentage)
  }

  function Percentage(c: EvaluationCriterion): real {
    c.percentage
  }

  /** `schedule.map(s => s.day)`: the scheduled weekdays, with repeats. */
  function ScheduleDays(schedule: seq<ScheduleEntry>): (days: seq<int>)
    ensures |days| == |schedule|
    ensures forall i :: 0 <= i < |schedule| ==> days[i] == schedule[i].day
    ensures forall w :: w in days <==> HasDay(schedule, w)
  {
    seq(|schedule|, i requires 0 <= i < |schedule| => schedule[i].day)
  }

  /** `schedule.some(s => s.day === w)`. */
  predicate HasDay(schedule: seq<ScheduleEntry>, w: int) {
    exists i :: 0 <= i < |schedule| && schedule[i].day == w
  }
}
