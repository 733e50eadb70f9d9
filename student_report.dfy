/** A student's report: which class days they attended or missed, each
    criterion's average and the final grade.

    The final grade is the sum over criteria of average / 10 x percentage. With
    averages on the 0..10 scale and percentages adding up to at most 100 it lies
    between 0 and 100: it is a percentage, not a mark out of ten. */
module StudentDetail {
  import opened Wrappers
  import opened Dates
  import opened Seqs
  import opened Types

  // ---------------------------------------------------------------- attendance partition

  /** The UTC dates of the student's attendance records (`studentAttendance`). */
  function AttendanceDays(allAttendance: seq<AttendanceRecord>, studentId: Id): set<Day> {
    set k | 0 <= k < |allAttendance| && allAttendance[k].studentId == studentId :: DayOf(allAttendance[k].createdAt)
  }

  /** The class days on which the student has a record, in class-day order. */
  function Attended(sessionDates: seq<Day>, days: set<Day>): seq<Day> {
    Filter(sessionDates, (d: Day) => d in days)
  }

  /** The class days on which the student has no record, in class-day order. */
  function Missed(sessionDates: seq<Day>, days: set<Day>): seq<Day> {
    Filter(sessionDates, (d: Day) => d !in days)
  }

  /** Attended and missed days split the class days: both keep their order,
      they share no day and their counts add up. */
  lemma AttendancePartition(sessionDates: seq<Day>, days: set<Day>)
    ensures IsSubsequence(Attended(sessionDates, days), sessionDates)
    ensures IsSubsequence(Missed(sessionDates, days), sessionDates)
    ensures forall d :: !(d in Attended(sessionDates, days) && d in Missed(sessionDates, days))
    ensures forall d :: d in sessionDates ==> d in Attended(sessionDates, days) || d in Missed(sessionDates, days)
    ensures |Attended(sessionDates, days)| + |Missed(sessionDates, days)| == |sessionDates|
  {
    var p := (d: Day) => d in days;
    var q := (d: Day) => d !in days;
    FilterIsSubsequence(sessionDates, p);
    FilterIsSubsequence(sessionDates, q);
    forall d ensures (d in Filter(sessionDates, p) <==> d in sessionDates && p(d)) && (d in Filter(sessionDates, q) <==> d in sessionDates && q(d)) {
      FilterMembership(sessionDates, p, d);
      FilterMembership(sessionDates, q, d);
    }
    FilterComplementLength(sessionDates, p, q);
  }

  /** A class day counts as attended exactly when one of this student's records
      falls on it; other students' records never count. */
  lemma AttendedIff(sessionDates: seq<Day>, allAttendance: seq<AttendanceRecord>, studentId: Id, d: Day)
    ensures d in Attended(sessionDates, AttendanceDays(allAttendance, studentId)) <==>
      d in sessionDates &&
      exists k :: 0 <= k < |allAttendance| && allAttendance[k].studentId == studentId && DayOf(allAttendance[k].createdAt) == d
  {
    var days := AttendanceDays(allAttendance, studentId);
    FilterMembership(sessionDates, (x: Day) => x in days, d);
  }

  /** Attended days stay strictly ascending when the class days are. */
  lemma AttendedAscending(sessionDates: seq<Day>, days: set<Day>)
    requires StrictlyIncreasing(sessionDates)
    ensures StrictlyIncreasing(Attended(sessionDates, days)) && StrictlyIncreasing(Missed(sessionDates, days))
  {
    AttendancePartition(sessionDates, days);
    SubsequenceIncreasing(Attended(sessionDates, days), sessionDates);
    SubsequenceIncreasing(Missed(sessionDates, days), sessionDates);
  }

  // ---------------------------------------------------------------- criterion averages

  /** One line of a criterion's breakdown: a label and a score, `None` when
      ungraded. */
  datatype AssignmentGrade = AssignmentGrade(name: string, score: Option<real>)

  datatype CriterionDetail = CriterionDetail(
    name: string,
    percentage: real,
    average: Option<real>,
    rows: seq<AssignmentGrade>,
    kind: CriterionType)

  function Min(a: real, b: real): real {
    if a <= b then a else b
  }

  /** Attended days over class days, times ten; 0 with no class days. */
  function AttendanceAverage(attendedCount: nat, sessionCount: nat): (avg: real)
    ensures attendedCount <= sessionCount ==> 0.0 <= avg <= 10.0
    ensures sessionCount == 0 ==> avg == 0.0
    ensures attendedCount == sessionCount && sessionCount > 0 ==> avg == 10.0
  {
    if sessionCount > 0 then attendedCount as real / sessionCount as real * 10.0 else 0.0
  }

  function Points(p: Participation): real {
    p.points
  }

  function TotalPoints(ps: seq<Participation>): real {
    Sum(ps, Points)
  }

  /** `criterion.max_points || 1`: a missing or zero maximum becomes 1. */
  function EffectiveMaxPoints(maxPoints: Option<real>): (mp: real)
    ensures mp != 0.0
    ensures maxPoints.Some? && maxPoints.value != 0.0 ==> mp == maxPoints.value
    ensures maxPoints.None? || maxPoints.value == 0.0 ==> mp == 1.0
  {
    if maxPoints.None? || maxPoints.value == 0.0 then 1.0 else maxPoints.value
  }

  /** Points over the maximum, times ten, capped at 10. */
  function ParticipationAverage(totalPoints: real, maxPoints: Option<real>): (avg: real)
    ensures avg <= 10.0
    ensures avg == 10.0 || avg == totalPoints / EffectiveMaxPoints(maxPoints) * 10.0
    ensures totalPoints >= 0.0 && EffectiveMaxPoints(maxPoints) > 0.0 ==> avg >= 0.0
  {
    Min(totalPoints / EffectiveMaxPoints(maxPoints) * 10.0, 10.0)
  }

  /** `grades.find(g => g.assignment_id === id)`: the first grade of the assignment. */
  function FindGrade(grades: seq<Grade>, assignmentId: Id): (r: Option<Grade>)
    ensures r.None? <==> forall k :: 0 <= k < |grades| ==> grades[k].assignmentId != assignmentId
    ensures r.Some? ==> exists i :: (0 <= i < |grades| && grades[i] == r.value && r.value.assignmentId == assignmentId
      && forall j :: 0 <= j < i ==> grades[j].assignmentId != assignmentId)
  {
    if grades == [] then None
    else if grades[0].assignmentId == assignmentId then Some(grades[0])
    else
      assert forall k :: 1 <= k < |grades| ==> grades[k] == grades[1..][k - 1];
      var r := FindGrade(grades[1..], assignmentId);
      if r.Some? then
        var i :| 0 <= i < |grades[1..]| && grades[1..][i] == r.value && r.value.assignmentId == assignmentId
          && forall j :: 0 <= j < i ==> grades[1..][j].assignmentId != assignmentId;
        assert grades[i + 1] == r.value;
        r
      else r
  }

  function OfCriterion(criterionId: Id): Assignment -> bool {
    (a: Assignment) => a.criterionId == criterionId
  }

  /** One line per assignment of the criterion, in assignment order, with the
      first matching grade's score or `None`. */
  function DefaultRows(relevant: seq<Assignment>, grades: seq<Grade>): (rows: seq<AssignmentGrade>)
    ensures |rows| == |relevant|
    ensures forall i :: 0 <= i < |relevant| ==> rows[i].name == relevant[i].name
    ensures forall i :: 0 <= i < |relevant| ==>
      (rows[i].score.None? <==> FindGrade(grades, relevant[i].id).None?) &&
      (rows[i].score.Some? ==> rows[i].score.value == FindGrade(grades, relevant[i].id).value.score)
  {
    if relevant == [] then []
    else
      var g := FindGrade(grades, relevant[0].id);
      [AssignmentGrade(relevant[0].name, if g.Some? then Some(g.value.score) else None)] + DefaultRows(relevant[1..], grades)
  }

  /** `score ?? 0`: an ungraded line counts as 0. */
  function ScoreOrZero(r: AssignmentGrade): real {
    r.score.GetOr(0.0)
  }

  function ScoreSum(rows: seq<AssignmentGrade>): real {
    Sum(rows, ScoreOrZero)
  }

  /** The breakdown of one criterion (one element of `criteriaWithDetails`). */
  function Detail(c: EvaluationCriterion, assignments: seq<Assignment>, grades: seq<Grade>, participations: seq<Participation>,
                  sessionCount: nat, attendedCount: nat): CriterionDetail
  {
    match c.kind
    case AttendanceType =>
      var avg := AttendanceAverage(attendedCount, sessionCount);
      CriterionDetail(c.name, c.percentage, Some(avg), [AssignmentGrade("Cálculo automático por asistencia", Some(avg))], c.kind)
    case ParticipationType =>
      var avg := ParticipationAverage(TotalPoints(participations), c.maxPoints);
      CriterionDetail(c.name, c.percentage, Some(avg), [AssignmentGrade("Puntos acumulados", Some(avg))], c.kind)
    case DefaultType =>
      var rows := DefaultRows(Filter(assignments, OfCriterion(c.id)), grades);
      CriterionDetail(c.name, c.percentage, if |rows| > 0 then Some(ScoreSum(rows) / |rows| as real) else None, rows, c.kind)
  }

  /** The average of a default criterion is the sum of its scores, ungraded
      ones as 0, over its number of assignments; `None` when it has none. */
  lemma DefaultAverage(c: EvaluationCriterion, assignments: seq<Assignment>, grades: seq<Grade>, participations: seq<Participation>,
                       sessionCount: nat, attendedCount: nat)
    requires c.kind == DefaultType
    ensures var d := Detail(c, assignments, grades, participations, sessionCount, attendedCount);
      var n := |Filter(assignments, OfCriterion(c.id))|;
      |d.rows| == n &&
      (d.average.None? <==> n == 0) &&
      (n > 0 ==> d.average == Some(ScoreSum(d.rows) / n as real)) &&
      (forall a :: a in assignments && a.criterionId == c.id <==> a in Filter(assignments, OfCriterion(c.id)))
  {
    forall a ensures a in assignments && a.criterionId == c.id <==> a in Filter(assignments, OfCriterion(c.id)) {
      FilterMembership(assignments, OfCriterion(c.id), a);
    }
  }

  /** A criterion is well formed when its average is the mean of its lines'
      scores and is absent exactly when it has no lines. */
  predicate WellFormed(d: CriterionDetail) {
    d.average == if |d.rows| > 0 then Some(ScoreSum(d.rows) / |d.rows| as real) else None
  }

  lemma DetailWellFormed(c: EvaluationCriterion, assignments: seq<Assignment>, grades: seq<Grade>, participations: seq<Participation>,
                         sessionCount: nat, attendedCount: nat)
    ensures WellFormed(Detail(c, assignments, grades, participations, sessionCount, attendedCount))
  {
    var d := Detail(c, assignments, grades, participations, sessionCount, attendedCount);
    if c.kind != DefaultType {
      assert ScoreSum(d.rows) == ScoreOrZero(d.rows[0]) + ScoreSum(d.rows[1..]);
      assert d.rows[1..] == [];
    }
  }

  // ---------------------------------------------------------------- final grade

  /** What a criterion adds to the final grade: average / 10 x percentage, or
      nothing without an average. */
  function Weighted(d: CriterionDetail): real {
    if d.average.Some? then d.average.value / 10.0 * d.percentage else 0.0
  }

  /** The details of the criteria, in criterion order. */
  function Details(criteria: seq<EvaluationCriterion>, assignments: seq<Assignment>, grades: seq<Grade>, participations: seq<Participation>,
                   sessionCount: nat, attendedCount: nat): (ds: seq<CriterionDetail>)
    ensures |ds| == |criteria|
  {
    if criteria == [] then []
    else
      var init := Details(criteria[..|criteria| - 1], assignments, grades, participations, sessionCount, attendedCount);
      init + [Detail(criteria[|criteria| - 1], assignments, grades, participations, sessionCount, attendedCount)]
  }

  /** Each criterion gets its own breakdown, at its own position. */
  lemma {:induction false} DetailsAt(criteria: seq<EvaluationCriterion>, assignments: seq<Assignment>, grades: seq<Grade>,
                                     participations: seq<Participation>, sessionCount: nat, attendedCount: nat, i: int)
    requires 0 <= i < |criteria|
    ensures Details(criteria, assignments, grades, participations, sessionCount, attendedCount)[i] ==
      Detail(criteria[i], assignments, grades, participations, sessionCount, attendedCount)
  {
    if i < |criteria| - 1 {
      DetailsAt(criteria[..|criteria| - 1], assignments, grades, participations, sessionCount, attendedCount, i);
    }
  }

  /** `totalWeightedScore`, accumulated in criterion order. */
  function FinalGrade(ds: seq<CriterionDetail>): real {
    if ds == [] then 0.0 else FinalGrade(ds[..|ds| - 1]) + Weighted(ds[|ds| - 1])
  }

  /** One pass of the `criteria.forEach` loop: the breakdown of one criterion. */
  method Breakdown(criterion: EvaluationCriterion, assignments: seq<Assignment>, grades: seq<Grade>,
                   participations: seq<Participation>, sessionCount: nat, attendedCount: nat)
    returns (detail: CriterionDetail)
    ensures detail == Detail(criterion, assignments, grades, participations, sessionCount, attendedCount)
  {
    var criterionAverage: Option<real> := None;
    var assignmentGrades: seq<AssignmentGrade> := [];
    if criterion.kind == AttendanceType {
      criterionAverage := Some(AttendanceAverage(attendedCount, sessionCount));
      assignmentGrades := [AssignmentGrade("Cálculo automático por asistencia", criterionAverage)];
    } else if criterion.kind == ParticipationType {
      criterionAverage := Some(ParticipationAverage(TotalPoints(participations), criterion.maxPoints));
      assignmentGrades := [AssignmentGrade("Puntos acumulados", criterionAverage)];
    } else {
      var relevantAssignments := Filter(assignments, OfCriterion(criterion.id));
      assignmentGrades := DefaultRows(relevantAssignments, grades);
      if |relevantAssignments| > 0 {
        criterionAverage := Some(ScoreSum(assignmentGrades) / |relevantAssignments| as real);
      }
    }
    detail := CriterionDetail(criterion.name, criterion.percentage, criterionAverage, assignmentGrades, criterion.kind);
  }

  lemma DetailsSnoc(criteria: seq<EvaluationCriterion>, assignments: seq<Assignment>, grades: seq<Grade>,
                    participations: seq<Participation>, sessionCount: nat, attendedCount: nat, i: int)
    requires 0 <= i < |criteria|
    ensures Details(criteria[..i + 1], assignments, grades, participations, sessionCount, attendedCount) ==
      Details(criteria[..i], assignments, grades, participations, sessionCount, attendedCount) +
      [Detail(criteria[i], assignments, grades, participations, sessionCount, attendedCount)]
  {
    assert criteria[..i + 1][..i] == criteria[..i];
  }

  lemma FinalGradeSnoc(ds: seq<CriterionDetail>, d: CriterionDetail)
    ensures FinalGrade(ds + [d]) == FinalGrade(ds) + Weighted(d)
  {
    assert (ds + [d])[..|ds|] == ds;
  }

  /** One pass of the summary loop extends both the breakdowns and the total. */
  lemma SummaryStep(criteria: seq<EvaluationCriterion>, assignments: seq<Assignment>, grades: seq<Grade>,
                    participations: seq<Participation>, sessionCount: nat, attendedCount: nat, i: int,
                    details: seq<CriterionDetail>, detail: CriterionDetail)
    requires 0 <= i < |criteria|
    requires details == Details(criteria[..i], assignments, grades, participations, sessionCount, attendedCount)
    requires detail == Detail(criteria[i], assignments, grades, participations, sessionCount, attendedCount)
    ensures details + [detail] == Details(criteria[..i + 1], assignments, grades, participations, sessionCount, attendedCount)
    ensures FinalGrade(details + [detail]) == FinalGrade(details) + Weighted(detail)
  {
    DetailsSnoc(criteria, assignments, grades, participations, sessionCount, attendedCount, i);
    FinalGradeSnoc(details, detail);
  }

  /** `gradeSummary`: one breakdown per criterion, in criterion order, and the
      weighted total `totalWeightedScore`. */
  method GradeSummary(criteria: seq<EvaluationCriterion>, assignments: seq<Assignment>, grades: seq<Grade>,
                      participations: seq<Participation>, sessionDates: seq<Day>, attendedDates: seq<Day>)
    returns (details: seq<CriterionDetail>, finalGrade: real)
    ensures details == Details(criteria, assignments, grades, participations, |sessionDates|, |attendedDates|)
    ensures finalGrade == FinalGrade(details)
  {
    var totalWeightedScore := 0.0;
    details := [];
    for i := 0 to |criteria|
      invariant details == Details(criteria[..i], assignments, grades, participations, |sessionDates|, |attendedDates|)
      invariant totalWeightedScore == FinalGrade(details)
    {
      var detail := Breakdown(criteria[i], assignments, grades, participations, |sessionDates|, |attendedDates|);
      if detail.average.Some? {
        totalWeightedScore := totalWeightedScore + Weighted(detail);
      }
      SummaryStep(criteria, assignments, grades, participations, |sessionDates|, |attendedDates|, i, details, detail);
      details := details + [detail];
    }
    assert criteria[..|criteria|] == criteria;
    finalGrade := totalWeightedScore;
  }

  // ---------------------------------------------------------------- displayed contributions

  /** A line's share of the final grade: `(score ?? 0) / 10 x (percentage / lines)`. */
  function Contribution(percentage: real, lineCount: nat, r: AssignmentGrade): real
    requires lineCount > 0
  {
    ScoreOrZero(r) / 10.0 * (percentage / lineCount as real)
  }

  function ContributionSum(percentage: real, lineCount: nat, rows: seq<AssignmentGrade>): real
    requires lineCount > 0
  {
    if rows == [] then 0.0 else Contribution(percentage, lineCount, rows[0]) + ContributionSum(percentage, lineCount, rows[1..])
  }

  lemma {:induction false} ContributionSumScale(percentage: real, lineCount: nat, rows: seq<AssignmentGrade>)
    requires lineCount > 0
    ensures ContributionSum(percentage, lineCount, rows) == ScoreSum(rows) / 10.0 * (percentage / lineCount as real)
  {
    if rows != [] {
      ContributionSumScale(percentage, lineCount, rows[1..]);
    }
  }

  /** What the table shows for a criterion: the sum of its lines' shares. */
  function Displayed(d: CriterionDetail): real {
    if |d.rows| == 0 then 0.0 else ContributionSum(d.percentage, |d.rows|, d.rows)
  }

  /** The shares shown for a criterion add up to its weight in the final grade. */
  lemma DisplayedIsWeighted(d: CriterionDetail)
    requires WellFormed(d)
    ensures Displayed(d) == Weighted(d)
  {
    if |d.rows| > 0 {
      var n := |d.rows| as real;
      ContributionSumScale(d.percentage, |d.rows|, d.rows);
      assert ScoreSum(d.rows) / 10.0 * (d.percentage / n) == ScoreSum(d.rows) / n / 10.0 * d.percentage;
    }
  }

  function DisplayedTotal(ds: seq<CriterionDetail>): real {
    if ds == [] then 0.0 else DisplayedTotal(ds[..|ds| - 1]) + Displayed(ds[|ds| - 1])
  }

  /** All the shares shown in the table add up to the final grade. */
  lemma {:induction false} DisplayedAddsUpToFinal(criteria: seq<EvaluationCriterion>, assignments: seq<Assignment>, grades: seq<Grade>,
                                                  participations: seq<Participation>, sessionCount: nat, attendedCount: nat)
    ensures var ds := Details(criteria, assignments, grades, participations, sessionCount, attendedCount);
      DisplayedTotal(ds) == FinalGrade(ds)
  {
    if criteria != [] {
      var ds := Details(criteria, assignments, grades, participations, sessionCount, attendedCount);
      var init := criteria[..|criteria| - 1];
      DisplayedAddsUpToFinal(init, assignments, grades, participations, sessionCount, attendedCount);
      assert ds[..|ds| - 1] == Details(init, assignments, grades, participations, sessionCount, attendedCount);
      DetailWellFormed(criteria[|criteria| - 1], assignments, grades, participations, sessionCount, attendedCount);
      DisplayedIsWeighted(ds[|ds| - 1]);
    }
  }

  // ---------------------------------------------------------------- bounds

  /** Inputs the application itself produces: scores entered in 0..10,
      non-negative points and percentages, and a non-negative maximum. */
  predicate SaneInputs(criteria: seq<EvaluationCriterion>, grades: seq<Grade>, participations: seq<Participation>) {
    (forall k :: 0 <= k < |grades| ==> 0.0 <= grades[k].score <= 10.0) &&
    (forall k :: 0 <= k < |participations| ==> participations[k].points >= 0.0) &&
    (forall i :: 0 <= i < |criteria| ==>
      criteria[i].percentage >= 0.0 && (criteria[i].maxPoints.Some? ==> criteria[i].maxPoints.value >= 0.0))
  }

  lemma {:induction false} ScoreSumBounds(rows: seq<AssignmentGrade>)
    requires forall i :: 0 <= i < |rows| ==> rows[i].score.Some? ==> 0.0 <= rows[i].score.value <= 10.0
    ensures 0.0 <= ScoreSum(rows) <= 10.0 * |rows| as real
  {
    SumBounds(rows, ScoreOrZero, 0.0, 10.0);
  }

  /** Every criterion average lies in 0..10. */
  lemma AverageBounds(c: EvaluationCriterion, assignments: seq<Assignment>, grades: seq<Grade>, participations: seq<Participation>,
                      sessionCount: nat, attendedCount: nat)
    requires SaneInputs([c], grades, participations) && attendedCount <= sessionCount
    ensures var d := Detail(c, assignments, grades, participations, sessionCount, attendedCount);
      d.average.Some? ==> 0.0 <= d.average.value <= 10.0
  {
    if c.kind == ParticipationType {
      SumNonNegative(participations, Points);
      assert [c][0] == c;
    } else if c.kind == DefaultType {
      var rows := DefaultRows(Filter(assignments, OfCriterion(c.id)), grades);
      forall i | 0 <= i < |rows| && rows[i].score.Some? ensures 0.0 <= rows[i].score.value <= 10.0 {
        var g := FindGrade(grades, Filter(assignments, OfCriterion(c.id))[i].id).value;
        var k :| 0 <= k < |grades| && grades[k] == g;
      }
      ScoreSumBounds(rows);
      if |rows| > 0 {
        var n := |rows| as real;
        assert ScoreSum(rows) / n <= 10.0 * n / n;
      }
    }
  }

  /** A criterion with an average in 0..10 adds between 0 and its percentage. */
  lemma WeightedBounds(d: CriterionDetail)
    requires d.percentage >= 0.0 && (d.average.Some? ==> 0.0 <= d.average.value <= 10.0)
    ensures 0.0 <= Weighted(d) <= d.percentage
  {
    if d.average.Some? {
      ShareBounds(d.average.value / 10.0, d.percentage);
    }
  }

  lemma ShareBounds(share: real, p: real)
    requires 0.0 <= share <= 1.0 && p >= 0.0
    ensures 0.0 <= share * p <= p
  {
    assert share * p <= 1.0 * p;
  }

  /** With sane inputs the final grade lies between 0 and the sum of the
      percentages, so between 0 and 100 once the percentages are capped. */
  lemma {:induction false} FinalGradeBounds(criteria: seq<EvaluationCriterion>, assignments: seq<Assignment>, grades: seq<Grade>,
                                            participations: seq<Participation>, sessionCount: nat, attendedCount: nat)
    requires SaneInputs(criteria, grades, participations) && attendedCount <= sessionCount
    ensures var g := FinalGrade(Details(criteria, assignments, grades, participations, sessionCount, attendedCount));
      0.0 <= g <= TotalPercentage(criteria)
  {
    if criteria != [] {
      var init := criteria[..|criteria| - 1];
      var last := criteria[|criteria| - 1];
      SaneSplit(criteria, grades, participations);
      FinalGradeBounds(init, assignments, grades, participations, sessionCount, attendedCount);
      DetailWeightBounds(last, assignments, grades, participations, sessionCount, attendedCount);
      FinalGradeOfLast(criteria, assignments, grades, participations, sessionCount, attendedCount);
      TotalPercentageOfLast(criteria);
    }
  }

  lemma FinalGradeOfLast(criteria: seq<EvaluationCriterion>, assignments: seq<Assignment>, grades: seq<Grade>,
                         participations: seq<Participation>, sessionCount: nat, attendedCount: nat)
    requires criteria != []
    ensures FinalGrade(Details(criteria, assignments, grades, participations, sessionCount, attendedCount)) ==
      FinalGrade(Details(criteria[..|criteria| - 1], assignments, grades, participations, sessionCount, attendedCount)) +
      Weighted(Detail(criteria[|criteria| - 1], assignments, grades, participations, sessionCount, attendedCount))
  {
    FinalGradeSnoc(Details(criteria[..|criteria| - 1], assignments, grades, participations, sessionCount, attendedCount),
                   Detail(criteria[|criteria| - 1], assignments, grades, participations, sessionCount, attendedCount));
  }

  lemma TotalPercentageOfLast(criteria: seq<EvaluationCriterion>)
    requires criteria != []
    ensures TotalPercentage(criteria) == TotalPercentage(criteria[..|criteria| - 1]) + criteria[|criteria| - 1].percentage
  {
    assert criteria == criteria[..|criteria| - 1] + [criteria[|criteria| - 1]];
    SumAppend(criteria[..|criteria| - 1], [criteria[|criteria| - 1]], Percentage);
  }

  lemma SaneSplit(criteria: seq<EvaluationCriterion>, grades: seq<Grade>, participations: seq<Participation>)
    requires criteria != [] && SaneInputs(criteria, grades, participations)
    ensures SaneInputs(criteria[..|criteria| - 1], grades, participations)
    ensures SaneInputs([criteria[|criteria| - 1]], grades, participations)
  {
    var init := criteria[..|criteria| - 1];
    assert forall i :: 0 <= i < |init| ==> init[i] == criteria[i];
  }

  /** One criterion with sane inputs adds between 0 and its percentage. */
  lemma DetailWeightBounds(c: EvaluationCriterion, assignments: seq<Assignment>, grades: seq<Grade>, participations: seq<Participation>,
                           sessionCount: nat, attendedCount: nat)
    requires SaneInputs([c], grades, participations) && attendedCount <= sessionCount
    ensures var d := Detail(c, assignments, grades, participations, sessionCount, attendedCount);
      0.0 <= Weighted(d) <= c.percentage
  {
    AverageBounds(c, assignments, grades, participations, sessionCount, attendedCount);
    assert [c][0] == c;
    WeightedBounds(Detail(c, assignments, grades, participations, sessionCount, attendedCount));
  }

  /** The final grade reaches 100, not 10: one default criterion worth 100%
      with its single assignment scored 10. */
  lemma FullMarksGiveOneHundred(c: EvaluationCriterion, a: Assignment, g: Grade)
    requires c.kind == DefaultType && c.percentage == 100.0
    requires a.criterionId == c.id && g.assignmentId == a.id && g.score == 10.0
    ensures FinalGrade(Details([c], [a], [g], [], 0, 0)) == 100.0
  {
    var d := Detail(c, [a], [g], [], 0, 0);
    FullMarksAverage(c, a, g);
    FullShare(d);
    assert [c][..0] == [];
    assert Details([c], [a], [g], [], 0, 0) == [] + [d];
    FinalGradeSnoc([], d);
  }

  lemma FullMarksAverage(c: EvaluationCriterion, a: Assignment, g: Grade)
    requires c.kind == DefaultType && c.percentage == 100.0
    requires a.criterionId == c.id && g.assignmentId == a.id && g.score == 10.0
    ensures Detail(c, [a], [g], [], 0, 0).average == Some(10.0)
    ensures Detail(c, [a], [g], [], 0, 0).percentage == 100.0
  {
    assert Filter([a], OfCriterion(c.id)) == [a];
    assert FindGrade([g], a.id) == Some(g);
    var rows := DefaultRows([a], [g]);
    assert rows == [AssignmentGrade(a.name, Some(10.0))];
    assert ScoreSum(rows) == 10.0 + ScoreSum([]);
  }

  lemma FullShare(d: CriterionDetail)
    requires d.average == Some(10.0) && d.percentage == 100.0
    ensures Weighted(d) == 100.0
  {
  }
}
