/** The single-assignment grade scanner page: scan a student's code, type
    one score for the page's assignment, and upsert it. */
module GradeScanning {
  import opened Wrappers
  import opened Seqs
  import opened Types
  import opened GradeStore
  import opened Cameras
  import MultiGradeScanning

  datatype Message =
    | NoMessage
    | AssignmentNotFound
    | StudentNotFound(name: string)
    | SaveFailed
    | Saved(score: real, name: string)

  /** `GradeModal.handleSubmit`: the score handed to the page, or none (the
      alert) when the field is empty or outside 0 to 10. */
  function CheckScore(input: NumberInput): (r: Option<real>)
    ensures r.Some? ==> input == Number(r.value) && 0.0 <= r.value <= 10.0
    ensures r.None? ==> input.Blank? || input.value < 0.0 || input.value > 10.0
  {
    if input.Blank? || input.value < 0.0 || input.value > 10.0 then None else Some(input.value)
  }

  /** The score check and the multi-grade scanner's change filter accept the
      same numbers; only an empty field differs (cleared there, refused here). */
  lemma SameRangeAsMultiScanner(input: NumberInput)
    ensures input.Number? ==> (CheckScore(input).Some? <==> MultiGradeScanning.Accepts(input))
    ensures input.Blank? ==> CheckScore(input).None? && MultiGradeScanning.Accepts(input)
  {
  }

  /** Both ends of the range are accepted; just outside them is refused. */
  lemma ScoreBoundaries()
    ensures CheckScore(Number(0.0)) == Some(0.0) && CheckScore(Number(10.0)) == Some(10.0)
    ensures CheckScore(Number(-0.1)).None? && CheckScore(Number(10.1)).None?
    ensures CheckScore(Blank).None?
  {
  }

  function SameStudent(name: string, subjectId: Id): Student -> bool {
    (s: Student) => s.name == name && s.subjectId == subjectId
  }

  /** The `students` query by name and subject with `.single()`: the row when
      exactly one matches, otherwise an error. */
  function SingleStudent(students: seq<Student>, name: string, subjectId: Id): Option<Student> {
    var matches := Filter(students, SameStudent(name, subjectId));
    if |matches| == 1 then Some(matches[0]) else None
  }

  /** A found student is a row of the table with that name in that subject,
      and the only one; nothing is found for no match or for a repeated name. */
  lemma SingleStudentSpec(students: seq<Student>, name: string, subjectId: Id, s: Student)
    ensures SingleStudent(students, name, subjectId) == Some(s) ==>
      s in students && s.name == name && s.subjectId == subjectId
    ensures SingleStudent(students, name, subjectId).None? <==>
      |Filter(students, SameStudent(name, subjectId))| != 1
  {
    var matches := Filter(students, SameStudent(name, subjectId));
    if |matches| == 1 {
      FilterMembership(students, SameStudent(name, subjectId), matches[0]);
    }
  }

  /** Two students of the subject with the same name: the scan finds neither. */
  lemma RepeatedNameNotFound(a: Student, b: Student)
    requires a.name == b.name && a.subjectId == b.subjectId
    ensures SingleStudent([a, b], a.name, a.subjectId).None?
  {
    var p := SameStudent(a.name, a.subjectId);
    assert [a, b][1..] == [b] && [b][1..] == [];
    assert Filter([a, b], p) == [a, b];
  }

  class GradeScanner {
    /** The route's assignment, once loaded; none while missing. */
    const assignment: Option<Assignment>
    var message: Message
    var scannedStudent: Option<Student>
    var cameras: seq<Id>
    var activeCameraId: Option<Id>

    /** `fetchAssignment`: the assignment, or the not-found message. */
    constructor Load(fetched: Option<Assignment>, cameras: seq<Id>, activeCameraId: Option<Id>)
      ensures assignment == fetched && scannedStudent.None?
      ensures message == if fetched.None? then AssignmentNotFound else NoMessage
      ensures this.cameras == cameras && this.activeCameraId == activeCameraId
    {
      assignment := fetched;
      message := if fetched.None? then AssignmentNotFound else NoMessage;
      scannedStudent := None;
      this.cameras := cameras;
      this.activeCameraId := activeCameraId;
    }

    /** `handleScan` against the `students` table: ignored without an
        assignment; otherwise the single matching student of the assignment's
        subject is selected, or the not-found message is shown. */
    method Scan(studentName: string, students: seq<Student>)
      modifies this
      ensures cameras == old(cameras) && activeCameraId == old(activeCameraId)
      ensures assignment.None? ==> scannedStudent == old(scannedStudent) && message == old(message)
      ensures assignment.Some? && SingleStudent(students, studentName, assignment.value.subjectId).None? ==>
        scannedStudent == old(scannedStudent) && message == StudentNotFound(studentName)
      ensures assignment.Some? && SingleStudent(students, studentName, assignment.value.subjectId).Some? ==>
        scannedStudent == SingleStudent(students, studentName, assignment.value.subjectId) && message == old(message)
    {
      if assignment.None? {
        return;
      }
      var found := SingleStudent(students, studentName, assignment.value.subjectId);
      if found.None? {
        message := StudentNotFound(studentName);
      } else {
        scannedStudent := found;
      }
    }

    /** `handleGradeSubmit`, with whether the write fails: without a student
        or an assignment nothing happens; otherwise one upsert for the pair,
        and the student is cleared whether or not it succeeded. */
    method GradeSubmit(score: real, writeFails: bool) returns (r: Option<GradeUpsert>)
      modifies this
      ensures old(scannedStudent).None? || assignment.None? ==>
        r.None? && scannedStudent == old(scannedStudent) && message == old(message)
      ensures old(scannedStudent).Some? && assignment.Some? ==>
        r == Some(GradeUpsert(old(scannedStudent).value.id, assignment.value.id, assignment.value.subjectId, score))
        && scannedStudent.None?
        && message == if writeFails then SaveFailed else Saved(score, old(scannedStudent).value.name)
      ensures cameras == old(cameras) && activeCameraId == old(activeCameraId)
    {
      if scannedStudent.None? || assignment.None? {
        return None;
      }
      var student := scannedStudent.value;
      r := Some(GradeUpsert(student.id, assignment.value.id, assignment.value.subjectId, score));
      message := if writeFails then SaveFailed else Saved(score, student.name);
      scannedStudent := None;
    }

    /** The modal's submit: an accepted score goes to `GradeSubmit`; a refused
        one changes nothing. */
    method ModalSubmit(input: NumberInput, writeFails: bool) returns (r: Option<GradeUpsert>)
      modifies this
      ensures CheckScore(input).None? ==>
        r.None? && scannedStudent == old(scannedStudent) && message == old(message)
      ensures r.Some? ==> CheckScore(input) == Some(r.value.score) && InRange(r.value.score)
      ensures CheckScore(input).Some? && (old(scannedStudent).None? || assignment.None?) ==>
        r.None? && scannedStudent == old(scannedStudent) && message == old(message)
      ensures CheckScore(input).Some? && old(scannedStudent).Some? && assignment.Some? ==>
        r == Some(GradeUpsert(old(scannedStudent).value.id, assignment.value.id, assignment.value.subjectId, CheckScore(input).value))
        && scannedStudent.None?
        && message == if writeFails then SaveFailed else Saved(CheckScore(input).value, old(scannedStudent).value.name)
      ensures cameras == old(cameras) && activeCameraId == old(activeCameraId)
    {
      var score := CheckScore(input);
      if score.None? {
        return None;
      }
      r := GradeSubmit(score.value, writeFails);
    }

    /** `handleCameraSwitch`. */
    method CameraSwitch()
      modifies this
      ensures activeCameraId == NextCamera(cameras, old(activeCameraId))
      ensures cameras == old(cameras) && scannedStudent == old(scannedStudent) && message == old(message)
    {
      activeCameraId := NextCamera(cameras, activeCameraId);
    }
  }

  /** Grading the same student on the same assignment twice keeps only the
      second score. */
  lemma SecondScoreReplacesFirst(table: GradeTable, first: GradeUpsert, second: GradeUpsert)
    requires Key(first) == Key(second)
    ensures var after := UpsertAll(UpsertAll(table, [first]), [second]);
      Key(second) in after && after[Key(second)] == Stored(second.subjectId, second.score)
    ensures var after := UpsertAll(UpsertAll(table, [first]), [second]);
      forall k :: k != Key(second) && k in table ==> k in after && after[k] == table[k]
  {
    var once := UpsertAll(table, [first]);
    UpsertAllSpec(once, [second], Key(second));
    forall k | k != Key(second) && k in table
      ensures k in UpsertAll(once, [second]) && UpsertAll(once, [second])[k] == table[k]
    {
      UpsertAllSpec(table, [first], k);
      UpsertAllSpec(once, [second], k);
    }
  }
}
