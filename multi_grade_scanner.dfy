/** The multi-grade scanner page: scan a student's code, edit that student's
    score for every assignment of the subject, and save the filled-in scores. */
module MultiGradeScanning {
  import opened Wrappers
  import opened OrderedMaps
  import opened Types
  import opened GradeStore
  import opened Cameras

  /** A value of the grades map: `''` or a number. */
  datatype Score = Empty | Points(value: real)

  datatype Message =
    | NoMessage
    | LoadFailed
    | StudentFound(name: string)
    | StudentNotFound(name: string)
    | NothingToSave
    | SaveFailed
    | SavedOk

  datatype SaveOutcome = NoWrite | Upsert(rows: seq<GradeUpsert>)

  /** `allStudents.find(s => s.name === name)`: the first student with exactly that name. */
  function FindByName(students: seq<Student>, name: string): (r: Option<Student>)
    ensures r.None? <==> forall i :: 0 <= i < |students| ==> students[i].name != name
    ensures r.Some? ==> exists i :: (0 <= i < |students| && students[i] == r.value && r.value.name == name
      && forall j :: 0 <= j < i ==> students[j].name != name)
  {
    if students == [] then None
    else if students[0].name == name then Some(students[0])
    else
      var r := FindByName(students[1..], name);
      if r.Some? then
        var i :| 0 <= i < |students[1..]| && students[1..][i] == r.value && r.value.name == name
          && forall j :: 0 <= j < i ==> students[1..][j].name != name;
        assert students[i + 1] == r.value;
        assert forall j :: 1 <= j < i + 1 ==> students[j] == students[1..][j - 1];
        r
      else r
  }

  /** `assignments.forEach(a => gradesMap.set(a.id, ''))`. */
  function Blanks(assignments: seq<Assignment>): seq<(Id, Score)> {
    if assignments == [] then []
    else Put(Blanks(assignments[..|assignments| - 1]), assignments[|assignments| - 1].id, Empty)
  }

  /** `existingGrades.forEach(g => gradesMap.set(g.assignment_id, g.score))`. */
  function WithExisting(m: seq<(Id, Score)>, existing: seq<(Id, real)>): seq<(Id, Score)> {
    if existing == [] then m
    else Put(WithExisting(m, existing[..|existing| - 1]), existing[|existing| - 1].0, Points(existing[|existing| - 1].1))
  }

  predicate IsAssignment(assignments: seq<Assignment>, id: Id) {
    exists i :: 0 <= i < |assignments| && assignments[i].id == id
  }

  /** The score of the last existing grade of the assignment, if any. */
  function LastScore(existing: seq<(Id, real)>, id: Id): (r: Option<real>)
    ensures r.None? <==> forall i :: 0 <= i < |existing| ==> existing[i].0 != id
  {
    if existing == [] then None
    else if existing[|existing| - 1].0 == id then Some(existing[|existing| - 1].1)
    else LastScore(existing[..|existing| - 1], id)
  }

  lemma {:induction false} BlanksSpec(assignments: seq<Assignment>, id: Id)
    ensures DistinctKeys(Blanks(assignments))
    ensures Lookup(Blanks(assignments), id) == if IsAssignment(assignments, id) then Some(Empty) else None
  {
    if assignments != [] {
      var init := assignments[..|assignments| - 1];
      var last := assignments[|assignments| - 1];
      BlanksSpec(init, id);
      PutLookup(Blanks(init), last.id, Empty, id);
      PutDistinct(Blanks(init), last.id, Empty);
      IsAssignmentSnoc(assignments, id);
    }
  }

  lemma IsAssignmentSnoc(assignments: seq<Assignment>, id: Id)
    requires assignments != []
    ensures IsAssignment(assignments, id) <==>
      IsAssignment(assignments[..|assignments| - 1], id) || assignments[|assignments| - 1].id == id
  {
    var init := assignments[..|assignments| - 1];
    if IsAssignment(init, id) {
      var i :| 0 <= i < |init| && init[i].id == id;
      assert assignments[i].id == id;
    }
    if IsAssignment(assignments, id) && id != assignments[|assignments| - 1].id {
      var i :| 0 <= i < |assignments| && assignments[i].id == id;
      assert init[i].id == id;
    }
  }

  lemma {:induction false} WithExistingSpec(m: seq<(Id, Score)>, existing: seq<(Id, real)>, id: Id)
    requires DistinctKeys(m)
    ensures DistinctKeys(WithExisting(m, existing))
    ensures Lookup(WithExisting(m, existing), id) ==
      if LastScore(existing, id).Some? then Some(Points(LastScore(existing, id).value)) else Lookup(m, id)
  {
    if existing != [] {
      var init := existing[..|existing| - 1];
      var last := existing[|existing| - 1];
      WithExistingSpec(m, init, id);
      PutLookup(WithExisting(m, init), last.0, Points(last.1), id);
      PutDistinct(WithExisting(m, init), last.0, Points(last.1));
    }
  }

  /** The map a scan builds: every assignment blank, except those the student
      already has a grade for, which show the (last) stored score; a grade of
      an assignment not on the list gets an entry too. */
  lemma InitialGrades(assignments: seq<Assignment>, existing: seq<(Id, real)>, id: Id)
    ensures DistinctKeys(WithExisting(Blanks(assignments), existing))
    ensures Lookup(WithExisting(Blanks(assignments), existing), id) ==
      if LastScore(existing, id).Some? then Some(Points(LastScore(existing, id).value))
      else if IsAssignment(assignments, id) then Some(Empty)
      else None
  {
    BlanksSpec(assignments, id);
    WithExistingSpec(Blanks(assignments), existing, id);
  }

  /** `handleGradeChange` accepts an empty field or a number from 0 to 10. */
  predicate Accepts(input: NumberInput) {
    input.Blank? || InRange(input.value)
  }

  function ToScore(input: NumberInput): (s: Score)
    ensures s.Empty? <==> input.Blank?
  {
    match input
    case Blank => Empty
    case Number(v) => Points(v)
  }

  /** The upsert rows: the entries holding a number, in map order, each
      for the student and the subject. */
  function UpsertRows(grades: seq<(Id, Score)>, studentId: Id, subjectId: Id): (rows: seq<GradeUpsert>)
    ensures forall i :: 0 <= i < |rows| ==> rows[i].studentId == studentId && rows[i].subjectId == subjectId
  {
    if grades == [] then []
    else
      var rest := UpsertRows(grades[1..], studentId, subjectId);
      (if grades[0].1.Points? then [GradeUpsert(studentId, grades[0].0, subjectId, grades[0].1.value)] else [])
      + rest
  }

  lemma TailDistinct(grades: seq<(Id, Score)>)
    requires DistinctKeys(grades) && grades != []
    ensures DistinctKeys(grades[1..])
    ensures grades[0].0 !in Keys(grades[1..])
  {
    var tail := grades[1..];
    forall i, j | 0 <= i < j < |tail| ensures tail[i].0 != tail[j].0 {
      assert tail[i] == grades[i + 1] && tail[j] == grades[j + 1];
    }
    forall t | 0 <= t < |tail| ensures Keys(tail)[t] != grades[0].0 {
      assert tail[t] == grades[t + 1];
    }
  }

  /** Every row names an assignment of the map. */
  lemma {:induction false} UpsertRowsKeys(grades: seq<(Id, Score)>, studentId: Id, subjectId: Id, i: int)
    requires 0 <= i < |UpsertRows(grades, studentId, subjectId)|
    ensures UpsertRows(grades, studentId, subjectId)[i].assignmentId in Keys(grades)
  {
    var rest := UpsertRows(grades[1..], studentId, subjectId);
    var rows := UpsertRows(grades, studentId, subjectId);
    var k := if grades[0].1.Points? then 1 else 0;
    assert rows == rows[..k] + rest;
    if i >= k {
      assert rows[i] == rest[i - k];
      UpsertRowsKeys(grades[1..], studentId, subjectId, i - k);
      KeysOfTail(grades, rest[i - k].assignmentId);
    } else {
      assert rows[i].assignmentId == Keys(grades)[0];
    }
  }

  lemma KeysOfTail(grades: seq<(Id, Score)>, x: Id)
    requires grades != [] && x in Keys(grades[1..])
    ensures x in Keys(grades)
  {
    var j :| 0 <= j < |grades[1..]| && Keys(grades[1..])[j] == x;
    assert Keys(grades)[j + 1] == x;
  }

  /** The rows of the tail never name the head's assignment. */
  lemma RestAvoidsFirst(grades: seq<(Id, Score)>, studentId: Id, subjectId: Id)
    requires DistinctKeys(grades) && grades != []
    ensures DistinctKeys(grades[1..])
    ensures forall i :: 0 <= i < |UpsertRows(grades[1..], studentId, subjectId)| ==>
      UpsertRows(grades[1..], studentId, subjectId)[i].assignmentId != grades[0].0
  {
    TailDistinct(grades);
    forall i | 0 <= i < |UpsertRows(grades[1..], studentId, subjectId)|
      ensures UpsertRows(grades[1..], studentId, subjectId)[i].assignmentId != grades[0].0
    {
      UpsertRowsKeys(grades[1..], studentId, subjectId, i);
    }
  }

  lemma {:induction false} UpsertRowsDistinct(grades: seq<(Id, Score)>, studentId: Id, subjectId: Id)
    requires DistinctKeys(grades)
    ensures DistinctPairs(UpsertRows(grades, studentId, subjectId))
  {
    if grades != [] {
      RestAvoidsFirst(grades, studentId, subjectId);
      UpsertRowsDistinct(grades[1..], studentId, subjectId);
      var rest := UpsertRows(grades[1..], studentId, subjectId);
      var rows := UpsertRows(grades, studentId, subjectId);
      if grades[0].1.Points? {
        forall i, j | 0 <= i < j < |rows| ensures Key(rows[i]) != Key(rows[j]) {
          assert rows[j] == rest[j - 1];
          if i > 0 {
            assert rows[i] == rest[i - 1];
          } else {
            assert rows[0].assignmentId == grades[0].0;
          }
        }
      } else {
        assert rows == rest;
      }
    }
  }

  predicate HoldsNumber(grades: seq<(Id, Score)>, id: Id) {
    Lookup(grades, id).Some? && Lookup(grades, id).value.Points?
  }

  predicate HasRow(rows: seq<GradeUpsert>, id: Id) {
    exists i :: 0 <= i < |rows| && rows[i].assignmentId == id
  }

  /** An assignment gets a row exactly when its entry holds a number. */
  lemma {:induction false} UpsertRowsFor(grades: seq<(Id, Score)>, studentId: Id, subjectId: Id, id: Id)
    requires DistinctKeys(grades)
    ensures HasRow(UpsertRows(grades, studentId, subjectId), id) <==> HoldsNumber(grades, id)
  {
    if grades != [] {
      TailDistinct(grades);
      if grades[0].0 == id {
        HeadRow(grades, studentId, subjectId);
      } else {
        UpsertRowsFor(grades[1..], studentId, subjectId, id);
        PastHeadRow(grades, studentId, subjectId, id);
      }
    }
  }

  /** The head's assignment gets a row exactly when the head holds a number. */
  lemma HeadRow(grades: seq<(Id, Score)>, studentId: Id, subjectId: Id)
    requires DistinctKeys(grades) && grades != []
    ensures HasRow(UpsertRows(grades, studentId, subjectId), grades[0].0) <==> HoldsNumber(grades, grades[0].0)
  {
    RestAvoidsFirst(grades, studentId, subjectId);
    var rest := UpsertRows(grades[1..], studentId, subjectId);
    var rows := UpsertRows(grades, studentId, subjectId);
    assert !HasRow(rest, grades[0].0);
    if grades[0].1.Points? {
      assert rows[0].assignmentId == grades[0].0;
    } else {
      assert rows == rest;
    }
  }

  /** Past the head, the rows and the numbers are those of the tail. */
  lemma PastHeadRow(grades: seq<(Id, Score)>, studentId: Id, subjectId: Id, id: Id)
    requires grades != [] && grades[0].0 != id
    ensures HasRow(UpsertRows(grades, studentId, subjectId), id) <==> HasRow(UpsertRows(grades[1..], studentId, subjectId), id)
    ensures HoldsNumber(grades, id) == HoldsNumber(grades[1..], id)
  {
    var rest := UpsertRows(grades[1..], studentId, subjectId);
    var rows := UpsertRows(grades, studentId, subjectId);
    if grades[0].1.Points? {
      if HasRow(rows, id) {
        var i :| 0 <= i < |rows| && rows[i].assignmentId == id;
        assert rest[i - 1].assignmentId == id;
      }
      if HasRow(rest, id) {
        var i :| 0 <= i < |rest| && rest[i].assignmentId == id;
        assert rows[i + 1].assignmentId == id;
      }
    } else {
      assert rows == rest;
    }
  }

  lemma LookupPastFirst(grades: seq<(Id, Score)>, k: Id)
    requires grades != [] && grades[0].0 != k
    ensures Lookup(grades, k) == Lookup(grades[1..], k)
  {
  }

  /** A row carries the number its assignment's entry holds. */
  lemma {:induction false} UpsertRowsScore(grades: seq<(Id, Score)>, studentId: Id, subjectId: Id, i: int)
    requires DistinctKeys(grades)
    requires 0 <= i < |UpsertRows(grades, studentId, subjectId)|
    ensures var row := UpsertRows(grades, studentId, subjectId)[i];
      Lookup(grades, row.assignmentId) == Some(Points(row.score))
  {
    RestAvoidsFirst(grades, studentId, subjectId);
    var rest := UpsertRows(grades[1..], studentId, subjectId);
    var rows := UpsertRows(grades, studentId, subjectId);
    if grades[0].1.Points? {
      if i > 0 {
        assert rows[i] == rest[i - 1];
        UpsertRowsScore(grades[1..], studentId, subjectId, i - 1);
        LookupPastFirst(grades, rest[i - 1].assignmentId);
      }
    } else {
      assert rows == rest;
      UpsertRowsScore(grades[1..], studentId, subjectId, i);
      LookupPastFirst(grades, rest[i].assignmentId);
    }
  }

  class MultiGradeScanner {
    /** The route's subject id; empty when the route has none. */
    const subjectId: Id
    var assignments: seq<Assignment>
    var allStudents: seq<Student>
    var scannedStudent: Option<Student>
    var grades: seq<(Id, Score)>
    var message: Message
    var cameras: seq<Id>
    var activeCameraId: Option<Id>

    /** `fetchData`: the subject's assignments and students, or a failure
        message and empty lists; the cameras the device reports. */
    constructor Load(subjectId: Id, assignments: Option<seq<Assignment>>, students: Option<seq<Student>>,
                     cameras: seq<Id>, activeCameraId: Option<Id>)
      ensures this.subjectId == subjectId && scannedStudent.None? && grades == []
      ensures this.cameras == cameras && this.activeCameraId == activeCameraId
      ensures assignments.Some? && students.Some? ==>
        this.assignments == assignments.value && allStudents == students.value && message == NoMessage
      ensures assignments.None? || students.None? ==>
        this.assignments == [] && allStudents == [] && message == LoadFailed
    {
      this.subjectId := subjectId;
      this.cameras := cameras;
      this.activeCameraId := activeCameraId;
      scannedStudent := None;
      grades := [];
      if assignments.Some? && students.Some? {
        this.assignments := assignments.value;
        allStudents := students.value;
        message := NoMessage;
      } else {
        this.assignments := [];
        allStudents := [];
        message := LoadFailed;
      }
    }

    /** `handleScan`, with the student's stored (assignment, score) pairs, or
        none when that query failed: an unknown name only sets the message; a
        known one selects the student and fills the grades map. */
    method Scan(studentName: string, existing: Option<seq<(Id, real)>>)
      modifies this
      ensures assignments == old(assignments) && allStudents == old(allStudents)
      ensures cameras == old(cameras) && activeCameraId == old(activeCameraId)
      ensures FindByName(allStudents, studentName).None? ==>
        scannedStudent == old(scannedStudent) && grades == old(grades) && message == StudentNotFound(studentName)
      ensures FindByName(allStudents, studentName).Some? ==>
        scannedStudent == FindByName(allStudents, studentName)
        && grades == WithExisting(Blanks(assignments), existing.GetOr([]))
        && message == StudentFound(studentName)
    {
      var student := FindByName(allStudents, studentName);
      if student.Some? {
        message := StudentFound(student.value.name);
        scannedStudent := student;
        var gradesMap: seq<(Id, Score)> := [];
        for i := 0 to |assignments|
          invariant gradesMap == Blanks(assignments[..i])
        {
          assert assignments[..i + 1][..i] == assignments[..i];
          gradesMap := Put(gradesMap, assignments[i].id, Empty);
        }
        assert assignments[..|assignments|] == assignments;
        var blanks := gradesMap;
        if existing.Some? {
          var rows := existing.value;
          for i := 0 to |rows|
            invariant gradesMap == WithExisting(blanks, rows[..i])
          {
            assert rows[..i + 1][..i] == rows[..i];
            gradesMap := Put(gradesMap, rows[i].0, Points(rows[i].1));
          }
          assert rows[..|rows|] == rows;
        }
        grades := gradesMap;
      } else {
        message := StudentNotFound(studentName);
      }
    }

    /** `handleGradeChange`: an accepted value replaces that assignment's
        entry; anything else changes nothing. */
    method GradeChange(assignmentId: Id, value: NumberInput)
      modifies this
      ensures Accepts(value) ==> grades == Put(old(grades), assignmentId, ToScore(value))
      ensures !Accepts(value) ==> grades == old(grades)
      ensures Accepts(value) ==> forall a :: Lookup(grades, a) == if a == assignmentId then Some(ToScore(value)) else Lookup(old(grades), a)
      ensures scannedStudent == old(scannedStudent) && message == old(message)
      ensures assignments == old(assignments) && allStudents == old(allStudents)
      ensures cameras == old(cameras) && activeCameraId == old(activeCameraId)
    {
      if value.Blank? || (0.0 <= value.value && value.value <= 10.0) {
        forall a ensures Lookup(Put(grades, assignmentId, ToScore(value)), a) ==
          if a == assignmentId then Some(ToScore(value)) else Lookup(grades, a)
        {
          PutLookup(grades, assignmentId, ToScore(value), a);
        }
        grades := Put(grades, assignmentId, ToScore(value));
      }
    }

    /** `handleSaveGrades`, with whether the write fails: nothing happens
        without a student or a subject; with no number entered only a notice
        is shown; otherwise the number entries are upserted. */
    method SaveGrades(writeFails: bool) returns (r: SaveOutcome)
      modifies this
      ensures scannedStudent == old(scannedStudent) && grades == old(grades)
      ensures assignments == old(assignments) && allStudents == old(allStudents)
      ensures cameras == old(cameras) && activeCameraId == old(activeCameraId)
      ensures old(scannedStudent).None? || subjectId == "" ==> r == NoWrite && message == old(message)
      ensures old(scannedStudent).Some? && subjectId != "" ==>
        var rows := UpsertRows(grades, scannedStudent.value.id, subjectId);
        (rows == [] ==> r == NoWrite && message == NothingToSave)
        && (rows != [] ==> r == Upsert(rows) && message == if writeFails then SaveFailed else SavedOk)
    {
      if scannedStudent.None? || subjectId == "" {
        return NoWrite;
      }
      var rows := UpsertRows(grades, scannedStudent.value.id, subjectId);
      if |rows| == 0 {
        message := NothingToSave;
        return NoWrite;
      }
      r := Upsert(rows);
      message := if writeFails then SaveFailed else SavedOk;
    }

    /** `handleScanAnother`. */
    method ScanAnother()
      modifies this
      ensures scannedStudent.None? && grades == [] && message == NoMessage
      ensures assignments == old(assignments) && allStudents == old(allStudents)
      ensures cameras == old(cameras) && activeCameraId == old(activeCameraId)
    {
      scannedStudent := None;
      grades := [];
      message := NoMessage;
    }

    /** `handleCameraSwitch`. */
    method CameraSwitch()
      modifies this
      ensures activeCameraId == NextCamera(cameras, old(activeCameraId))
      ensures cameras == old(cameras) && scannedStudent == old(scannedStudent)
      ensures assignments == old(assignments) && allStudents == old(allStudents)
      ensures grades == old(grades) && message == old(message)
    {
      activeCameraId := NextCamera(cameras, activeCameraId);
    }
  }

  /** A save writes to the table exactly the entered scores of the scanned
      student: each number-holding entry lands on its (student, assignment)
      pair, replacing any earlier score; the rest of the table is untouched. */
  lemma SavedScoresLand(table: GradeTable, grades: seq<(Id, Score)>, studentId: Id, subjectId: Id, k: (Id, Id))
    requires DistinctKeys(grades)
    ensures var after := UpsertAll(table, UpsertRows(grades, studentId, subjectId));
      (k.0 == studentId && HoldsNumber(grades, k.1) ==>
        k in after && after[k] == Stored(subjectId, Lookup(grades, k.1).value.value))
      && (!(k.0 == studentId && HoldsNumber(grades, k.1)) ==>
        (k in after <==> k in table) && (k in table ==> after[k] == table[k]))
  {
    var rows := UpsertRows(grades, studentId, subjectId);
    UpsertRowsDistinct(grades, studentId, subjectId);
    UpsertRowsFor(grades, studentId, subjectId, k.1);
    UpsertAllSpec(table, rows, k);
    if k.0 == studentId && HoldsNumber(grades, k.1) {
      var i :| 0 <= i < |rows| && rows[i].assignmentId == k.1;
      assert Key(rows[i]) == k;
      UpsertRowsScore(grades, studentId, subjectId, i);
    } else {
      forall i | 0 <= i < |rows| ensures Key(rows[i]) != k {
        if rows[i].studentId == k.0 {
          assert !HasRow(rows, k.1);
        }
      }
    }
  }
}
