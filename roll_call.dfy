/** The roll-call page: every student of the subject starts present, the
    teacher flips students between present and absent, and saving creates one
    session and one attendance record per present student. */
module RollCall {
  import opened Wrappers
  import opened Dates
  import opened Seqs
  import opened OrderedMaps
  import opened Types

  datatype AttendanceStatus = Present | Absent

  /** The `attendance` map after setting every student, in roster order, to `status`. */
  function AllAs(students: seq<Student>, status: AttendanceStatus): seq<(Id, AttendanceStatus)> {
    if students == [] then []
    else Put(AllAs(students[..|students| - 1], status), students[|students| - 1].id, status)
  }

  predicate OnRoster(students: seq<Student>, id: Id) {
    exists i :: 0 <= i < |students| && students[i].id == id
  }

  /** Exactly the roster ids are keys, each once, each with `status`. */
  lemma {:induction false} AllAsSpec(students: seq<Student>, status: AttendanceStatus, id: Id)
    ensures DistinctKeys(AllAs(students, status))
    ensures Lookup(AllAs(students, status), id) == if OnRoster(students, id) then Some(status) else None
    ensures id in Keys(AllAs(students, status)) <==> OnRoster(students, id)
  {
    if students != [] {
      var init := students[..|students| - 1];
      var last := students[|students| - 1];
      AllAsSpec(init, status, id);
      PutLookup(AllAs(init, status), last.id, status, id);
      PutDistinct(AllAs(init, status), last.id, status);
      OnRosterSnoc(students, id);
    }
  }

  lemma OnRosterSnoc(students: seq<Student>, id: Id)
    requires students != []
    ensures OnRoster(students, id) <==> OnRoster(students[..|students| - 1], id) || students[|students| - 1].id == id
  {
    var init := students[..|students| - 1];
    if OnRoster(init, id) {
      var i :| 0 <= i < |init| && init[i].id == id;
      assert students[i].id == id;
    }
    if OnRoster(students, id) && id != students[|students| - 1].id {
      var i :| 0 <= i < |students| && students[i].id == id;
      assert init[i].id == id;
    }
  }

  /** The ids whose status is present, in map order (the `filter`/`map` of `handleSave`). */
  function PresentIds(m: seq<(Id, AttendanceStatus)>): (ids: seq<Id>)
    ensures |ids| <= |m|
  {
    if m == [] then []
    else (if m[0].1 == Present then [m[0].0] else []) + PresentIds(m[1..])
  }

  /** An id is saved as present exactly when the map marks it present; saved
      ids keep the map's order. */
  lemma {:induction false} PresentIdsSpec(m: seq<(Id, AttendanceStatus)>, id: Id)
    requires DistinctKeys(m)
    ensures id in PresentIds(m) <==> Lookup(m, id) == Some(Present)
    ensures IsSubsequence(PresentIds(m), Keys(m))
  {
    if m != [] {
      assert DistinctKeys(m[1..]) by {
        forall i, j | 0 <= i < j < |m[1..]| ensures m[1..][i].0 != m[1..][j].0 {
          assert m[1..][i] == m[i + 1] && m[1..][j] == m[j + 1];
        }
      }
      PresentIdsSpec(m[1..], id);
      assert Keys(m) == [m[0].0] + Keys(m[1..]);
      assert Keys(m)[1..] == Keys(m[1..]);
      if m[0].1 == Present {
        assert PresentIds(m)[1..] == PresentIds(m[1..]);
      } else {
        assert PresentIds(m) == PresentIds(m[1..]);
      }
      if m[0].0 == id {
        assert id !in Keys(m[1..]) by {
          forall t | 0 <= t < |m[1..]| ensures Keys(m[1..])[t] != id {
            assert m[1..][t] == m[t + 1];
          }
        }
      }
    }
  }

  lemma {:induction false} NoneAbsentSaved(m: seq<(Id, AttendanceStatus)>)
    requires forall i :: 0 <= i < |m| ==> m[i].1 == Absent
    ensures PresentIds(m) == []
  {
    if m != [] {
      NoneAbsentSaved(m[1..]);
    }
  }

  /** Marking everyone absent saves no record; marking everyone present (the
      initial state) saves one for every roster student. */
  lemma MarkAllOutcomes(students: seq<Student>, id: Id)
    ensures PresentIds(AllAs(students, Absent)) == []
    ensures id in PresentIds(AllAs(students, Present)) <==> OnRoster(students, id)
  {
    var absent := AllAs(students, Absent);
    forall i | 0 <= i < |absent| ensures absent[i].1 == Absent {
      AllAsSpec(students, Absent, absent[i].0);
      LookupIn(absent, absent[i].0, absent[i].1);
    }
    NoneAbsentSaved(absent);
    AllAsSpec(students, Present, id);
    PresentIdsSpec(AllAs(students, Present), id);
  }

  /** An `attendance_records` row before the database assigns `id` and `created_at`. */
  datatype NewAttendanceRecord = NewAttendanceRecord(studentId: Id, sessionId: Id, subjectId: Id)

  function RecordsFor(ids: seq<Id>, sessionId: Id, subjectId: Id): (rows: seq<NewAttendanceRecord>)
    ensures |rows| == |ids|
    ensures forall i :: 0 <= i < |ids| ==> rows[i] == NewAttendanceRecord(ids[i], sessionId, subjectId)
  {
    seq(|ids|, i requires 0 <= i < |ids| => NewAttendanceRecord(ids[i], sessionId, subjectId))
  }

  /** What saving writes: nothing, or a session for the subject and, when
      anyone is present, the records. */
  datatype SaveOutcome = NotSaved | Saved(sessionSubject: Id, records: Option<seq<NewAttendanceRecord>>)

  /** The first instant of the local day of `now`, for a clock `offset`
      milliseconds ahead of UTC (`setHours(0, 0, 0, 0)`). */
  function LocalDayStart(now: Instant, offset: int): Instant {
    DayOf(now + offset) * MsPerDay - offset
  }

  /** The session check: a session of the subject created between the local
      day's first and last millisecond (`setHours(23, 59, 59, 999)`). */
  predicate SessionToday(sessions: seq<AttendanceSession>, subjectId: Id, now: Instant, offset: int) {
    exists i :: 0 <= i < |sessions| && sessions[i].subjectId == subjectId
      && LocalDayStart(now, offset) <= sessions[i].createdAt <= LocalDayStart(now, offset) + MsPerDay - 1
  }

  /** The check's window is exactly the local calendar day of `now`. */
  lemma LocalDayWindow(t: Instant, now: Instant, offset: int)
    ensures LocalDayStart(now, offset) <= t <= LocalDayStart(now, offset) + MsPerDay - 1
        <==> DayOf(t + offset) == DayOf(now + offset)
  {
    var d := DayOf(now + offset);
    StartOfAtMost(d, t + offset);
    StartOfAtMost(d + 1, t + offset);
  }

  class RollCallPage {
    /** The route's subject id; empty when the route has none. */
    const subjectId: Id
    var students: seq<Student>
    var attendance: seq<(Id, AttendanceStatus)>
    var alreadyTaken: bool

    /** `fetchData`, given the sessions table, the subject's roster (ordered
        by name), the clock and its offset from UTC: every student present,
        and whether a session of the subject exists today. Without a subject
        nothing is loaded. */
    constructor Load(subjectId: Id, students: seq<Student>, sessions: seq<AttendanceSession>, now: Instant, offset: int)
      ensures this.subjectId == subjectId
      ensures subjectId == "" ==> this.students == [] && attendance == [] && !alreadyTaken
      ensures subjectId != "" ==>
        this.students == students && attendance == AllAs(students, Present)
        && alreadyTaken == SessionToday(sessions, subjectId, now, offset)
    {
      this.subjectId := subjectId;
      if subjectId == "" {
        this.students := [];
        attendance := [];
        alreadyTaken := false;
      } else {
        this.students := students;
        alreadyTaken := SessionToday(sessions, subjectId, now, offset);
        var initialAttendance: seq<(Id, AttendanceStatus)> := [];
        for i := 0 to |students|
          invariant initialAttendance == AllAs(students[..i], Present)
        {
          assert students[..i + 1][..i] == students[..i];
          initialAttendance := Put(initialAttendance, students[i].id, Present);
        }
        assert students[..|students|] == students;
        attendance := initialAttendance;
      }
    }

    /** `handleStatusChange`: one student's status is set, the others kept. */
    method StatusChange(studentId: Id, status: AttendanceStatus)
      modifies this
      ensures attendance == Put(old(attendance), studentId, status)
      ensures students == old(students) && alreadyTaken == old(alreadyTaken)
    {
      attendance := Put(attendance, studentId, status);
    }

    /** `markAllAs`: a fresh map, every roster student set to `status`. */
    method MarkAllAs(status: AttendanceStatus)
      modifies this
      ensures attendance == AllAs(students, status)
      ensures students == old(students) && alreadyTaken == old(alreadyTaken)
    {
      var newAttendance: seq<(Id, AttendanceStatus)> := [];
      for i := 0 to |students|
        invariant newAttendance == AllAs(students[..i], status)
      {
        assert students[..i + 1][..i] == students[..i];
        newAttendance := Put(newAttendance, students[i].id, status);
      }
      assert students[..|students|] == students;
      attendance := newAttendance;
    }

    /** `handleSave`, with the new session's id from the database: nothing
        without a subject or when today's roll was already taken; otherwise a
        session and, if anyone is present, one record per present student. */
    method Save(sessionId: Id) returns (r: SaveOutcome)
      ensures r == NotSaved <==> subjectId == "" || alreadyTaken
      ensures r.Saved? ==> r.sessionSubject == subjectId
      ensures r.Saved? ==> (r.records.None? <==> PresentIds(attendance) == [])
      ensures r.Saved? && r.records.Some? ==> r.records.value == RecordsFor(PresentIds(attendance), sessionId, subjectId)
    {
      if subjectId == "" || alreadyTaken {
        return NotSaved;
      }
      var presentStudents := PresentIds(attendance);
      if |presentStudents| > 0 {
        r := Saved(subjectId, Some(RecordsFor(presentStudents, sessionId, subjectId)));
      } else {
        r := Saved(subjectId, None);
      }
    }
  }

  /** Whatever edits were made, the map holds each key once, so a student is
      saved present exactly when the map says so. */
  lemma EditsKeepKeysDistinct(m: seq<(Id, AttendanceStatus)>, studentId: Id, status: AttendanceStatus, id: Id)
    requires DistinctKeys(m)
    ensures DistinctKeys(Put(m, studentId, status))
    ensures id in PresentIds(Put(m, studentId, status)) <==>
      (if id == studentId then status == Present else Lookup(m, id) == Some(Present))
  {
    PutDistinct(m, studentId, status);
    PutLookup(m, studentId, status, id);
    PresentIdsSpec(Put(m, studentId, status), id);
  }
}
