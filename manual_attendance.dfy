/** The manual attendance dialog of the calendar: every student starts
    selected, the teacher toggles students, and saving creates a session at
    noon UTC of the chosen date with one record per selected student. */
module ManualAttendance {
  import opened Wrappers
  import opened Dates
  import opened Seqs
  import opened Types

  /** A JavaScript `Set` of ids: no duplicates, iteration in insertion order. */
  predicate NoDuplicates(s: seq<Id>) {
    forall i, j :: 0 <= i < j < |s| ==> s[i] != s[j]
  }

  /** `set.add(x)`. */
  function Add(s: seq<Id>, x: Id): seq<Id> {
    if x in s then s else s + [x]
  }

  /** `new Set(ids)`: the ids in first-occurrence order, each once. */
  function SetOf(ids: seq<Id>): (s: seq<Id>)
    ensures NoDuplicates(s)
    ensures forall x :: x in s <==> x in ids
  {
    if ids == [] then []
    else Add(SetOf(ids[..|ids| - 1]), ids[|ids| - 1])
  }

  function Ids(students: seq<Student>): (ids: seq<Id>)
    ensures |ids| == |students|
    ensures forall i :: 0 <= i < |students| ==> ids[i] == students[i].id
  {
    seq(|students|, i requires 0 <= i < |students| => students[i].id)
  }

  function Other(id: Id): Id -> bool {
    x => x != id
  }

  /** `handleToggleStudent` on the set: a selected id is removed, any other added. */
  function Toggled(s: seq<Id>, id: Id): seq<Id> {
    if id in s then Filter(s, Other(id)) else s + [id]
  }

  /** Toggling flips the one id and keeps the set a set. */
  lemma ToggledSpec(s: seq<Id>, id: Id, x: Id)
    requires NoDuplicates(s)
    ensures NoDuplicates(Toggled(s, id))
    ensures x in Toggled(s, id) <==> if x == id then id !in s else x in s
  {
    FilterMembership(s, Other(id), x);
    if id in s {
      var r := Filter(s, Other(id));
      FilterIsSubsequence(s, Other(id));
      SubsequenceDistinct(r, s);
    }
  }

  lemma {:induction false} SubsequenceDistinct(a: seq<Id>, b: seq<Id>)
    requires IsSubsequence(a, b) && NoDuplicates(b)
    ensures NoDuplicates(a)
    decreases |b|
  {
    if a != [] && b != [] {
      assert NoDuplicates(b[1..]) by {
        forall i, j | 0 <= i < j < |b[1..]| ensures b[1..][i] != b[1..][j] {
          assert b[1..][i] == b[i + 1] && b[1..][j] == b[j + 1];
        }
      }
      if a[0] == b[0] && IsSubsequence(a[1..], b[1..]) {
        SubsequenceDistinct(a[1..], b[1..]);
        forall t | 0 <= t < |a[1..]| ensures a[1..][t] != a[0] {
          SubsequenceMembers(a[1..], b[1..], a[1..][t]);
          var k :| 0 <= k < |b[1..]| && b[1..][k] == a[1..][t];
          assert b[k + 1] == a[1..][t];
        }
        forall i, j | 0 <= i < j < |a| ensures a[i] != a[j] {
          if i == 0 {
            assert a[j] == a[1..][j - 1];
          } else {
            assert a[i] == a[1..][i - 1] && a[j] == a[1..][j - 1];
          }
        }
      } else {
        SubsequenceDistinct(a, b[1..]);
      }
    }
  }

  /** Toggling the same student twice leaves the same students selected; when
      it started unselected, the very same set. */
  lemma ToggleTwice(s: seq<Id>, id: Id, x: Id)
    requires NoDuplicates(s)
    ensures x in Toggled(Toggled(s, id), id) <==> x in s
    ensures id !in s ==> Toggled(Toggled(s, id), id) == s
  {
    ToggledSpec(s, id, x);
    ToggledSpec(Toggled(s, id), id, x);
    if id !in s {
      FilterAppend(s, [id], Other(id));
      forall i | 0 <= i < |s| ensures Other(id)(s[i]) {
        assert s[i] in s;
      }
      FilterAll(s, Other(id));
      assert Filter([id], Other(id)) == Filter([], Other(id));
    }
  }

  /** An `attendance_records` row the dialog inserts. */
  datatype NewRecord = NewRecord(studentId: Id, sessionId: Id, subjectId: Id, createdAt: Instant)

  function RecordsFor(ids: seq<Id>, sessionId: Id, subjectId: Id, at: Instant): (rows: seq<NewRecord>)
    ensures |rows| == |ids|
    ensures forall i :: 0 <= i < |ids| ==> rows[i] == NewRecord(ids[i], sessionId, subjectId, at)
  {
    seq(|ids|, i requires 0 <= i < |ids| => NewRecord(ids[i], sessionId, subjectId, at))
  }

  /** What the dialog writes: the new session's subject and time, and the
      records, or none when nobody is selected. */
  datatype Submission = Submission(subjectId: Id, sessionAt: Instant, records: Option<seq<NewRecord>>)

  class ManualAttendanceModal {
    const date: Instant
    const students: seq<Student>
    const subjectId: Id
    var selected: seq<Id>

    /** The selection is a `Set`: no id twice. */
    predicate Valid()
      reads this
    {
      NoDuplicates(selected)
    }

    /** Every student of the subject starts selected. */
    constructor (date: Instant, students: seq<Student>, subjectId: Id)
      ensures this.date == date && this.students == students && this.subjectId == subjectId
      ensures selected == SetOf(Ids(students)) && Valid()
    {
      this.date := date;
      this.students := students;
      this.subjectId := subjectId;
      selected := SetOf(Ids(students));
    }

    method Toggle(studentId: Id)
      requires Valid()
      modifies this
      ensures selected == Toggled(old(selected), studentId) && Valid()
    {
      ToggledSpec(selected, studentId, studentId);
      if studentId in selected {
        selected := Filter(selected, Other(studentId));
      } else {
        selected := selected + [studentId];
      }
    }

    method SelectAll()
      modifies this
      ensures selected == SetOf(Ids(students)) && Valid()
    {
      selected := SetOf(Ids(students));
    }

    method DeselectAll()
      modifies this
      ensures selected == [] && Valid()
    {
      selected := [];
    }

    /** `handleSubmit`, with the new session's id from the database. */
    method Submit(sessionId: Id) returns (r: Submission)
      requires Valid()
      ensures r.subjectId == subjectId
      ensures DayOf(r.sessionAt) == DayOf(date) && r.sessionAt == StartOf(DayOf(date)) + 12 * MsPerHour
      ensures r.records.None? <==> selected == []
      ensures r.records.Some? ==> r.records.value == RecordsFor(selected, sessionId, subjectId, r.sessionAt)
      ensures r.records.Some? ==> forall i, j :: 0 <= i < j < |r.records.value| ==>
        r.records.value[i].studentId != r.records.value[j].studentId
    {
      SubmissionRecords(selected, sessionId, subjectId, date, sessionId);
      var sessionDate := NoonOf(date);
      if |selected| > 0 {
        r := Submission(subjectId, sessionDate, Some(RecordsFor(selected, sessionId, subjectId, sessionDate)));
      } else {
        r := Submission(subjectId, sessionDate, None);
      }
    }
  }

  /** Every record of a submission is for a selected student, dated the
      chosen day, and each selected student gets exactly one. */
  lemma SubmissionRecords(selected: seq<Id>, sessionId: Id, subjectId: Id, date: Instant, x: Id)
    requires NoDuplicates(selected)
    ensures var rows := RecordsFor(selected, sessionId, subjectId, NoonOf(date));
      (forall i :: 0 <= i < |rows| ==> rows[i].studentId in selected && DayOf(rows[i].createdAt) == DayOf(date))
      && (x in selected <==> exists i :: 0 <= i < |rows| && rows[i].studentId == x)
      && (forall i, j :: 0 <= i < j < |rows| ==> rows[i].studentId != rows[j].studentId)
  {
    var rows := RecordsFor(selected, sessionId, subjectId, NoonOf(date));
    if x in selected {
      var i :| 0 <= i < |selected| && selected[i] == x;
      assert rows[i].studentId == x;
    }
  }

  /** After selecting all, an id is selected exactly when some student of the
      list has it. */
  lemma SelectAllSpec(students: seq<Student>, x: Id)
    ensures x in SetOf(Ids(students)) <==> exists i :: 0 <= i < |students| && students[i].id == x
  {
    if x in Ids(students) {
      var i :| 0 <= i < |students| && Ids(students)[i] == x;
      assert students[i].id == x;
    }
    if exists i :: 0 <= i < |students| && students[i].id == x {
      var i :| 0 <= i < |students| && students[i].id == x;
      assert Ids(students)[i] == x;
    }
  }
}
