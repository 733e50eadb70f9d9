/** What the scanner pages write to the `grades` table: upserts keyed by
    (`student_id`, `assignment_id`), and the score field the pages read. */
module GradeStore {
  import opened Types

  /** The value of a `type="number"` input: empty, or a valid number (the
      browser reports anything else as empty). */
  datatype NumberInput = Blank | Number(value: real)

  /** A score is 0 to 10, both included. */
  predicate InRange(v: real) {
    0.0 <= v <= 10.0
  }

  datatype GradeUpsert = GradeUpsert(studentId: Id, assignmentId: Id, subjectId: Id, score: real)

  datatype Stored = Stored(subjectId: Id, score: real)

  /** The table, one row per (student, assignment) pair. */
  type GradeTable = map<(Id, Id), Stored>

  function Key(row: GradeUpsert): (Id, Id) {
    (row.studentId, row.assignmentId)
  }

  /** `upsert(rows, { onConflict: 'student_id, assignment_id' })`. */
  function UpsertAll(table: GradeTable, rows: seq<GradeUpsert>): GradeTable {
    if rows == [] then table
    else
      var last := rows[|rows| - 1];
      UpsertAll(table, rows[..|rows| - 1])[Key(last) := Stored(last.subjectId, last.score)]
  }

  predicate DistinctPairs(rows: seq<GradeUpsert>) {
    forall i, j :: 0 <= i < j < |rows| ==> Key(rows[i]) != Key(rows[j])
  }

  /** A pair named by a row now holds that row's score, replacing whatever
      was there; every other pair is untouched. */
  lemma {:induction false} UpsertAllSpec(table: GradeTable, rows: seq<GradeUpsert>, k: (Id, Id))
    requires DistinctPairs(rows)
    ensures k in UpsertAll(table, rows) <==> k in table || exists i :: 0 <= i < |rows| && Key(rows[i]) == k
    ensures forall i :: 0 <= i < |rows| && Key(rows[i]) == k ==>
      UpsertAll(table, rows)[k] == Stored(rows[i].subjectId, rows[i].score)
    ensures (forall i :: 0 <= i < |rows| ==> Key(rows[i]) != k) && k in table ==> UpsertAll(table, rows)[k] == table[k]
  {
    if rows != [] {
      var init := rows[..|rows| - 1];
      assert DistinctPairs(init) by {
        forall i, j | 0 <= i < j < |init| ensures Key(init[i]) != Key(init[j]) {
          assert init[i] == rows[i] && init[j] == rows[j];
        }
      }
      UpsertAllSpec(table, init, k);
      forall i | 0 <= i < |init| ensures init[i] == rows[i] {
      }
      if exists i :: 0 <= i < |rows| && Key(rows[i]) == k {
        var i :| 0 <= i < |rows| && Key(rows[i]) == k;
        if i < |init| {
          assert init[i] == rows[i];
        }
      }
    }
  }
}
