/** The add-students dialog: one student per non-blank line of the pasted
    text, all enrolled in the subject. */
module AddStudents {
  import opened Wrappers
  import opened Seqs
  import opened Text
  import opened Types

  /** A `students` row before the database assigns `id` and `created_at`. */
  datatype NewStudent = NewStudent(name: string, subjectId: Id)

  datatype AddStudentsError = NoNames

  function RowsFor(names: seq<string>, subjectId: Id): (rows: seq<NewStudent>)
    ensures |rows| == |names|
    ensures forall i :: 0 <= i < |names| ==> rows[i] == NewStudent(names[i], subjectId)
  {
    seq(|names|, i requires 0 <= i < |names| => NewStudent(names[i], subjectId))
  }

  /** `handleSubmit`: the rows to insert, or the error when no line holds a name. */
  function Submit(text: string, subjectId: Id): (r: Result<seq<NewStudent>, AddStudentsError>)
    ensures r.Err? <==> TrimmedLines(text) == []
    ensures r.Ok? ==> r.value == RowsFor(TrimmedLines(text), subjectId)
  {
    var names := TrimmedLines(text);
    if |names| == 0 then Err(NoNames) else Ok(RowsFor(names, subjectId))
  }

  /** Each inserted name is a trimmed non-blank input line, every such line is
      inserted, and there are never more rows than lines. */
  lemma SubmitNames(text: string, subjectId: Id, name: string)
    requires Submit(text, subjectId).Ok?
    ensures var rows := Submit(text, subjectId).value;
      |rows| <= |Split(text, '\n')|
      && (forall i :: 0 <= i < |rows| ==> rows[i].subjectId == subjectId && rows[i].name != [] && Trim(rows[i].name) == rows[i].name)
      && ((exists i :: 0 <= i < |rows| && rows[i].name == name) <==> name != [] && name in TrimAll(Split(text, '\n')))
  {
    var rows := Submit(text, subjectId).value;
    var names := TrimmedLines(text);
    assert rows == RowsFor(names, subjectId);
    TrimmedLinesSpec(text);
    forall i | 0 <= i < |rows|
      ensures rows[i].subjectId == subjectId && rows[i].name != [] && Trim(rows[i].name) == rows[i].name
    {
      assert rows[i] == NewStudent(names[i], subjectId);
      assert names[i] in names;
    }
    assert (exists i :: 0 <= i < |rows| && rows[i].name == name) <==> name in names by {
      if name in names {
        var i :| 0 <= i < |names| && names[i] == name;
        assert rows[i].name == name;
      }
    }
  }

  /** Blank text, or text of blank lines only, inserts nothing. */
  lemma BlankTextIsRejected(text: string, subjectId: Id)
    requires forall i :: 0 <= i < |Split(text, '\n')| ==> AllWhitespace(Split(text, '\n')[i])
    ensures Submit(text, subjectId).Err?
  {
    TrimmedLinesSpec(text);
    if TrimmedLines(text) != [] {
      var x := TrimmedLines(text)[0];
      assert x in TrimmedLines(text);
      var i :| 0 <= i < |Split(text, '\n')| && TrimAll(Split(text, '\n'))[i] == x;
      TrimEmpty(Split(text, '\n')[i]);
    }
  }

  /** A name, a blank line and the name again split into those three lines. */
  lemma SplitRepeated(name: string)
    requires '\n' !in name
    ensures Split(name + "\n\n" + name, '\n') == [name, "", name]
  {
    var parts := [name, "", name];
    assert Join(parts, '\n') == name + "\n\n" + name by {
      assert parts[1..] == ["", name] && parts[1..][1..] == [name];
      assert Join(["", name], '\n') == "" + ['\n'] + name;
    }
    SplitJoin(parts, '\n');
  }

  /** Repeated names are kept, each in its place: a name, a blank line and
      the same name again give two rows. */
  lemma DuplicatesAreKept(name: string, subjectId: Id)
    requires name != [] && '\n' !in name && Trim(name) == name
    ensures Submit(name + "\n\n" + name, subjectId) == Ok([NewStudent(name, subjectId), NewStudent(name, subjectId)])
  {
    KeepsBoth(name);
    var rows := RowsFor([name, name], subjectId);
    assert rows == [NewStudent(name, subjectId), NewStudent(name, subjectId)];
  }

  /** The blank line is dropped and both copies of the name are kept. */
  lemma KeepsBoth(name: string)
    requires name != [] && '\n' !in name && Trim(name) == name
    ensures TrimmedLines(name + "\n\n" + name) == [name, name]
  {
    SplitRepeated(name);
    TrimRepeated(name);
    FilterRepeated(name);
  }

  lemma TrimRepeated(name: string)
    requires Trim(name) == name
    ensures TrimAll([name, "", name]) == [name, "", name]
  {
    TrimUnpadded("");
    var trimmed := TrimAll([name, "", name]);
    assert trimmed[0] == name && trimmed[1] == "" && trimmed[2] == name;
  }

  lemma FilterRepeated(name: string)
    requires name != []
    ensures Filter([name, "", name], NonEmpty) == [name, name]
  {
    var last: seq<string> := [name];
    assert last[1..] == [] && Filter(last, NonEmpty) == [name];
    var tail: seq<string> := ["", name];
    assert tail[1..] == last && Filter(tail, NonEmpty) == [name];
    var parts: seq<string> := [name, "", name];
    assert parts[1..] == tail;
  }
}
