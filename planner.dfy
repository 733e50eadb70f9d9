/** The class planner: a pasted tab-separated syllabus, or a generated topic
    list, becomes one planned class per topic, each dated on the next
    scheduled weekday. */
module Planner {
  import opened Wrappers
  import opened Dates
  import opened Seqs
  import opened Text
  import opened Types

  /** A topic to be scheduled: a title and an optional description. */
  datatype Topic = Topic(title: string, description: Option<string>)

  /** A `planned_classes` row before the database assigns `id` and `created_at`. */
  datatype NewPlannedClass = NewPlannedClass(
    subjectId: Id,
    classDate: Day,
    title: string,
    description: Option<string>,
    status: ClassStatus)

  // ---------------------------------------------------------------- next scheduled weekday

  /** r is the first day on or after d whose weekday (Monday 1 .. Sunday 7)
      is one of the scheduled days. */
  predicate IsNextScheduled(days: seq<int>, d: Day, r: Day) {
    d <= r && IsoWeekday(r) in days &&
    forall x :: d <= x < r ==> IsoWeekday(x) !in days
  }

  /** The loop stops only if some scheduled day is a real weekday. */
  predicate HasWeekday(days: seq<int>) {
    exists i :: 0 <= i < |days| && 1 <= days[i] <= 7
  }

  /** With a real weekday among the scheduled days, one comes up within a week. */
  lemma ScheduledWithinAWeek(days: seq<int>, d: Day) returns (r: Day)
    requires HasWeekday(days)
    ensures d <= r < d + 7 && IsoWeekday(r) in days
  {
    var i :| 0 <= i < |days| && 1 <= days[i] <= 7;
    var w := IsoWeekday(d);
    var k := (days[i] - w + 7) % 7;
    IsoWeekdayShift(d, k);
    assert (w - 1 + k) % 7 == days[i] - 1;
    r := d + k;
  }

  /** The next scheduled day is unique. */
  lemma NextScheduledUnique(days: seq<int>, d: Day, r1: Day, r2: Day)
    requires IsNextScheduled(days, d, r1) && IsNextScheduled(days, d, r2)
    ensures r1 == r2
  {
  }

  /** The next scheduled day is less than a week away. */
  lemma NextScheduledWithinAWeek(days: seq<int>, d: Day, r: Day)
    requires HasWeekday(days) && IsNextScheduled(days, d, r)
    ensures r < d + 7
  {
    var s := ScheduledWithinAWeek(days, d);
    assert !(d <= s < r && IsoWeekday(s) in days) || IsoWeekday(s) !in days;
  }

  /** Without a real weekday the inner `while (true)` never breaks: no day has
      a scheduled weekday, so the planner loops for ever. */
  lemma NoWeekdayNeverStops(days: seq<int>, d: Day)
    requires !HasWeekday(days)
    ensures IsoWeekday(d) !in days
  {
  }

  // ---------------------------------------------------------------- class-date assignment

  /** The rows the date loop writes: one planned row per topic, in order; the
      first dated on the next scheduled day from `start`, each later one on the
      next scheduled day after the previous class. */
  predicate Scheduled(subjectId: Id, days: seq<int>, start: Day, topics: seq<Topic>, rows: seq<NewPlannedClass>) {
    |rows| == |topics| &&
    (forall i :: 0 <= i < |rows| ==>
      rows[i] == NewPlannedClass(subjectId, rows[i].classDate, topics[i].title, topics[i].description, Planned)) &&
    (|rows| > 0 ==> IsNextScheduled(days, start, rows[0].classDate)) &&
    (forall i :: 0 < i < |rows| ==> IsNextScheduled(days, rows[i - 1].classDate + 1, rows[i].classDate))
  }

  /** The date loop shared by the bulk-add and the generator dialogs:
      `currentDate` starts at `start` (noon UTC, so its UTC date is `start`),
      moves forward to a scheduled weekday, takes one topic, and moves on a day. */
  method AssignClassDates(subjectId: Id, days: seq<int>, start: Day, topics: seq<Topic>)
    returns (rows: seq<NewPlannedClass>)
    requires HasWeekday(days)
    ensures Scheduled(subjectId, days, start, topics, rows)
  {
    var currentDate := start;
    rows := [];
    for i := 0 to |topics|
      invariant Scheduled(subjectId, days, start, topics[..i], rows)
      invariant i == 0 ==> currentDate == start
      invariant i > 0 ==> currentDate == rows[i - 1].classDate + 1
    {
      ghost var from := currentDate;
      ghost var target := ScheduledWithinAWeek(days, currentDate);
      while IsoWeekday(currentDate) !in days
        invariant from <= currentDate <= target
        invariant forall x :: from <= x < currentDate ==> IsoWeekday(x) !in days
        decreases target - currentDate
      {
        currentDate := currentDate + 1;
      }
      rows := rows + [NewPlannedClass(subjectId, currentDate, topics[i].title, topics[i].description, Planned)];
      currentDate := currentDate + 1;
    }
    assert topics[..|topics|] == topics;
  }

  /** Every class falls on a scheduled weekday, no earlier than `start`, and the
      dates strictly increase, less than a week apart. */
  lemma ScheduledDates(subjectId: Id, days: seq<int>, start: Day, topics: seq<Topic>, rows: seq<NewPlannedClass>)
    requires HasWeekday(days) && Scheduled(subjectId, days, start, topics, rows)
    ensures forall i :: 0 <= i < |rows| ==> IsoWeekday(rows[i].classDate) in days && start <= rows[i].classDate
    ensures forall i, j :: 0 <= i < j < |rows| ==> rows[i].classDate < rows[j].classDate
    ensures |rows| > 0 ==> rows[0].classDate < start + 7
    ensures forall i :: 0 < i < |rows| ==> rows[i].classDate < rows[i - 1].classDate + 8
  {
    forall i | 0 < i < |rows| ensures rows[i].classDate < rows[i - 1].classDate + 8 {
      NextScheduledWithinAWeek(days, rows[i - 1].classDate + 1, rows[i].classDate);
    }
    if |rows| > 0 {
      NextScheduledWithinAWeek(days, start, rows[0].classDate);
    }
    forall j | 0 <= j < |rows| ensures IsoWeekday(rows[j].classDate) in days && start <= rows[j].classDate {
      Ascending(subjectId, days, start, topics, rows, j);
      if j > 0 {
        assert IsNextScheduled(days, rows[j - 1].classDate + 1, rows[j].classDate);
      }
    }
    forall i, j | 0 <= i < j < |rows| ensures rows[i].classDate < rows[j].classDate {
      Ascending(subjectId, days, start, topics, rows, j);
    }
  }

  lemma {:induction false} Ascending(subjectId: Id, days: seq<int>, start: Day, topics: seq<Topic>, rows: seq<NewPlannedClass>, j: int)
    requires Scheduled(subjectId, days, start, topics, rows) && 0 <= j < |rows|
    ensures start <= rows[j].classDate
    ensures forall i :: 0 <= i < j ==> rows[i].classDate < rows[j].classDate
  {
    if j > 0 {
      Ascending(subjectId, days, start, topics, rows, j - 1);
    }
  }

  /** The rows are determined by the topics, the schedule and the start date. */
  lemma {:induction false} ScheduledUnique(subjectId: Id, days: seq<int>, start: Day, topics: seq<Topic>,
                                           rows1: seq<NewPlannedClass>, rows2: seq<NewPlannedClass>)
    requires Scheduled(subjectId, days, start, topics, rows1) && Scheduled(subjectId, days, start, topics, rows2)
    ensures rows1 == rows2
  {
    forall j | 0 <= j < |rows1| ensures rows1[j] == rows2[j] {
      SameDate(subjectId, days, start, topics, rows1, rows2, j);
    }
  }

  lemma {:induction false} SameDate(subjectId: Id, days: seq<int>, start: Day, topics: seq<Topic>,
                                    rows1: seq<NewPlannedClass>, rows2: seq<NewPlannedClass>, j: int)
    requires Scheduled(subjectId, days, start, topics, rows1) && Scheduled(subjectId, days, start, topics, rows2)
    requires 0 <= j < |rows1|
    ensures rows1[j].classDate == rows2[j].classDate
  {
    if j == 0 {
      NextScheduledUnique(days, start, rows1[0].classDate, rows2[0].classDate);
    } else {
      SameDate(subjectId, days, start, topics, rows1, rows2, j - 1);
      NextScheduledUnique(days, rows1[j - 1].classDate + 1, rows1[j].classDate, rows2[j].classDate);
    }
  }

  /** Holidays are not skipped: with Tuesday classes from Monday 2025-09-15,
      the first class is the public holiday 2025-09-16. */
  lemma HolidaysAreNotSkipped(subjectId: Id, topics: seq<Topic>, rows: seq<NewPlannedClass>)
    requires |topics| > 0 && Scheduled(subjectId, [2], ToDay(Date(2025, 9, 15)), topics, rows)
    ensures rows[0].classDate == ToDay(Date(2025, 9, 16))
  {
    MidSeptember();
    var start := 20346;
    assert IsNextScheduled([2], start, start + 1);
    NextScheduledUnique([2], start, rows[0].classDate, start + 1);
  }

  /** 2025-09-15 is day 20346, a Monday, and 2025-09-16 the day after. */
  lemma MidSeptember()
    ensures ToDay(Date(2025, 9, 15)) == 20346 && ToDay(Date(2025, 9, 16)) == 20347
    ensures IsoWeekday(20346) == 1
  {
  }

  // ---------------------------------------------------------------- the bulk-add parser

  /** The header-row test: the lower-cased line mentions "tema" or "subtema". */
  predicate IsHeader(line: string) {
    Contains(ToLower(line), "tema") || Contains(ToLower(line), "subtema")
  }

  /** "subtema" contains "tema", so the second test never changes the outcome. */
  lemma HeaderIsTema(line: string)
    ensures IsHeader(line) <==> Contains(ToLower(line), "tema")
  {
    if Contains(ToLower(line), "subtema") {
      ContainsInner(ToLower(line), "subtema", 3, 7);
      TemaInSubtema();
    }
  }

  lemma TemaInSubtema()
    ensures "subtema"[3..7] == "tema"
  {
  }

  /** `lines.shift()` on a header row. */
  function DropHeader(lines: seq<string>): (body: seq<string>)
    ensures |lines| > 0 && IsHeader(lines[0]) ==> body == lines[1..]
    ensures |lines| == 0 || !IsHeader(lines[0]) ==> body == lines
  {
    if |lines| > 0 && IsHeader(lines[0]) then lines[1..] else lines
  }

  /** One syllabus line: tab-separated theme, sub-theme and description. */
  function ParseLine(line: string): Option<Topic> {
    var parts := Split(line, '\t');
    if |parts| < 2 then None
    else
      var tema := Trim(parts[0]);
      var subtema := Trim(parts[1]);
      var descripcion := if |parts| > 2 then Trim(parts[2]) else "";
      Some(Topic(if tema != "" then tema + ": " + subtema else subtema, if descripcion != "" then Some(descripcion) else None))
  }

  /** A line with fewer than two fields is discarded; the title is empty only
      when both the theme and the sub-theme are blank, and starts with
      "theme: " when the theme is not; the description is the trimmed third
      field, absent when there is none or it is blank. */
  lemma ParseLineSpec(line: string)
    ensures var parts := Split(line, '\t'); var r := ParseLine(line);
      (r.None? <==> |parts| < 2) &&
      (r.Some? ==> (r.value.title == [] <==> Trim(parts[0]) == [] && Trim(parts[1]) == [])) &&
      (r.Some? && Trim(parts[0]) != [] ==> StartsWith(r.value.title, Trim(parts[0]) + ": ")) &&
      (r.Some? ==> (r.value.description.None? <==> |parts| == 2 || Trim(parts[2]) == [])) &&
      (r.Some? && r.value.description.Some? ==> r.value.description.value == Trim(parts[2]))
  {
    var parts := Split(line, '\t');
    if |parts| >= 2 {
      var tema := Trim(parts[0]);
      if tema != "" {
        assert (tema + ": " + Trim(parts[1]))[..|tema + ": "|] == tema + ": ";
      }
    }
  }

  /** A full line "A\tB\tC" of three cells gives "A: B" described as "C". */
  lemma ParseFullLine(a: string, b: string, c: string)
    requires Cell(a) && Cell(b) && Cell(c)
    ensures ParseLine(a + "\t" + (b + "\t" + c)) == Some(Topic(a + ": " + b, Some(c)))
  {
    SplitThreeCells(a, b, c);
  }

  lemma SplitThreeCells(a: string, b: string, c: string)
    requires '\t' !in a && '\t' !in b && '\t' !in c
    ensures Split(a + "\t" + (b + "\t" + c), '\t') == [a, b, c]
  {
    assert Join([c], '\t') == c;
    assert Join([b, c], '\t') == b + "\t" + c;
    assert Join([a, b, c], '\t') == a + "\t" + (b + "\t" + c);
    SplitJoin([a, b, c], '\t');
  }

  /** A trimmed line never starts with a tab, so whenever it has a second
      field its theme is non-blank: the untitled-theme branch of the line
      parser is never taken on lines the modal has trimmed. */
  lemma TrimmedLineHasTheme(line: string)
    requires Trim(line) == line
    ensures |Split(line, '\t')| >= 2 ==> Trim(Split(line, '\t')[0]) != ""
  {
    if line != [] {
      TrimEnds(line);
      var first := Split(line, '\t')[0];
      assert first[0] == line[0];
      TrimEmpty(first);
    }
  }

  /** Every line that reaches the parser in the bulk-add path has a
      non-blank theme whenever it has a sub-theme field. */
  lemma BulkThemesNeverBlank(text: string)
    ensures var lines := DropHeader(TrimmedLines(text));
      forall i :: 0 <= i < |lines| && |Split(lines[i], '\t')| >= 2 ==> Trim(Split(lines[i], '\t')[0]) != ""
  {
    var all := TrimmedLines(text);
    var lines := DropHeader(all);
    TrimmedLinesSpec(text);
    forall i | 0 <= i < |lines| && |Split(lines[i], '\t')| >= 2
      ensures Trim(Split(lines[i], '\t')[0]) != ""
    {
      if |all| > 0 && IsHeader(all[0]) {
        assert lines[i] == all[i + 1];
      }
      assert lines[i] in all;
      TrimmedLineHasTheme(lines[i]);
    }
  }

  /** A row with an empty theme cell, "\tB\tC", loses its leading tab to the
      trim: the sub-theme becomes the theme, the description the sub-theme,
      and the topic is "B: C" with no description. */
  lemma EmptyThemeShiftsColumns(b: string, c: string)
    requires Cell(b) && Cell(c) && !IsHeader(b + "\t" + c)
    ensures BulkTopics("\t" + (b + "\t" + c)) == [Topic(b + ": " + c, None)]
  {
    var t := b + "\t" + c;
    CellEnds(b);
    CellEnds(c);
    assert t[0] == b[0] && t[|t| - 1] == c[|c| - 1];
    TrimLeadingTab(t);
    BulkOfOneLine("\t" + t, t);
    ParseTwoCells(b, c);
  }

  /** Two cells separated by a tab parse to "theme: sub-theme" with no description. */
  lemma ParseTwoCells(b: string, c: string)
    requires Cell(b) && Cell(c)
    ensures ParseTopics([b + "\t" + c]) == [Topic(b + ": " + c, None)]
  {
    var t := b + "\t" + c;
    SplitTwoCells(b, c);
    assert ParseLine(t) == Some(Topic(b + ": " + c, None));
    assert Gather([t], Kept) == Kept(t) + Gather([], Kept);
  }

  lemma SplitTwoCells(b: string, c: string)
    requires '\t' !in b && '\t' !in c
    ensures Split(b + "\t" + c, '\t') == [b, c]
  {
    assert Join([c], '\t') == c;
    assert Join([b, c], '\t') == b + "\t" + c;
    SplitJoin([b, c], '\t');
  }

  /** A row with only a sub-theme after an empty theme cell, "\tB", becomes
      the one-field line "B" and gives no topic. */
  lemma LoneSubThemeIsDropped(b: string)
    requires Cell(b) && !IsHeader(b)
    ensures BulkTopics("\t" + b) == []
  {
    CellEnds(b);
    TrimLeadingTab(b);
    BulkOfOneLine("\t" + b, b);
    assert Join([b], '\t') == b;
    SplitJoin([b], '\t');
    assert Gather([b], Kept) == Kept(b) + Gather([], Kept);
  }

  /** A non-blank, already trimmed cell of one line. */
  predicate Cell(x: string) {
    x != [] && Trim(x) == x && '\t' !in x && '\n' !in x
  }

  lemma CellEnds(x: string)
    requires Cell(x)
    ensures !IsWhitespace(x[0]) && !IsWhitespace(x[|x| - 1])
  {
    TrimEnds(x);
  }

  /** The bulk-add path on a one-line text: the line is trimmed, kept unless
      blank or a header, and parsed. */
  lemma BulkOfOneLine(line: string, t: string)
    requires '\n' !in line && Trim(line) == t && t != [] && !IsHeader(t)
    ensures BulkTopics(line) == ParseTopics([t])
  {
    SplitOneLine(line);
    TrimmedOne(line, t);
  }

  lemma TrimLeadingTab(t: string)
    requires t != [] && !IsWhitespace(t[0]) && !IsWhitespace(t[|t| - 1])
    ensures Trim("\t" + t) == t
  {
    var s := "\t" + t;
    assert s[1..] == t;
    assert s[1] == t[0];
    assert LeadingSpace(s) == 1;
    assert TrailingSpace(t) == 0;
    assert s[1..1 + |t|] == t;
  }

  lemma SplitOneLine(line: string)
    requires '\n' !in line
    ensures Split(line, '\n') == [line]
  {
    assert Join([line], '\n') == line;
    SplitJoin([line], '\n');
  }

  lemma TrimmedOne(line: string, t: string)
    requires Split(line, '\n') == [line] && Trim(line) == t && t != []
    ensures TrimmedLines(line) == [t]
  {
    assert TrimAll([line]) == [t];
    assert Filter([t], NonEmpty) == [t];
  }

  /** A line without a tab is discarded. */
  lemma ParseNoTab()
    ensures ParseLine("A B") == None
  {
    assert Join(["A B"], '\t') == "A B";
    SplitJoin(["A B"], '\t');
  }

  /** What one line contributes: its topic when it parses with a non-empty title. */
  function Kept(line: string): (ts: seq<Topic>)
    ensures |ts| <= 1
    ensures forall t :: t in ts <==> t.title != [] && ParseLine(line) == Some(t)
  {
    var r := ParseLine(line);
    if r.Some? && r.value.title != [] then [r.value] else []
  }

  /** Kept topics: lines that parse and give a non-empty title, in order. */
  function ParseTopics(lines: seq<string>): seq<Topic> {
    Gather(lines, Kept)
  }

  /** A topic is kept exactly when some line parses to it with a non-empty title. */
  lemma ParseTopicsMembership(lines: seq<string>, t: Topic)
    ensures t in ParseTopics(lines) <==> t.title != [] && exists i :: 0 <= i < |lines| && ParseLine(lines[i]) == Some(t)
  {
    GatherMembership(lines, Kept, t);
  }

  /** No kept topic has an empty title. */
  lemma ParseTopicsTitles(lines: seq<string>)
    ensures forall i :: 0 <= i < |ParseTopics(lines)| ==> ParseTopics(lines)[i].title != []
  {
    forall i | 0 <= i < |ParseTopics(lines)| ensures ParseTopics(lines)[i].title != [] {
      ParseTopicsMembership(lines, ParseTopics(lines)[i]);
    }
  }

  /** Parsing keeps line order: the topics of two blocks of lines are the
      topics of the first followed by those of the second. */
  lemma ParseTopicsAppend(a: seq<string>, b: seq<string>)
    ensures ParseTopics(a + b) == ParseTopics(a) + ParseTopics(b)
  {
    GatherAppend(a, b, Kept);
  }

  /** The topics of a pasted syllabus: trimmed non-blank lines, header dropped,
      then parsed. */
  function BulkTopics(text: string): seq<Topic> {
    ParseTopics(DropHeader(TrimmedLines(text)))
  }

  datatype BulkAddError = MissingTextOrDate | MissingSchedule | NoValidTopics

  /** The guards of `handleSave` in order, and the topics when they pass. */
  function CheckBulkAdd(schedule: Option<seq<ScheduleEntry>>, text: string, startDate: Option<Day>): (r: Result<seq<Topic>, BulkAddError>)
    ensures r == Err(MissingTextOrDate) <==> AllWhitespace(text) || startDate.None?
    ensures !AllWhitespace(text) && startDate.Some? ==>
      (r == Err(MissingSchedule) <==> schedule.None? || schedule.value == [])
    ensures r == Err(NoValidTopics) <==>
      !AllWhitespace(text) && startDate.Some? && schedule.Some? && schedule.value != [] && BulkTopics(text) == []
    ensures r.Ok? ==> r.value == BulkTopics(text) && r.value != [] && startDate.Some? && schedule.Some? && schedule.value != []
  {
    TrimEmpty(text);
    if Trim(text) == [] || startDate.None? then Err(MissingTextOrDate)
    else if schedule.None? || schedule.value == [] then Err(MissingSchedule)
    else if BulkTopics(text) == [] then Err(NoValidTopics)
    else Ok(BulkTopics(text))
  }

  /** A stored schedule whose days are all weekdays 1..7, as the schedule
      editors produce; on any other schedule the date loop never ends. */
  predicate WeekdaySchedule(schedule: Option<seq<ScheduleEntry>>) {
    schedule.Some? ==> forall i :: 0 <= i < |schedule.value| ==> 1 <= schedule.value[i].day <= 7
  }

  lemma WeekdayScheduleStops(schedule: seq<ScheduleEntry>)
    requires WeekdaySchedule(Some(schedule)) && schedule != []
    ensures HasWeekday(ScheduleDays(schedule))
  {
    assert 1 <= ScheduleDays(schedule)[0] <= 7;
  }

  /** `handleSave` of the bulk-add dialog: the rows it inserts, or the error it shows. */
  method BulkAdd(subject: Subject, text: string, startDate: Option<Day>)
    returns (r: Result<seq<NewPlannedClass>, BulkAddError>)
    requires WeekdaySchedule(subject.schedule)
    ensures r.Err? <==> CheckBulkAdd(subject.schedule, text, startDate).Err?
    ensures r.Err? ==> r.error == CheckBulkAdd(subject.schedule, text, startDate).error
    ensures r.Ok? ==> Scheduled(subject.id, ScheduleDays(subject.schedule.value), startDate.value, BulkTopics(text), r.value)
  {
    var check := CheckBulkAdd(subject.schedule, text, startDate);
    if check.Err? {
      return Err(check.error);
    }
    WeekdayScheduleStops(subject.schedule.value);
    var rows := AssignClassDates(subject.id, ScheduleDays(subject.schedule.value), startDate.value, check.value);
    r := Ok(rows);
  }

  // ---------------------------------------------------------------- the syllabus generator

  /** One generated topic (`titulo`, `descripcion`). */
  datatype GeneratedTopic = GeneratedTopic(titulo: string, descripcion: string)

  /** The parsed reply: a list of topics, or anything else. */
  datatype GeneratorReply = NotAList | TopicList(topics: seq<GeneratedTopic>)

  datatype GeneratorError = IncompleteForm | NoSchedule | InvalidReply

  /** The guards of `handleGenerate` before the generator is asked: a non-blank
      description, a positive class count (empty counts as missing), a start
      date, and a non-empty schedule. */
  function CheckGeneratorForm(schedule: Option<seq<ScheduleEntry>>, description: string, numClasses: Option<real>,
                              startDate: Option<Day>): (r: Option<GeneratorError>)
    ensures r == Some(IncompleteForm) <==>
      AllWhitespace(description) || numClasses.None? || numClasses.value <= 0.0 || startDate.None?
    ensures r.Some? && r.value == NoSchedule <==>
      !(AllWhitespace(description) || numClasses.None? || numClasses.value <= 0.0 || startDate.None?) &&
      (schedule.None? || schedule.value == [])
    ensures r != Some(InvalidReply)
  {
    TrimEmpty(description);
    if Trim(description) == [] || numClasses.None? || numClasses.value <= 0.0 || startDate.None? then Some(IncompleteForm)
    else if schedule.None? || schedule.value == [] then Some(NoSchedule)
    else None
  }

  function AsTopic(g: GeneratedTopic): Topic {
    Topic(g.titulo, Some(g.descripcion))
  }

  function AsTopics(gs: seq<GeneratedTopic>): (ts: seq<Topic>)
    ensures |ts| == |gs|
    ensures forall i :: 0 <= i < |gs| ==> ts[i] == AsTopic(gs[i])
  {
    seq(|gs|, i requires 0 <= i < |gs| => AsTopic(gs[i]))
  }

  /** `handleGenerate`, with the generator's reply as input: the rows it
      inserts, or the error it shows. One row per returned topic; the
      requested number of classes plays no part in the rows. */
  method Generate(subject: Subject, description: string, numClasses: Option<real>, startDate: Option<Day>,
                  reply: GeneratorReply)
    returns (r: Result<seq<NewPlannedClass>, GeneratorError>)
    requires WeekdaySchedule(subject.schedule)
    ensures CheckGeneratorForm(subject.schedule, description, numClasses, startDate).Some? ==>
      r == Err(CheckGeneratorForm(subject.schedule, description, numClasses, startDate).value)
    ensures CheckGeneratorForm(subject.schedule, description, numClasses, startDate).None? ==>
      (r == Err(InvalidReply) <==> (reply.NotAList? || reply.topics == []))
    ensures r.Ok? ==>
      (reply.TopicList? && Scheduled(subject.id, ScheduleDays(subject.schedule.value), startDate.value, AsTopics(reply.topics), r.value))
  {
    var formError := CheckGeneratorForm(subject.schedule, description, numClasses, startDate);
    if formError.Some? {
      return Err(formError.value);
    }
    if reply.NotAList? || reply.topics == [] {
      return Err(InvalidReply);
    }
    WeekdayScheduleStops(subject.schedule.value);
    var rows := AssignClassDates(subject.id, ScheduleDays(subject.schedule.value), startDate.value, AsTopics(reply.topics));
    r := Ok(rows);
  }
}
