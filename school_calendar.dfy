/** The school's fixed 2025-2026 event calendar and the date-to-event map built
    from it. The same table and the same construction appear in the subject page
    and in the attendance calendar. */
module SchoolCalendar {
  import opened Dates

  datatype EventKind = GeneralEvent | Holiday | Exam | Grades | Vacation

  /** A calendar entry: one date, or an inclusive range of dates. */
  datatype CalendarEvent =
    | Single(title: string, date: Day, kind: EventKind)
    | Range(title: string, start: Day, end: Day, kind: EventKind)

  /** The day number of a (year, month, day) triple. */
  function On(y: int, m: int, d: int): Day
    requires 1 <= m <= 12
  {
    ToDay(Date(y, m, d))
  }

  /** Dates are day numbers, each with its calendar date beside it; the
      lemmas below check every one against `On`. */
  const SchoolEvents: seq<CalendarEvent> := [
    Single("Inicio de semestre", 20332, GeneralEvent),               // 2025-09-01
    Single("Suspensión de clases", 20347, Holiday),                  // 2025-09-16
    Single("Efemerides", 20362, GeneralEvent),                       // 2025-10-01
    Range("Aplicación de exámenes 1er parcial", 20367, 20369, Exam), // 2025-10-06 .. 2025-10-08
    Range("Exámenes Extemporáneos", 20372, 20373, Exam),             // 2025-10-11 .. 2025-10-12
    Single("Entrega de calif. 1er parcial", 20378, Grades),          // 2025-10-17
    Range("Aplicación de exámenes 2do parcial", 20395, 20397, Exam), // 2025-11-03 .. 2025-11-05
    Single("Efemerides", 20398, GeneralEvent),                       // 2025-11-06
    Range("Exámenes Extemporáneos", 20403, 20404, Exam),             // 2025-11-11 .. 2025-11-12
    Single("Entrega de calif. 2do parcial", 20406, Grades),          // 2025-11-14
    Single("Suspensión de clases", 20409, Holiday),                  // 2025-11-17
    Range("Semana de conferencias", 20423, 20427, GeneralEvent),     // 2025-12-01 .. 2025-12-05
    Range("Aplicación de exámenes 3er parcial", 20425, 20427, Exam), // 2025-12-03 .. 2025-12-05
    Range("Exámenes Extemporáneos", 20430, 20431, Exam),             // 2025-12-08 .. 2025-12-09
    Single("Entrega de calif. 3er parcial", 20434, Grades),          // 2025-12-12
    Single("Efemerides", 20438, GeneralEvent),                       // 2025-12-16
    Range("Aplicación de exámenes 4o parcial", 20439, 20441, Exam),  // 2025-12-17 .. 2025-12-19
    Single("Fin de Semestre", 20441, GeneralEvent),                  // 2025-12-19
    Range("Periodo Vacacional", 20441, 20487, Vacation),             // 2025-12-19 .. 2026-02-03
    Range("Exámenes Extemporáneos", 20458, 20459, Exam),             // 2026-01-05 .. 2026-01-06
    Single("Entrega de calif. Finales", 20462, Grades),              // 2026-01-09
    Single("Aplicación de exámenes extraordinarios", 20469, Exam),   // 2026-01-16
    Single("Recursamiento de Materias", 20472, GeneralEvent),        // 2026-01-19
    Single("Aplicación de exámenes extraordinarios", 20476, Exam),   // 2026-01-23
    Single("Inicio de Semestre", 20488, GeneralEvent)                // 2026-02-04
  ]

  lemma Year2025()
    ensures DaysBeforeYear(2025) == 20089 && !IsLeapYear(2025)
  {
  }

  lemma Year2026()
    ensures DaysBeforeYear(2026) == 20454 && !IsLeapYear(2026)
  {
  }

  /** The day numbers of the September and October entries, in table order. */
  lemma SeptemberOctoberDates()
    ensures On(2025, 9, 1) == 20332
    ensures On(2025, 9, 16) == 20347
    ensures On(2025, 10, 1) == 20362
    ensures On(2025, 10, 6) == 20367 && On(2025, 10, 8) == 20369
    ensures On(2025, 10, 11) == 20372 && On(2025, 10, 12) == 20373
    ensures On(2025, 10, 17) == 20378
  {
    Year2025();
  }

  /** The day numbers of the November entries, in table order. */
  lemma NovemberDates()
    ensures On(2025, 11, 3) == 20395 && On(2025, 11, 5) == 20397
    ensures On(2025, 11, 6) == 20398
    ensures On(2025, 11, 11) == 20403 && On(2025, 11, 12) == 20404
    ensures On(2025, 11, 14) == 20406
    ensures On(2025, 11, 17) == 20409
  {
    Year2025();
  }

  /** The day numbers of the December entries, in table order. */
  lemma DecemberDates()
    ensures On(2025, 12, 1) == 20423 && On(2025, 12, 5) == 20427
    ensures On(2025, 12, 3) == 20425 && On(2025, 12, 5) == 20427
    ensures On(2025, 12, 8) == 20430 && On(2025, 12, 9) == 20431
    ensures On(2025, 12, 12) == 20434
    ensures On(2025, 12, 16) == 20438
    ensures On(2025, 12, 17) == 20439 && On(2025, 12, 19) == 20441
    ensures On(2025, 12, 19) == 20441
  {
    Year2025();
  }

  /** The day numbers of the January and February entries, in table order. */
  lemma JanuaryFebruaryDates()
    ensures On(2025, 12, 19) == 20441 && On(2026, 2, 3) == 20487
    ensures On(2026, 1, 5) == 20458 && On(2026, 1, 6) == 20459
    ensures On(2026, 1, 9) == 20462
    ensures On(2026, 1, 16) == 20469
    ensures On(2026, 1, 19) == 20472
    ensures On(2026, 1, 23) == 20476
    ensures On(2026, 2, 4) == 20488
  {
    Year2025();
    Year2026();
  }

  /** The entry applies to day d: its date, or a date of its inclusive range. */
  predicate Covers(e: CalendarEvent, d: Day) {
    match e
    case Single(_, x, _) => d == x
    case Range(_, s, t, _) => s <= d <= t
  }

  /** Writes e under every day from lo to hi inclusive. */
  function Fill(m: map<Day, CalendarEvent>, e: CalendarEvent, lo: Day, hi: Day): map<Day, CalendarEvent>
    decreases hi - lo
  {
    if lo > hi then m else Fill(m[lo := e], e, lo + 1, hi)
  }

  /** Writes one entry into the map, over whatever was there. */
  function Apply(m: map<Day, CalendarEvent>, e: CalendarEvent): map<Day, CalendarEvent> {
    match e
    case Single(_, x, _) => m[x := e]
    case Range(_, s, t, _) => Fill(m, e, s, t)
  }

  lemma {:induction false} FillSpec(m: map<Day, CalendarEvent>, e: CalendarEvent, lo: Day, hi: Day, d: Day)
    ensures d in Fill(m, e, lo, hi) <==> d in m || lo <= d <= hi
    ensures lo <= d <= hi ==> Fill(m, e, lo, hi)[d] == e
    ensures d in m && !(lo <= d <= hi) ==> Fill(m, e, lo, hi)[d] == m[d]
    decreases hi - lo
  {
    if lo <= hi {
      FillSpec(m[lo := e], e, lo + 1, hi, d);
    }
  }

  /** Writing an entry adds the days it covers and sets them to it. */
  lemma ApplySpec(m: map<Day, CalendarEvent>, e: CalendarEvent, d: Day)
    ensures d in Apply(m, e) <==> d in m || Covers(e, d)
    ensures Covers(e, d) ==> Apply(m, e)[d] == e
    ensures d in m && !Covers(e, d) ==> Apply(m, e)[d] == m[d]
  {
    if e.Range? {
      FillSpec(m, e, e.start, e.end, d);
    }
  }

  /** The map after writing the entries in list order. */
  function EventMap(evs: seq<CalendarEvent>): map<Day, CalendarEvent> {
    if evs == [] then map[] else Apply(EventMap(evs[..|evs| - 1]), evs[|evs| - 1])
  }

  /** A holiday or vacation: no classes are held. */
  predicate IsNonLective(m: map<Day, CalendarEvent>, d: Day) {
    d in m && (m[d].kind == Holiday || m[d].kind == Vacation)
  }

  /** `schoolEvents.forEach(...)`: a single date is set directly, a range is
      walked from its start to its end inclusive, one day at a time. */
  method BuildEventMap(evs: seq<CalendarEvent>) returns (m: map<Day, CalendarEvent>)
    ensures m == EventMap(evs)
  {
    m := map[];
    var i := 0;
    while i < |evs|
      invariant 0 <= i <= |evs|
      invariant m == EventMap(evs[..i])
    {
      var e := evs[i];
      assert evs[..i + 1][..i] == evs[..i];
      match e {
        case Single(_, x, _) =>
          m := m[x := e];
        case Range(_, s, t, _) =>
          ghost var before := m;
          var cur := s;
          while cur <= t
            invariant Fill(m, e, cur, t) == Fill(before, e, s, t)
            decreases t - cur
          {
            m := m[cur := e];
            cur := cur + 1;
          }
      }
      i := i + 1;
    }
    assert evs[..i] == evs;
  }

  /** A day is in the map exactly when some entry covers it. */
  lemma {:induction false} EventMapDomain(evs: seq<CalendarEvent>, d: Day)
    ensures d in EventMap(evs) <==> exists i :: 0 <= i < |evs| && Covers(evs[i], d)
    decreases |evs|
  {
    if evs != [] {
      var init := evs[..|evs| - 1];
      EventMapDomain(init, d);
      ApplySpec(EventMap(init), evs[|evs| - 1], d);
      if exists i :: 0 <= i < |init| && Covers(init[i], d) {
        var i :| 0 <= i < |init| && Covers(init[i], d);
        assert evs[i] == init[i];
      }
      if exists i :: 0 <= i < |evs| && Covers(evs[i], d) {
        var i :| 0 <= i < |evs| && Covers(evs[i], d);
        if i < |init| {
          assert init[i] == evs[i];
        }
      }
    }
  }

  /** Later entries win: a day maps to the last entry that covers it. */
  lemma {:induction false} EventMapLastWriter(evs: seq<CalendarEvent>, d: Day, i: int)
    requires 0 <= i < |evs| && Covers(evs[i], d)
    requires forall j :: i < j < |evs| ==> !Covers(evs[j], d)
    ensures d in EventMap(evs) && EventMap(evs)[d] == evs[i]
    decreases |evs|
  {
    var init := evs[..|evs| - 1];
    ApplySpec(EventMap(init), evs[|evs| - 1], d);
    if i < |evs| - 1 {
      EventMapLastWriter(init, d, i);
    }
  }

  /** 2025-12-19 is the last exam day, the end of term and the first vacation
      day; the vacation entry is written last, so the day is non-lective. */
  lemma EndOfTermIsVacation()
    ensures On(2025, 12, 19) in EventMap(SchoolEvents) && EventMap(SchoolEvents)[On(2025, 12, 19)] == SchoolEvents[18]
    ensures IsNonLective(EventMap(SchoolEvents), On(2025, 12, 19))
  {
    EventMapLastWriter(SchoolEvents, On(2025, 12, 19), 18);
  }

  /** The January exam and grade days come after the vacation entry and
      overwrite it, so they are not holidays. */
  lemma JanuaryExamsAreLective()
    ensures On(2026, 1, 5) in EventMap(SchoolEvents) && EventMap(SchoolEvents)[On(2026, 1, 5)].kind == Exam
    ensures !IsNonLective(EventMap(SchoolEvents), On(2026, 1, 5))
    ensures IsNonLective(EventMap(SchoolEvents), On(2026, 1, 7))
  {
    EventMapLastWriter(SchoolEvents, On(2026, 1, 5), 19);
    EventMapLastWriter(SchoolEvents, On(2026, 1, 7), 18);
  }

  /** The third-term exams overwrite the conference week on 2025-12-03..05. */
  lemma ExamsOverwriteConferences()
    ensures On(2025, 12, 4) in EventMap(SchoolEvents) && EventMap(SchoolEvents)[On(2025, 12, 4)] == SchoolEvents[12]
    ensures On(2025, 12, 2) in EventMap(SchoolEvents) && EventMap(SchoolEvents)[On(2025, 12, 2)] == SchoolEvents[11]
  {
    EventMapLastWriter(SchoolEvents, On(2025, 12, 4), 12);
    EventMapLastWriter(SchoolEvents, On(2025, 12, 2), 11);
  }

  /** A day no entry covers has no event (2025-09-02, a plain class day). */
  lemma UncoveredDayHasNoEvent()
    ensures On(2025, 9, 2) !in EventMap(SchoolEvents)
  {
    EventMapDomain(SchoolEvents, On(2025, 9, 2));
  }
}
