/** The weekly-schedule editor of the new-subject page and of the schedule
    dialog: a list of entries, at most one per weekday, kept ordered by day. */
module ScheduleEditing {
  import opened Wrappers
  import opened Seqs
  import opened Text
  import opened Types

  // ---------------------------------------------------------------- ordering by day

  /** Days never decrease along the list. */
  predicate SortedByDay(s: seq<ScheduleEntry>) {
    forall i, j :: 0 <= i < j < |s| ==> s[i].day <= s[j].day
  }

  /** Days strictly increase along the list: sorted, one entry per day. */
  predicate DaysAscending(s: seq<ScheduleEntry>) {
    forall i, j :: 0 <= i < j < |s| ==> s[i].day < s[j].day
  }

  /** Puts x after every entry whose day is not later than its own. */
  function InsertByDay(x: ScheduleEntry, s: seq<ScheduleEntry>): (r: seq<ScheduleEntry>)
    ensures |r| == |s| + 1
  {
    if s == [] then [x]
    else if x.day < s[0].day then [x] + s
    else [s[0]] + InsertByDay(x, s[1..])
  }

  lemma {:induction false} InsertPermutes(x: ScheduleEntry, s: seq<ScheduleEntry>)
    ensures multiset(InsertByDay(x, s)) == multiset(s) + multiset{x}
    ensures forall e :: e in InsertByDay(x, s) <==> e == x || e in s
  {
    if s != [] && x.day >= s[0].day {
      InsertPermutes(x, s[1..]);
      assert s == [s[0]] + s[1..];
    }
  }

  lemma {:induction false} InsertSorted(x: ScheduleEntry, s: seq<ScheduleEntry>)
    requires SortedByDay(s)
    ensures SortedByDay(InsertByDay(x, s))
  {
    if s != [] && x.day >= s[0].day {
      InsertSorted(x, s[1..]);
      InsertPermutes(x, s[1..]);
      var r := InsertByDay(x, s[1..]);
      forall k | 0 <= k < |r| ensures s[0].day <= r[k].day {
        assert r[k] in r;
      }
    }
  }

  /** The comparator sort `(a, b) => a.day - b.day`: a stable sort by day. */
  function SortByDay(s: seq<ScheduleEntry>): (r: seq<ScheduleEntry>)
    ensures |r| == |s|
  {
    if s == [] then [] else InsertByDay(s[|s| - 1], SortByDay(s[..|s| - 1]))
  }

  /** The sort orders by day and keeps exactly the same entries. */
  lemma {:induction false} SortSpec(s: seq<ScheduleEntry>)
    ensures SortedByDay(SortByDay(s))
    ensures multiset(SortByDay(s)) == multiset(s)
  {
    if s != [] {
      var init := s[..|s| - 1];
      SortSpec(init);
      InsertSorted(s[|s| - 1], SortByDay(init));
      InsertPermutes(s[|s| - 1], SortByDay(init));
      assert s == init + [s[|s| - 1]];
    }
  }

  lemma {:induction false} InsertAtEnd(x: ScheduleEntry, s: seq<ScheduleEntry>)
    requires forall i :: 0 <= i < |s| ==> s[i].day <= x.day
    ensures InsertByDay(x, s) == s + [x]
  {
    if s != [] {
      InsertAtEnd(x, s[1..]);
      assert s == [s[0]] + s[1..];
    }
  }

  /** Sorting an already sorted list leaves it as it is. */
  lemma {:induction false} SortSorted(s: seq<ScheduleEntry>)
    requires SortedByDay(s)
    ensures SortByDay(s) == s
  {
    if s != [] {
      var init := s[..|s| - 1];
      SortSorted(init);
      InsertAtEnd(s[|s| - 1], init);
      assert s == init + [s[|s| - 1]];
    }
  }

  lemma {:induction false} InsertAscending(x: ScheduleEntry, s: seq<ScheduleEntry>)
    requires DaysAscending(s) && !HasDay(s, x.day)
    ensures DaysAscending(InsertByDay(x, s))
  {
    if s != [] && x.day >= s[0].day {
      assert x.day != s[0].day;
      assert !HasDay(s[1..], x.day) by {
        forall k | 0 <= k < |s[1..]| ensures s[1..][k].day != x.day {
          assert s[1..][k] == s[k + 1];
        }
      }
      InsertAscending(x, s[1..]);
      InsertPermutes(x, s[1..]);
      var r := InsertByDay(x, s[1..]);
      forall k | 0 <= k < |r| ensures s[0].day < r[k].day {
        assert r[k] in r;
      }
    }
  }

  /** The entry a newly picked weekday gets: no time yet, one hour. */
  function NewEntry(day: int): ScheduleEntry {
    ScheduleEntry(day, "", 1.0)
  }

  /** Adding a missing day to a list with one entry per day, in day order,
      gives that list with the new entry in its place: nothing lost, nothing
      repeated, still one entry per day in day order. */
  lemma AddKeepsOrder(s: seq<ScheduleEntry>, day: int)
    requires DaysAscending(s) && !HasDay(s, day)
    ensures DaysAscending(SortByDay(s + [NewEntry(day)]))
    ensures multiset(SortByDay(s + [NewEntry(day)])) == multiset(s) + multiset{NewEntry(day)}
  {
    var t := s + [NewEntry(day)];
    assert t[..|t| - 1] == s;
    SortSorted(s);
    InsertAscending(NewEntry(day), s);
    InsertPermutes(NewEntry(day), s);
  }

  // ---------------------------------------------------------------- the field edits

  /** `prev.map(s => s.day === day ? { ...s, time } : s)`. */
  function WithTime(s: seq<ScheduleEntry>, day: int, time: string): (r: seq<ScheduleEntry>)
    ensures |r| == |s|
    ensures forall i :: 0 <= i < |s| ==>
      r[i].day == s[i].day && r[i].duration == s[i].duration &&
      r[i].time == (if s[i].day == day then time else s[i].time)
  {
    seq(|s|, i requires 0 <= i < |s| => if s[i].day == day then s[i].(time := time) else s[i])
  }

  /** `prev.map(s => s.day === day ? { ...s, duration } : s)`. */
  function WithDuration(s: seq<ScheduleEntry>, day: int, duration: real): (r: seq<ScheduleEntry>)
    ensures |r| == |s|
    ensures forall i :: 0 <= i < |s| ==>
      r[i].day == s[i].day && r[i].time == s[i].time &&
      r[i].duration == (if s[i].day == day then duration else s[i].duration)
  {
    seq(|s|, i requires 0 <= i < |s| => if s[i].day == day then s[i].(duration := duration) else s[i])
  }

  function NotOn(day: int): ScheduleEntry -> bool {
    (e: ScheduleEntry) => e.day != day
  }

  /** Removing a day keeps the other entries in their order and drops exactly
      the entries of that day. */
  lemma RemoveSpec(s: seq<ScheduleEntry>, day: int)
    ensures IsSubsequence(Filter(s, NotOn(day)), s)
    ensures forall e :: e in Filter(s, NotOn(day)) <==> e in s && e.day != day
    ensures !HasDay(Filter(s, NotOn(day)), day)
    ensures DaysAscending(s) ==> DaysAscending(Filter(s, NotOn(day)))
  {
    FilterIsSubsequence(s, NotOn(day));
    forall e ensures e in Filter(s, NotOn(day)) <==> e in s && e.day != day {
      FilterMembership(s, NotOn(day), e);
    }
    var r := Filter(s, NotOn(day));
    forall i | 0 <= i < |r| ensures r[i].day != day {
      assert r[i] in r;
    }
    if DaysAscending(s) {
      SubsequenceAscending(r, s);
    }
  }

  lemma {:induction false} SubsequenceAscending(a: seq<ScheduleEntry>, b: seq<ScheduleEntry>)
    requires IsSubsequence(a, b) && DaysAscending(b)
    ensures DaysAscending(a)
    decreases |b|
  {
    if a != [] {
      if a[0] == b[0] && IsSubsequence(a[1..], b[1..]) {
        SubsequenceAscending(a[1..], b[1..]);
        forall j | 0 < j < |a| ensures a[0].day < a[j].day {
          assert a[1..][j - 1] == a[j];
          SubsequenceMembers(a[1..], b[1..], a[j]);
          var k :| 0 <= k < |b[1..]| && b[1..][k] == a[j];
          assert b[k + 1] == a[j];
        }
      } else {
        SubsequenceAscending(a, b[1..]);
      }
    }
  }

  // ---------------------------------------------------------------- submission

  /** `s.time && s.duration > 0`. */
  predicate Complete(e: ScheduleEntry) {
    e.time != "" && e.duration > 0.0
  }

  datatype ScheduleError = EmptyName | IncompleteSchedule

  /** `schedule.length > 0 ? schedule : null`. */
  function Stored(schedule: seq<ScheduleEntry>): (r: Option<seq<ScheduleEntry>>)
    ensures r.None? <==> schedule == []
    ensures r.Some? ==> r.value == schedule
  {
    if |schedule| > 0 then Some(schedule) else None
  }

  /** What the schedule dialog saves, or why it refuses. */
  function CheckSchedule(schedule: seq<ScheduleEntry>): (r: Result<Option<seq<ScheduleEntry>>, ScheduleError>)
    ensures r.Err? <==> exists i :: 0 <= i < |schedule| && !Complete(schedule[i])
    ensures r.Err? ==> r.error == IncompleteSchedule
    ensures r.Ok? ==> r.value == Stored(schedule)
  {
    if |schedule| > 0 && !(forall i :: 0 <= i < |schedule| ==> Complete(schedule[i])) then Err(IncompleteSchedule)
    else Ok(Stored(schedule))
  }

  /** What the new-subject page saves as the schedule, or why it refuses: a
      blank name first, then an incomplete entry. */
  function CheckNewSubject(name: string, schedule: seq<ScheduleEntry>): (r: Result<Option<seq<ScheduleEntry>>, ScheduleError>)
    ensures r == Err(EmptyName) <==> AllWhitespace(name)
    ensures r == Err(IncompleteSchedule) <==> !AllWhitespace(name) && exists i :: 0 <= i < |schedule| && !Complete(schedule[i])
    ensures r.Ok? ==> r.value == Stored(schedule)
  {
    TrimEmpty(name);
    if Trim(name) == [] then Err(EmptyName) else CheckSchedule(schedule)
  }

  /** Every saved schedule has complete entries only. */
  lemma SavedSchedulesAreComplete(schedule: seq<ScheduleEntry>)
    requires CheckSchedule(schedule).Ok? && CheckSchedule(schedule).value.Some?
    ensures forall i :: 0 <= i < |CheckSchedule(schedule).value.value| ==> Complete(CheckSchedule(schedule).value.value[i])
  {
  }

  // ---------------------------------------------------------------- the editor

  class ScheduleEditor {
    var schedule: seq<ScheduleEntry>

    /** The new-subject page starts with no days. */
    constructor Empty()
      ensures schedule == []
    {
      schedule := [];
    }

    /** The schedule dialog starts from the subject's schedule, or none. */
    constructor FromSubject(subject: Subject)
      ensures schedule == subject.schedule.GetOr([])
    {
      schedule := subject.schedule.GetOr([]);
    }

    /** `handleAddDayToSchedule`: a day already present changes nothing; a new
        one is appended with no time and one hour, and the list re-sorted by day. */
    method AddDay(day: int)
      modifies this
      ensures HasDay(old(schedule), day) ==> schedule == old(schedule)
      ensures !HasDay(old(schedule), day) ==> schedule == SortByDay(old(schedule) + [NewEntry(day)])
      ensures DaysAscending(old(schedule)) ==> DaysAscending(schedule)
      ensures HasDay(schedule, day)
    {
      if !(exists i :: 0 <= i < |schedule| && schedule[i].day == day) {
        var newSchedule := schedule + [NewEntry(day)];
        if DaysAscending(schedule) {
          AddKeepsOrder(schedule, day);
        }
        SortSpec(newSchedule);
        newSchedule := SortByDay(newSchedule);
        assert NewEntry(day) in multiset(newSchedule);
        assert NewEntry(day) in newSchedule;
        schedule := newSchedule;
      }
    }

    /** `handleRemoveDayFromSchedule`. */
    method RemoveDay(day: int)
      modifies this
      ensures schedule == Filter(old(schedule), NotOn(day))
      ensures !HasDay(schedule, day)
      ensures DaysAscending(old(schedule)) ==> DaysAscending(schedule)
    {
      RemoveSpec(schedule, day);
      schedule := Filter(schedule, NotOn(day));
    }

    /** `handleScheduleChange(day, 'time', value)`. */
    method ChangeTime(day: int, time: string)
      modifies this
      ensures schedule == WithTime(old(schedule), day, time)
    {
      schedule := WithTime(schedule, day, time);
    }

    /** `handleScheduleChange(day, 'duration', value)`; an emptied field is
        passed as 0, which submission refuses as it refuses ''. */
    method ChangeDuration(day: int, duration: real)
      modifies this
      ensures schedule == WithDuration(old(schedule), day, duration)
    {
      schedule := WithDuration(schedule, day, duration);
    }
  }

  /** Editing a field never changes which days are scheduled or their order. */
  lemma EditsKeepDays(s: seq<ScheduleEntry>, day: int, time: string, duration: real)
    ensures forall w :: HasDay(WithTime(s, day, time), w) <==> HasDay(s, w)
    ensures forall w :: HasDay(WithDuration(s, day, duration), w) <==> HasDay(s, w)
    ensures DaysAscending(s) ==> DaysAscending(WithTime(s, day, time)) && DaysAscending(WithDuration(s, day, duration))
  {
    var a := WithTime(s, day, time);
    var b := WithDuration(s, day, duration);
    forall w ensures (HasDay(a, w) <==> HasDay(s, w)) && (HasDay(b, w) <==> HasDay(s, w)) {
      if HasDay(s, w) {
        var i :| 0 <= i < |s| && s[i].day == w;
        assert a[i].day == w && b[i].day == w;
      }
      if HasDay(a, w) {
        var i :| 0 <= i < |a| && a[i].day == w;
        assert s[i].day == w;
      }
      if HasDay(b, w) {
        var i :| 0 <= i < |b| && b[i].day == w;
        assert s[i].day == w;
      }
    }
  }
}
