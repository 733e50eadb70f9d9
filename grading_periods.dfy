/** The grading-period editor: the start date of each of the four periods,
    edited in place and saved when it differs from what was loaded. */
module GradingPeriods {
  import opened Wrappers
  import opened OrderedMaps
  import opened Types

  /** The period keys the form offers an input for. */
  const Periods: seq<string> := ["1", "2", "3", "4"]

  /** `d` came from `original` by `set`s: the original keys keep their places
      and no key occurs twice. */
  predicate Extends(original: seq<(string, string)>, d: seq<(string, string)>) {
    |original| <= |d| && DistinctKeys(d) && forall i :: 0 <= i < |original| ==> d[i].0 == original[i].0
  }

  lemma PutExtends(original: seq<(string, string)>, d: seq<(string, string)>, k: string, v: string)
    requires Extends(original, d)
    ensures Extends(original, Put(d, k, v))
  {
    PutDistinct(d, k, v);
    PutKeys(d, k, v);
    var r := Put(d, k, v);
    forall i | 0 <= i < |original| ensures r[i].0 == original[i].0 {
      assert Keys(r)[i] == r[i].0 && Keys(d)[i] == d[i].0;
    }
  }

  /** For a draft made from the stored dates by edits, the pair lists differ
      exactly when some period's date differs from the loaded one: listing the
      keys in the order they were set gives the same verdict as `Differ`. */
  lemma {:induction false} ChangedIff(original: seq<(string, string)>, d: seq<(string, string)>)
    requires Extends(original, d)
    ensures d != original <==> exists k :: Lookup(d, k) != Lookup(original, k)
  {
    assert DistinctKeys(original) by {
      forall i, j | 0 <= i < j < |original| ensures original[i].0 != original[j].0 {
        assert d[i].0 != d[j].0;
      }
    }
    if d != original {
      if |d| > |original| {
        var k := d[|original|].0;
        assert k in Keys(d);
        assert k !in Keys(original) by {
          forall t | 0 <= t < |original| ensures Keys(original)[t] != k {
            assert d[t].0 != d[|original|].0;
          }
        }
        assert Lookup(d, k) != Lookup(original, k);
      } else {
        var i :| 0 <= i < |d| && d[i] != original[i];
        var k := original[i].0;
        assert (k, d[i].1) in d && (k, original[i].1) in original;
        LookupIn(d, k, d[i].1);
        LookupIn(original, k, original[i].1);
        assert Lookup(d, k) != Lookup(original, k);
      }
    }
  }

  /** `JSON.stringify(a) !== JSON.stringify(b)` for two date objects. A JS
      object lists its integer keys ("1".."4") in ascending numeric order
      whatever order they were set in, so the texts differ exactly when some
      key reads differently in the two objects. */
  predicate Differ(a: seq<(string, string)>, b: seq<(string, string)>) {
    exists k :: k in Keys(a) + Keys(b) && Lookup(a, k) != Lookup(b, k)
  }

  /** Only a key of one of the objects can read differently. */
  lemma DifferIff(a: seq<(string, string)>, b: seq<(string, string)>)
    ensures Differ(a, b) <==> exists k :: Lookup(a, k) != Lookup(b, k)
  {
    if Differ(a, b) {
      var k :| k in Keys(a) + Keys(b) && Lookup(a, k) != Lookup(b, k);
      assert Lookup(a, k) != Lookup(b, k);
    } else {
      forall k ensures Lookup(a, k) == Lookup(b, k) {
        if k in Keys(a) || k in Keys(b) {
          assert k in Keys(a) + Keys(b);
        }
      }
    }
  }

  class GradingPeriodManager {
    /** The subject's stored dates as last received from the parent. */
    var original: seq<(string, string)>
    var dates: seq<(string, string)>
    var isSaving: bool

    /** Both the draft and the stored dates are objects: no key twice. */
    predicate Valid()
      reads this
    {
      DistinctKeys(dates) && DistinctKeys(original)
    }

    /** The subject's dates, or none when the column is null. An object's keys
        are distinct. */
    constructor (subject: Subject)
      requires DistinctKeys(subject.gradingPeriodsDates.GetOr([]))
      ensures original == subject.gradingPeriodsDates.GetOr([]) && dates == original && !isSaving
      ensures Valid() && !HasChanges() && !SaveEnabled()
    {
      original := subject.gradingPeriodsDates.GetOr([]);
      dates := subject.gradingPeriodsDates.GetOr([]);
      isSaving := false;
    }

    /** `hasChanges`. */
    predicate HasChanges()
      reads this
    {
      Differ(dates, original)
    }

    /** The save button is enabled. */
    predicate SaveEnabled()
      reads this
    {
      HasChanges() && !isSaving
    }

    /** `handleDateChange` from one of the four inputs: that period's date is
        set, every other entry kept in place. It runs in every state. */
    method DateChange(period: string, date: string)
      requires period in Periods
      modifies this
      ensures dates == Put(old(dates), period, date) && isSaving == old(isSaving) && original == old(original)
      ensures old(Valid()) ==> Valid()
      ensures forall p :: Lookup(dates, p) == if p == period then Some(date) else Lookup(old(dates), p)
      ensures HasChanges() <==> (Lookup(original, period) != Some(date)
        || exists p :: p != period && Lookup(old(dates), p) != Lookup(original, p))
    {
      if DistinctKeys(dates) {
        PutDistinct(dates, period, date);
      }
      forall p ensures Lookup(Put(dates, period, date), p) == if p == period then Some(date) else Lookup(dates, p) {
        PutLookup(dates, period, date, p);
      }
      dates := Put(dates, period, date);
      DifferIff(dates, original);
    }

    /** The start of `handleSave`: the dates to write; the button is disabled
        until the write finishes. */
    method BeginSave() returns (update: seq<(string, string)>)
      modifies this
      ensures update == dates && dates == old(dates) && original == old(original) && isSaving
      ensures !SaveEnabled()
    {
      isSaving := true;
      update := dates;
    }

    method EndSave()
      modifies this
      ensures dates == old(dates) && original == old(original) && !isSaving
    {
      isSaving := false;
    }

    /** `onDatesChange()` made the parent refetch the subject: the new stored
        dates replace the baseline of `hasChanges`, while the draft state is
        kept. After a successful save the stored dates hold the draft's dates,
        in whatever key order, so there is nothing left to save. */
    method SubjectReloaded(subject: Subject)
      requires DistinctKeys(subject.gradingPeriodsDates.GetOr([]))
      modifies this
      ensures original == subject.gradingPeriodsDates.GetOr([])
      ensures dates == old(dates) && isSaving == old(isSaving)
      ensures old(Valid()) ==> Valid()
      ensures HasChanges() <==> exists k :: Lookup(dates, k) != Lookup(subject.gradingPeriodsDates.GetOr([]), k)
      ensures (forall k :: Lookup(old(dates), k) == Lookup(original, k)) ==> !HasChanges() && !SaveEnabled()
    {
      original := subject.gradingPeriodsDates.GetOr([]);
      DifferIff(dates, original);
    }
  }

  /** The stored dates {"2": b} edited to add period 1 and reloaded as
      {"1": a, "2": b}: the draft lists period 2 first, yet nothing is left to
      save. */
  lemma ReorderedReloadIsNoChange(a: string, b: string)
    ensures Put([("2", b)], "1", a) == [("2", b), ("1", a)]
    ensures !Differ(Put([("2", b)], "1", a), [("1", a), ("2", b)])
  {
    DifferIff([("2", b), ("1", a)], [("1", a), ("2", b)]);
    forall k ensures Lookup([("2", b), ("1", a)], k) == Lookup([("1", a), ("2", b)], k) {
      assert Lookup([("2", b), ("1", a)], k) == if k == "2" then Some(b) else Lookup([("1", a)], k);
      assert Lookup([("1", a), ("2", b)], k) == if k == "1" then Some(a) else Lookup([("2", b)], k);
    }
  }

  /** Setting a period to another date and then back to its loaded one
      leaves nothing to save. */
  lemma RevertIsNoChange(original: seq<(string, string)>, p: string, v: string, d: string)
    requires DistinctKeys(original) && Lookup(original, p) == Some(v)
    ensures Put(Put(original, p, d), p, v) == original
  {
    var once := Put(original, p, d);
    PutExtends(original, original, p, d);
    PutExtends(original, once, p, v);
    var twice := Put(once, p, v);
    forall k ensures Lookup(twice, k) == Lookup(original, k) {
      PutLookup(once, p, v, k);
      PutLookup(original, p, d, k);
    }
    ChangedIff(original, twice);
  }

  /** A date set on a period that had none always counts as a change, even an
      empty one. */
  lemma NewPeriodIsChange(original: seq<(string, string)>, p: string, d: string)
    requires DistinctKeys(original) && Lookup(original, p).None?
    ensures Put(original, p, d) != original
  {
    PutLookup(original, p, d, p);
  }
}
