/** The textual date form `YYYY-MM-DD` (the `full-date` production of section 5.6
    of RFC 3339) that `toISOString().split('T')[0]` yields and that ASISTO
    uses as map keys, record dates and `<input type="date">` values.

    The rest of the model keys everything on day numbers; the round trips below
    show that this loses nothing: two days have equal text exactly when they are
    the same day. */
module FullDate {
  import opened Wrappers
  import opened Dates

  predicate IsDigit(c: char) {
    '0' <= c <= '9'
  }

  function DigitChar(k: int): (c: char)
    requires 0 <= k <= 9
    ensures IsDigit(c)
  {
    (48 + k) as char
  }

  function DigitValue(c: char): (k: int)
    requires IsDigit(c)
    ensures 0 <= k <= 9 && DigitChar(k) == c
  {
    c as int - 48
  }

  function Pad2(k: int): (s: string)
    requires 0 <= k <= 99
    ensures |s| == 2 && IsDigit(s[0]) && IsDigit(s[1])
    ensures 10 * DigitValue(s[0]) + DigitValue(s[1]) == k
  {
    [DigitChar(k / 10), DigitChar(k % 10)]
  }

  function Pad4(k: int): (s: string)
    requires 0 <= k <= 9999
    ensures |s| == 4 && forall i :: 0 <= i < 4 ==> IsDigit(s[i])
    ensures 1000 * DigitValue(s[0]) + 100 * DigitValue(s[1]) + 10 * DigitValue(s[2]) + DigitValue(s[3]) == k
  {
    var hi, lo := Pad2(k / 100), Pad2(k % 100);
    assert 100 * (k / 100) + k % 100 == k;
    hi + lo
  }

  /** Days whose year has four digits: the range in which `toISOString` writes a
      plain `YYYY` year. */
  predicate FourDigitYear(n: Day) {
    0 <= FromDay(n).year <= 9999
  }

  /** The text of a (year, month, day) triple with a four-digit year. */
  function Text(dt: Date): (s: string)
    requires 0 <= dt.year <= 9999 && ValidDate(dt)
    ensures |s| == 10 && s[4] == '-' && s[7] == '-'
  {
    Pad4(dt.year) + "-" + Pad2(dt.month) + "-" + Pad2(dt.day)
  }

  /** The text of day n, as `toISOString().split('T')[0]` writes it. */
  function Format(n: Day): (s: string)
    requires FourDigitYear(n)
    ensures |s| == 10 && s[4] == '-' && s[7] == '-'
  {
    Text(FromDay(n))
  }

  predicate WellFormed(s: string) {
    |s| == 10 && s[4] == '-' && s[7] == '-' &&
    IsDigit(s[0]) && IsDigit(s[1]) && IsDigit(s[2]) && IsDigit(s[3]) &&
    IsDigit(s[5]) && IsDigit(s[6]) && IsDigit(s[8]) && IsDigit(s[9])
  }

  /** The triple a well-formed text spells, valid or not. */
  function Fields(s: string): (dt: Date)
    requires WellFormed(s)
    ensures 0 <= dt.year <= 9999
  {
    Date(1000 * DigitValue(s[0]) + 100 * DigitValue(s[1]) + 10 * DigitValue(s[2]) + DigitValue(s[3]),
         10 * DigitValue(s[5]) + DigitValue(s[6]),
         10 * DigitValue(s[8]) + DigitValue(s[9]))
  }

  /** Reads a `YYYY-MM-DD` text; `None` for anything else, including a
      well-formed text that names no calendar date (`2025-02-30`). */
  function Parse(s: string): Option<Day> {
    if WellFormed(s) && ValidDate(Fields(s)) then Some(ToDay(Fields(s))) else None
  }

  lemma FieldsOfText(dt: Date)
    requires 0 <= dt.year <= 9999 && ValidDate(dt)
    ensures WellFormed(Text(dt)) && Fields(Text(dt)) == dt
  {
    var s := Text(dt);
    assert s[..4] == Pad4(dt.year) && s[5..7] == Pad2(dt.month) && s[8..] == Pad2(dt.day);
  }

  lemma TextOfFields(s: string)
    requires WellFormed(s) && ValidDate(Fields(s))
    ensures Text(Fields(s)) == s
  {
    var dt := Fields(s);
    var t := Text(dt);
    assert t[..4] == Pad4(dt.year) && t[5..7] == Pad2(dt.month) && t[8..] == Pad2(dt.day);
    DigitsDetermine(t[..4], s[..4]);
    DigitsDetermine(t[5..7], s[5..7]);
    DigitsDetermine(t[8..], s[8..]);
    assert t == t[..4] + "-" + t[5..7] + "-" + t[8..];
    assert s == s[..4] + "-" + s[5..7] + "-" + s[8..];
  }

  /** Reading the text of a day gives the day back. */
  lemma ParseFormat(n: Day)
    requires FourDigitYear(n)
    ensures Parse(Format(n)) == Some(n)
  {
    FieldsOfText(FromDay(n));
  }

  /** Every text that reads as a day is that day's text. */
  lemma FormatParse(s: string)
    requires Parse(s).Some?
    ensures FourDigitYear(Parse(s).value) && Format(Parse(s).value) == s
  {
    FromDayToDay(Fields(s));
    TextOfFields(s);
  }

  lemma DigitsDetermine(a: string, b: string)
    requires |a| == |b| && (|a| == 2 || |a| == 4)
    requires forall i :: 0 <= i < |a| ==> IsDigit(a[i]) && IsDigit(b[i])
    requires |a| == 2 ==> 10 * DigitValue(a[0]) + DigitValue(a[1]) == 10 * DigitValue(b[0]) + DigitValue(b[1])
    requires |a| == 4 ==>
      1000 * DigitValue(a[0]) + 100 * DigitValue(a[1]) + 10 * DigitValue(a[2]) + DigitValue(a[3]) ==
      1000 * DigitValue(b[0]) + 100 * DigitValue(b[1]) + 10 * DigitValue(b[2]) + DigitValue(b[3])
    ensures a == b
  {
    if |a| == 2 {
      LastDigit(DigitValue(a[0]), DigitValue(a[1]), DigitValue(b[0]), DigitValue(b[1]));
    } else {
      FourDigits(DigitValue(a[0]), DigitValue(a[1]), DigitValue(a[2]), DigitValue(a[3]),
                 DigitValue(b[0]), DigitValue(b[1]), DigitValue(b[2]), DigitValue(b[3]));
    }
    forall i | 0 <= i < |a| ensures a[i] == b[i] {
      assert a[i] == DigitChar(DigitValue(a[i])) && b[i] == DigitChar(DigitValue(b[i]));
    }
  }

  /** A number written with a last decimal digit: both parts are determined. */
  lemma LastDigit(hi1: int, lo1: int, hi2: int, lo2: int)
    requires 0 <= lo1 <= 9 && 0 <= lo2 <= 9
    requires 10 * hi1 + lo1 == 10 * hi2 + lo2
    ensures hi1 == hi2 && lo1 == lo2
  {
  }

  lemma FourDigits(x0: int, x1: int, x2: int, x3: int, y0: int, y1: int, y2: int, y3: int)
    requires 0 <= x0 <= 9 && 0 <= x1 <= 9 && 0 <= x2 <= 9 && 0 <= x3 <= 9
    requires 0 <= y0 <= 9 && 0 <= y1 <= 9 && 0 <= y2 <= 9 && 0 <= y3 <= 9
    requires 1000 * x0 + 100 * x1 + 10 * x2 + x3 == 1000 * y0 + 100 * y1 + 10 * y2 + y3
    ensures x0 == y0 && x1 == y1 && x2 == y2 && x3 == y3
  {
    LastDigit(100 * x0 + 10 * x1 + x2, x3, 100 * y0 + 10 * y1 + y2, y3);
    LastDigit(10 * x0 + x1, x2, 10 * y0 + y1, y2);
    LastDigit(x0, x1, y0, y1);
  }

  /** Two days in range have the same text only if they are the same day, so
      comparing ASISTO's date strings is comparing day numbers. */
  lemma FormatInjective(a: Day, b: Day)
    requires FourDigitYear(a) && FourDigitYear(b) && Format(a) == Format(b)
    ensures a == b
  {
    ParseFormat(a);
    ParseFormat(b);
  }
}
