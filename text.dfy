/** The JavaScript string operations ASISTO's text parsers use:
    `split` on a one-character separator, `trim`, `toLowerCase` and `includes`. */
module Text {
  import opened Seqs

  /** The characters `String.prototype.trim` removes: the ECMAScript WhiteSpace
      and LineTerminator code points (section 12.2 and 12.3 of ECMA-262). */
  predicate IsWhitespace(c: char) {
    var k := c as int;
    k == 0x09 || k == 0x0A || k == 0x0B || k == 0x0C || k == 0x0D || k == 0x20 ||
    k == 0xA0 || k == 0x1680 || (0x2000 <= k <= 0x200A) || k == 0x2028 || k == 0x2029 ||
    k == 0x202F || k == 0x205F || k == 0x3000 || k == 0xFEFF
  }

  predicate AllWhitespace(s: string) {
    forall i :: 0 <= i < |s| ==> IsWhitespace(s[i])
  }

  // ---------------------------------------------------------------- split

  /** `s.split(sep)`: the maximal separator-free pieces between separators; an
      empty text gives one empty piece and a trailing separator an empty last one. */
  function Split(s: string, sep: char): (parts: seq<string>)
    ensures |parts| >= 1
    ensures forall i :: 0 <= i < |parts| ==> sep !in parts[i]
    decreases |s|
  {
    if s == [] then [""]
    else
      var rest := Split(s[1..], sep);
      if s[0] == sep then [""] + rest
      else [[s[0]] + rest[0]] + rest[1..]
  }

  /** `parts.join(sep)`. */
  function Join(parts: seq<string>, sep: char): string
    requires |parts| >= 1
  {
    if |parts| == 1 then parts[0] else parts[0] + [sep] + Join(parts[1..], sep)
  }

  /** Joining the pieces with the separator gives the text back. */
  lemma {:induction false} JoinSplit(s: string, sep: char)
    ensures Join(Split(s, sep), sep) == s
    decreases |s|
  {
    if s != [] {
      var rest := Split(s[1..], sep);
      JoinSplit(s[1..], sep);
      if s[0] == sep {
        assert Split(s, sep)[1..] == rest;
      } else {
        var parts := Split(s, sep);
        assert parts[1..] == rest[1..];
        if |rest| > 1 {
          assert Join(rest, sep) == rest[0] + [sep] + Join(rest[1..], sep);
        }
        assert s == [s[0]] + s[1..];
      }
    }
  }

  lemma {:induction false} SplitPrefix(a: string, t: string, sep: char)
    requires sep !in a
    ensures Split(a + t, sep) == [a + Split(t, sep)[0]] + Split(t, sep)[1..]
    decreases |a|
  {
    if a != [] {
      assert (a + t)[1..] == a[1..] + t;
      SplitPrefix(a[1..], t, sep);
      var r := Split(a[1..] + t, sep);
      assert Split(a + t, sep) == [[a[0]] + r[0]] + r[1..];
      assert r[1..] == Split(t, sep)[1..];
      assert [a[0]] + (a[1..] + Split(t, sep)[0]) == a + Split(t, sep)[0];
    } else {
      assert a + t == t;
      assert a + Split(t, sep)[0] == Split(t, sep)[0];
      assert Split(t, sep) == [Split(t, sep)[0]] + Split(t, sep)[1..];
    }
  }

  /** Splitting a join of separator-free pieces gives the pieces back. */
  lemma {:induction false} SplitJoin(parts: seq<string>, sep: char)
    requires |parts| >= 1
    requires forall i :: 0 <= i < |parts| ==> sep !in parts[i]
    ensures Split(Join(parts, sep), sep) == parts
    decreases |parts|
  {
    if |parts| == 1 {
      SplitPrefix(parts[0], "", sep);
      assert parts[0] + "" == parts[0];
      assert parts == [parts[0]];
    } else {
      var tail := Join(parts[1..], sep);
      SplitJoin(parts[1..], sep);
      assert parts[0] + [sep] + tail == parts[0] + ([sep] + tail);
      SplitPrefix(parts[0], [sep] + tail, sep);
      assert ([sep] + tail)[1..] == tail;
      var u := Split([sep] + tail, sep);
      assert u == [""] + parts[1..];
      assert u[0] == "" && u[1..] == parts[1..];
      assert parts[0] + u[0] == parts[0];
      assert parts == [parts[0]] + parts[1..];
    }
  }

  // ---------------------------------------------------------------- trim

  /** The number of leading whitespace characters. */
  function LeadingSpace(s: string): (k: nat)
    ensures k <= |s|
    ensures forall i :: 0 <= i < k ==> IsWhitespace(s[i])
    ensures k < |s| ==> !IsWhitespace(s[k])
    decreases |s|
  {
    if s != [] && IsWhitespace(s[0]) then
      var k := 1 + LeadingSpace(s[1..]);
      assert forall i :: 1 <= i < k ==> s[i] == s[1..][i - 1];
      k
    else 0
  }

  /** The number of trailing whitespace characters. */
  function TrailingSpace(s: string): (k: nat)
    ensures k <= |s|
    ensures forall i :: |s| - k <= i < |s| ==> IsWhitespace(s[i])
    ensures k < |s| ==> !IsWhitespace(s[|s| - k - 1])
    decreases |s|
  {
    if s != [] && IsWhitespace(s[|s| - 1]) then
      var init := s[..|s| - 1];
      var k := 1 + TrailingSpace(init);
      assert forall i :: |s| - k <= i < |s| - 1 ==> s[i] == init[i];
      k
    else 0
  }

  /** `s.trim()`: the text without its leading and trailing whitespace. */
  function Trim(s: string): (t: string)
    ensures |t| <= |s|
  {
    var a := LeadingSpace(s);
    var rest := s[a..];
    s[a..a + |rest| - TrailingSpace(rest)]
  }

  /** The trim neither starts nor ends with whitespace. */
  lemma TrimEnds(s: string)
    ensures Trim(s) == [] || (!IsWhitespace(Trim(s)[0]) && !IsWhitespace(Trim(s)[|Trim(s)| - 1]))
  {
    var a := LeadingSpace(s);
    var rest := s[a..];
    var j := a + |rest| - TrailingSpace(rest);
    if Trim(s) != [] {
      assert Trim(s)[0] == s[a];
      assert Trim(s)[|Trim(s)| - 1] == rest[|rest| - TrailingSpace(rest) - 1];
    }
  }

  /** The trim is a slice of the text, and only whitespace is cut off either side. */
  lemma TrimSlice(s: string)
    ensures exists i, j :: 0 <= i <= j <= |s| && Trim(s) == s[i..j] && AllWhitespace(s[..i]) && AllWhitespace(s[j..])
  {
    var a := LeadingSpace(s);
    var rest := s[a..];
    var j := a + |rest| - TrailingSpace(rest);
    assert Trim(s) == s[a..j];
    assert AllWhitespace(s[..a]) by {
      forall i | 0 <= i < a ensures IsWhitespace(s[..a][i]) {
        assert s[..a][i] == s[i];
      }
    }
    assert AllWhitespace(s[j..]) by {
      forall i | 0 <= i < |s| - j ensures IsWhitespace(s[j..][i]) {
        assert s[j..][i] == rest[|rest| - TrailingSpace(rest) + i];
      }
    }
  }

  /** A text trims to nothing exactly when it is all whitespace. */
  lemma TrimEmpty(s: string)
    ensures Trim(s) == [] <==> AllWhitespace(s)
  {
    TrimSlice(s);
    if Trim(s) == [] {
      var i, j :| 0 <= i <= j <= |s| && Trim(s) == s[i..j] && AllWhitespace(s[..i]) && AllWhitespace(s[j..]);
      assert forall k :: 0 <= k < i ==> s[k] == s[..i][k];
      assert forall k :: j <= k < |s| ==> s[k] == s[j..][k - j];
    }
  }

  /** A text without whitespace at either end is its own trim. */
  lemma TrimUnpadded(s: string)
    requires s == [] || (!IsWhitespace(s[0]) && !IsWhitespace(s[|s| - 1]))
    ensures Trim(s) == s
  {
    if s != [] {
      assert LeadingSpace(s) == 0;
      assert TrailingSpace(s) == 0;
      assert s[0..|s|] == s;
    }
  }

  /** Trimming twice is trimming once. */
  lemma TrimIdempotent(s: string)
    ensures Trim(Trim(s)) == Trim(s)
  {
    TrimEnds(s);
    TrimUnpadded(Trim(s));
  }

  // ---------------------------------------------------------------- case and search

  /** `toLowerCase` on the ASCII letters; other characters are kept. */
  function ToLower(s: string): (r: string)
    ensures |r| == |s|
    ensures forall i :: 0 <= i < |s| ==> ('A' <= s[i] <= 'Z' ==> r[i] as int == s[i] as int + 32)
    ensures forall i :: 0 <= i < |s| ==> (!('A' <= s[i] <= 'Z') ==> r[i] == s[i])
  {
    seq(|s|, i requires 0 <= i < |s| => if 'A' <= s[i] <= 'Z' then (s[i] as int + 32) as char else s[i])
  }

  predicate StartsWith(s: string, p: string) {
    |p| <= |s| && s[..|p|] == p
  }

  /** `s.includes(p)`. */
  predicate Contains(s: string, p: string)
    decreases |s|
  {
    StartsWith(s, p) || (s != [] && Contains(s[1..], p))
  }

  lemma {:induction false} ContainsAt(s: string, p: string, i: nat)
    requires i + |p| <= |s| && s[i..i + |p|] == p
    ensures Contains(s, p)
    decreases i
  {
    if i > 0 {
      assert s[1..][i - 1..i - 1 + |p|] == s[i..i + |p|];
      ContainsAt(s[1..], p, i - 1);
    }
  }

  /** A text containing `p` also contains every piece of `p`: in particular
      "subtema" contains "tema". */
  lemma {:induction false} ContainsInner(s: string, p: string, i: nat, j: nat)
    requires Contains(s, p) && i <= j <= |p|
    ensures Contains(s, p[i..j])
    decreases |s|
  {
    if StartsWith(s, p) {
      assert s[..|p|][i..j] == s[i..j];
      ContainsAt(s, p[i..j], i);
    } else {
      ContainsInner(s[1..], p, i, j);
    }
  }

  // ---------------------------------------------------------------- lines

  function TrimAll(parts: seq<string>): (r: seq<string>)
    ensures |r| == |parts|
    ensures forall i :: 0 <= i < |parts| ==> r[i] == Trim(parts[i])
  {
    if parts == [] then [] else [Trim(parts[0])] + TrimAll(parts[1..])
  }

  predicate NonEmpty(s: string) {
    s != []
  }

  /** `text.split('\n').map(l => l.trim()).filter(l => l)`: the trimmed
      non-blank lines, in order. */
  function TrimmedLines(text: string): (lines: seq<string>)
    ensures |lines| <= |Split(text, '\n')|
  {
    Filter(TrimAll(Split(text, '\n')), NonEmpty)
  }

  /** The lines of `TrimmedLines` are, in order, exactly the non-empty trimmed
      input lines, and each is its own trim. */
  lemma TrimmedLinesSpec(text: string)
    ensures IsSubsequence(TrimmedLines(text), TrimAll(Split(text, '\n')))
    ensures forall x :: x in TrimmedLines(text) <==> x != [] && x in TrimAll(Split(text, '\n'))
    ensures forall x :: x in TrimmedLines(text) ==> Trim(x) == x
  {
    var parts := Split(text, '\n');
    var all := TrimAll(parts);
    FilterIsSubsequence(all, NonEmpty);
    forall x
      ensures x in TrimmedLines(text) <==> x != [] && x in all
      ensures x in TrimmedLines(text) ==> Trim(x) == x
    {
      FilterMembership(all, NonEmpty, x);
      if x in all {
        var i :| 0 <= i < |all| && all[i] == x;
        TrimIdempotent(parts[i]);
      }
    }
  }
}
