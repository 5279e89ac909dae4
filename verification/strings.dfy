/** The handful of Python `str` operations the video-name handling relies on:
    `split` on one character, `replace(pat, "")`, `partition(sep)[0]`,
    `endswith` and `pathlib.PurePath.suffix`. */
module Strings {

  /** `p` is the text of `s` before its `n`-th occurrence of `sep` (or all of `s`
      when there are fewer): `s.split(sep)[:n]` joined back together. */
  ghost predicate IsLeadingSections(p: string, s: string, sep: char, n: nat)
    requires n > 0
  {
    && |p| <= |s|
    && p == s[..|p|]
    && multiset(p)[sep] == n - 1
    && (|p| == |s| || s[|p|] == sep)
  }

  /** At most one text is the first `n` sections of `s`. */
  lemma LeadingSectionsUnique(p: string, q: string, s: string, sep: char, n: nat)
    requires n > 0
    requires IsLeadingSections(p, s, sep, n) && IsLeadingSections(q, s, sep, n)
    ensures p == q
  {
    if |p| < |q| {
      LongerPrefixHasMoreSeparators(p, q, s, sep);
    } else if |q| < |p| {
      LongerPrefixHasMoreSeparators(q, p, s, sep);
    }
  }

  lemma LongerPrefixHasMoreSeparators(p: string, q: string, s: string, sep: char)
    requires |p| < |q| <= |s|
    requires p == s[..|p|] && q == s[..|q|]
    requires s[|p|] == sep
    ensures multiset(q)[sep] > multiset(p)[sep]
  {
    assert q == p + [sep] + q[|p| + 1..];
    assert multiset(q) == multiset(p) + multiset([sep]) + multiset(q[|p| + 1..]);
  }

  /** Python's `sep.join(parts)` for a one-character separator. */
  function Join(parts: seq<string>, sep: char): string
  {
    if |parts| == 0 then ""
    else if |parts| == 1 then parts[0]
    else parts[0] + [sep] + Join(parts[1..], sep)
  }

  /** Python's `s.split(sep)` for a one-character separator: the pieces of `s`
      between separators, never none. */
  function Split(s: string, sep: char): (parts: seq<string>)
    ensures |parts| > 0
    decreases |s|
  {
    if |s| == 0 then [""]
    else
      var rest := Split(s[1..], sep);
      if s[0] == sep then [""] + rest
      else [[s[0]] + rest[0]] + rest[1..]
  }

  /** One more piece than there are separators, no piece holds the separator,
      and joining the pieces gives back the text. */
  lemma SplitPieces(s: string, sep: char)
    ensures |Split(s, sep)| == multiset(s)[sep] + 1
    ensures forall i :: 0 <= i < |Split(s, sep)| ==> sep !in Split(s, sep)[i]
    ensures Join(Split(s, sep), sep) == s
  {
    SplitCount(s, sep);
    SplitSeparatorFree(s, sep);
    JoinSplit(s, sep);
  }

  /** One step of `Split`, on the first character. */
  lemma SplitStep(s: string, sep: char)
    requires |s| > 0
    ensures s[0] == sep ==> Split(s, sep) == [""] + Split(s[1..], sep)
    ensures s[0] != sep ==> Split(s, sep) == [[s[0]] + Split(s[1..], sep)[0]] + Split(s[1..], sep)[1..]
  {
  }

  lemma {:induction false} SplitCount(s: string, sep: char)
    ensures |Split(s, sep)| == multiset(s)[sep] + 1
    decreases |s|
  {
    if |s| > 0 {
      SplitCount(s[1..], sep);
      SplitStep(s, sep);
      assert s == [s[0]] + s[1..];
      assert multiset(s) == multiset([s[0]]) + multiset(s[1..]);
    }
  }

  lemma {:induction false} SplitSeparatorFree(s: string, sep: char)
    ensures forall i :: 0 <= i < |Split(s, sep)| ==> sep !in Split(s, sep)[i]
    decreases |s|
  {
    if |s| > 0 {
      var rest := Split(s[1..], sep);
      SplitSeparatorFree(s[1..], sep);
      SplitStep(s, sep);
      if s[0] != sep {
        assert sep !in [s[0]] + rest[0];
      }
    }
  }

  lemma {:induction false} JoinSplit(s: string, sep: char)
    ensures Join(Split(s, sep), sep) == s
    decreases |s|
  {
    if |s| > 0 {
      var rest := Split(s[1..], sep);
      JoinSplit(s[1..], sep);
      SplitStep(s, sep);
      assert s == [s[0]] + s[1..];
      if s[0] == sep {
        assert ([""] + rest)[1..] == rest;
      } else {
        var parts := [[s[0]] + rest[0]] + rest[1..];
        assert parts[1..] == rest[1..];
        if |rest| > 1 {
          assert Join(rest, sep) == rest[0] + [sep] + Join(rest[1..], sep);
        }
      }
    }
  }

  lemma TailOfConcat(a: string, t: string)
    requires |a| > 0
    ensures (a + t)[0] == a[0] && (a + t)[1..] == a[1..] + t
    ensures [a[0]] + (a[1..] + t) == a + t
  {
  }

  /** Splitting a text with no separator at its head. */
  lemma {:induction false} SplitAfterSeparatorFree(a: string, t: string, sep: char)
    requires sep !in a
    ensures Split(a + t, sep) == [a + Split(t, sep)[0]] + Split(t, sep)[1..]
    decreases |a|
  {
    if |a| > 0 {
      SplitAfterSeparatorFree(a[1..], t, sep);
      SplitAfterSeparatorFreeStep(a, t, sep);
    } else {
      SplitEmptyHead(t, sep);
    }
  }

  lemma SplitAfterSeparatorFreeStep(a: string, t: string, sep: char)
    requires |a| > 0 && a[0] != sep
    requires Split(a[1..] + t, sep) == [a[1..] + Split(t, sep)[0]] + Split(t, sep)[1..]
    ensures Split(a + t, sep) == [a + Split(t, sep)[0]] + Split(t, sep)[1..]
  {
    var tail := Split(t, sep);
    TailOfConcat(a, t);
    TailOfConcat(a, tail[0]);
    SplitStep(a + t, sep);
  }

  lemma SplitEmptyHead(t: string, sep: char)
    ensures Split("" + t, sep) == ["" + Split(t, sep)[0]] + Split(t, sep)[1..]
  {
    var tail := Split(t, sep);
    assert "" + t == t;
    assert "" + tail[0] == tail[0];
    assert tail == [tail[0]] + tail[1..];
  }

  /** Splitting undoes joining, whenever no piece holds the separator. */
  lemma {:induction false} SplitJoin(parts: seq<string>, sep: char)
    requires |parts| > 0
    requires forall i :: 0 <= i < |parts| ==> sep !in parts[i]
    ensures Split(Join(parts, sep), sep) == parts
    decreases |parts|
  {
    if |parts| == 1 {
      SplitAfterSeparatorFree(parts[0], "", sep);
      assert parts[0] + "" == parts[0];
    } else {
      var tail := Join(parts[1..], sep);
      SplitJoin(parts[1..], sep);
      SplitSeparatorHead(tail, sep);
      assert Join(parts, sep) == parts[0] + ([sep] + tail);
      SplitAfterSeparatorFree(parts[0], [sep] + tail, sep);
      assert parts[0] + "" == parts[0];
      assert parts == [parts[0]] + parts[1..];
    }
  }

  /** A leading separator splits off an empty first piece. */
  lemma SplitSeparatorHead(t: string, sep: char)
    ensures Split([sep] + t, sep) == [""] + Split(t, sep)
  {
    assert ([sep] + t)[1..] == t;
  }

  /** Dropping the first character shifts every occurrence one place left. */
  lemma OccursShift(s: string, pat: string, i: nat)
    requires |s| > 0
    ensures OccursAt(s[1..], pat, i) <==> OccursAt(s, pat, i + 1)
  {
    if i + 1 + |pat| <= |s| {
      assert s[1..][i..i + |pat|] == s[i + 1..i + 1 + |pat|];
    }
  }

  /** No occurrence in the tail before `k`, none at the head: none in `s` before `k + 1`. */
  lemma NoOccurrenceBeforeShifted(s: string, pat: string, k: nat)
    requires |s| > 0
    requires !OccursAt(s, pat, 0)
    requires forall i: nat :: i < k ==> !OccursAt(s[1..], pat, i)
    ensures forall i: nat :: i < k + 1 ==> !OccursAt(s, pat, i)
  {
    forall i: nat | 0 < i < k + 1
      ensures !OccursAt(s, pat, i)
    {
      OccursShift(s, pat, i - 1);
    }
  }

  /** `pat` occurs in `s` starting at index `i`. */
  predicate OccursAt(s: string, pat: string, i: nat)
  {
    i + |pat| <= |s| && s[i..i + |pat|] == pat
  }

  /** Python's `s.replace(pat, "")`: occurrences of `pat` are removed left to right,
      never overlapping. */
  function RemoveAll(s: string, pat: string): (r: string)
    requires |pat| > 0
    ensures |r| <= |s|
    ensures (forall i: nat :: i < |s| ==> !OccursAt(s, pat, i)) ==> r == s
    decreases |s|
  {
    if |s| < |pat| then s
    else if s[..|pat|] == pat then
      assert OccursAt(s, pat, 0);
      RemoveAll(s[|pat|..], pat)
    else
      var rest := RemoveAll(s[1..], pat);
      assert !OccursAt(s, pat, 0);
      NoOccurrenceShiftedBack(s, pat);
      assert s == [s[0]] + s[1..];
      [s[0]] + rest
  }

  /** No occurrence anywhere in `s` means none anywhere in its tail. */
  lemma NoOccurrenceShiftedBack(s: string, pat: string)
    requires |s| > 0
    ensures (forall i: nat :: i < |s| ==> !OccursAt(s, pat, i)) ==> forall i: nat :: i < |s| - 1 ==> !OccursAt(s[1..], pat, i)
  {
    if forall i: nat :: i < |s| ==> !OccursAt(s, pat, i) {
      forall i: nat | i < |s| - 1
        ensures !OccursAt(s[1..], pat, i)
      {
        OccursShift(s, pat, i);
      }
    }
  }

  /** Removing the pattern from a text that starts with it, and contains it
      nowhere else, leaves the rest of the text. */
  lemma RemoveLeadingOccurrence(pat: string, t: string)
    requires |pat| > 0
    requires forall i: nat :: i < |t| ==> !OccursAt(t, pat, i)
    ensures RemoveAll(pat + t, pat) == t
  {
    assert (pat + t)[..|pat|] == pat;
    assert (pat + t)[|pat|..] == t;
  }

  /** Python's `s.partition(sep)[0]`: the text before the first occurrence of
      `sep`, or all of `s` when `sep` does not occur. */
  function TextBefore(s: string, sep: string): (r: string)
    requires |sep| > 0
    ensures |r| <= |s| && r == s[..|r|]
    ensures forall i: nat :: i < |r| ==> !OccursAt(s, sep, i)
    ensures |r| == |s| || OccursAt(s, sep, |r|)
    decreases |s|
  {
    if |s| < |sep| then s
    else if s[..|sep|] == sep then ""
    else
      var rest := TextBefore(s[1..], sep);
      assert !OccursAt(s, sep, 0);
      NoOccurrenceBeforeShifted(s, sep, |rest|);
      OccursShift(s, sep, |rest|);
      [s[0]] + rest
  }

  /** Python's `s.endswith(suffix)`. */
  predicate EndsWith(s: string, suffix: string)
  {
    |suffix| <= |s| && s[|s| - |suffix|..] == suffix
  }

  /** Python's `s.rfind(c)`: the last index holding `c`, or -1. */
  function LastIndexOf(s: string, c: char): (i: int)
    ensures -1 <= i < |s|
    ensures i >= 0 ==> s[i] == c && c !in s[i + 1..]
    ensures i == -1 ==> c !in s
    decreases |s|
  {
    if |s| == 0 then -1
    else if s[|s| - 1] == c then |s| - 1
    else
      var i := LastIndexOf(s[..|s| - 1], c);
      assert s == s[..|s| - 1] + [s[|s| - 1]];
      i
  }

  /** `pathlib.PurePath.suffix` of a file name: the text from its last `.`, unless
      that dot is the first or the last character, in which case it is empty. */
  function Suffix(name: string): (r: string)
    ensures r == "" || (2 <= |r| < |name| && EndsWith(name, r) && r[0] == '.' && '.' !in r[1..])
    ensures r == "" <==> ('.' !in name || (name[0] == '.' && '.' !in name[1..]) || name[|name| - 1] == '.')
  {
    var i := LastIndexOf(name, '.');
    if 0 < i < |name| - 1 then
      assert name[1..][i - 1] == '.';
      assert name[i + 1..][|name| - i - 2] == name[|name| - 1];
      assert name[i..][1..] == name[i + 1..];
      name[i..]
    else if i == 0 then
      assert name[1..] == name[i + 1..];
      ""
    else
      ""
  }
}
