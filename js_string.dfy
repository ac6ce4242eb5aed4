/** The few JavaScript string operations the watermark tool relies on:
    `indexOf`, `split` on a one-character separator and `slice` from a
    non-negative start. JavaScript strings are modelled as `seq<char>`. */
module JsString {

  /** `pat` occurs in `s` starting at index `i`. */
  predicate OccursAt(s: string, pat: string, i: int)
  {
    0 <= i && i + |pat| <= |s| && s[i..i + |pat|] == pat
  }

  /** The scan behind `indexOf`: the first index at or after `from` where
      `pat` occurs in `s`, or -1 when there is none. */
  function FirstOccurrenceFrom(s: string, pat: string, from: nat): (r: int)
    ensures r == -1 || (from <= r && OccursAt(s, pat, r))
    ensures forall j :: from <= j && (r == -1 || j < r) ==> !OccursAt(s, pat, j)
    decreases |s| - from
  {
    if from + |pat| > |s| then -1
    else if s[from..from + |pat|] == pat then from
    else FirstOccurrenceFrom(s, pat, from + 1)
  }

  /** `s.indexOf(pat)`: the index of the first occurrence of `pat`, or -1. */
  function IndexOf(s: string, pat: string): (r: int)
    ensures r == -1 <==> forall j :: !OccursAt(s, pat, j)
    ensures r != -1 ==> OccursAt(s, pat, r)
    ensures forall j :: 0 <= j < r ==> !OccursAt(s, pat, j)
  {
    FirstOccurrenceFrom(s, pat, 0)
  }

  /** A one-character pattern occurs exactly where that character stands. */
  lemma CharOccurrence(s: string, c: char)
    ensures forall i :: OccursAt(s, [c], i) <==> 0 <= i < |s| && s[i] == c
  {
    forall i | 0 <= i < |s|
      ensures OccursAt(s, [c], i) <==> s[i] == c
    {
      assert s[i..i + 1] == [s[i]];
    }
  }

  /** Glues `parts` back together with `sep` between neighbours
      (`parts.join(sep)`). */
  function Join(parts: seq<string>, sep: char): string
    requires |parts| >= 1
  {
    if |parts| == 1 then parts[0] else parts[0] + [sep] + Join(parts[1..], sep)
  }

  /** `s.split(sep)` for a one-character separator: the maximal
      separator-free pieces of `s`, in order, empty pieces included. */
  function Split(s: string, sep: char): (parts: seq<string>)
    ensures |parts| >= 1
    ensures forall i :: 0 <= i < |parts| ==> sep !in parts[i]
    ensures Join(parts, sep) == s
    decreases |s|
  {
    CharOccurrence(s, sep);
    var k := IndexOf(s, [sep]);
    if k == -1 then
      [s]
    else
      assert s == s[..k] + [sep] + s[k + 1..];
      [s[..k]] + Split(s[k + 1..], sep)
  }

  /** A leading separator-free piece is split off as the first part. */
  lemma {:induction false} SplitAfterFirst(a: string, sep: char, b: string)
    requires sep !in a
    ensures Split(a + [sep] + b, sep) == [a] + Split(b, sep)
  {
    var s := a + [sep] + b;
    CharOccurrence(s, sep);
    assert OccursAt(s, [sep], |a|);
    var k := IndexOf(s, [sep]);
    assert k == |a|;
    assert s[..k] == a;
    assert s[k + 1..] == b;
  }

  /** A separator-free string splits into itself alone. */
  lemma SplitWithoutSeparator(a: string, sep: char)
    requires sep !in a
    ensures Split(a, sep) == [a]
  {
    CharOccurrence(a, sep);
  }

  /** Splitting undoes joining separator-free parts (and `Split`'s own
      contract says joining undoes splitting). */
  lemma {:induction false} SplitJoin(parts: seq<string>, sep: char)
    requires |parts| >= 1
    requires forall i :: 0 <= i < |parts| ==> sep !in parts[i]
    ensures Split(Join(parts, sep), sep) == parts
    decreases |parts|
  {
    if |parts| == 1 {
      SplitWithoutSeparator(parts[0], sep);
    } else {
      SplitAfterFirst(parts[0], sep, Join(parts[1..], sep));
      SplitJoin(parts[1..], sep);
      assert parts == [parts[0]] + parts[1..];
    }
  }

  /** `s.slice(n)` for a non-negative start: the text from index `n` on, or
      the empty string when `s` is shorter than `n`. */
  function Slice(s: string, n: nat): string
  {
    if n <= |s| then s[n..] else ""
  }

  /** Slicing off exactly a prefix's length gives back what followed it. */
  lemma SliceAfterPrefix(prefix: string, rest: string)
    ensures Slice(prefix + rest, |prefix|) == rest
  {
  }
}
