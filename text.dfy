/**
 * The string primitives the ingestion code relies on, with Python's meaning:
 * substring search (`t in s`), `s.split(sep)`, `sep.join(parts)`,
 * `s.replace(old, new)`, `s.split(sep, maxsplit=1)` and `s.split(c)[0]`.
 */
module Text {
  import opened Wrappers

  /** `t` occurs in `s` starting at index `i`. */
  predicate OccursAt(s: string, t: string, i: nat) {
    i + |t| <= |s| && s[i..i + |t|] == t
  }

  /** Leftmost occurrence of `t` in `s` at or after `from`. */
  function FindFrom(s: string, t: string, from: nat): (r: Option<nat>)
    requires from <= |s|
    ensures r.Some? ==> from <= r.value && OccursAt(s, t, r.value)
    ensures r.Some? ==> forall j :: from <= j < r.value ==> !OccursAt(s, t, j)
    ensures r.None? ==> forall j :: from <= j ==> !OccursAt(s, t, j)
    decreases |s| - from
  {
    if OccursAt(s, t, from) then Some(from)
    else if from == |s| then None
    else FindFrom(s, t, from + 1)
  }

  /** Leftmost occurrence of `t` in `s`, as Python's `s.find(t)`; `None` for -1. */
  function Find(s: string, t: string): (r: Option<nat>)
    ensures r.Some? ==> OccursAt(s, t, r.value) && forall j :: 0 <= j < r.value ==> !OccursAt(s, t, j)
    ensures r.None? ==> forall j :: !OccursAt(s, t, j)
  {
    FindFrom(s, t, 0)
  }

  /** Python's `t in s` for two strings. */
  predicate Contains(s: string, t: string) {
    Find(s, t).Some?
  }

  /** A one-character pattern occurs exactly where that character stands. */
  lemma OccursAtChar(s: string, c: char, i: nat)
    ensures OccursAt(s, [c], i) <==> i < |s| && s[i] == c
  {
    if i < |s| {
      assert s[i..i + 1] == [s[i]];
    }
  }

  /** Searching for a one-character string is membership of that character. */
  lemma ContainsChar(s: string, c: char)
    ensures Contains(s, [c]) <==> c in s
  {
    if c in s {
      var i :| 0 <= i < |s| && s[i] == c;
      OccursAtChar(s, c, i);
    }
    if Contains(s, [c]) {
      OccursAtChar(s, c, Find(s, [c]).value);
    }
  }

  /** Python's `s.split(sep)` for a non-empty separator: cut at every leftmost, non-overlapping occurrence. */
  function SplitOn(s: string, sep: string): (parts: seq<string>)
    requires |sep| > 0
    ensures |parts| >= 1
    decreases |s|
  {
    match Find(s, sep)
    case None => [s]
    case Some(i) => [s[..i]] + SplitOn(s[i + |sep|..], sep)
  }

  /** Python's `sep.join(parts)`. */
  function Join(parts: seq<string>, sep: string): string {
    if |parts| == 0 then ""
    else if |parts| == 1 then parts[0]
    else parts[0] + sep + Join(parts[1..], sep)
  }

  /** Joining the parts of a split with the same separator gives the original text back. */
  lemma {:induction false} JoinSplitOn(s: string, sep: string)
    requires |sep| > 0
    ensures Join(SplitOn(s, sep), sep) == s
    decreases |s|
  {
    var found := Find(s, sep);
    if found.Some? {
      var i := found.value;
      var rest := s[i + |sep|..];
      var tail := SplitOn(rest, sep);
      assert SplitOn(s, sep) == [s[..i]] + tail;
      calc {
        Join(SplitOn(s, sep), sep);
      == { JoinCons(s[..i], tail, sep); }
        s[..i] + sep + Join(tail, sep);
      == { JoinSplitOn(rest, sep); }
        s[..i] + sep + rest;
      == { assert s[i..i + |sep|] == sep; assert s == s[..i] + s[i..i + |sep|] + rest; }
        s;
      }
    }
  }

  /** Joining a part in front of at least one more puts the separator between them. */
  lemma JoinCons(head: string, tail: seq<string>, sep: string)
    requires |tail| > 0
    ensures Join([head] + tail, sep) == head + sep + Join(tail, sep)
  {
    assert ([head] + tail)[0] == head && ([head] + tail)[1..] == tail;
  }

  /** No part produced by a split contains the separator. */
  lemma {:induction false} SplitOnPartsAreFree(s: string, sep: string, k: nat)
    requires |sep| > 0
    requires k < |SplitOn(s, sep)|
    ensures !Contains(SplitOn(s, sep)[k], sep)
    decreases |s|
  {
    match Find(s, sep)
    case None =>
    case Some(i) =>
      var tail := SplitOn(s[i + |sep|..], sep);
      assert SplitOn(s, sep) == [s[..i]] + tail;
      if k == 0 {
        var head := s[..i];
        forall j: nat ensures !OccursAt(head, sep, j) {
          if j + |sep| <= |head| {
            var a, b := head[j..j + |sep|], s[j..j + |sep|];
            forall m | 0 <= m < |sep| ensures a[m] == b[m] {
              assert a[m] == head[j + m];
            }
            assert a == b;
            assert j < i && !OccursAt(s, sep, j);
          }
        }
      } else {
        SplitOnPartsAreFree(s[i + |sep|..], sep, k - 1);
      }
  }

  /** Splitting on one character yields more than one field exactly when the character occurs. */
  lemma {:induction false} SplitOnCharFields(s: string, c: char)
    ensures |SplitOn(s, [c])| > 1 <==> c in s
  {
    ContainsChar(s, c);
    match Find(s, [c])
    case None =>
    case Some(i) =>
  }

  /** Python's `s.replace(pat, rep)`: every leftmost, non-overlapping occurrence is replaced. */
  function ReplaceAll(s: string, pat: string, rep: string): string
    requires |pat| > 0
  {
    Join(SplitOn(s, pat), rep)
  }

  /** Text without the pattern is left unchanged by a replacement. */
  lemma ReplaceAllAbsent(s: string, pat: string, rep: string)
    requires |pat| > 0 && !Contains(s, pat)
    ensures ReplaceAll(s, pat, rep) == s
  {
  }

  /**
   * Python's `s.split(c, maxsplit=1)` unpacked into two names: the text before the
   * first `c` and the text after it; `None` stands for the unpacking error raised
   * when `c` does not occur.
   */
  function SplitOnce(s: string, c: char): (r: Option<(string, string)>)
    ensures r.Some? <==> c in s
    ensures r.Some? ==> s == r.value.0 + [c] + r.value.1 && c !in r.value.0
  {
    ContainsChar(s, c);
    match Find(s, [c])
    case None => None
    case Some(i) =>
      OccursAtChar(s, c, i);
      assert forall j :: 0 <= j < i ==> s[..i][j] != c by {
        forall j | 0 <= j < i ensures s[..i][j] != c {
          OccursAtChar(s, c, j);
        }
      }
      assert s == s[..i] + [c] + s[i + 1..];
      Some((s[..i], s[i + 1..]))
  }

  /** The first `c` of `h + [c] + b` is the one after `h` when `h` has none. */
  lemma SplitOnceAt(s: string, c: char, h: string, b: string)
    requires s == h + [c] + b && c !in h
    ensures SplitOnce(s, c) == Some((h, b))
  {
    OccursAtChar(s, c, |h|);
    forall j | 0 <= j < |h| ensures !OccursAt(s, [c], j) {
      OccursAtChar(s, c, j);
      assert s[j] == h[j];
    }
    var i := Find(s, [c]).value;
    OccursAtChar(s, c, i);
    assert i == |h|;
    assert s[..i] == h && s[i + 1..] == b;
  }

  /** Python's `s.split(c)[0]`: the text before the first `c`, or all of `s` when there is none. */
  function FieldBefore(s: string, c: char): (r: string)
    ensures r <= s
    ensures c !in r
    ensures |r| < |s| ==> s[|r|] == c
  {
    ContainsChar(s, c);
    var parts := SplitOn(s, [c]);
    match Find(s, [c])
    case None => parts[0]
    case Some(i) =>
      OccursAtChar(s, c, i);
      assert parts[0] == s[..i];
      assert forall j :: 0 <= j < i ==> s[..i][j] != c by {
        forall j | 0 <= j < i ensures s[..i][j] != c {
          OccursAtChar(s, c, j);
        }
      }
      parts[0]
  }
}
