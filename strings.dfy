/** The two JavaScript string operations the layout relies on:
    `String.prototype.endsWith` and `String.prototype.split` with a
    one-character separator. */
module Strings {

  /** `s.endsWith(suffix)`. */
  predicate EndsWith(s: string, suffix: string) {
    |suffix| <= |s| && s[|s| - |suffix|..] == suffix
  }

  /** Text put in front of a string does not change how it ends. */
  lemma EndsWithPrepend(p: string, s: string, suffix: string)
    requires EndsWith(s, suffix)
    ensures EndsWith(p + s, suffix)
  {
    var ps := p + s;
    assert ps[|ps| - |suffix|..] == s[|s| - |suffix|..];
  }

  /** `s.split(sep)`: the maximal runs of characters between separators,
      always at least one (the empty string splits into `[""]`). */
  function Split(s: string, sep: char): (parts: seq<string>)
    ensures |parts| >= 1
    ensures forall i :: 0 <= i < |parts| ==> sep !in parts[i]
  {
    if s == [] then [[]]
    else
      var rest := Split(s[1..], sep);
      if s[0] == sep then [[]] + rest
      else [[s[0]] + rest[0]] + rest[1..]
  }

  /** `parts.join(sep)`, the inverse of `Split`. */
  function Join(parts: seq<string>, sep: char): string
    requires |parts| >= 1
  {
    if |parts| == 1 then parts[0] else parts[0] + [sep] + Join(parts[1..], sep)
  }

  /** Joining the pieces of a split gives back the original string. */
  lemma {:induction false} JoinSplit(s: string, sep: char)
    ensures Join(Split(s, sep), sep) == s
  {
    if s != [] {
      JoinSplit(s[1..], sep);
      var rest := Split(s[1..], sep);
      if s[0] == sep {
        assert ([[]] + rest)[1..] == rest;
      } else if |rest| > 1 {
        assert ([[s[0]] + rest[0]] + rest[1..])[1..] == rest[1..];
      }
    }
  }

  /** Splitting a string whose first run holds no separator keeps that run
      in front of the first piece. */
  lemma {:induction false} SplitPrefix(a: string, t: string, sep: char)
    requires sep !in a
    ensures Split(a + t, sep) == [a + Split(t, sep)[0]] + Split(t, sep)[1..]
  {
    if a != [] {
      SplitPrefix(a[1..], t, sep);
      var parts, rest := Split(t, sep), Split(a[1..] + t, sep);
      assert (a + t)[1..] == a[1..] + t;
      assert (a + t)[0] == a[0] != sep;
      assert Split(a + t, sep) == [[a[0]] + rest[0]] + rest[1..];
      assert rest[0] == a[1..] + parts[0] && rest[1..] == parts[1..];
      assert [a[0]] + (a[1..] + parts[0]) == a + parts[0];
    } else {
      var parts := Split(t, sep);
      assert a + t == t;
      assert a + parts[0] == parts[0];
      assert parts == [parts[0]] + parts[1..];
    }
  }

  /** Splitting the join of separator-free pieces gives back the pieces. */
  lemma {:induction false} SplitJoin(parts: seq<string>, sep: char)
    requires |parts| >= 1
    requires forall i :: 0 <= i < |parts| ==> sep !in parts[i]
    ensures Split(Join(parts, sep), sep) == parts
  {
    if |parts| == 1 {
      SplitPrefix(parts[0], [], sep);
      assert parts[0] + [] == parts[0];
      assert Split([], sep) == [[]];
      assert Split(parts[0], sep) == [parts[0] + []];
      assert parts == [parts[0]];
    } else {
      var tail := Join(parts[1..], sep);
      SplitJoin(parts[1..], sep);
      var rest := [sep] + tail;
      assert rest[0] == sep && rest[1..] == tail;
      assert Split(rest, sep) == [[]] + parts[1..];
      SplitPrefix(parts[0], rest, sep);
      assert Join(parts, sep) == parts[0] + rest;
      assert parts[0] + [] == parts[0];
      assert parts == [parts[0]] + parts[1..];
    }
  }

  /** `t` is the part of `s` before its first `sep`, or all of `s` when it
      holds none: what `s.split(sep)[0]` yields. */
  ghost predicate IsFirstToken(t: string, s: string, sep: char) {
    t <= s && sep !in t && (|t| == |s| || s[|t|] == sep)
  }

  /** The first piece of a split is the first token. */
  lemma SplitFirstToken(s: string, sep: char)
    ensures IsFirstToken(Split(s, sep)[0], s, sep)
  {
  }

  /** A string has only one first token. */
  lemma FirstTokenUnique(t: string, u: string, s: string, sep: char)
    requires IsFirstToken(t, s, sep) && IsFirstToken(u, s, sep)
    ensures t == u
  {
  }
}
