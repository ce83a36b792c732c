/** The parts of Python's `str` the server relies on: `split` and `join` on a
    one-character separator, and substring occurrence for rendered pages. */
module Strings {

  function Count(s: string, c: char): nat
  {
    if s == [] then 0 else (if s[0] == c then 1 else 0) + Count(s[1..], c)
  }

  /** `sep.join(parts)`, for a non-empty list. */
  function Join(parts: seq<string>, sep: char): string
    requires |parts| >= 1
  {
    if |parts| == 1 then parts[0] else parts[0] + [sep] + Join(parts[1..], sep)
  }

  /** No piece contains the separator. */
  predicate NoSeparator(parts: seq<string>, sep: char)
  {
    forall k :: 0 <= k < |parts| ==> sep !in parts[k]
  }

  /** `s.split(sep)`: the pieces between occurrences of `sep`, so that there
      is always one piece more than there are separators, none of the pieces
      holds a separator, and joining them gives `s` back. */
  function Split(s: string, sep: char): (parts: seq<string>)
    ensures |parts| == Count(s, sep) + 1
    ensures NoSeparator(parts, sep)
    ensures Join(parts, sep) == s
  {
    if s == [] then [""]
    else
      var rest := Split(s[1..], sep);
      if s[0] == sep then [""] + rest
      else
        var parts := [[s[0]] + rest[0]] + rest[1..];
        assert parts[1..] == rest[1..];
        assert s == [s[0]] + s[1..];
        parts
  }

  lemma {:induction false} CountNone(s: string, c: char)
    requires c !in s
    ensures Count(s, c) == 0
  {
    if s != [] {
      CountNone(s[1..], c);
    }
  }

  /** Text without the separator is a single piece. */
  lemma SplitNoSeparator(s: string, sep: char)
    requires sep !in s
    ensures Split(s, sep) == [s]
  {
    CountNone(s, sep);
  }

  /** The first separator ends the first piece. */
  lemma {:induction false} SplitAfterSeparator(a: string, rest: string, sep: char)
    requires sep !in a
    ensures Split(a + [sep] + rest, sep) == [a] + Split(rest, sep)
  {
    var s := a + [sep] + rest;
    if a == [] {
      assert s[1..] == rest;
    } else {
      assert s[1..] == a[1..] + [sep] + rest;
      SplitAfterSeparator(a[1..], rest, sep);
      assert [a[0]] + a[1..] == a;
    }
  }

  /** Splitting undoes joining when no piece holds the separator. */
  lemma {:induction false} SplitJoin(parts: seq<string>, sep: char)
    requires |parts| >= 1 && NoSeparator(parts, sep)
    ensures Split(Join(parts, sep), sep) == parts
  {
    if |parts| == 1 {
      SplitNoSeparator(parts[0], sep);
    } else {
      SplitJoin(parts[1..], sep);
      SplitAfterSeparator(parts[0], Join(parts[1..], sep), sep);
      assert [parts[0]] + parts[1..] == parts;
    }
  }

  /** A string with exactly one separator splits into the text before it and
      the text after it. */
  lemma SplitAtOnlySeparator(a: string, b: string, sep: char)
    requires sep !in a && sep !in b
    ensures Split(a + [sep] + b, sep) == [a, b]
  {
    SplitAfterSeparator(a, b, sep);
    SplitNoSeparator(b, sep);
  }

  /** `t` stands in `s` at index `i`. */
  ghost predicate OccursAt(t: string, s: string, i: int)
  {
    0 <= i && i + |t| <= |s| && s[i..i + |t|] == t
  }

  /** `t in s`, for strings. */
  ghost predicate Occurs(t: string, s: string)
  {
    exists i :: OccursAt(t, s, i)
  }

  lemma OccursWithin(t: string, s: string, before: string, after: string)
    requires Occurs(t, s)
    ensures Occurs(t, before + s + after)
  {
    var i :| OccursAt(t, s, i);
    var w := before + s + after;
    assert w[|before| + i..|before| + i + |t|] == s[i..i + |t|];
    assert OccursAt(t, w, |before| + i);
  }

  lemma OccursBetween(t: string, before: string, after: string)
    ensures Occurs(t, before + t + after)
  {
    var w := before + t + after;
    assert w[|before|..|before| + |t|] == t;
    assert OccursAt(t, w, |before|);
  }

  /** Every piece occurs in the joined text. */
  lemma {:induction false} OccursInJoin(parts: seq<string>, sep: char, k: nat)
    requires k < |parts|
    ensures Occurs(parts[k], Join(parts, sep))
  {
    var joined := Join(parts, sep);
    if k == 0 {
      assert joined[0..|parts[0]|] == parts[0];
      assert OccursAt(parts[0], joined, 0);
    } else {
      var rest := Join(parts[1..], sep);
      OccursInJoin(parts[1..], sep, k - 1);
      OccursWithin(parts[k], rest, parts[0] + [sep], "");
      assert parts[0] + [sep] + rest + "" == joined;
    }
  }
}
