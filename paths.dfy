/**
 * Colon-separated scope paths: Python's `path.split(":")` and `":".join(parts)` on strings,
 * and the two round trips between them.
 */
module Paths {

  const Sep: char := ':'

  /** Index of the first separator in `s`. */
  function FirstSep(s: string): (i: nat)
    requires Sep in s
    ensures i < |s| && s[i] == Sep && Sep !in s[..i]
  {
    if s[0] == Sep then 0
    else
      var j := FirstSep(s[1..]);
      assert s[1..][..j] == s[1..j + 1];
      assert s[..j + 1] == [s[0]] + s[1..j + 1];
      j + 1
  }

  /** `s.split(":")`: the pieces between separators, empty pieces included. */
  function Split(s: string): (parts: seq<string>)
    ensures |parts| >= 1
    decreases |s|
  {
    if Sep !in s then [s]
    else
      var i := FirstSep(s);
      [s[..i]] + Split(s[i + 1..])
  }

  /** `":".join(parts)` for a non-empty list. */
  function Join(parts: seq<string>): string
    requires |parts| >= 1
  {
    if |parts| == 1 then parts[0] else parts[0] + [Sep] + Join(parts[1..])
  }

  predicate Segments(parts: seq<string>) {
    |parts| >= 1 && forall k | 0 <= k < |parts| :: Sep !in parts[k]
  }

  /** The pieces of a split contain no separator. */
  lemma {:induction false} SplitSegments(s: string)
    ensures Segments(Split(s))
    decreases |s|
  {
    if Sep in s {
      var i := FirstSep(s);
      SplitSegments(s[i + 1..]);
      assert Split(s) == [s[..i]] + Split(s[i + 1..]);
    }
  }

  /** Joining the pieces of a split gives back the string. */
  lemma {:induction false} JoinSplit(s: string)
    ensures Join(Split(s)) == s
    decreases |s|
  {
    if Sep in s {
      var i := FirstSep(s);
      JoinSplit(s[i + 1..]);
      assert s == s[..i] + [Sep] + s[i + 1..];
    }
  }

  /** Splitting a join of separator-free pieces gives back the pieces. */
  lemma {:induction false} SplitJoin(parts: seq<string>)
    requires Segments(parts)
    ensures Split(Join(parts)) == parts
    decreases |parts|
  {
    if |parts| > 1 {
      var head, rest := parts[0], Join(parts[1..]);
      var s := head + [Sep] + rest;
      assert s[|head|] == Sep;
      var i := FirstSep(s);
      assert i == |head| by {
        assert forall k | 0 <= k < |head| :: s[k] == head[k];
        assert forall k | 0 <= k < i :: s[k] == s[..i][k];
      }
      assert s[..i] == head && s[i + 1..] == rest;
      assert Split(s) == [head] + Split(rest);
      SplitJoin(parts[1..]);
      assert Join(parts) == s && parts == [head] + parts[1..];
    }
  }

  /** A path without a separator is a single segment. */
  lemma SplitSingle(s: string)
    requires Sep !in s
    ensures Split(s) == [s]
  {
  }

  /** A path with a separator has at least two segments. */
  lemma {:induction false} SplitMany(s: string)
    requires Sep in s
    ensures |Split(s)| >= 2
  {
  }
}
