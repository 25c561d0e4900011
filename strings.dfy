/**
  Python string operations the core relies on: substring search (`sub in s`),
  `s.split(sep)` and single-character `s.replace(a, b)`.
 */
module Strings {
  import opened Wrappers

  /** `sep` occurs in `s` starting at position `i`. */
  predicate OccursAt(s: string, sep: string, i: nat)
  {
    i + |sep| <= |s| && s[i..i + |sep|] == sep
  }

  /** The leftmost position at which `sep` occurs in `s`, as `s.find(sep)` computes it. */
  function IndexOf(s: string, sep: string): (r: Option<nat>)
    ensures r.Some? ==> OccursAt(s, sep, r.value)
    ensures forall j: nat :: (r.None? || j < r.value) ==> !OccursAt(s, sep, j)
    decreases |s|
  {
    if |s| < |sep| then None
    else if s[..|sep|] == sep then Some(0)
    else
      var rest := IndexOf(s[1..], sep);
      assert forall j: nat :: 1 <= j && OccursAt(s, sep, j) ==> OccursAt(s[1..], sep, j - 1) by {
        forall j: nat | 1 <= j && OccursAt(s, sep, j) ensures OccursAt(s[1..], sep, j - 1) {
          assert s[1..][j - 1..j - 1 + |sep|] == s[j..j + |sep|];
        }
      }
      assert !OccursAt(s, sep, 0);
      match rest
      case None => None
      case Some(i) =>
        assert s[1..][i..i + |sep|] == s[i + 1..i + 1 + |sep|];
        Some(i + 1)
  }

  /** Python's `sub in s`. */
  predicate Contains(s: string, sub: string)
  {
    IndexOf(s, sub).Some?
  }

  lemma ContainsAt(s: string, sub: string, i: nat)
    requires OccursAt(s, sub, i)
    ensures Contains(s, sub)
  {
  }

  /** Python's `sep.join(parts)`. */
  function Join(parts: seq<string>, sep: string): string
  {
    if |parts| == 0 then ""
    else if |parts| == 1 then parts[0]
    else parts[0] + sep + Join(parts[1..], sep)
  }

  /** The part of `s` before the leftmost occurrence of `sep` holds no occurrence of it. */
  lemma PrefixLacks(s: string, sep: string, i: nat)
    requires |sep| > 0 && i <= |s|
    requires forall j: nat :: j < i ==> !OccursAt(s, sep, j)
    ensures !Contains(s[..i], sep)
  {
    if Contains(s[..i], sep) {
      var j := IndexOf(s[..i], sep).value;
      assert s[..i][j..j + |sep|] == s[j..j + |sep|];
      assert OccursAt(s[..i], sep, j) && j < i;
      assert OccursAt(s, sep, j);
    }
  }

  /**
    Python's `s.split(sep)` for a non-empty separator: the pieces between non-overlapping
    occurrences found left to right. No piece holds the separator, and joining the pieces
    with it gives `s` back.
   */
  function Split(s: string, sep: string): (r: seq<string>)
    requires |sep| > 0
    ensures |r| >= 1
    ensures forall k :: 0 <= k < |r| ==> !Contains(r[k], sep)
    ensures Join(r, sep) == s
    decreases |s|
  {
    match IndexOf(s, sep)
    case None => [s]
    case Some(i) =>
      var rest := Split(s[i + |sep|..], sep);
      PrefixLacks(s, sep, i);
      assert s[..i] + sep + s[i + |sep|..] == s by {
        assert s == s[..i] + s[i..i + |sep|] + s[i + |sep|..];
      }
      assert ([s[..i]] + rest)[1..] == rest;
      [s[..i]] + rest
  }

  /** A string without an occurrence of the separator is split into itself alone. */
  lemma SplitWithout(s: string, sep: string)
    requires |sep| > 0
    requires !Contains(s, sep)
    ensures Split(s, sep) == [s]
  {
  }

  /**
    When the first occurrence of `sep` in `a + sep + b` is the one right after `a`,
    splitting yields `a` followed by the pieces of `b`.
   */
  lemma {:induction false} SplitAfter(a: string, sep: string, b: string)
    requires |sep| > 0
    requires forall j: nat :: j < |a| ==> !OccursAt(a + sep + b, sep, j)
    ensures Split(a + sep + b, sep) == [a] + Split(b, sep)
  {
    var s := a + sep + b;
    assert s[|a|..|a| + |sep|] == sep;
    assert OccursAt(s, sep, |a|);
    var r := IndexOf(s, sep);
    assert r == Some(|a|);
    assert s[..|a|] == a;
    assert s[|a| + |sep|..] == b;
  }

  /** Python's `s.replace(a, b)` for single characters `a` and `b`. */
  function ReplaceChar(s: string, a: char, b: char): (r: string)
    ensures |r| == |s|
    ensures forall i :: 0 <= i < |s| ==> r[i] == (if s[i] == a then b else s[i])
    ensures a != b ==> a !in r
    ensures a !in s ==> r == s
  {
    seq(|s|, i requires 0 <= i < |s| => if s[i] == a then b else s[i])
  }
}
