/** Python's substring test on column names (`pattern in name`). */
module Strings {

  /** `p` is a prefix of `s`, compared character by character. */
  predicate StartsWith(s: string, p: string)
    ensures StartsWith(s, p) ==> |p| <= |s|
  {
    |p| == 0 || (|s| > 0 && s[0] == p[0] && StartsWith(s[1..], p[1..]))
  }

  /** The character comparison agrees with comparing `p` against the first `|p|` characters of `s`. */
  lemma {:induction false} StartsWithIffPrefix(s: string, p: string)
    ensures StartsWith(s, p) <==> |p| <= |s| && s[..|p|] == p
  {
    if |p| > 0 && |s| > 0 {
      StartsWithIffPrefix(s[1..], p[1..]);
      if |p| <= |s| {
        assert s[..|p|] == [s[0]] + s[1..][..|p| - 1];
        assert p == [p[0]] + p[1..];
      }
    }
  }

  /** Python's `p in s` for two strings: `p` occurs somewhere in `s`.
      The empty pattern occurs in every string, as in Python. */
  function Contains(s: string, p: string): (r: bool)
    ensures |p| == 0 ==> r
    ensures r ==> |p| <= |s|
    decreases |s|
  {
    StartsWith(s, p) || (|s| > 0 && Contains(s[1..], p))
  }

  /** `p` occurs in `s` starting at position `i`: the reference reading of a substring. */
  ghost predicate OccursAt(s: string, p: string, i: int) {
    0 <= i && i + |p| <= |s| && s[i..i + |p|] == p
  }

  /** Python's `any(p in s for p in patterns)`: false over no patterns, true once
      the empty pattern is among them. */
  function ContainsAny(s: string, patterns: seq<string>): (r: bool)
    ensures patterns == [] ==> !r
    ensures "" in patterns ==> r
  {
    exists p :: p in patterns && Contains(s, p)
  }

  /** An occurrence past the first position of `s` is an occurrence in its tail, one position earlier. */
  lemma OccursInTail(s: string, p: string, i: int)
    requires |s| > 0 && i >= 1
    ensures OccursAt(s, p, i) <==> OccursAt(s[1..], p, i - 1)
  {
    if i + |p| <= |s| {
      assert s[1..][i - 1..i - 1 + |p|] == s[i..i + |p|];
    }
  }

  /** The recursive test finds a pattern exactly when it occurs at some position. */
  lemma {:induction false} ContainsIffOccurs(s: string, p: string)
    ensures Contains(s, p) <==> exists i :: OccursAt(s, p, i)
    decreases |s|
  {
    StartsWithIffPrefix(s, p);
    if StartsWith(s, p) {
      assert OccursAt(s, p, 0);
    } else if |s| > 0 {
      ContainsIffOccurs(s[1..], p);
      if exists i :: OccursAt(s, p, i) {
        var i :| OccursAt(s, p, i);
        OccursInTail(s, p, i);
      }
      if exists i :: OccursAt(s[1..], p, i) {
        var i :| OccursAt(s[1..], p, i);
        OccursInTail(s, p, i + 1);
      }
    }
  }
}
