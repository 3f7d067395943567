/**
 * The Python string operations the transform relies on: substring
 * containment (`sub in s`), `str.replace` and `str.strip` with one
 * character.  Strings are plain `seq<char>`; there is no normalisation.
 */
module Strings {

  /** `sub` occurs in `s` starting at index `i`. */
  ghost predicate OccursAt(s: string, sub: string, i: nat) {
    i + |sub| <= |s| && s[i..i + |sub|] == sub
  }

  lemma OccursAtShift(s: string, sub: string, i: nat)
    requires |s| > 0
    ensures OccursAt(s[1..], sub, i) <==> OccursAt(s, sub, i + 1)
  {
    if i + |sub| <= |s[1..]| {
      assert s[1..][i..i + |sub|] == s[i + 1..i + 1 + |sub|];
    }
  }

  /** Python's `sub in s`: true iff `sub` occurs somewhere in `s`; the empty string occurs everywhere. */
  function Contains(s: string, sub: string): (r: bool)
    ensures r <==> exists i: nat :: OccursAt(s, sub, i)
    decreases |s|
  {
    if |s| < |sub| then
      assert forall i: nat :: !OccursAt(s, sub, i);
      false
    else if s[..|sub|] == sub then
      assert OccursAt(s, sub, 0);
      true
    else
      var r := Contains(s[1..], sub);
      assert !OccursAt(s, sub, 0);
      assert r ==> exists i: nat :: OccursAt(s, sub, i) by {
        if r {
          var j: nat :| OccursAt(s[1..], sub, j);
          OccursAtShift(s, sub, j);
        }
      }
      assert (exists i: nat :: OccursAt(s, sub, i)) ==> r by {
        if exists i: nat :: OccursAt(s, sub, i) {
          var i: nat :| OccursAt(s, sub, i);
          OccursAtShift(s, sub, i - 1);
        }
      }
      r
  }

  /** `sub` occurs in `s` at the given index, so `Contains` holds. */
  lemma ContainsAt(s: string, sub: string, i: nat)
    requires i + |sub| <= |s| && s[i..i + |sub|] == sub
    ensures Contains(s, sub)
  {
    assert OccursAt(s, sub, i);
  }

  /** `sub` occurs in any string that has it as an infix. */
  lemma ContainsInfix(a: string, sub: string, b: string)
    ensures Contains(a + sub + b, sub)
  {
    ContainsAt(a + sub + b, sub, |a|);
  }

  /** A string lacking some character of `sub` does not contain `sub`. */
  lemma MissingCharNotContained(s: string, sub: string, c: char)
    requires c in sub && c !in s
    ensures !Contains(s, sub)
  {
  }

  /**
   * Python's `s.replace(pat, rep)` for a non-empty `pat`: every
   * non-overlapping occurrence, scanning left to right, is replaced.
   */
  function ReplaceAll(s: string, pat: string, rep: string): (r: string)
    requires |pat| > 0
    ensures !Contains(s, pat) ==> r == s
    ensures rep == [] ==> |r| <= |s|
    ensures rep == [] ==> (r == s <==> !Contains(s, pat))
    decreases |s|
  {
    if |s| < |pat| then
      s
    else if s[..|pat|] == pat then
      assert OccursAt(s, pat, 0);
      rep + ReplaceAll(s[|pat|..], pat, rep)
    else
      var t := ReplaceAll(s[1..], pat, rep);
      assert !OccursAt(s, pat, 0);
      assert Contains(s, pat) <==> Contains(s[1..], pat) by {
        if Contains(s, pat) {
          var i: nat :| OccursAt(s, pat, i);
          OccursAtShift(s, pat, i - 1);
        }
        if Contains(s[1..], pat) {
          var j: nat :| OccursAt(s[1..], pat, j);
          OccursAtShift(s, pat, j);
        }
      }
      assert [s[0]] + s[1..] == s;
      [s[0]] + t
  }

  /**
   * `ReplaceAll` replaces the leftmost occurrence and then carries on
   * after it: the text before the first occurrence is copied, the
   * occurrence becomes `rep`, and the rest is replaced in turn.  With the
   * first postcondition of `ReplaceAll` (no occurrence, no change) this
   * determines the result: every non-overlapping occurrence, scanning left
   * to right, is replaced.
   */
  lemma ReplaceAllFirstOccurrence(s: string, pat: string, rep: string, i: nat)
    requires |pat| > 0 && OccursAt(s, pat, i)
    requires forall j: nat :: j < i ==> !OccursAt(s, pat, j)
    ensures ReplaceAll(s, pat, rep) == s[..i] + rep + ReplaceAll(s[i + |pat|..], pat, rep)
  {
    var p, t := s[..i], s[i..];
    SplitAt(s, pat, i);
    NoneBeforeFromForall(p + t, pat, i);
    ReplaceAllCopiesPrefix(p, t, pat, rep);
    ReplaceAllLeadingOccurrence(t, pat, rep);
  }

  /** Splitting `s` at an occurrence `i` of `pat`. */
  lemma SplitAt(s: string, pat: string, i: nat)
    requires OccursAt(s, pat, i)
    ensures s[..i] + s[i..] == s && OccursAt(s[i..], pat, 0) && s[i..][|pat|..] == s[i + |pat|..]
  {
    assert s[i..][..|pat|] == s[i..i + |pat|];
  }

  /** No occurrence of `pat` in `s` starts before index `i`, stated one position at a time. */
  ghost predicate NoneBefore(s: string, pat: string, i: nat)
    decreases i
  {
    i == 0 || (|s| > 0 && !OccursAt(s, pat, 0) && NoneBefore(s[1..], pat, i - 1))
  }

  lemma {:induction false} NoneBeforeFromForall(s: string, pat: string, i: nat)
    requires i <= |s|
    requires forall j: nat :: j < i ==> !OccursAt(s, pat, j)
    ensures NoneBefore(s, pat, i)
    decreases i
  {
    if i > 0 {
      forall j: nat | j < i - 1
        ensures !OccursAt(s[1..], pat, j)
      {
        OccursAtShift(s, pat, j);
      }
      NoneBeforeFromForall(s[1..], pat, i - 1);
    }
  }

  /** When no occurrence starts inside `p`, replacing in `p + t` copies `p` unchanged. */
  lemma {:induction false} ReplaceAllCopiesPrefix(p: string, t: string, pat: string, rep: string)
    requires |pat| > 0 && NoneBefore(p + t, pat, |p|)
    ensures ReplaceAll(p + t, pat, rep) == p + ReplaceAll(t, pat, rep)
    decreases |p|
  {
    if p == [] {
      assert p + t == t;
    } else if |p + t| < |pat| {
      ReplaceAllShort(p + t, pat, rep);
      ReplaceAllShort(t, pat, rep);
    } else {
      assert (p + t)[1..] == p[1..] + t;
      ReplaceAllNoOccurrenceAtStart(p + t, pat, rep);
      ReplaceAllCopiesPrefix(p[1..], t, pat, rep);
      ConsThenAppend(p, ReplaceAll(t, pat, rep));
    }
  }

  /** A string that starts with an occurrence has it replaced first. */
  lemma ReplaceAllLeadingOccurrence(s: string, pat: string, rep: string)
    requires |pat| > 0 && OccursAt(s, pat, 0)
    ensures ReplaceAll(s, pat, rep) == s[..0] + rep + ReplaceAll(s[|pat|..], pat, rep)
  {
    assert s[..|pat|] == pat;
    assert s[..0] + rep == rep;
  }

  /** A string that is long enough but does not start with an occurrence keeps its first character. */
  lemma ReplaceAllNoOccurrenceAtStart(s: string, pat: string, rep: string)
    requires 0 < |pat| <= |s| && !OccursAt(s, pat, 0)
    ensures ReplaceAll(s, pat, rep) == [s[0]] + ReplaceAll(s[1..], pat, rep)
  {
    assert s[..|pat|] != pat;
  }

  /** The length of the leading run of `c` in `s`. */
  function LeadingRun(s: string, c: char): (n: nat)
    ensures n <= |s|
    ensures forall k :: 0 <= k < n ==> s[k] == c
    ensures n == |s| || s[n] != c
    decreases |s|
  {
    if |s| > 0 && s[0] == c then
      var n := 1 + LeadingRun(s[1..], c);
      assert forall k :: 1 <= k < n ==> s[k] == s[1..][k - 1];
      n
    else
      0
  }

  /** The length of the trailing run of `c` in `s`. */
  function TrailingRun(s: string, c: char): (n: nat)
    ensures n <= |s|
    ensures forall k :: |s| - n <= k < |s| ==> s[k] == c
    ensures n == |s| || s[|s| - n - 1] != c
    decreases |s|
  {
    if |s| > 0 && s[|s| - 1] == c then
      var n := 1 + TrailingRun(s[..|s| - 1], c);
      assert forall k :: |s| - n <= k < |s| - 1 ==> s[k] == s[..|s| - 1][k];
      n
    else
      0
  }

  /** Only `c` lies outside the slice `s[i..j]`. */
  ghost predicate OnlyOutside(s: string, c: char, i: int, j: int) {
    && 0 <= i <= j <= |s|
    && (forall k :: 0 <= k < i ==> s[k] == c)
    && (forall k :: j <= k < |s| ==> s[k] == c)
  }

  /**
   * Python's `s.strip(c)` for one character `c`: the result is the
   * slice `s[i..j]` left after removing the leading and trailing runs of
   * `c`; it neither starts nor ends with `c`.
   */
  function Strip(s: string, c: char): (r: string)
    ensures exists i, j :: OnlyOutside(s, c, i, j) && r == s[i..j]
    ensures r == [] || (r[0] != c && r[|r| - 1] != c)
  {
    var i := LeadingRun(s, c);
    var j := |s| - TrailingRun(s[i..], c);
    assert OnlyOutside(s, c, i, j) by {
      assert forall k :: j <= k < |s| ==> s[k] == s[i..][k - i];
    }
    assert i < j ==> s[j - 1] == s[i..][j - 1 - i];
    s[i..j]
  }

  /**
   * No occurrence of `pat` can start inside a prefix `p` that lacks the
   * first character of `pat`, so `ReplaceAll` copies `p` unchanged.
   */
  lemma ReplaceAllSkipsPrefix(p: string, t: string, pat: string, rep: string)
    requires |pat| > 0 && pat[0] !in p
    ensures ReplaceAll(p + t, pat, rep) == p + ReplaceAll(t, pat, rep)
  {
    forall j: nat | j < |p|
      ensures !OccursAt(p + t, pat, j)
    {
      assert (p + t)[j] == p[j] != pat[0];
      assert j + |pat| <= |p + t| ==> (p + t)[j..j + |pat|][0] == (p + t)[j];
    }
    NoneBeforeFromForall(p + t, pat, |p|);
    ReplaceAllCopiesPrefix(p, t, pat, rep);
  }

  /** Putting back the head of `p` in front of its tail and `rest` gives `p + rest`. */
  lemma ConsThenAppend(p: string, rest: string)
    requires |p| > 0
    ensures [p[0]] + (p[1..] + rest) == p + rest
  {
    assert [p[0]] + p[1..] == p;
  }

  /** A string shorter than the pattern is left as it is. */
  lemma ReplaceAllShort(s: string, pat: string, rep: string)
    requires 0 < |pat| && |s| < |pat|
    ensures ReplaceAll(s, pat, rep) == s
  {
  }

  /** Removing a pattern that ends a string whose other part lacks its first character leaves that part. */
  lemma RemoveTrailingPattern(p: string, pat: string)
    requires |pat| > 0 && pat[0] !in p
    ensures ReplaceAll(p + pat, pat, "") == p
  {
    ReplaceAllSkipsPrefix(p, pat, pat, "");
    ReplaceAllLeadingOccurrence(pat, pat, "");
    assert ReplaceAll("", pat, "") == "";
  }

  /** Stripping a character that does not occur changes nothing. */
  lemma StripAbsent(s: string, c: char)
    requires c !in s
    ensures Strip(s, c) == s
  {
  }
}
