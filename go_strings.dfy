/**
  The two functions of Go's `strings` package that the post-pass relies on,
  for a non-empty pattern: `Count` and `ReplaceAll`. Both scan the text left
  to right and never let two matches overlap: after a match the scan resumes
  just past it.
 */
module GoStrings {

  /** True when `sub` occurs somewhere in `s` (Go's strings.Contains). */
  predicate Contains(s: string, sub: string) {
    exists i :: 0 <= i <= |s| && sub <= s[i..]
  }

  /** Number of non-overlapping occurrences of `pat` in `s` (Go's strings.Count). */
  function Count(s: string, pat: string): nat
    requires |pat| > 0
    decreases |s|
  {
    if s == [] then 0
    else if pat <= s then 1 + Count(s[|pat|..], pat)
    else Count(s[1..], pat)
  }

  /**
    Go's strings.ReplaceAll(s, pat, rep): every non-overlapping occurrence of
    `pat`, found left to right, is replaced by `rep`. Each replacement changes
    the length by |rep| - |pat|.
   */
  function ReplaceAll(s: string, pat: string, rep: string): (r: string)
    requires |pat| > 0
    ensures |r| == |s| + Count(s, pat) * (|rep| - |pat|)
    decreases |s|
  {
    if s == [] then []
    else if pat <= s then
      var tail := ReplaceAll(s[|pat|..], pat, rep);
      assert (1 + Count(s[|pat|..], pat)) * (|rep| - |pat|)
          == (|rep| - |pat|) + Count(s[|pat|..], pat) * (|rep| - |pat|);
      rep + tail
    else [s[0]] + ReplaceAll(s[1..], pat, rep)
  }

  /** Count is zero exactly when the pattern does not occur. */
  lemma {:induction false} CountZeroIffAbsent(s: string, pat: string)
    requires |pat| > 0
    ensures Count(s, pat) == 0 <==> !Contains(s, pat)
    decreases |s|
  {
    if s == [] {
      assert !Contains(s, pat) by {
        forall i | 0 <= i <= |s| ensures !(pat <= s[i..]) { }
      }
    } else if pat <= s {
      assert s[0..] == s;
    } else {
      CountZeroIffAbsent(s[1..], pat);
      if Contains(s, pat) {
        var i :| 0 <= i <= |s| && pat <= s[i..];
        assert i != 0 by { assert s[0..] == s; }
        assert s[1..][i - 1..] == s[i..];
      }
      if Contains(s[1..], pat) {
        var i :| 0 <= i <= |s[1..]| && pat <= s[1..][i..];
        assert s[1..][i..] == s[i + 1..];
      }
    }
  }

  /** With no occurrence of the pattern, ReplaceAll returns its input unchanged. */
  lemma {:induction false} ReplaceAllNoMatch(s: string, pat: string, rep: string)
    requires |pat| > 0 && Count(s, pat) == 0
    ensures ReplaceAll(s, pat, rep) == s
    decreases |s|
  {
    if s != [] {
      ReplaceAllNoMatch(s[1..], pat, rep);
      assert [s[0]] + s[1..] == s;
    }
  }

  /**
    When the replacement differs in length from the pattern, ReplaceAll leaves
    the text unchanged exactly when the pattern does not occur in it.
   */
  lemma ReplaceAllIdentity(s: string, pat: string, rep: string)
    requires |pat| > 0 && |rep| != |pat|
    ensures ReplaceAll(s, pat, rep) == s <==> !Contains(s, pat)
  {
    CountZeroIffAbsent(s, pat);
    if Count(s, pat) == 0 {
      ReplaceAllNoMatch(s, pat, rep);
    } else {
      ProductNonZero(Count(s, pat), |rep| - |pat|);
    }
  }

  lemma ProductNonZero(c: nat, d: int)
    requires c > 0 && d != 0
    ensures c * d != 0
  {
    if d > 0 {
      assert c * d >= d;
    } else {
      assert c * d <= d;
    }
  }
}
