/** Python's substring test `t in s` on `str` operands, as `highlight_row` uses it. */
module Strings {

  /** The characters of `t` from position `j` on equal those of `s` from `i + j` on. */
  predicate MatchesFrom(s: string, t: string, i: nat, j: nat)
    requires i + |t| <= |s| && j <= |t|
    decreases |t| - j
  {
    j == |t| || (s[i + j] == t[j] && MatchesFrom(s, t, i, j + 1))
  }

  /** `t` starts somewhere in `s` at position `i` or later. */
  predicate OccursFrom(s: string, t: string, i: nat)
    decreases |s| - i
  {
    i + |t| <= |s| && (MatchesFrom(s, t, i, 0) || OccursFrom(s, t, i + 1))
  }

  /**
   * `t in s`: a left-to-right scan over the candidate start positions. It
   * agrees with the slice definition of a substring, in both directions.
   */
  predicate Contains(s: string, t: string): (b: bool)
    ensures b <==> IsSubstring(t, s)
  {
    OccursFromIsSlice(s, t, 0);
    OccursFrom(s, t, 0)
  }

  /** The defining property of a substring: `t` is the slice of `s` at some `i`. */
  ghost predicate SliceAt(s: string, t: string, i: int)
  {
    0 <= i && i + |t| <= |s| && s[i..i + |t|] == t
  }

  ghost predicate IsSubstring(t: string, s: string)
  {
    exists i :: SliceAt(s, t, i)
  }

  lemma {:induction false} MatchesFromIsSlice(s: string, t: string, i: nat, j: nat)
    requires i + |t| <= |s| && j <= |t|
    ensures MatchesFrom(s, t, i, j) <==> s[i + j..i + |t|] == t[j..]
    decreases |t| - j
  {
    if j < |t| {
      MatchesFromIsSlice(s, t, i, j + 1);
      assert s[i + j..i + |t|] == [s[i + j]] + s[i + j + 1..i + |t|];
      assert t[j..] == [t[j]] + t[j + 1..];
    }
  }

  lemma {:induction false} OccursFromIsSlice(s: string, t: string, i: nat)
    ensures OccursFrom(s, t, i) <==> exists k :: i <= k && SliceAt(s, t, k)
    decreases |s| - i
  {
    if i + |t| <= |s| {
      MatchesFromIsSlice(s, t, i, 0);
      assert t[0..] == t;
      assert MatchesFrom(s, t, i, 0) <==> SliceAt(s, t, i);
      OccursFromIsSlice(s, t, i + 1);
      if exists k :: i <= k && SliceAt(s, t, k) {
        var k :| i <= k && SliceAt(s, t, k);
        if k > i {
          assert i + 1 <= k;
        }
      }
    }
  }

  /** A string that lacks one of the characters of `t` does not contain `t`. */
  lemma MissingCharNotSubstring(s: string, t: string, c: char)
    requires c in t && c !in s
    ensures !IsSubstring(t, s)
  {
    var k :| 0 <= k < |t| && t[k] == c;
    forall i | 0 <= i ensures !SliceAt(s, t, i) {
      if i + |t| <= |s| {
        assert s[i..i + |t|][k] == s[i + k];
      }
    }
  }

  /**
   * If the first character of `t` occurs in `s` only at `p`, and `t` does
   * not match there, `s` does not contain `t`.
   */
  lemma OnlyCandidateFails(s: string, t: string, p: nat)
    requires 0 < |t| && p < |s|
    requires t[0] !in s[..p] && t[0] !in s[p + 1..]
    requires p + |t| <= |s| ==> !MatchesFrom(s, t, p, 0)
    ensures !IsSubstring(t, s)
  {
    forall i | 0 <= i ensures !SliceAt(s, t, i) {
      if i + |t| > |s| {
      } else if i < p {
        assert s[i] == s[..p][i];
        assert s[i..i + |t|][0] != t[0];
      } else if i > p {
        assert s[i] == s[p + 1..][i - p - 1];
        assert s[i..i + |t|][0] != t[0];
      } else {
        MatchesFromIsSlice(s, t, p, 0);
        assert t[0..] == t;
      }
    }
  }
}
