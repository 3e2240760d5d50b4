/** The Python string operations the scripts use: `str.replace`, `in`,
    `endswith`, `str.join`, slicing with clamped bounds and ASCII `lower`. */
module Text {

  /** `pat` occurs in `s` at position `i`. */
  predicate OccursAt(s: string, pat: string, i: nat)
  {
    i + |pat| <= |s| && s[i..i + |pat|] == pat
  }

  /** Python's `pat in s`. */
  predicate Contains(s: string, pat: string)
  {
    exists i: nat | i <= |s| :: OccursAt(s, pat, i)
  }

  /** Python's `s.endswith(suffix)`. */
  predicate EndsWith(s: string, suffix: string)
  {
    |suffix| <= |s| && s[|s| - |suffix|..] == suffix
  }

  /** Python's `s.replace(pat, rep)`: every occurrence, scanning left to right
      and without overlaps, is replaced. */
  function Replace(s: string, pat: string, rep: string): string
    requires |pat| > 0
    decreases |s|
  {
    if |s| == 0 then s
    else if OccursAt(s, pat, 0) then rep + Replace(s[|pat|..], pat, rep)
    else [s[0]] + Replace(s[1..], pat, rep)
  }

  /** The number of occurrences `Replace` rewrites. */
  function Count(s: string, pat: string): nat
    requires |pat| > 0
    decreases |s|
  {
    if |s| == 0 then 0
    else if OccursAt(s, pat, 0) then 1 + Count(s[|pat|..], pat)
    else Count(s[1..], pat)
  }

  /** Each rewritten occurrence changes the length by `|rep| - |pat|`. */
  lemma {:induction false} ReplaceLength(s: string, pat: string, rep: string)
    requires |pat| > 0
    ensures |Replace(s, pat, rep)| == |s| + Count(s, pat) * (|rep| - |pat|)
    decreases |s|
  {
    if |s| > 0 {
      if OccursAt(s, pat, 0) {
        var rest := s[|pat|..];
        ReplaceLength(rest, pat, rep);
        var c, d := Count(rest, pat), |rep| - |pat|;
        assert Replace(s, pat, rep) == rep + Replace(rest, pat, rep);
        assert Count(s, pat) == c + 1;
        assert |rest| == |s| - |pat|;
        Distribute(c, d);
      } else {
        ReplaceLength(s[1..], pat, rep);
      }
    }
  }

  lemma Distribute(c: int, d: int)
    ensures (c + 1) * d == c * d + d
  {
  }

  /** An occurrence after the first character is an occurrence in the tail. */
  lemma OccursInTail(s: string, pat: string, i: nat)
    requires |s| > 0
    ensures OccursAt(s, pat, i + 1) <==> OccursAt(s[1..], pat, i)
  {
    if i + 1 + |pat| <= |s| {
      assert s[1..][i..i + |pat|] == s[i + 1..i + 1 + |pat|];
    }
  }

  /** `Replace` rewrites something exactly when the pattern occurs. */
  lemma {:induction false} CountZeroIffAbsent(s: string, pat: string)
    requires |pat| > 0
    ensures Count(s, pat) == 0 <==> !Contains(s, pat)
    decreases |s|
  {
    if |s| == 0 {
      assert forall i: nat :: !OccursAt(s, pat, i);
    } else if OccursAt(s, pat, 0) {
      assert Contains(s, pat);
    } else {
      CountZeroIffAbsent(s[1..], pat);
      if Contains(s, pat) {
        var i: nat :| OccursAt(s, pat, i);
        OccursInTail(s, pat, i - 1);
        assert Contains(s[1..], pat);
      }
      if Contains(s[1..], pat) {
        var i: nat :| OccursAt(s[1..], pat, i);
        OccursInTail(s, pat, i);
        assert Contains(s, pat);
      }
    }
  }

  /** Text in which the pattern does not occur comes back unchanged. */
  lemma {:induction false} ReplaceAbsent(s: string, pat: string, rep: string)
    requires |pat| > 0 && Count(s, pat) == 0
    ensures Replace(s, pat, rep) == s
    decreases |s|
  {
    if |s| > 0 {
      ReplaceAbsent(s[1..], pat, rep);
      assert s == [s[0]] + s[1..];
    }
  }

  /** Every character of a replacement result comes from the text or from `rep`. */
  lemma {:induction false} ReplaceChars(s: string, pat: string, rep: string, c: char)
    requires |pat| > 0 && c in Replace(s, pat, rep)
    ensures c in s || c in rep
    decreases |s|
  {
    if |s| > 0 {
      if OccursAt(s, pat, 0) {
        if c !in rep {
          ReplaceChars(s[|pat|..], pat, rep, c);
        }
      } else if c != s[0] {
        ReplaceChars(s[1..], pat, rep, c);
      }
    }
  }

  /** Replacing a one-character pattern by nothing removes that character. */
  lemma {:induction false} DeleteRemoves(s: string, d: char)
    ensures d !in Replace(s, [d], "")
    decreases |s|
  {
    if |s| > 0 {
      DeleteRemoves(s[1..], d);
    }
  }

  /** `c` occurrences growing by `d > 0` each add nothing exactly when there are none. */
  lemma Growth(c: nat, d: nat)
    requires d > 0
    ensures c * d >= 0 && (c * d == 0 <==> c == 0)
  {
    if c > 0 {
      assert c * d == (c - 1) * d + d;
    }
  }

  /** Each occurrence a lengthening replacement rewrites adds to the length,
      so the replacement leaves `s` unchanged exactly when `pat` is absent. */
  lemma LengtheningReplace(s: string, pat: string, rep: string)
    requires |pat| > 0 && |rep| > |pat|
    ensures |Replace(s, pat, rep)| >= |s|
    ensures |Replace(s, pat, rep)| == |s| <==> !Contains(s, pat)
    ensures !Contains(s, pat) ==> Replace(s, pat, rep) == s
  {
    ReplaceLength(s, pat, rep);
    CountZeroIffAbsent(s, pat);
    Growth(Count(s, pat), |rep| - |pat|);
    if Count(s, pat) == 0 {
      ReplaceAbsent(s, pat, rep);
    }
  }

  /** Two lengthening replacements in a row leave `s` unchanged exactly when
      neither pattern occurs in it. */
  lemma TwoReplacesUnchanged(s: string, p1: string, r1: string, p2: string, r2: string)
    requires |p1| > 0 && |r1| > |p1| && |p2| > 0 && |r2| > |p2|
    ensures Replace(Replace(s, p1, r1), p2, r2) == s <==> !Contains(s, p1) && !Contains(s, p2)
  {
    var once := Replace(s, p1, r1);
    LengtheningReplace(s, p1, r1);
    LengtheningReplace(once, p2, r2);
    if !Contains(s, p1) {
      LengtheningReplace(s, p2, r2);
    }
  }

  /** Python's `sep.join(xs)`. */
  function Join(xs: seq<string>, sep: string): string
    decreases |xs|
  {
    if |xs| == 0 then ""
    else if |xs| == 1 then xs[0]
    else xs[0] + sep + Join(xs[1..], sep)
  }

  /** The summed lengths of a sequence of strings. */
  function TotalLength(xs: seq<string>): nat
    decreases |xs|
  {
    if |xs| == 0 then 0 else |xs[0]| + TotalLength(xs[1..])
  }

  /** A join of `k` pieces holds the pieces and exactly `k - 1` separators. */
  lemma {:induction false} JoinLength(xs: seq<string>, sep: string)
    requires |xs| > 0
    ensures |Join(xs, sep)| == TotalLength(xs) + (|xs| - 1) * |sep|
    decreases |xs|
  {
    if |xs| > 1 {
      JoinLength(xs[1..], sep);
    }
  }

  /** Python's `s[lo:hi]` for non-negative bounds: both ends are clamped to the
      length, and a reversed range gives the empty string. */
  function Slice(s: string, lo: nat, hi: nat): (r: string)
    ensures |r| <= |s| && (lo <= hi ==> |r| <= hi - lo)
    ensures lo <= hi <= |s| ==> r == s[lo..hi]
    ensures lo <= |s| <= hi ==> r == s[lo..]
  {
    var a := if lo < |s| then lo else |s|;
    var b := if hi < |s| then hi else |s|;
    if a <= b then s[a..b] else ""
  }

  predicate IsUpper(c: char)
  {
    'A' <= c <= 'Z'
  }

  /** Python's `s.lower()` restricted to ASCII letters. */
  function Lower(s: string): (r: string)
    ensures |r| == |s|
    ensures forall i :: 0 <= i < |s| ==> !IsUpper(r[i])
    ensures forall i :: 0 <= i < |s| && !IsUpper(s[i]) ==> r[i] == s[i]
    ensures forall i :: 0 <= i < |s| && IsUpper(s[i]) ==> r[i] as int == s[i] as int + 32
  {
    seq(|s|, i requires 0 <= i < |s| => if IsUpper(s[i]) then (s[i] as int + 32) as char else s[i])
  }
}
