/**
 * Knuth-Morris-Pratt string search (kmp.cpp).
 *
 * A C string is a `seq<char>` holding the characters before its NUL terminator;
 * `At` gives the character the C code reads at an index, with the terminator
 * one past the end.  The tables are `array<int>` written in place, as in C.
 */
module Kmp {

  import opened Occurrences

  /** The character at index `i` of a C string whose characters are `s`. */
  function At(s: seq<char>, i: nat): (c: char)
    ensures i < |s| ==> c == s[i]
    ensures i >= |s| ==> c == '\0'
  {
    if i < |s| then s[i] else '\0'
  }

  /** `k` is the length of a border of `s`: a proper prefix that is also a suffix. */
  predicate IsBorder(s: seq<char>, k: int)
  {
    0 <= k < |s| && s[..k] == s[|s| - k..]
  }

  /** The longest border of `s` whose length is at most `k`. */
  function LongestBorderUpTo(s: seq<char>, k: nat): (b: nat)
    requires k < |s|
    ensures b <= k && IsBorder(s, b)
    ensures forall j :: b < j <= k ==> !IsBorder(s, j)
    decreases k
  {
    if k == 0 then 0
    else if IsBorder(s, k) then k
    else LongestBorderUpTo(s, k - 1)
  }

  /** The length of the longest proper prefix of a non-empty `s` that is also a suffix of it. */
  function Lps(s: seq<char>): nat
    requires |s| > 0
  {
    LongestBorderUpTo(s, |s| - 1)
  }

  lemma LpsIsLongestBorder(s: seq<char>)
    requires |s| > 0
    ensures IsBorder(s, Lps(s)) && Lps(s) < |s|
    ensures forall k :: IsBorder(s, k) ==> k <= Lps(s)
  {
  }

  /** A border `b` that no longer border exceeds is the longest one. */
  lemma LpsUnique(s: seq<char>, b: nat)
    requires |s| > 0 && IsBorder(s, b)
    requires forall k :: IsBorder(s, k) ==> k <= b
    ensures Lps(s) == b
  {
    LpsIsLongestBorder(s);
  }

  /** `t` is the partial-match table of `p`: entry `i` is the longest border of `p[..i+1]`. */
  ghost predicate IsPartialMatchTable(t: seq<int>, p: seq<char>)
  {
    |t| == |p| && forall i :: 0 <= i < |p| ==> t[i] == Lps(p[..i + 1])
  }

  /** Every entry of a partial-match table lies in [0, i]. */
  lemma {:induction false} PartialMatchTableBounds(t: seq<int>, p: seq<char>, i: int)
    requires IsPartialMatchTable(t, p) && 0 <= i < |p|
    ensures 0 <= t[i] <= i
  {
    LpsIsLongestBorder(p[..i + 1]);
  }

  /** Extending a string by one character extends exactly the borders followed by that character. */
  lemma BorderExtend(s: seq<char>, c: char, k: nat)
    requires k < |s|
    ensures IsBorder(s + [c], k + 1) <==> IsBorder(s, k) && s[k] == c
  {
    var t := s + [c];
    assert t[..k + 1] == s[..k] + [s[k]];
    assert t[|t| - (k + 1)..] == s[|s| - k..] + [c];
    if IsBorder(t, k + 1) {
      assert s[..k] == t[..k + 1][..k];
      assert s[|s| - k..] == t[|t| - (k + 1)..][..k];
    }
  }

  /** A shorter border of `s` is exactly a border of its border `s[..m]`. */
  lemma BorderOfBorder(s: seq<char>, m: nat, b: nat)
    requires IsBorder(s, m) && b < m
    ensures IsBorder(s, b) <==> IsBorder(s[..m], b)
  {
    assert s[..m][..b] == s[..b];
    assert s[..m][m - b..] == s[|s| - m..][m - b..];
    assert s[|s| - m..][m - b..] == s[|s| - b..];
  }

  /**
   * The scan state of the table builders: `m` is a border of `p[..j]` and no longer
   * border of `p[..j]` is followed by `p[j]`.
   */
  ghost predicate Scanning(p: seq<char>, j: int, m: int)
  {
    0 <= m < j <= |p| && IsBorder(p[..j], m) &&
    (j < |p| ==> forall b :: m < b < j ==> !(IsBorder(p[..j], b) && p[b] == p[j]))
  }

  lemma {:induction false} ScanMatch(p: seq<char>, j: int, m: int)
    requires Scanning(p, j, m) && j < |p| && p[j] == p[m]
    ensures Lps(p[..j + 1]) == m + 1
    ensures Scanning(p, j + 1, m + 1)
  {
    var s := p[..j + 1];
    assert s == p[..j] + [p[j]];
    BorderExtend(p[..j], p[j], m);
    forall k | IsBorder(s, k) ensures k <= m + 1 {
      if k > m + 1 {
        BorderExtend(p[..j], p[j], k - 1);
      }
    }
    LpsUnique(s, m + 1);
    LpsIsLongestBorder(s);
  }

  lemma {:induction false} ScanMissAtZero(p: seq<char>, j: int)
    requires Scanning(p, j, 0) && j < |p| && p[j] != p[0]
    ensures Lps(p[..j + 1]) == 0
    ensures Scanning(p, j + 1, 0)
  {
    var s := p[..j + 1];
    assert s == p[..j] + [p[j]];
    forall k | IsBorder(s, k) ensures k <= 0 {
      if k > 0 {
        BorderExtend(p[..j], p[j], k - 1);
      }
    }
    LpsUnique(s, 0);
    LpsIsLongestBorder(s);
  }

  lemma {:induction false} ScanFallBack(p: seq<char>, j: int, m: int)
    requires Scanning(p, j, m) && j < |p| && m > 0 && p[j] != p[m]
    ensures Scanning(p, j, Lps(p[..m]))
  {
    var s := p[..j];
    assert s[..m] == p[..m];
    var t := Lps(p[..m]);
    LpsIsLongestBorder(p[..m]);
    BorderOfBorder(s, m, t);
    forall b | t < b < j
      ensures !(IsBorder(s, b) && p[b] == p[j])
    {
      if b < m {
        BorderOfBorder(s, m, b);
      }
    }
  }

  /** A shift `j` whose comparison stopped at a mismatch rules out the border of length `i + 1 - j`. */
  lemma {:induction false} ShiftFails(p: seq<char>, i: nat, j: nat, n: nat)
    requires 1 <= j <= i < |p| && n <= i - j
    requires forall t :: 0 <= t < n ==> p[j + t] == p[t]
    requires p[j + n] != p[n]
    ensures !IsBorder(p[..i + 1], i + 1 - j)
  {
  }

  /** The first shift `j` that matches through `i` gives the longest border of `p[..i + 1]`. */
  lemma {:induction false} ShiftMatches(p: seq<char>, i: nat, j: nat, s: seq<char>)
    requires 1 <= j <= i < |p| && s == p[..i + 1]
    requires forall t :: 0 <= t < i + 1 - j ==> p[j + t] == p[t]
    requires forall k :: i + 1 - j < k <= i ==> !IsBorder(s, k)
    ensures Lps(s) == i + 1 - j
  {
    assert s[..i + 1 - j] == p[..i + 1 - j];
    assert s[|s| - (i + 1 - j)..] == p[j..j + (i + 1 - j)];
    LpsUnique(s, i + 1 - j);
  }

  /**
   * The comparison of shift `j` with the pattern for entry `i`: the number of characters
   * that match before the first mismatch, counting at most `i - j + 1`.
   */
  method MatchRun(pattern: seq<char>, i: nat, j: nat) returns (submatch: nat)
    requires 1 <= j <= i < |pattern|
    ensures submatch <= i - j + 1
    ensures forall t :: 0 <= t < submatch ==> pattern[j + t] == pattern[t]
    ensures submatch <= i - j ==> pattern[j + submatch] != pattern[submatch]
  {
    submatch := 0;
    while At(pattern, j + submatch) == pattern[submatch] && submatch <= i - j
      invariant 0 <= submatch <= i - j + 1
      invariant forall t :: 0 <= t < submatch ==> pattern[j + t] == pattern[t]
    {
      submatch := submatch + 1;
    }
  }

  /** The shift loop for entry `i`: the first shift that matches through `i` gives the longest border. */
  method BorderByShifts(pattern: seq<char>, i: nat) returns (submatch: int)
    requires 1 <= i < |pattern|
    ensures submatch == Lps(pattern[..i + 1])
  {
    ghost var s := pattern[..i + 1];
    submatch := 0;
    var j := 1;
    // every shift below j leaves no border of length i + 1 - shift
    while j <= i
      invariant 1 <= j <= i + 1
      invariant forall k :: i + 1 - j < k <= i ==> !IsBorder(s, k)
      invariant 1 < j ==> 0 <= submatch <= i + 1 - j
    {
      submatch := MatchRun(pattern, i, j);
      if submatch > i - j {
        ShiftMatches(pattern, i, j, s);
        return;
      }
      ShiftFails(pattern, i, j, submatch);
      j := j + 1;
    }
    LpsUnique(s, 0);
  }

  /** CreatePartialMatchTable_1: the brute-force table builder. */
  method CreatePartialMatchTable1(next: array<int>, pattern: seq<char>)
    requires 1 <= |pattern| <= next.Length
    modifies next
    ensures IsPartialMatchTable(next[..|pattern|], pattern)
    ensures next[|pattern|..] == old(next[|pattern|..])
  {
    var patternLen := |pattern|;
    next[0] := 0;
    assert Lps(pattern[..1]) == 0 by { LpsIsLongestBorder(pattern[..1]); }
    var i := 1;
    while i < patternLen
      invariant 1 <= i <= patternLen
      invariant forall k :: 0 <= k < i ==> next[k] == Lps(pattern[..k + 1])
      invariant next[patternLen..] == old(next[patternLen..])
    {
      var submatch := BorderByShifts(pattern, i);
      next[i] := submatch;
      i := i + 1;
    }
  }

  /** CreatePartialMatchTable_2: the incremental table builder. */
  method CreatePartialMatchTable2(next: array<int>, pattern: seq<char>)
    requires 1 <= |pattern| <= next.Length
    modifies next
    ensures IsPartialMatchTable(next[..|pattern|], pattern)
    ensures next[|pattern|..] == old(next[|pattern|..])
  {
    var patternLen := |pattern|;
    var j := 1;
    var matched := 0;
    next[0] := 0;
    assert Lps(pattern[..1]) == 0 by { LpsIsLongestBorder(pattern[..1]); }
    while j < patternLen
      invariant Scanning(pattern, j, matched)
      invariant forall k :: 0 <= k < j ==> next[k] == Lps(pattern[..k + 1])
      invariant next[patternLen..] == old(next[patternLen..])
      decreases patternLen - j, matched
    {
      if pattern[j] == pattern[matched] {
        ScanMatch(pattern, j, matched);
        matched := matched + 1;
        next[j] := matched;
        j := j + 1;
        continue;
      }
      if matched == 0 {
        ScanMissAtZero(pattern, j);
        next[j] := 0;
        j := j + 1;
      } else {
        ScanFallBack(pattern, j, matched);
        LpsIsLongestBorder(pattern[..matched]);
        assert pattern[..matched - 1 + 1] == pattern[..matched];
        matched := next[matched - 1];
      }
    }
  }

  /** The search state: the last `m` characters read match the pattern's prefix and no occurrence starts before them. */
  ghost predicate Searching(pattern: seq<char>, text: seq<char>, pos: int, m: int)
  {
    0 <= m < |pattern| && m <= pos <= |text| &&
    text[pos - m..pos] == pattern[..m] &&
    forall q :: 0 <= q < pos - m ==> !OccursAt(pattern, text, q)
  }

  lemma {:induction false} SearchAdvance(pattern: seq<char>, text: seq<char>, pos: int, m: int)
    requires Searching(pattern, text, pos, m) && pos < |text| && pattern[m] == text[pos]
    ensures m + 1 < |pattern| ==> Searching(pattern, text, pos + 1, m + 1)
    ensures m + 1 == |pattern| ==> Found(pattern, text, pos + 1)
  {
    assert text[pos - m..pos + 1] == text[pos - m..pos] + [text[pos]];
    assert pattern[..m + 1] == pattern[..m] + [pattern[m]];
    if m + 1 == |pattern| {
      assert pattern[..m + 1] == pattern;
    }
  }

  lemma {:induction false} SearchSkip(pattern: seq<char>, text: seq<char>, pos: int)
    requires Searching(pattern, text, pos, 0) && pos < |text| && pattern[0] != text[pos]
    ensures Searching(pattern, text, pos + 1, 0)
  {
  }

  /** GetNext's -1 entry: no occurrence starts at or before `pos`, so the search resumes after it. */
  ghost predicate Restarting(pattern: seq<char>, text: seq<char>, pos: int)
  {
    0 <= pos < |text| && forall q :: 0 <= q <= pos ==> !OccursAt(pattern, text, q)
  }

  lemma {:induction false} SearchResume(pattern: seq<char>, text: seq<char>, pos: int)
    requires |pattern| >= 1 && Restarting(pattern, text, pos)
    ensures Searching(pattern, text, pos + 1, 0)
  {
  }

  /** After a mismatch with `m > 0` characters matched, no occurrence starts before the longest border of the match. */
  lemma {:induction false} SearchFallBack(pattern: seq<char>, text: seq<char>, pos: int, m: int)
    requires Searching(pattern, text, pos, m) && pos < |text| && m > 0 && pattern[m] != text[pos]
    ensures Searching(pattern, text, pos, Lps(pattern[..m]))
  {
    var t := Lps(pattern[..m]);
    LpsIsLongestBorder(pattern[..m]);
    assert pattern[..m][..t] == pattern[..t];
    assert text[pos - t..pos] == text[pos - m..pos][m - t..];
    forall q | pos - m <= q < pos - t
      ensures !OccursAt(pattern, text, q)
    {
      if OccursAt(pattern, text, q) {
        var k := pos - q;
        assert text[q..q + |pattern|][..k + 1] == pattern[..k + 1];
        if q != pos - m {
          assert text[q..pos] == pattern[..k];
          assert pattern[..m][..k] == pattern[..k];
          assert text[q..pos] == text[pos - m..pos][m - k..];
          assert IsBorder(pattern[..m], k);
        }
      }
    }
  }

  /** The whole pattern has been matched, ending at `pos`, and no earlier occurrence exists. */
  ghost predicate Found(pattern: seq<char>, text: seq<char>, pos: int)
  {
    |pattern| <= pos <= |text| && text[pos - |pattern|..pos] == pattern &&
    forall q :: 0 <= q < pos - |pattern| ==> !OccursAt(pattern, text, q)
  }

  lemma {:induction false} SearchFound(pattern: seq<char>, text: seq<char>, pos: int)
    requires Found(pattern, text, pos)
    ensures FirstMatch(pattern, text) == pos - |pattern|
  {
    var r := FirstMatch(pattern, text);
    assert OccursAt(pattern, text, pos - |pattern|);
  }

  /** When the text is exhausted with only a proper prefix matched, the pattern does not occur. */
  lemma {:induction false} SearchExhausted(pattern: seq<char>, text: seq<char>, m: int)
    requires Searching(pattern, text, |text|, m)
    ensures FirstMatch(pattern, text) == -1
  {
  }

  /** KmpGrep: the first occurrence of a non-empty `pattern` in `text`, using the partial-match table. */
  method KmpGrep(pattern: seq<char>, text: seq<char>) returns (r: int)
    requires |pattern| >= 1
    ensures r == FirstMatch(pattern, text)
  {
    var patternLen := |pattern|;
    var len := |text|;
    var matched := 0;
    var pos := 0;
    var next := new int[patternLen];
    CreatePartialMatchTable2(next, pattern);
    assert next[..] == next[..patternLen];
    while matched < patternLen && pos < len
      invariant Searching(pattern, text, pos, matched) || (matched == patternLen && Found(pattern, text, pos))
      invariant IsPartialMatchTable(next[..], pattern)
      decreases len - pos, matched
    {
      if pattern[matched] == text[pos] {
        SearchAdvance(pattern, text, pos, matched);
        matched := matched + 1;
        pos := pos + 1;
        continue;
      }
      if matched == 0 {
        SearchSkip(pattern, text, pos);
        pos := pos + 1;
        continue;
      }
      SearchFallBack(pattern, text, pos, matched);
      LpsIsLongestBorder(pattern[..matched]);
      assert next[matched - 1] == next[..][matched - 1];
      assert pattern[..matched - 1 + 1] == pattern[..matched];
      matched := next[matched - 1];
    }
    if matched == patternLen {
      SearchFound(pattern, text, pos);
      r := pos - matched;
    } else {
      SearchExhausted(pattern, text, matched);
      r := -1;
    }
  }

  /** `t` is the table GetNext builds: -1 first, then the longest border of each prefix `p[..j]`, 1 <= j <= |p|. */
  ghost predicate IsNextTable(t: seq<int>, p: seq<char>)
  {
    |t| == |p| + 1 && t[0] == -1 && forall j :: 1 <= j <= |p| ==> t[j] == Lps(p[..j])
  }

  /** Once every border of `p[..j]` is known not to be followed by `p[j]`, `p[..j + 1]` has no non-empty border. */
  lemma {:induction false} ScanRestart(p: seq<char>, j: int)
    requires 0 <= j < |p|
    requires forall b :: 0 <= b < j ==> !(IsBorder(p[..j], b) && p[b] == p[j])
    ensures Lps(p[..j + 1]) == 0
    ensures Scanning(p, j + 1, 0)
  {
    var s := p[..j + 1];
    assert s == p[..j] + [p[j]];
    forall k | IsBorder(s, k) ensures k <= 0 {
      if k > 0 {
        BorderExtend(p[..j], p[j], k - 1);
      }
    }
    LpsUnique(s, 0);
    LpsIsLongestBorder(s);
  }

  /**
   * The scan state of GetNext: with `k >= 0` the builders' scan state, and with `k = -1`
   * no border of `p[..j]` at all is followed by `p[j]`.
   */
  ghost predicate NextScanning(p: seq<char>, j: int, k: int)
  {
    -1 <= k < j <= |p| &&
    (k >= 0 ==> Scanning(p, j, k)) &&
    (k < 0 && j < |p| ==> forall b :: 0 <= b < j ==> !(IsBorder(p[..j], b) && p[b] == p[j]))
  }

  /** GetNext's advance: after `k = -1` or a match, the entry for `j + 1` is `k + 1`. */
  lemma {:induction false} NextAdvance(p: seq<char>, j: int, k: int)
    requires NextScanning(p, j, k) && j < |p| && (k == -1 || p[j] == p[k])
    ensures Lps(p[..j + 1]) == k + 1
    ensures NextScanning(p, j + 1, k + 1)
  {
    if k == -1 {
      ScanRestart(p, j);
    } else {
      ScanMatch(p, j, k);
    }
  }

  /** GetNext's fall-back: after a mismatch, moving `k` to its table entry keeps the scan state. */
  lemma {:induction false} NextFallBack(p: seq<char>, j: int, k: int, nk: int)
    requires NextScanning(p, j, k) && j < |p| && k >= 0 && p[j] != p[k]
    requires nk == if k == 0 then -1 else Lps(p[..k])
    ensures nk < k && NextScanning(p, j, nk)
  {
    if k > 0 {
      ScanFallBack(p, j, k);
      LpsIsLongestBorder(p[..k]);
    }
  }

  /**
   * GetNext: next[0] = -1 and next[j] is the longest border of `pattern[..j]` for
   * 1 <= j <= patternLen, so it writes `patternLen + 1` entries.  The C code does not
   * check its array's bounds; here a write past the end is not performed and is
   * reported as `overrun`.
   */
  method GetNext(next: array<int>, pattern: seq<char>) returns (overrun: bool)
    requires next.Length >= 1 && next.Length >= |pattern|
    modifies next
    ensures overrun <==> next.Length == |pattern|
    ensures next[0] == -1
    ensures forall j {:trigger next[j]} :: 1 <= j <= |pattern| && j < next.Length ==> next[j] == Lps(pattern[..j])
    ensures !overrun ==> IsNextTable(next[..|pattern| + 1], pattern)
    ensures !overrun ==> next[|pattern| + 1..] == old(next[|pattern| + 1..])
  {
    var patternLen := |pattern|;
    var j := 0;
    var k := -1;
    overrun := false;
    next[0] := -1;
    while j < patternLen
      invariant NextScanning(pattern, j, k)
      invariant next[0] == -1
      invariant overrun <==> j == next.Length
      invariant forall t {:trigger next[t]} :: 1 <= t <= j && t < next.Length ==> next[t] == Lps(pattern[..t])
      invariant forall i :: j < i < next.Length ==> next[i] == old(next[i])
      decreases patternLen - j, k + 1
    {
      j, k, overrun := GetNextRound(next, pattern, j, k, old(next[..]));
    }
    if !overrun {
      assert next[..patternLen + 1][0] == next[0];
    }
  }

  /**
   * One pass of GetNext's loop: after `k == -1` or a match, both advance and
   * `next[j]` is written (unless `j` has run past the array); after a
   * mismatch, `k` falls back to `next[k]`.
   */
  method GetNextRound(next: array<int>, pattern: seq<char>, j: int, k: int, ghost before: seq<int>)
    returns (j2: int, k2: int, overrun: bool)
    requires NextScanning(pattern, j, k) && j < |pattern| && j < next.Length && |before| == next.Length
    requires next[0] == -1
    requires forall t {:trigger next[t]} :: 1 <= t <= j ==> next[t] == Lps(pattern[..t])
    requires forall i :: j < i < next.Length ==> next[i] == before[i]
    modifies next
    ensures NextScanning(pattern, j2, k2) && next[0] == -1
    ensures (j2 == j + 1 && k2 == k + 1) || (j2 == j && k2 < k)
    ensures overrun <==> j2 == next.Length
    ensures forall t {:trigger next[t]} :: 1 <= t <= j2 && t < next.Length ==> next[t] == Lps(pattern[..t])
    ensures forall i :: j2 < i < next.Length ==> next[i] == before[i]
  {
    overrun := false;
    if k == -1 || pattern[j] == pattern[k] {
      NextAdvance(pattern, j, k);
      j2, k2 := j + 1, k + 1;
      assert NextScanning(pattern, j2, k2);
      if j2 < next.Length {
        next[j2] := k2;
      } else {
        overrun := true;
      }
    } else {
      var fallBack := next[k];
      NextFallBack(pattern, j, k, fallBack);
      j2, k2 := j, fallBack;
      assert NextScanning(pattern, j2, k2);
    }
  }

  /**
   * The table allocation of KmpSearch as written: an array of `patternLen` entries,
   * one fewer than GetNext writes, so the last write of GetNext falls outside it.
   */
  method KmpSearchTable(pattern: seq<char>) returns (overrun: bool)
    requires |pattern| >= 1
    ensures overrun
  {
    var next := new int[|pattern|];
    overrun := GetNext(next, pattern);
  }

  /**
   * KmpSearch: the first occurrence of a non-empty `pattern` in `text`, using the GetNext
   * table, allocated here with the `patternLen + 1` entries GetNext writes.
   */
  method KmpSearch(pattern: seq<char>, text: seq<char>) returns (r: int)
    requires |pattern| >= 1
    ensures r == FirstMatch(pattern, text)
  {
    var patternLen := |pattern|;
    var len := |text|;
    var pos := 0;
    var next := new int[patternLen + 1];
    var overrun := GetNext(next, pattern);
    assert next[..] == next[..patternLen + 1];
    var j := 0;
    while j < patternLen && pos < len
      invariant IsNextTable(next[..], pattern)
      invariant -1 <= j <= patternLen
      invariant j == -1 ==> Restarting(pattern, text, pos)
      invariant 0 <= j < patternLen ==> Searching(pattern, text, pos, j)
      invariant j == patternLen ==> Found(pattern, text, pos)
      decreases len - pos, j + 1
    {
      if j == -1 || pattern[j] == text[pos] {
        if j >= 0 {
          SearchAdvance(pattern, text, pos, j);
        } else {
          SearchResume(pattern, text, pos);
        }
        j := j + 1;
        pos := pos + 1;
      } else {
        if j > 0 {
          SearchFallBack(pattern, text, pos, j);
          LpsIsLongestBorder(pattern[..j]);
          assert next[j] == next[..][j];
        } else {
          SearchSkip(pattern, text, pos);
        }
        j := next[j];
      }
    }
    if j == patternLen {
      SearchFound(pattern, text, pos);
      r := pos - j;
    } else {
      SearchExhausted(pattern, text, j);
      r := -1;
    }
  }
}
