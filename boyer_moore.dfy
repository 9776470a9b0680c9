/**
 * Boyer-Moore string search (boyer-moore.cpp).
 *
 * Pattern and text are byte strings (the C code compares `char`s and indexes the
 * bad-character table by `unsigned char`; both are the same 8-bit values).  The
 * two global tables become arrays that `Grep` fills before it scans, and the
 * pure helpers read them as sequences.
 */
module BoyerMoore {

  import opened Occurrences

  /** An `unsigned char`. */
  type byte = x: int | 0 <= x < 256

  /** Entries of the global bad-character table `badCharShift`. */
  const AlphabetSize := 256
  /** Entries of the global good-suffix table `goodSuffixShift`: the longest pattern it can serve. */
  const MaxPatternLen := 512

  // ---------------------------------------------------------------------------
  // Bad-character rule
  // ---------------------------------------------------------------------------

  /** The last index of `c` in `p`, or -1 when `c` does not occur. */
  function LastIndexOf(p: seq<byte>, c: byte): (r: int)
    ensures -1 <= r < |p|
    ensures r >= 0 ==> p[r] == c
    ensures forall k :: r < k < |p| ==> p[k] != c
  {
    if |p| == 0 then -1
    else if p[|p| - 1] == c then |p| - 1
    else LastIndexOf(p[..|p| - 1], c)
  }

  /** The bad-character table of `p`, as BadCharRule leaves it. */
  function BadCharTable(p: seq<byte>): (t: seq<int>)
    ensures |t| == AlphabetSize
  {
    seq(AlphabetSize, c requires 0 <= c < AlphabetSize => LastIndexOf(p, c))
  }

  /** BadCharRule: `bmBC[c]` becomes the last index of `c` in the pattern, or -1. */
  method BadCharRule(pattern: seq<byte>, bmBC: array<int>)
    requires bmBC.Length == AlphabetSize
    modifies bmBC
    ensures bmBC[..] == BadCharTable(pattern)
  {
    var i := 0;
    while i < AlphabetSize
      invariant 0 <= i <= AlphabetSize
      invariant forall c :: 0 <= c < i ==> bmBC[c] == -1
    {
      bmBC[i] := -1;
      i := i + 1;
    }
    i := 0;
    while i < |pattern|
      invariant 0 <= i <= |pattern|
      invariant forall c :: 0 <= c < AlphabetSize ==> bmBC[c] == LastIndexOf(pattern[..i], c)
    {
      assert pattern[..i + 1][..i] == pattern[..i];
      bmBC[pattern[i]] := i;
      i := i + 1;
    }
    assert pattern[..|pattern|] == pattern;
  }

  /** BadCharacterMove: the shift that aligns the last occurrence of the mismatched text byte, at least 1. */
  function BadCharacterMove(bmBC: seq<int>, unmatch: int, badChar: byte): (shift: int)
    requires |bmBC| == AlphabetSize
    ensures shift >= 1
    ensures shift >= unmatch - 1 - bmBC[badChar]
  {
    if unmatch - 1 > bmBC[badChar] then unmatch - 1 - bmBC[badChar] else 1
  }

  /**
   * The bad-character shift skips no occurrence: with the pattern's byte at `x`
   * mismatching text byte `c`, every smaller shift `d` puts a byte other than `c`
   * under it.
   */
  lemma {:induction false} BadCharacterMoveSafe(p: seq<byte>, x: int, c: byte, d: int)
    requires 0 <= x < |p| && p[x] != c
    requires 1 <= d < BadCharacterMove(BadCharTable(p), x + 1, c)
    ensures x - d >= 0 && p[x - d] != c
  {
    assert BadCharTable(p)[c] == LastIndexOf(p, c);
  }

  // ---------------------------------------------------------------------------
  // Common suffixes (Suffix)
  // ---------------------------------------------------------------------------

  /** The `k` bytes ending at `i` agree with the last `k` bytes of `p`. */
  ghost predicate SharesSuffix(p: seq<byte>, i: int, k: int)
  {
    0 <= k <= i + 1 <= |p| && forall u :: i - k < u <= i ==> p[u] == p[u + (|p| - 1 - i)]
  }

  /** Extends a common suffix of `p[..i + 1]` and `p` of length `k` as far as it goes. */
  function CommonSuffixFrom(p: seq<byte>, i: int, k: int): int
    requires SharesSuffix(p, i, k)
    decreases i + 1 - k
  {
    if k <= i && p[i - k] == p[|p| - 1 - k] then CommonSuffixFrom(p, i, k + 1) else k
  }

  /** The extension is a common suffix at least `k` long, and it cannot be extended further. */
  lemma {:induction false} CommonSuffixFromLongest(p: seq<byte>, i: int, k: int)
    requires SharesSuffix(p, i, k)
    ensures var r := CommonSuffixFrom(p, i, k);
      k <= r && SharesSuffix(p, i, r) && (r <= i ==> p[i - r] != p[|p| - 1 - r])
    decreases i + 1 - k
  {
    if k <= i && p[i - k] == p[|p| - 1 - k] {
      CommonSuffixFromLongest(p, i, k + 1);
    }
  }

  /** The length of the longest common suffix of `p[..i + 1]` and `p`. */
  function CommonSuffix(p: seq<byte>, i: int): int
    requires 0 <= i < |p|
  {
    CommonSuffixFrom(p, i, 0)
  }

  /** The longest common suffix at `i` is between 0 and `i + 1` long and cannot be extended. */
  lemma CommonSuffixLongest(p: seq<byte>, i: int)
    requires 0 <= i < |p|
    ensures var r := CommonSuffix(p, i);
      SharesSuffix(p, i, r) && (r <= i ==> p[i - r] != p[|p| - 1 - r])
  {
    CommonSuffixFromLongest(p, i, 0);
  }

  /** A common suffix that cannot be extended is the longest one. */
  lemma {:induction false} CommonSuffixUnique(p: seq<byte>, i: int, r: int)
    requires 0 <= i && SharesSuffix(p, i, r)
    requires r <= i ==> p[i - r] != p[|p| - 1 - r]
    ensures CommonSuffix(p, i) == r
  {
    var k := 0;
    while k < r
      invariant 0 <= k <= r
      invariant CommonSuffixFrom(p, i, k) == CommonSuffix(p, i)
    {
      k := k + 1;
    }
  }

  /** Suffix: entry `i` is the longest common suffix of `pattern[..i + 1]` and `pattern`. */
  method Suffix(suffix: array<int>, pattern: seq<byte>)
    requires 1 <= |pattern| <= suffix.Length
    modifies suffix
    ensures forall i :: 0 <= i < |pattern| ==> suffix[i] == CommonSuffix(pattern, i)
    ensures suffix[|pattern| - 1] == |pattern|
    ensures forall i :: 0 <= i < |pattern| ==> 0 <= suffix[i] <= i + 1
  {
    var patternLen := |pattern|;
    var end := patternLen - 1;
    CommonSuffixUnique(pattern, end, patternLen);
    suffix[end] := patternLen;
    var i := end - 1;
    while i >= 0
      invariant -1 <= i < end
      invariant forall k :: i < k < patternLen ==> suffix[k] == CommonSuffix(pattern, k)
    {
      var matched := 0;
      while i >= matched && pattern[i - matched] == pattern[end - matched]
        invariant SharesSuffix(pattern, i, matched)
        invariant CommonSuffixFrom(pattern, i, matched) == CommonSuffix(pattern, i)
      {
        matched := matched + 1;
      }
      suffix[i] := matched;
      i := i - 1;
    }
    forall k | 0 <= k < patternLen
      ensures 0 <= suffix[k] <= k + 1
    {
      CommonSuffixLongest(pattern, k);
    }
  }

  // ---------------------------------------------------------------------------
  // Good-suffix rule
  // ---------------------------------------------------------------------------

  /** Case 2 applies to mismatch position `x` at `i`: `p[..i + 1]` is also a suffix of `p`, shorter than the match. */
  ghost predicate PrefixCandidate(p: seq<byte>, x: int, i: int)
    requires 0 <= i < |p|
  {
    CommonSuffix(p, i) == i + 1 && x < |p| - 1 - i
  }

  /**
   * The case-2 shift for mismatch position `x` once positions `lo..|p| - 2` are
   * processed (from the top down): the first candidate found wins.
   */
  ghost function PrefixShift(p: seq<byte>, x: int, lo: nat): (r: int)
    requires |p| >= 1
    ensures r == |p| || 1 <= r <= |p| - 1 - lo
    decreases |p| - lo
  {
    if lo > |p| - 2 then |p|
    else
      var above := PrefixShift(p, x, lo + 1);
      if above != |p| then above
      else if PrefixCandidate(p, x, lo) then |p| - 1 - lo
      else |p|
  }

  /**
   * The good-suffix shift for mismatch position `x` after `n` rounds of case 1:
   * the last round `j` that wrote position `x` decides it, otherwise case 2 does.
   */
  ghost function GoodSuffixShift(p: seq<byte>, x: int, n: nat): (r: int)
    requires |p| >= 1 && n <= |p| - 1
    decreases n
  {
    if n == 0 then PrefixShift(p, x, 0)
    else if |p| - 1 - CommonSuffix(p, n - 1) == x then |p| - n
    else GoodSuffixShift(p, x, n - 1)
  }

  /** The good-suffix table of `p` after `n` rounds of case 1. */
  ghost function GoodSuffixTable(p: seq<byte>, n: nat): (t: seq<int>)
    requires |p| >= 1 && n <= |p| - 1
    ensures |t| == |p|
  {
    seq(|p|, x requires 0 <= x < |p| => GoodSuffixShift(p, x, n))
  }

  /** Every good-suffix shift lies in [1, |p|]. */
  lemma {:induction false} GoodSuffixShiftBounds(p: seq<byte>, x: int, n: nat)
    requires |p| >= 1 && n <= |p| - 1
    ensures 1 <= GoodSuffixShift(p, x, n) <= |p|
  {
    if n > 0 {
      GoodSuffixShiftBounds(p, x, n - 1);
    }
  }

  /** The number of case-1 rounds of boyer-moore.cpp's loop `for(i=0; i<patternLen-2; i++)`. */
  function WrittenCaseOneRounds(patternLen: int): nat
  {
    if patternLen - 2 > 0 then patternLen - 2 else 0
  }

  /** Cases 3 and 2 of GoodSuffixRule: every shift starts at |p|, then prefixes that are suffixes lower it. */
  method PrefixShifts(pattern: seq<byte>, suffix: array<int>, bmGS: array<int>)
    requires 1 <= |pattern| <= bmGS.Length && |pattern| <= suffix.Length && suffix != bmGS
    requires forall i :: 0 <= i < |pattern| ==> suffix[i] == CommonSuffix(pattern, i)
    modifies bmGS
    ensures forall x :: 0 <= x < |pattern| ==> bmGS[x] == PrefixShift(pattern, x, 0)
  {
    var patternLen := |pattern|;
    var i := 0;
    while i < patternLen
      invariant 0 <= i <= patternLen
      invariant forall x :: 0 <= x < i ==> bmGS[x] == patternLen
    {
      bmGS[i] := patternLen;
      i := i + 1;
    }
    i := patternLen - 2;
    while i >= 0
      invariant -1 <= i <= patternLen - 2
      invariant forall x :: 0 <= x < patternLen ==> bmGS[x] == PrefixShift(pattern, x, i + 1)
    {
      forall x | 0 <= x < patternLen {
        PrefixShiftStep(pattern, x, i);
      }
      if suffix[i] == i + 1 {
        LowerShortShifts(pattern, bmGS, i);
      }
      i := i - 1;
    }
  }

  /** The inner loop of case 2 for a prefix `pattern[..i + 1]` that is also a suffix. */
  method LowerShortShifts(pattern: seq<byte>, bmGS: array<int>, i: int)
    requires 0 <= i <= |pattern| - 2 && |pattern| <= bmGS.Length
    requires CommonSuffix(pattern, i) == i + 1
    requires forall x :: 0 <= x < |pattern| ==> bmGS[x] == PrefixShift(pattern, x, i + 1)
    modifies bmGS
    ensures forall x :: 0 <= x < |pattern| ==> bmGS[x] == PrefixShift(pattern, x, i)
  {
    var patternLen := |pattern|;
    forall x | 0 <= x < patternLen {
      PrefixShiftStep(pattern, x, i);
    }
    var unmatchPos := 0;
    while unmatchPos < patternLen - 1 - i
      invariant 0 <= unmatchPos <= patternLen - 1 - i
      invariant forall x :: 0 <= x < unmatchPos ==> bmGS[x] == PrefixShift(pattern, x, i)
      invariant forall x :: unmatchPos <= x < patternLen ==> bmGS[x] == PrefixShift(pattern, x, i + 1)
    {
      if bmGS[unmatchPos] == patternLen {
        bmGS[unmatchPos] := patternLen - 1 - i;
      }
      unmatchPos := unmatchPos + 1;
    }
  }

  /** One round of case 2: position `i` lowers the shifts still at |p| for mismatches left of its suffix. */
  lemma PrefixShiftStep(p: seq<byte>, x: int, i: int)
    requires 0 <= i <= |p| - 2
    ensures PrefixShift(p, x, i) ==
      if PrefixShift(p, x, i + 1) == |p| && CommonSuffix(p, i) == i + 1 && x < |p| - 1 - i
      then |p| - 1 - i
      else PrefixShift(p, x, i + 1)
  {
  }

  /** Case 1 of GoodSuffixRule, run for `rounds` rounds: a suffix matched inside the pattern sets the shift. */
  method MatchedSuffixShifts(pattern: seq<byte>, suffix: array<int>, bmGS: array<int>, rounds: int)
    requires 1 <= |pattern| <= bmGS.Length && |pattern| <= suffix.Length && suffix != bmGS
    requires rounds <= |pattern| - 1
    requires forall i :: 0 <= i < |pattern| ==> suffix[i] == CommonSuffix(pattern, i)
    requires forall x :: 0 <= x < |pattern| ==> bmGS[x] == PrefixShift(pattern, x, 0)
    modifies bmGS
    ensures forall x :: 0 <= x < |pattern| ==> bmGS[x] == GoodSuffixShift(pattern, x, if rounds > 0 then rounds else 0)
  {
    var patternLen := |pattern|;
    var i := 0;
    while i < rounds
      invariant 0 <= i <= (if rounds > 0 then rounds else 0)
      invariant forall x :: 0 <= x < patternLen ==> bmGS[x] == GoodSuffixShift(pattern, x, i)
    {
      var target := patternLen - 1 - suffix[i];
      CommonSuffixLongest(pattern, i);
      forall x | 0 <= x < patternLen
        ensures GoodSuffixShift(pattern, x, i + 1) == if x == target then patternLen - 1 - i else GoodSuffixShift(pattern, x, i)
      {
      }
      bmGS[target] := patternLen - 1 - i;
      i := i + 1;
    }
  }

  /** GoodSuffixRule as written: the case-1 loop runs `patternLen - 2` rounds. */
  method GoodSuffixRule(pattern: seq<byte>, bmGS: array<int>)
    requires 1 <= |pattern| <= bmGS.Length
    modifies bmGS
    ensures bmGS[..|pattern|] == GoodSuffixTable(pattern, WrittenCaseOneRounds(|pattern|))
    ensures forall x :: 0 <= x < |pattern| ==> 1 <= bmGS[x] <= |pattern|
  {
    var patternLen := |pattern|;
    var suffix := new int[patternLen];
    Suffix(suffix, pattern);
    PrefixShifts(pattern, suffix, bmGS);
    MatchedSuffixShifts(pattern, suffix, bmGS, patternLen - 2);
    forall x | 0 <= x < patternLen ensures 1 <= bmGS[x] <= patternLen {
      GoodSuffixShiftBounds(pattern, x, WrittenCaseOneRounds(patternLen));
    }
  }

  /** GoodSuffixRule with the case-1 loop running through `i == patternLen - 2`. */
  method GoodSuffixRuleCorrected(pattern: seq<byte>, bmGS: array<int>)
    requires 1 <= |pattern| <= bmGS.Length
    modifies bmGS
    ensures bmGS[..|pattern|] == GoodSuffixTable(pattern, |pattern| - 1)
    ensures forall x :: 0 <= x < |pattern| ==> 1 <= bmGS[x] <= |pattern|
  {
    var patternLen := |pattern|;
    var suffix := new int[patternLen];
    Suffix(suffix, pattern);
    PrefixShifts(pattern, suffix, bmGS);
    MatchedSuffixShifts(pattern, suffix, bmGS, patternLen - 1);
    forall x | 0 <= x < patternLen ensures 1 <= bmGS[x] <= patternLen {
      GoodSuffixShiftBounds(pattern, x, patternLen - 1);
    }
  }

  /** Preprocess: fills both tables for the pattern. */
  method Preprocess(pattern: seq<byte>, bmBC: array<int>, bmGS: array<int>)
    requires 1 <= |pattern| <= bmGS.Length && bmBC.Length == AlphabetSize && bmBC != bmGS
    modifies bmBC, bmGS
    ensures bmBC[..] == BadCharTable(pattern)
    ensures bmGS[..|pattern|] == GoodSuffixTable(pattern, WrittenCaseOneRounds(|pattern|))
  {
    BadCharRule(pattern, bmBC);
    GoodSuffixRule(pattern, bmGS);
  }

  // ---------------------------------------------------------------------------
  // Shifting and scanning
  // ---------------------------------------------------------------------------

  /** GoodSuffixMove: the good-suffix table entry for the mismatch position. */
  function GoodSuffixMove(bmGS: seq<int>, unmatchPos: int): int
    requires 0 <= unmatchPos < |bmGS|
  {
    bmGS[unmatchPos]
  }

  /** BM: the larger of the two rules' shifts for a mismatch after `matched` matching bytes. */
  function BM(bmBC: seq<int>, bmGS: seq<int>, badChar: byte, patternLen: int, matched: int): (shift: int)
    requires |bmBC| == AlphabetSize && 0 <= matched < patternLen <= |bmGS|
    ensures shift >= 1
    ensures shift >= BadCharacterMove(bmBC, patternLen - matched, badChar)
    ensures shift >= GoodSuffixMove(bmGS, patternLen - matched - 1)
    ensures shift == BadCharacterMove(bmBC, patternLen - matched, badChar) || shift == GoodSuffixMove(bmGS, patternLen - matched - 1)
  {
    var bcMove := BadCharacterMove(bmBC, patternLen - matched, badChar);
    var gsMove := GoodSuffixMove(bmGS, patternLen - matched - 1);
    if bcMove > gsMove then bcMove else gsMove
  }

  /**
   * The result of Grep's loop from the state where the pattern ends under text
   * position `pos` and its last `matched` bytes have been compared equal.
   */
  function SearchFrom(pattern: seq<byte>, text: seq<byte>, bmBC: seq<int>, bmGS: seq<int>, pos: int, matched: int): int
    requires |bmBC| == AlphabetSize && 1 <= |pattern| <= |bmGS|
    requires 0 <= matched <= |pattern| <= pos + 1
    decreases |text| - pos, |pattern| - matched
  {
    var end := |pattern| - 1;
    if matched < |pattern| && pos < |text| then
      if pattern[end - matched] == text[pos - matched] then
        SearchFrom(pattern, text, bmBC, bmGS, pos, matched + 1)
      else
        SearchFrom(pattern, text, bmBC, bmGS, pos + BM(bmBC, bmGS, text[pos - matched], |pattern|, matched), 0)
    else if matched == |pattern| then pos + 1 - matched
    else -1
  }

  /** Grep's scanning loop over tables already filled. */
  method Scan(pattern: seq<byte>, text: seq<byte>, bmBC: array<int>, bmGS: array<int>) returns (r: int)
    requires bmBC.Length == AlphabetSize && 1 <= |pattern| <= bmGS.Length
    ensures r == SearchFrom(pattern, text, bmBC[..], bmGS[..|pattern|], |pattern| - 1, 0)
  {
    ghost var bc, gs := bmBC[..], bmGS[..|pattern|];
    var patternLen := |pattern|;
    var end := patternLen - 1;
    var matched := 0;
    var pos := end;
    while matched < patternLen && pos < |text|
      invariant 0 <= matched <= patternLen <= pos + 1
      invariant SearchFrom(pattern, text, bc, gs, pos, matched) == SearchFrom(pattern, text, bc, gs, end, 0)
      decreases |text| - pos, patternLen - matched
    {
      if pattern[end - matched] == text[pos - matched] {
        matched := matched + 1;
        continue;
      }
      var shift := BM(bmBC[..], bmGS[..patternLen], text[pos - matched], patternLen, matched);
      pos := pos + shift;
      matched := 0;
    }
    if matched == patternLen {
      r := pos + 1 - matched;
    } else {
      r := -1;
    }
  }

  /** Grep: the position Boyer-Moore reports for `pattern` in `text`, or -1. */
  method Grep(pattern: seq<byte>, text: seq<byte>) returns (r: int)
    requires 1 <= |pattern| <= MaxPatternLen
    ensures r == SearchFrom(pattern, text, BadCharTable(pattern),
                            GoodSuffixTable(pattern, WrittenCaseOneRounds(|pattern|)), |pattern| - 1, 0)
    ensures r == -1 || OccursAt(pattern, text, r)
    ensures |pattern| > |text| ==> r == -1
  {
    var badCharShift := new int[AlphabetSize];
    var goodSuffixShift := new int[MaxPatternLen];
    Preprocess(pattern, badCharShift, goodSuffixShift);
    r := Scan(pattern, text, badCharShift, goodSuffixShift);
    SearchFromSound(pattern, text, badCharShift[..], goodSuffixShift[..|pattern|], |pattern| - 1, 0);
  }

  /** Grep with the corrected good-suffix table: exactly the first occurrence. */
  method GrepCorrected(pattern: seq<byte>, text: seq<byte>) returns (r: int)
    requires 1 <= |pattern| <= MaxPatternLen
    ensures r == FirstMatch(pattern, text)
  {
    var badCharShift := new int[AlphabetSize];
    var goodSuffixShift := new int[MaxPatternLen];
    BadCharRule(pattern, badCharShift);
    GoodSuffixRuleCorrected(pattern, goodSuffixShift);
    r := Scan(pattern, text, badCharShift, goodSuffixShift);
    CorrectedGoodSuffixSafe(pattern);
    SearchFromComplete(pattern, text, goodSuffixShift[..|pattern|], |pattern| - 1, 0);
  }

  // ---------------------------------------------------------------------------
  // Correctness of the scan
  // ---------------------------------------------------------------------------

  /** The last `matched` bytes of the pattern, aligned to end at `pos`, equal the text there. */
  ghost predicate Aligned(p: seq<byte>, text: seq<byte>, pos: int, matched: int)
  {
    0 <= matched <= |p| <= pos + 1 && (matched > 0 ==> pos < |text|)
    && forall k :: |p| - matched <= k < |p| ==> p[k] == text[k + (pos + 1 - |p|)]
  }

  /** Whatever the tables, a position the scan reports is an occurrence. */
  lemma {:induction false} SearchFromSound(p: seq<byte>, text: seq<byte>, bmBC: seq<int>, bmGS: seq<int>, pos: int, matched: int)
    requires |bmBC| == AlphabetSize && 1 <= |p| <= |bmGS|
    requires Aligned(p, text, pos, matched)
    ensures var r := SearchFrom(p, text, bmBC, bmGS, pos, matched); r == -1 || OccursAt(p, text, r)
    decreases |text| - pos, |p| - matched
  {
    var end := |p| - 1;
    if matched < |p| && pos < |text| {
      if p[end - matched] == text[pos - matched] {
        SearchFromSound(p, text, bmBC, bmGS, pos, matched + 1);
      } else {
        SearchFromSound(p, text, bmBC, bmGS, pos + BM(bmBC, bmGS, text[pos - matched], |p|, matched), 0);
      }
    } else if matched == |p| {
      var q := pos + 1 - |p|;
      assert text[q..q + |p|] == p;
    }
  }

  /** Moving the pattern `d` places right agrees with the matched suffix and the mismatch at `x`. */
  ghost predicate ConsistentShift(p: seq<byte>, x: int, d: int)
  {
    0 <= x < |p| && 1 <= d
    && (forall k :: x < k < |p| && k - d >= 0 ==> p[k - d] == p[k])
    && (0 <= x - d ==> p[x - d] != p[x])
  }

  /** A good-suffix table never shifts past a placement consistent with what was matched. */
  ghost predicate SafeGoodSuffix(p: seq<byte>, bmGS: seq<int>)
  {
    |bmGS| >= |p| && forall x, d :: 0 <= x < |p| && 1 <= d && ConsistentShift(p, x, d) ==> bmGS[x] <= d
  }

  /** With a safe good-suffix table, the scan finds the first occurrence. */
  lemma {:induction false} SearchFromComplete(p: seq<byte>, text: seq<byte>, bmGS: seq<int>, pos: int, matched: int)
    requires 1 <= |p| && SafeGoodSuffix(p, bmGS)
    requires Aligned(p, text, pos, matched)
    requires forall q :: 0 <= q < pos + 1 - |p| ==> !OccursAt(p, text, q)
    ensures SearchFrom(p, text, BadCharTable(p), bmGS, pos, matched) == FirstMatch(p, text)
    decreases |text| - pos, |p| - matched
  {
    var end := |p| - 1;
    var a := pos + 1 - |p|;
    if matched < |p| && pos < |text| {
      if p[end - matched] == text[pos - matched] {
        SearchFromComplete(p, text, bmGS, pos, matched + 1);
      } else {
        var shift := BM(BadCharTable(p), bmGS, text[pos - matched], |p|, matched);
        MismatchSkips(p, text, bmGS, pos, matched, shift);
        SearchFromComplete(p, text, bmGS, pos + shift, 0);
      }
    } else if matched == |p| {
      assert text[a..a + |p|] == p;
      FirstMatchIs(p, text, a);
    } else {
      FirstMatchIs(p, text, -1);
    }
  }

  /** A mismatch shift skips no occurrence, and the next alignment is still valid. */
  lemma MismatchSkips(p: seq<byte>, text: seq<byte>, bmGS: seq<int>, pos: int, matched: int, shift: int)
    requires 1 <= |p| && SafeGoodSuffix(p, bmGS)
    requires Aligned(p, text, pos, matched) && matched < |p| && pos < |text|
    requires p[|p| - 1 - matched] != text[pos - matched]
    requires forall q :: 0 <= q < pos + 1 - |p| ==> !OccursAt(p, text, q)
    requires shift == BM(BadCharTable(p), bmGS, text[pos - matched], |p|, matched)
    ensures forall q :: 0 <= q < pos + shift + 1 - |p| ==> !OccursAt(p, text, q)
  {
    var a := pos + 1 - |p|;
    forall q | a <= q < a + shift
      ensures !OccursAt(p, text, q)
    {
      SkippedPlacement(p, text, bmGS, a, |p| - 1 - matched, q - a, shift);
    }
  }

  /** One placement skipped by a mismatch shift holds no occurrence. */
  lemma {:induction false} SkippedPlacement(p: seq<byte>, text: seq<byte>, bmGS: seq<int>, a: int, x: int, d: int, shift: int)
    requires SafeGoodSuffix(p, bmGS) && 0 <= a && 0 <= x < |p| && a + |p| <= |text|
    requires forall k :: x < k < |p| ==> p[k] == text[k + a]
    requires p[x] != text[a + x]
    requires shift == BM(BadCharTable(p), bmGS, text[a + x], |p|, |p| - 1 - x)
    requires 0 <= d < shift
    ensures !OccursAt(p, text, a + d)
  {
    if d >= 1 && OccursAt(p, text, a + d) {
      ConsistentFromOccurrence(p, text, a, x, d);
      if d < BadCharacterMove(BadCharTable(p), x + 1, text[a + x]) {
        BadCharacterMoveSafe(p, x, text[a + x], d);
      }
    }
  }

  /** An occurrence `d` places right of a partial match that failed at `x` is a consistent shift. */
  lemma {:induction false} ConsistentFromOccurrence(p: seq<byte>, text: seq<byte>, a: int, x: int, d: int)
    requires 0 <= a && 0 <= x < |p| && 1 <= d && OccursAt(p, text, a + d)
    requires forall k :: x < k < |p| ==> p[k] == text[k + a]
    requires p[x] != text[a + x]
    ensures ConsistentShift(p, x, d) && (0 <= x - d ==> p[x - d] == text[a + x])
  {
    var q := a + d;
    assert forall i :: 0 <= i < |p| ==> text[q + i] == p[i] by {
      forall i | 0 <= i < |p| ensures text[q + i] == p[i] {
        assert text[q..q + |p|][i] == p[i];
      }
    }
    forall k | x < k < |p| && k - d >= 0 ensures p[k - d] == p[k] {
      assert text[q + (k - d)] == p[k - d];
    }
    if 0 <= x - d {
      assert text[q + (x - d)] == p[x - d];
    }
  }

  /** The first occurrence is `r` when `r` is one and nothing earlier is (or `r` is -1 and nothing is). */
  lemma {:induction false} FirstMatchIs(p: seq<byte>, text: seq<byte>, r: int)
    requires r == -1 || OccursAt(p, text, r)
    requires forall q :: 0 <= q && (r == -1 || q < r) ==> !OccursAt(p, text, q)
    ensures FirstMatch(p, text) == r
  {
  }

  // ---------------------------------------------------------------------------
  // The good-suffix table: what is safe, and what the written loop misses
  // ---------------------------------------------------------------------------

  /** A case-1 round `j < n` writing position `x` bounds the shift by its own value. */
  lemma {:induction false} CaseOneBound(p: seq<byte>, x: int, n: nat, j: int)
    requires |p| >= 1 && n <= |p| - 1 && 0 <= j < n
    requires |p| - 1 - CommonSuffix(p, j) == x
    ensures GoodSuffixShift(p, x, n) <= |p| - 1 - j
    decreases n
  {
    if n - 1 == j || |p| - 1 - CommonSuffix(p, n - 1) == x {
      assert GoodSuffixShift(p, x, n) == |p| - n;
    } else {
      CaseOneBound(p, x, n - 1, j);
      assert GoodSuffixShift(p, x, n) == GoodSuffixShift(p, x, n - 1);
    }
  }

  /** A case-2 candidate at `i >= lo` bounds the case-2 shift by its own value. */
  lemma {:induction false} CaseTwoBound(p: seq<byte>, x: int, lo: nat, i: int)
    requires |p| >= 1 && lo <= i <= |p| - 2
    requires PrefixCandidate(p, x, i)
    ensures PrefixShift(p, x, lo) <= |p| - 1 - i
    decreases i - lo
  {
    if lo < i {
      CaseTwoBound(p, x, lo + 1, i);
    }
  }

  /** A case-1 write to position `x` is at most `x + 1`; otherwise case 2 stands. */
  lemma {:induction false} CaseOneOrTwo(p: seq<byte>, x: int, n: nat)
    requires |p| >= 1 && n <= |p| - 1
    ensures GoodSuffixShift(p, x, n) == PrefixShift(p, x, 0) || GoodSuffixShift(p, x, n) <= x + 1
    decreases n
  {
    if n > 0 {
      CommonSuffixLongest(p, n - 1);
      if |p| - 1 - CommonSuffix(p, n - 1) != x {
        CaseOneOrTwo(p, x, n - 1);
      }
    }
  }

  /** The shift for `x` is at most any consistent shift `d`. */
  lemma {:induction false} ConsistentShiftBound(p: seq<byte>, x: int, d: int)
    requires 0 <= x < |p| && 1 <= d && ConsistentShift(p, x, d)
    ensures GoodSuffixShift(p, x, |p| - 1) <= d
  {
    var n := |p| - 1;
    if d >= |p| {
      GoodSuffixShiftBounds(p, x, n);
    } else if d <= x {
      var j := |p| - 1 - d;
      var r := |p| - 1 - x;
      assert SharesSuffix(p, j, r) by {
        forall u | j - r < u <= j ensures p[u] == p[u + (|p| - 1 - j)] {
          var k := u + d;
          assert x < k < |p| && k - d >= 0;
        }
      }
      CommonSuffixUnique(p, j, r);
      CaseOneBound(p, x, n, j);
    } else {
      var i := |p| - 1 - d;
      assert SharesSuffix(p, i, i + 1) by {
        forall u | -1 < u <= i ensures p[u] == p[u + (|p| - 1 - i)] {
          var k := u + d;
          assert x < k < |p| && k - d >= 0;
        }
      }
      CommonSuffixUnique(p, i, i + 1);
      CaseTwoBound(p, x, 0, i);
      CaseOneOrTwo(p, x, n);
    }
  }

  /** The table with all `|p| - 1` case-1 rounds is safe. */
  lemma CorrectedGoodSuffixSafe(p: seq<byte>)
    requires |p| >= 1
    ensures SafeGoodSuffix(p, GoodSuffixTable(p, |p| - 1))
  {
    forall x, d | 0 <= x < |p| && 1 <= d && ConsistentShift(p, x, d)
      ensures GoodSuffixTable(p, |p| - 1)[x] <= d
    {
      ConsistentShiftBound(p, x, d);
    }
  }

  /**
   * Grep as written misses "ab" in "xab": without the case-1 round `i == patternLen - 2`
   * the shift after mismatching the last byte is 2, stepping over position 1.
   */
  lemma GrepMissesOccurrence()
    ensures var p: seq<byte> := [97, 98]; var text: seq<byte> := [120, 97, 98];
      OccursAt(p, text, 1) && FirstMatch(p, text) == 1
      && SearchFrom(p, text, BadCharTable(p), GoodSuffixTable(p, WrittenCaseOneRounds(|p|)), |p| - 1, 0) == -1
  {
    var p: seq<byte> := [97, 98];
    var text: seq<byte> := [120, 97, 98];
    assert text[1..3] == p;
    assert !OccursAt(p, text, 0) by {
      assert text[0..2][0] != p[0];
    }
    FirstMatchIs(p, text, 1);
    assert LastIndexOf(p, 97) == 0 by {
      assert p[..1] == [97];
    }
    CommonSuffixUnique(p, 0, 0);
    assert PrefixShift(p, 1, 0) == 2;
    var bc := BadCharTable(p);
    var gs := GoodSuffixTable(p, WrittenCaseOneRounds(|p|));
    assert gs[1] == 2;
    assert BM(bc, gs, 97, 2, 0) == 2;
  }
}
