/**
 * What a substring search is expected to find, shared by the two search
 * algorithms (kmp.cpp and boyer-moore.cpp).
 */
module Occurrences {

  /** `pattern` occurs in `text` starting at index `q`. */
  predicate OccursAt<T(==)>(pattern: seq<T>, text: seq<T>, q: int)
  {
    0 <= q && q + |pattern| <= |text| && text[q..q + |pattern|] == pattern
  }

  /** The first occurrence of `pattern` in `text` at or after `q`, or -1 when there is none. */
  function FirstMatchFrom<T(==)>(pattern: seq<T>, text: seq<T>, q: nat): (r: int)
    ensures r == -1 || (q <= r && OccursAt(pattern, text, r))
    ensures forall k :: q <= k && (r == -1 || k < r) ==> !OccursAt(pattern, text, k)
    decreases |text| - q
  {
    if q + |pattern| > |text| then -1
    else if text[q..q + |pattern|] == pattern then q
    else FirstMatchFrom(pattern, text, q + 1)
  }

  /** The first occurrence of `pattern` in `text`, or -1 when there is none. */
  function FirstMatch<T(==)>(pattern: seq<T>, text: seq<T>): int
  {
    FirstMatchFrom(pattern, text, 0)
  }
}
