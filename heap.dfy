/**
 * The array-backed binary min-heap of heap.h.
 *
 * `root_` holds key pointers in the C++ code; here the array holds the keys
 * themselves, since the heap only ever compares what the pointers point to.
 * The allocator behind `Resize` is taken to succeed (the source leaves its
 * failure unhandled).
 */
module Heap {

  datatype Option<T> = None | Some(value: T)

  /** PARENT(child): the index of the parent of node `i`. */
  function Parent(i: int): int
  {
    (i - 1) / 2
  }

  /** Node `i` is at least its parent. */
  ghost predicate OrderedAt(s: seq<int>, i: int)
    requires 0 < i < |s|
  {
    s[Parent(i)] <= s[i]
  }

  /** Every node is at least its parent: `s[0]` is the root of a min-heap. */
  ghost predicate IsMinHeap(s: seq<int>)
  {
    forall i :: 0 < i < |s| ==> OrderedAt(s, i)
  }

  /** The root of a min-heap is its least element. */
  lemma {:induction false} HeapRootIsMin(s: seq<int>)
    requires IsMinHeap(s)
    ensures forall i :: 0 <= i < |s| ==> s[0] <= s[i]
  {
    forall i | 0 <= i < |s| ensures s[0] <= s[i] {
      AncestorAtMost(s, i);
    }
  }

  lemma {:induction false} AncestorAtMost(s: seq<int>, i: int)
    requires IsMinHeap(s) && 0 <= i < |s|
    ensures s[0] <= s[i]
    decreases i
  {
    if i > 0 {
      assert OrderedAt(s, i);
      AncestorAtMost(s, Parent(i));
    }
  }

  /** CompareNode: the sign of `k1 - k2`. */
  function CompareNode(k1: int, k2: int): (r: int)
    ensures r == 1 <==> k1 > k2
    ensures r == -1 <==> k1 < k2
    ensures r == 0 <==> k1 == k2
  {
    if k1 > k2 then 1 else if k1 < k2 then -1 else 0
  }

  /**
   * Sift-up with a hole at `pos` waiting for `data`: every edge away from the
   * hole is ordered, and the hole's children are at least `data` and at least
   * the hole's parent.
   */
  ghost predicate HoleUp(s: seq<int>, pos: int, data: int)
  {
    0 <= pos < |s|
    && (forall i :: 0 < i < |s| && i != pos && Parent(i) != pos ==> OrderedAt(s, i))
    && (forall i :: 0 < i < |s| && i != pos && Parent(i) == pos ==> data <= s[i])
    && (pos > 0 ==> forall i :: 0 < i < |s| && i != pos && Parent(i) == pos ==> s[Parent(pos)] <= s[i])
  }

  /**
   * Sift-down with a hole at `pos` waiting for `last`: every edge away from the
   * hole is ordered, and the hole's parent is at most `last` and the hole's children.
   */
  ghost predicate HoleDown(s: seq<int>, pos: int, last: int)
  {
    0 <= pos < |s|
    && (forall i :: 0 < i < |s| && i != pos && Parent(i) != pos ==> OrderedAt(s, i))
    && (pos > 0 ==> s[Parent(pos)] <= last)
    && (pos > 0 ==> forall i :: 0 < i < |s| && Parent(i) == pos ==> s[Parent(pos)] <= s[i])
  }

  /** The children of node `p` are nodes 2p+1 and 2p+2 (LEFT_CHILD and RIGHT_CHILD). */
  lemma ChildrenOf(p: int, c: int)
    requires 0 <= p && 0 < c
    ensures Parent(c) == p <==> c == 2 * p + 1 || c == 2 * p + 2
  {
  }

  /** A heap with one more free slot at the end is a sift-up hole there. */
  lemma {:induction false} HoleUpStart(s: seq<int>, data: int)
    requires |s| >= 1 && IsMinHeap(s[..|s| - 1])
    ensures HoleUp(s, |s| - 1, data)
  {
    var n := |s| - 1;
    forall i | 0 < i < |s| && i != n && Parent(i) != n ensures OrderedAt(s, i) {
      assert OrderedAt(s[..n], i);
    }
  }

  /** Moving the parent down into the hole moves the hole up. */
  lemma {:induction false} HoleUpStep(s: seq<int>, pos: int, data: int)
    requires HoleUp(s, pos, data) && pos > 0 && data < s[Parent(pos)]
    ensures HoleUp(s[pos := s[Parent(pos)]], Parent(pos), data)
  {
    var p := Parent(pos);
    var t := s[pos := s[p]];
    forall i | 0 < i < |t| && i != p && Parent(i) != p ensures OrderedAt(t, i) {
      if Parent(i) != pos {
        assert OrderedAt(s, i);
      }
    }
    forall i | 0 < i < |t| && i != p && Parent(i) == p ensures data <= t[i] {
      if i != pos {
        assert OrderedAt(s, i);
      }
    }
    if p > 0 {
      assert OrderedAt(s, p);
      forall i | 0 < i < |t| && i != p && Parent(i) == p ensures t[Parent(p)] <= t[i] {
        if i != pos {
          assert OrderedAt(s, i);
        }
      }
    }
  }

  /** Filling the hole with a key no smaller than its parent restores the heap. */
  lemma {:induction false} HoleUpFill(s: seq<int>, pos: int, data: int)
    requires HoleUp(s, pos, data) && (pos == 0 || s[Parent(pos)] <= data)
    ensures IsMinHeap(s[pos := data])
  {
    var t := s[pos := data];
    forall i | 0 < i < |t| ensures OrderedAt(t, i) {
      if i != pos && Parent(i) != pos {
        assert OrderedAt(s, i);
      }
    }
  }

  /** Dropping the last node of a heap leaves a sift-down hole at the root. */
  lemma {:induction false} HoleDownStart(s: seq<int>)
    requires |s| >= 2 && IsMinHeap(s)
    ensures HoleDown(s[..|s| - 1], 0, s[|s| - 1])
  {
    var n := |s| - 1;
    forall i | 0 < i < n ensures OrderedAt(s[..n], i) {
      assert OrderedAt(s, i);
    }
  }

  /** Moving the smaller child up into the hole moves the hole down. */
  lemma {:induction false} HoleDownStep(s: seq<int>, pos: int, m: int, last: int)
    requires HoleDown(s, pos, last) && 0 < m < |s| && Parent(m) == pos && s[m] < last
    requires forall c :: 0 < c < |s| && Parent(c) == pos ==> s[m] <= s[c]
    ensures HoleDown(s[pos := s[m]], m, last)
  {
    var t := s[pos := s[m]];
    forall i | 0 < i < |t| && i != m && Parent(i) != m ensures OrderedAt(t, i) {
      if i != pos && Parent(i) != pos {
        assert OrderedAt(s, i);
      }
    }
    forall i | 0 < i < |t| && Parent(i) == m ensures t[Parent(m)] <= t[i] {
      assert OrderedAt(s, i);
    }
  }

  /** Filling the hole with a key no larger than its children restores the heap. */
  lemma {:induction false} HoleDownFill(s: seq<int>, pos: int, last: int)
    requires HoleDown(s, pos, last)
    requires forall c :: 0 < c < |s| && Parent(c) == pos ==> last <= s[c]
    ensures IsMinHeap(s[pos := last])
  {
    var t := s[pos := last];
    forall i | 0 < i < |t| ensures OrderedAt(t, i) {
      if i != pos && Parent(i) != pos {
        assert OrderedAt(s, i);
      }
    }
  }

  /** Overwriting one slot trades its key for the new one in the multiset of keys. */
  lemma MultisetUpdate(s: seq<int>, i: int, v: int)
    requires 0 <= i < |s|
    ensures multiset(s[i := v]) + multiset{s[i]} == multiset(s) + multiset{v}
  {
    assert s == s[..i] + [s[i]] + s[i + 1..];
    assert s[i := v] == s[..i] + [v] + s[i + 1..];
  }

  /** Sift-up state: a hole at `pos` waiting for `data`, the array holding `keys` plus a copy of the hole's key. */
  ghost predicate SiftingUp(s: seq<int>, pos: int, data: int, keys: multiset<int>)
  {
    HoleUp(s, pos, data) && multiset(s) == keys + multiset{s[pos]}
  }

  lemma {:induction false} SiftUpStep(s: seq<int>, pos: int, data: int, keys: multiset<int>)
    requires SiftingUp(s, pos, data, keys) && pos > 0 && data < s[Parent(pos)]
    ensures SiftingUp(s[pos := s[Parent(pos)]], Parent(pos), data, keys)
  {
    HoleUpStep(s, pos, data);
    MultisetUpdate(s, pos, s[Parent(pos)]);
  }

  lemma {:induction false} SiftUpFill(s: seq<int>, pos: int, data: int, keys: multiset<int>)
    requires SiftingUp(s, pos, data, keys) && (pos == 0 || s[Parent(pos)] <= data)
    ensures IsMinHeap(s[pos := data]) && multiset(s[pos := data]) == keys + multiset{data}
  {
    HoleUpFill(s, pos, data);
    MultisetUpdate(s, pos, data);
  }

  lemma MultisetCancel(a: multiset<int>, b: multiset<int>, x: int)
    requires a + multiset{x} == b + multiset{x}
    ensures a == b
  {
    assert forall y :: a[y] == (a + multiset{x})[y] - multiset{x}[y];
  }

  /** The sift-up loop of Insert: places `data` in slot `n` of a heap `a[..n]` and restores the order. */
  method SiftUp(a: array<int>, n: int, data: int)
    requires 0 <= n < a.Length && IsMinHeap(a[..n])
    modifies a
    ensures IsMinHeap(a[..n + 1])
    ensures multiset(a[..n + 1]) == multiset(old(a[..n])) + multiset{data}
  {
    var pos := n;
    ghost var keys := multiset(a[..n]);
    assert a[..n + 1] == a[..n] + [a[n]];
    HoleUpStart(a[..n + 1], data);
    while pos > 0
      invariant 0 <= pos <= n
      invariant SiftingUp(a[..n + 1], pos, data, keys)
      decreases pos
    {
      var parent := Parent(pos);
      if CompareNode(data, a[parent]) < 0 {
        ghost var s := a[..n + 1];
        SiftUpStep(s, pos, data, keys);
        a[pos] := a[parent];
        assert a[..n + 1] == s[pos := s[parent]];
        pos := parent;
      } else {
        break;
      }
    }
    ghost var s := a[..n + 1];
    SiftUpFill(s, pos, data, keys);
    a[pos] := data;
    assert a[..n + 1] == s[pos := data];
  }

  /** Sift-down state: a hole at `pos` waiting for `last`, with `keys` less the old root plus the hole's key around it. */
  ghost predicate SiftingDown(s: seq<int>, pos: int, last: int, keys: multiset<int>)
  {
    HoleDown(s, pos, last) && multiset(s) + multiset{last} == keys + multiset{s[pos]}
  }

  lemma {:induction false} SiftDownStep(s: seq<int>, pos: int, m: int, last: int, keys: multiset<int>)
    requires SiftingDown(s, pos, last, keys) && (m == 2 * pos + 1 || m == 2 * pos + 2) && m < |s| && s[m] < last
    requires 2 * pos + 1 < |s| ==> s[m] <= s[2 * pos + 1]
    requires 2 * pos + 2 < |s| ==> s[m] <= s[2 * pos + 2]
    ensures SiftingDown(s[pos := s[m]], m, last, keys)
  {
    forall c | 0 < c < |s| && Parent(c) == pos ensures s[m] <= s[c] {
      ChildrenOf(pos, c);
    }
    ChildrenOf(pos, m);
    HoleDownStep(s, pos, m, last);
    var t := s[pos := s[m]];
    MultisetUpdate(s, pos, s[m]);
    calc {
      multiset(t) + multiset{last} + multiset{s[pos]};
      (multiset(t) + multiset{s[pos]}) + multiset{last};
      (multiset(s) + multiset{last}) + multiset{s[m]};
      keys + multiset{s[m]} + multiset{s[pos]};
    }
    MultisetCancel(multiset(t) + multiset{last}, keys + multiset{s[m]}, s[pos]);
  }

  lemma {:induction false} SiftDownFill(s: seq<int>, pos: int, last: int, keys: multiset<int>)
    requires SiftingDown(s, pos, last, keys)
    requires 2 * pos + 1 < |s| ==> last <= s[2 * pos + 1]
    requires 2 * pos + 2 < |s| ==> last <= s[2 * pos + 2]
    ensures IsMinHeap(s[pos := last]) && multiset(s[pos := last]) == keys
  {
    forall c | 0 < c < |s| && Parent(c) == pos ensures last <= s[c] {
      ChildrenOf(pos, c);
    }
    HoleDownFill(s, pos, last);
    MultisetUpdate(s, pos, last);
    MultisetCancel(multiset(s[pos := last]), keys, s[pos]);
  }

  /**
   * One round of Delete's loop: the smaller child of the hole at `pos` moves up into it
   * when it is smaller than the last node `a[end]`, and the hole moves down to that
   * child; otherwise nothing changes and `a[end]` fits in the hole.
   */
  method SiftDownRound(a: array<int>, pos: int, end: int, ghost keys: multiset<int>) returns (next: int, moved: bool)
    requires 0 <= pos < end < a.Length
    requires SiftingDown(a[..end], pos, a[end], keys)
    modifies a
    ensures a[end] == old(a[end]) && a[end..] == old(a[end..])
    ensures moved ==> pos < next < end && SiftingDown(a[..end], next, a[end], keys)
    ensures !moved ==> a[..] == old(a[..])
    ensures !moved ==> (2 * pos + 1 < end ==> a[end] <= a[2 * pos + 1]) && (2 * pos + 2 < end ==> a[end] <= a[2 * pos + 2])
  {
    ghost var s := a[..end];
    var left := 2 * pos + 1;
    var right := left + 1;
    if right < end && CompareNode(a[left + 1], a[left]) < 0 {
      left := right;
    }
    if left < end && CompareNode(a[left], a[end]) < 0 {
      SiftDownStep(s, pos, left, a[end], keys);
      a[pos] := a[left];
      assert a[..end] == s[pos := s[left]];
      return left, true;
    }
    return pos, false;
  }

  /** The sift-down loop of Delete: moves the last node of `a[..n]` into the root's place and restores the order. */
  method SiftDown(a: array<int>, n: int)
    requires 2 <= n <= a.Length && IsMinHeap(a[..n])
    modifies a
    ensures IsMinHeap(a[..n - 1])
    ensures multiset(a[..n - 1]) == multiset(old(a[..n])) - multiset{old(a[0])}
  {
    var pos := 0;
    var end := n - 1;
    ghost var keys := multiset(a[..n]) - multiset{a[0]};
    ghost var last := a[end];
    assert a[..n] == a[..end] + [last];
    HoleDownStart(a[..n]);
    assert a[..n][..end] == a[..end];
    while true
      invariant 0 <= pos < end
      invariant a[end] == last
      invariant SiftingDown(a[..end], pos, last, keys)
      decreases end - pos
    {
      var next, moved := SiftDownRound(a, pos, end, keys);
      if !moved {
        break;
      }
      pos := next;
    }
    FillHole(a, pos, end, keys);
  }

  /** The end of Delete: the last node `a[end]` fills the hole at `pos`, leaving a heap of the remaining keys. */
  method FillHole(a: array<int>, pos: int, end: int, ghost keys: multiset<int>)
    requires 0 <= pos < end < a.Length
    requires SiftingDown(a[..end], pos, a[end], keys)
    requires 2 * pos + 1 < end ==> a[end] <= a[2 * pos + 1]
    requires 2 * pos + 2 < end ==> a[end] <= a[2 * pos + 2]
    modifies a
    ensures IsMinHeap(a[..end]) && multiset(a[..end]) == keys
  {
    ghost var s := a[..end];
    SiftDownFill(s, pos, a[end], keys);
    a[pos] := a[end];
    assert a[..end] == s[pos := a[end]];
  }

  class Heap {
    /** The node array; its length is the capacity `size_`. */
    var root: array<int>
    /** The number of nodes in use: `root[..count]` is the heap. */
    var count: nat
    var size: nat

    ghost predicate Valid()
      reads this, root
    {
      root.Length == size && count <= size && IsMinHeap(root[..count])
    }

    /** The keys in the heap, in array order. */
    ghost function Contents(): seq<int>
      reads this, root
      requires count <= root.Length
    {
      root[..count]
    }

    constructor ()
      ensures Valid() && count == 0 && size == 0
    {
      root := new int[0];
      count := 0;
      size := 0;
    }

    /** Resize: grows the capacity to `newSize` (1024 when `newSize <= 0`), keeping the nodes. */
    method Resize(newSize: int) returns (r: int)
      requires Valid()
      modifies this
      ensures Valid() && r == 0
      ensures count == old(count) && Contents() == old(Contents())
      ensures var s := if newSize <= 0 then 1024 else newSize;
              size == if s <= old(size) then old(size) else s
      ensures size == old(size) ==> root == old(root)
      ensures size != old(size) ==> fresh(root)
    {
      var s := if newSize <= 0 then 1024 else newSize;
      if s <= size {
        return 0;
      }
      ghost var nodes := root[..count];
      var newRoot := new int[s];
      forall i | 0 <= i < count {
        newRoot[i] := root[i];
      }
      root := newRoot;
      size := s;
      assert root[..count] == nodes;
      r := 0;
    }

    /** Insert: sifts `data` up from the end, doubling the capacity first when full. */
    method Insert(data: int) returns (r: int)
      requires Valid()
      modifies this, root
      ensures Valid() && r == 0
      ensures count == old(count) + 1
      ensures multiset(Contents()) == multiset(old(Contents())) + multiset{data}
      ensures size == if old(count) < old(size) then old(size) else if old(size) == 0 then 1024 else 2 * old(size)
    {
      if count == size {
        var _ := Resize(size * 2);
      }
      SiftUp(root, count, data);
      count := count + 1;
      r := 0;
    }

    /** Delete: removes the root, the least key, and sifts the last node down into its place. */
    method Delete() returns (r: int)
      requires Valid()
      modifies this, root
      ensures Valid() && r == 0 && size == old(size) && root == old(root)
      ensures old(count) == 0 ==> count == 0
      ensures old(count) > 0 ==>
                count == old(count) - 1
                && multiset(Contents()) == multiset(old(Contents())) - multiset{old(root[0])}
                && forall k :: k in old(Contents()) ==> old(root[0]) <= k
    {
      HeapRootIsMin(root[..count]);
      if count <= 1 {
        count := 0;
        return 0;
      }
      SiftDown(root, count);
      count := count - 1;
      r := 0;
    }

    /** Root: the least key, or nothing for an empty heap. */
    method Root() returns (r: Option<int>)
      requires Valid()
      ensures r == None <==> count == 0
      ensures r.Some? ==> r.value == root[0] && forall k :: k in Contents() ==> r.value <= k
    {
      if count > 0 {
        HeapRootIsMin(root[..count]);
        return Some(root[0]);
      } else {
        return None;
      }
    }
  }
}
