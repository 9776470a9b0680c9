/**
 * The skip list of skiplist.h.
 *
 * The C++ nodes live on the malloc heap; here the heap is a map from node
 * addresses to node records, `Header` is the header's address and `Nil` the
 * null pointer. The level-0 order of the live nodes is kept as a ghost
 * sequence `list`: every level-j list is then exactly the sub-sequence of
 * `list` made of the nodes that reach above level j, which is what
 * `LevelOk` says about the forward pointers.
 */
module SkipList {

  const Nil: int := -1
  const Header: int := 0
  /** DEFAULT_MAX_LEVEL. */
  const DefaultMaxLevel: int := 16

  /** A node: its key, its value and one forward pointer per level it is on. */
  datatype Node = Node(key: int, value: int, forward: seq<int>)

  /** The number of levels node `r` is on; 0 for an address that is not allocated. */
  function Height(nodes: map<int, Node>, r: int): nat
  {
    if r in nodes then |nodes[r].forward| else 0
  }

  /** The address at position `q` of the level-0 order, `Nil` past its end. */
  function RefAt(list: seq<int>, q: int): int
    requires 0 <= q <= |list|
  {
    if q == |list| then Nil else list[q]
  }

  /** The node at position `p`, the header standing at position -1. */
  function RefOf(list: seq<int>, p: int): int
    requires -1 <= p < |list|
  {
    if p < 0 then Header else list[p]
  }

  /** `list` with `x` inserted just after position `p`. */
  function Ins(list: seq<int>, p: int, x: int): (r: seq<int>)
    requires -1 <= p < |list|
    ensures |r| == |list| + 1
  {
    seq(|list| + 1, s requires 0 <= s <= |list| => if s <= p then list[s] else if s == p + 1 then x else list[s - 1])
  }

  /** Where the positions of `list` land once `x` is inserted after position `P`. */
  lemma InsAt(list: seq<int>, P: int, x: int, q: int)
    requires -1 <= P < |list| && -1 <= q <= |list|
    ensures RefOf(Ins(list, P, x), P + 1) == x
    ensures -1 <= q <= P ==> RefOf(Ins(list, P, x), q) == RefOf(list, q)
    ensures P < q ==> RefAt(Ins(list, P, x), q + 1) == RefAt(list, q)
  {
  }

  /** The first position at or after `q` whose node is on a level above `j`; `|list|` if none. */
  ghost function NextAbove(nodes: map<int, Node>, list: seq<int>, q: int, j: nat): (r: int)
    requires 0 <= q <= |list|
    ensures q <= r <= |list|
    ensures r < |list| ==> j < Height(nodes, list[r])
    decreases |list| - q
  {
    if q == |list| then q
    else if j < Height(nodes, list[q]) then q
    else NextAbove(nodes, list, q + 1, j)
  }

  /** The node at position `p`, when it is on level `j`, points at level `j` to the next node on level `j`. */
  ghost predicate LinkedAt(nodes: map<int, Node>, list: seq<int>, p: int, j: nat)
    requires -1 <= p < |list|
  {
    RefOf(list, p) in nodes
    && (j < |nodes[RefOf(list, p)].forward| ==>
          nodes[RefOf(list, p)].forward[j] == RefAt(list, NextAbove(nodes, list, p + 1, j)))
  }

  /** Level `j` is the sub-list of `list` made of the nodes on level `j`, linked in order from the header. */
  ghost predicate LevelOk(nodes: map<int, Node>, list: seq<int>, j: nat)
  {
    forall p :: -1 <= p < |list| ==> LinkedAt(nodes, list, p, j)
  }

  ghost predicate Distinct(list: seq<int>)
  {
    forall a, b :: 0 <= a < b < |list| ==> list[a] != list[b]
  }

  /** The level-0 order is strictly ascending by key. */
  ghost predicate Ascending(nodes: map<int, Node>, list: seq<int>)
    requires forall q :: 0 <= q < |list| ==> list[q] in nodes
  {
    forall a, b :: 0 <= a < b < |list| ==> nodes[list[a]].key < nodes[list[b]].key
  }

  /** Every listed node is allocated, distinct from the header, and on levels 0 to at most `level`. */
  ghost predicate Listed(nodes: map<int, Node>, list: seq<int>, level: int)
  {
    Header !in list && Distinct(list)
    && forall q :: 0 <= q < |list| ==> list[q] in nodes && 1 <= |nodes[list[q]].forward| <= level + 1
  }

  /**
   * The shape every operation keeps: the header is on all `maxLevel` levels,
   * `level` bounds the levels in use, level 0 holds the keys in ascending
   * order, and every level is linked as `LevelOk` says.
   */
  ghost predicate Linked(nodes: map<int, Node>, list: seq<int>, maxLevel: int, level: int)
  {
    1 <= maxLevel && 0 <= level < maxLevel
    && Nil !in nodes && Header in nodes && |nodes[Header].forward| == maxLevel
    && (forall r :: r in nodes ==> r == Header || r in list)
    && Listed(nodes, list, level)
    && Ascending(nodes, list)
    && (forall j :: 0 <= j < maxLevel ==> LevelOk(nodes, list, j))
  }

  /** The invariant of a live skip list whose addresses are all at most `bound`. */
  ghost predicate Shaped(nodes: map<int, Node>, list: seq<int>, maxLevel: int, level: int, bound: int)
  {
    Linked(nodes, list, maxLevel, level) && TopInUse(nodes, level) && forall r :: r in nodes ==> r <= bound
  }

  /** `level` is the highest level in use: it is 0 or the header's list there is not empty. */
  ghost predicate TopInUse(nodes: map<int, Node>, level: int)
    requires Header in nodes && 0 <= level < |nodes[Header].forward|
  {
    level == 0 || nodes[Header].forward[level] != Nil
  }

  /** The key-value map held by the nodes of `list`. */
  ghost function ContentsOf(nodes: map<int, Node>, list: seq<int>): map<int, int>
  {
    if |list| == 0 then map[]
    else if list[0] in nodes then ContentsOf(nodes, list[1..])[nodes[list[0]].key := nodes[list[0]].value]
    else ContentsOf(nodes, list[1..])
  }

  /** The same nodes, with the same keys, values and levels. */
  ghost predicate SameShape(n1: map<int, Node>, n2: map<int, Node>)
  {
    n2.Keys == n1.Keys
    && forall r :: r in n1 ==>
         n2[r].key == n1[r].key && n2[r].value == n1[r].value && |n2[r].forward| == |n1[r].forward|
  }

  /** The same shape, and the same pointers on every level but `j`. */
  ghost predicate SameExceptLevel(n1: map<int, Node>, n2: map<int, Node>, j: nat)
  {
    SameShape(n1, n2)
    && forall r, t :: r in n1 && 0 <= t < |n1[r].forward| && t != j ==> n2[r].forward[t] == n1[r].forward[t]
  }

  /** `nodes[r].forward[j] := t`. */
  function Link(nodes: map<int, Node>, r: int, j: nat, t: int): (n: map<int, Node>)
    requires r in nodes && j < |nodes[r].forward|
    ensures n.Keys == nodes.Keys && SameExceptLevel(nodes, n, j)
    ensures n[r].forward[j] == t
    ensures forall s :: s in nodes && s != r ==> n[s] == nodes[s]
  {
    nodes[r := nodes[r].(forward := nodes[r].forward[j := t])]
  }

  /** Position `up` is where a search for a key just after position `P` leaves level `j`. */
  ghost predicate Predecessor(nodes: map<int, Node>, list: seq<int>, up: int, P: int, j: nat)
  {
    -1 <= up <= P < |list|
    && (0 <= up ==> j < Height(nodes, list[up]))
    && forall s :: up < s <= P ==> Height(nodes, list[s]) <= j
  }

  // ---------------------------------------------------------------------------
  // Positions on a level before and after one node is inserted

  lemma {:induction false} NextAboveAfter(nodes: map<int, Node>, list: seq<int>, P: int, x: int, q: int, j: nat)
    requires -1 <= P < |list| && P + 1 <= q <= |list|
    ensures NextAbove(nodes, Ins(list, P, x), q + 1, j) == NextAbove(nodes, list, q, j) + 1
    decreases |list| - q
  {
    if q < |list| {
      assert Ins(list, P, x)[q + 1] == list[q];
      if Height(nodes, list[q]) <= j {
        NextAboveAfter(nodes, list, P, x, q + 1, j);
      }
    }
  }

  lemma {:induction false} NextAboveBefore(nodes: map<int, Node>, list: seq<int>, P: int, x: int, q: int, j: nat)
    requires -1 <= P < |list| && 0 <= q <= P + 1
    ensures NextAbove(nodes, Ins(list, P, x), q, j)
            == (var r := NextAbove(nodes, list, q, j);
                if r <= P then r else if j < Height(nodes, x) then P + 1 else r + 1)
    decreases P + 1 - q
  {
    var L2 := Ins(list, P, x);
    if q == P + 1 {
      assert L2[q] == x;
      if Height(nodes, x) <= j {
        NextAboveAfter(nodes, list, P, x, P + 1, j);
      }
    } else {
      assert L2[q] == list[q];
      if Height(nodes, list[q]) <= j {
        NextAboveBefore(nodes, list, P, x, q + 1, j);
      }
    }
  }

  /** No node strictly between `q` and `NextAbove(q)` is on level `j`. */
  lemma {:induction false} NextAboveGap(nodes: map<int, Node>, list: seq<int>, q: int, j: nat)
    requires 0 <= q <= |list|
    ensures forall s :: q <= s < NextAbove(nodes, list, q, j) ==> Height(nodes, list[s]) <= j
    decreases |list| - q
  {
    if q < |list| && Height(nodes, list[q]) <= j {
      NextAboveGap(nodes, list, q + 1, j);
    }
  }

  lemma {:induction false} NextAboveSkip(nodes: map<int, Node>, list: seq<int>, a: int, b: int, j: nat)
    requires 0 <= a <= b <= |list|
    requires forall s :: a <= s < b ==> Height(nodes, list[s]) <= j
    ensures NextAbove(nodes, list, a, j) == NextAbove(nodes, list, b, j)
    decreases b - a
  {
    if a < b {
      NextAboveSkip(nodes, list, a + 1, b, j);
    }
  }

  lemma {:induction false} NextAboveFrame(n1: map<int, Node>, n2: map<int, Node>, list: seq<int>, q: int, j: nat)
    requires 0 <= q <= |list|
    requires forall s :: 0 <= s < |list| ==> Height(n1, list[s]) == Height(n2, list[s])
    ensures NextAbove(n1, list, q, j) == NextAbove(n2, list, q, j)
    decreases |list| - q
  {
    if q < |list| {
      NextAboveFrame(n1, n2, list, q + 1, j);
    }
  }

  /** Nodes agree on their levels, and on their level-`j` pointers, at every position of `list`. */
  ghost predicate AgreeOn(n1: map<int, Node>, n2: map<int, Node>, list: seq<int>, j: nat)
  {
    forall p :: -1 <= p < |list| && RefOf(list, p) in n1 ==>
      RefOf(list, p) in n2
      && |n2[RefOf(list, p)].forward| == |n1[RefOf(list, p)].forward|
      && (j < |n1[RefOf(list, p)].forward| ==> n2[RefOf(list, p)].forward[j] == n1[RefOf(list, p)].forward[j])
  }

  lemma LevelFrame(n1: map<int, Node>, n2: map<int, Node>, list: seq<int>, j: nat)
    requires LevelOk(n1, list, j) && AgreeOn(n1, n2, list, j)
    ensures LevelOk(n2, list, j)
  {
    forall s | 0 <= s < |list| ensures Height(n1, list[s]) == Height(n2, list[s]) {
      assert LinkedAt(n1, list, s, j);
      assert RefOf(list, s) == list[s];
    }
    forall p | -1 <= p < |list| ensures LinkedAt(n2, list, p, j) {
      assert LinkedAt(n1, list, p, j);
      NextAboveFrame(n1, n2, list, p + 1, j);
    }
  }

  /** Relinking level `j` leaves every other level as it was. */
  lemma LevelElsewhere(n1: map<int, Node>, n2: map<int, Node>, list: seq<int>, i: nat, j: nat)
    requires LevelOk(n1, list, i) && SameExceptLevel(n1, n2, j) && i != j
    ensures LevelOk(n2, list, i)
  {
    LevelFrame(n1, n2, list, i);
  }

  /** Changing keys, values or unlisted nodes leaves every level as it was. */
  lemma LevelKept(n1: map<int, Node>, n2: map<int, Node>, list: seq<int>, i: nat)
    requires LevelOk(n1, list, i)
    requires forall p :: -1 <= p < |list| ==> RefOf(list, p) !in n1 || (RefOf(list, p) in n2 && n2[RefOf(list, p)].forward == n1[RefOf(list, p)].forward)
    ensures LevelOk(n2, list, i)
  {
    LevelFrame(n1, n2, list, i);
  }

  // ---------------------------------------------------------------------------
  // Splicing a node into and out of one level

  /** What the insert's descent leaves at level `j` for splicing `x` in after position `P`. */
  ghost predicate InsertPoint(n: map<int, Node>, list: seq<int>, P: int, x: int, up: int, j: nat)
  {
    Predecessor(n, list, up, P, j) && Header in n && j < |n[Header].forward|
    && LevelOk(n, list, j) && Header !in list && Distinct(list)
    && x in n && x != Header && x !in list && j < |n[x].forward|
  }

  /**
   * The source's two assignments at level `j` of an insert (skiplist.h:141-142):
   * `x` takes over the predecessor's level-`j` pointer and the predecessor points at `x`.
   */
  function Splice(n: map<int, Node>, list: seq<int>, x: int, up: int, j: nat): (n2: map<int, Node>)
    requires -1 <= up < |list| && RefOf(list, up) in n && j < |n[RefOf(list, up)].forward|
    requires x in n && j < |n[x].forward|
    ensures n2.Keys == n.Keys && SameExceptLevel(n, n2, j)
    ensures forall r :: Height(n2, r) == Height(n, r)
  {
    var u := RefOf(list, up);
    Link(Link(n, x, j, n[u].forward[j]), u, j, x)
  }

  lemma PointOnLevel(n: map<int, Node>, list: seq<int>, P: int, x: int, up: int, j: nat)
    requires InsertPoint(n, list, P, x, up, j)
    ensures RefOf(list, up) in n && j < |n[RefOf(list, up)].forward|
  {
    assert LinkedAt(n, list, up, j);
  }

  /** Splicing `x` in at level `j` makes level `j` the sub-list of the list with `x` inserted. */
  lemma InsertStep(n: map<int, Node>, list: seq<int>, P: int, x: int, up: int, j: nat)
    requires InsertPoint(n, list, P, x, up, j)
    ensures RefOf(list, up) in n && j < |n[RefOf(list, up)].forward|
    ensures LevelOk(Splice(n, list, x, up, j), Ins(list, P, x), j)
  {
    PointOnLevel(n, list, P, x, up, j);
    var n2 := Splice(n, list, x, up, j);
    var L2 := Ins(list, P, x);
    forall p | -1 <= p < |L2| ensures LinkedAt(n2, L2, p, j) {
      NextAboveFrame(n, n2, L2, p + 1, j);
      if p < up || (up < p <= P) {
        InsertStepBefore(n, list, P, x, up, j, p);
      } else if p == up {
        InsertStepAtPredecessor(n, list, P, x, up, j);
      } else if p == P + 1 {
        assert LinkedAt(n, list, up, j);
        PredecessorLink(n, list, up, P, j);
        assert n2[x].forward[j] == n[RefOf(list, up)].forward[j];
        InsertStepAtNew(n, n2, list, P, x, j);
      } else {
        InsertStepAfter(n, list, P, x, up, j, p);
      }
    }
  }

  /** The predecessor's level-`j` pointer skips the gap up to `P` and leads to the next node on level `j`. */
  lemma {:induction false} PredecessorLink(n: map<int, Node>, list: seq<int>, up: int, P: int, j: nat)
    requires Predecessor(n, list, up, P, j) && LinkedAt(n, list, up, j) && j < |n[RefOf(list, up)].forward|
    ensures n[RefOf(list, up)].forward[j] == RefAt(list, NextAbove(n, list, P + 1, j))
  {
    NextAboveSkip(n, list, up + 1, P + 1, j);
  }

  lemma {:induction false} InsertStepBefore(n: map<int, Node>, list: seq<int>, P: int, x: int, up: int, j: nat, p: int)
    requires InsertPoint(n, list, P, x, up, j) && RefOf(list, up) in n && j < |n[RefOf(list, up)].forward|
    requires -1 <= p <= P && p != up
    ensures LinkedAt(Splice(n, list, x, up, j), Ins(list, P, x), p, j)
  {
    var n2 := Splice(n, list, x, up, j);
    var L2 := Ins(list, P, x);
    assert RefOf(L2, p) == RefOf(list, p);
    assert LinkedAt(n, list, p, j);
    if p < up {
      NextAboveGap(n, list, p + 1, j);
      NextAboveBefore(n, list, P, x, p + 1, j);
      NextAboveFrame(n, n2, L2, p + 1, j);
    }
  }

  lemma {:induction false} InsertStepAtPredecessor(n: map<int, Node>, list: seq<int>, P: int, x: int, up: int, j: nat)
    requires InsertPoint(n, list, P, x, up, j) && RefOf(list, up) in n && j < |n[RefOf(list, up)].forward|
    ensures LinkedAt(Splice(n, list, x, up, j), Ins(list, P, x), up, j)
  {
    var n2 := Splice(n, list, x, up, j);
    var L2 := Ins(list, P, x);
    assert RefOf(L2, up) == RefOf(list, up);
    NextAboveSkip(n, list, up + 1, P + 1, j);
    NextAboveBefore(n, list, P, x, up + 1, j);
    NextAboveFrame(n, n2, L2, up + 1, j);
    assert RefAt(L2, P + 1) == x;
  }

  lemma {:induction false} InsertStepAtNew(n: map<int, Node>, n2: map<int, Node>, list: seq<int>, P: int, x: int, j: nat)
    requires -1 <= P < |list| && forall r :: Height(n2, r) == Height(n, r)
    requires x in n2 && j < |n2[x].forward| && n2[x].forward[j] == RefAt(list, NextAbove(n, list, P + 1, j))
    ensures LinkedAt(n2, Ins(list, P, x), P + 1, j)
  {
    var r := NextAbove(n, list, P + 1, j);
    NextAboveAfter(n, list, P, x, P + 1, j);
    NextAboveFrame(n, n2, Ins(list, P, x), P + 2, j);
    InsAt(list, P, x, r);
  }

  lemma {:induction false} InsertStepAfter(n: map<int, Node>, list: seq<int>, P: int, x: int, up: int, j: nat, p: int)
    requires InsertPoint(n, list, P, x, up, j) && RefOf(list, up) in n && j < |n[RefOf(list, up)].forward|
    requires P + 1 < p <= |list|
    ensures LinkedAt(Splice(n, list, x, up, j), Ins(list, P, x), p, j)
  {
    var n2 := Splice(n, list, x, up, j);
    var L2 := Ins(list, P, x);
    assert RefOf(L2, p) == list[p - 1];
    assert LinkedAt(n, list, p - 1, j);
    NextAboveAfter(n, list, P, x, p, j);
    NextAboveFrame(n, n2, L2, p + 1, j);
    var r := NextAbove(n, list, p, j);
    assert RefAt(L2, r + 1) == RefAt(list, r);
    assert list[p - 1] != RefOf(list, up) && list[p - 1] != x;
    assert n2[list[p - 1]] == n[list[p - 1]];
  }

  /** A level above the new node's levels is the same list once the node is inserted. */
  lemma InsertAbove(n: map<int, Node>, list: seq<int>, P: int, x: int, j: nat)
    requires -1 <= P < |list| && LevelOk(n, list, j)
    requires x in n && |n[x].forward| <= j
    ensures LevelOk(n, Ins(list, P, x), j)
  {
    forall p | -1 <= p < |list| + 1 ensures LinkedAt(n, Ins(list, P, x), p, j) {
      InsertAboveAt(n, list, P, x, j, p);
    }
  }

  lemma {:induction false} InsertAboveAt(n: map<int, Node>, list: seq<int>, P: int, x: int, j: nat, p: int)
    requires -1 <= P < |list| && LevelOk(n, list, j)
    requires x in n && |n[x].forward| <= j
    requires -1 <= p <= |list|
    ensures LinkedAt(n, Ins(list, P, x), p, j)
  {
    var L2 := Ins(list, P, x);
    if p <= P {
      assert RefOf(L2, p) == RefOf(list, p);
      assert LinkedAt(n, list, p, j);
      NextAboveBefore(n, list, P, x, p + 1, j);
      assert LinkedAt(n, L2, p, j);
    } else if p > P + 1 {
      assert RefOf(L2, p) == list[p - 1];
      assert LinkedAt(n, list, p - 1, j);
      NextAboveAfter(n, list, P, x, p, j);
      assert LinkedAt(n, L2, p, j);
    } else {
      assert LinkedAt(n, L2, p, j);
    }
  }

  /** What the erase's descent leaves at level `j` for unlinking `x`, the node just after position `P`. */
  ghost predicate ErasePoint(n: map<int, Node>, list: seq<int>, P: int, x: int, up: int, j: nat)
  {
    Predecessor(n, list, up, P, j) && Header in n && j < |n[Header].forward|
    && LevelOk(n, Ins(list, P, x), j) && Header !in list && Distinct(list)
    && x in n && x != Header && x !in list && j < |n[x].forward|
  }

  /** The source's assignment at level `j` of an erase (skiplist.h:174): the predecessor takes over `x`'s pointer. */
  function Unsplice(n: map<int, Node>, list: seq<int>, x: int, up: int, j: nat): (n2: map<int, Node>)
    requires -1 <= up < |list| && RefOf(list, up) in n && j < |n[RefOf(list, up)].forward|
    requires x in n && j < |n[x].forward|
    ensures n2.Keys == n.Keys && SameExceptLevel(n, n2, j)
    ensures forall r :: Height(n2, r) == Height(n, r)
  {
    Link(n, RefOf(list, up), j, n[x].forward[j])
  }

  lemma PointBeforeErased(n: map<int, Node>, list: seq<int>, P: int, x: int, up: int, j: nat)
    requires ErasePoint(n, list, P, x, up, j)
    ensures RefOf(list, up) in n && j < |n[RefOf(list, up)].forward|
  {
    assert RefOf(Ins(list, P, x), up) == RefOf(list, up);
    assert LinkedAt(n, Ins(list, P, x), up, j);
  }

  /** Unlinking `x` at level `j` makes level `j` the sub-list of the list without `x`. */
  lemma EraseStep(n: map<int, Node>, list: seq<int>, P: int, x: int, up: int, j: nat)
    requires ErasePoint(n, list, P, x, up, j)
    ensures RefOf(list, up) in n && j < |n[RefOf(list, up)].forward|
    ensures LevelOk(Unsplice(n, list, x, up, j), list, j)
  {
    PointBeforeErased(n, list, P, x, up, j);
    forall p | -1 <= p < |list| ensures LinkedAt(Unsplice(n, list, x, up, j), list, p, j) {
      if p == up {
        assert RefOf(Ins(list, P, x), P + 1) == x;
        assert LinkedAt(n, Ins(list, P, x), P + 1, j);
        ErasedLink(n, list, P, x, j);
        EraseStepAtPredecessor(n, Unsplice(n, list, x, up, j), list, P, up, j);
      } else {
        EraseStepElsewhere(n, list, P, x, up, j, p);
      }
    }
  }

  /** Before the unlink, `x`'s level-`j` pointer leads to the next node on level `j` after position `P`. */
  lemma {:induction false} ErasedLink(n: map<int, Node>, list: seq<int>, P: int, x: int, j: nat)
    requires -1 <= P < |list| && x in n && j < |n[x].forward|
    requires RefOf(Ins(list, P, x), P + 1) == x && LinkedAt(n, Ins(list, P, x), P + 1, j)
    ensures n[x].forward[j] == RefAt(list, NextAbove(n, list, P + 1, j))
  {
    var L2 := Ins(list, P, x);
    var r := NextAbove(n, list, P + 1, j);
    NextAboveAfter(n, list, P, x, P + 1, j);
    InsAt(list, P, x, r);
    assert NextAbove(n, L2, P + 2, j) == r + 1;
  }

  lemma {:induction false} EraseStepAtPredecessor(n: map<int, Node>, n2: map<int, Node>, list: seq<int>, P: int, up: int, j: nat)
    requires Predecessor(n, list, up, P, j) && forall r :: Height(n2, r) == Height(n, r)
    requires RefOf(list, up) in n2 && j < |n2[RefOf(list, up)].forward|
    requires n2[RefOf(list, up)].forward[j] == RefAt(list, NextAbove(n, list, P + 1, j))
    ensures LinkedAt(n2, list, up, j)
  {
    NextAboveSkip(n, list, up + 1, P + 1, j);
    NextAboveFrame(n, n2, list, up + 1, j);
  }

  lemma {:induction false} EraseStepElsewhere(n: map<int, Node>, list: seq<int>, P: int, x: int, up: int, j: nat, p: int)
    requires ErasePoint(n, list, P, x, up, j) && RefOf(list, up) in n && j < |n[RefOf(list, up)].forward|
    requires -1 <= p < |list| && p != up
    ensures LinkedAt(Unsplice(n, list, x, up, j), list, p, j)
  {
    if p <= P {
      EraseStepBefore(n, list, P, x, up, j, p);
    } else {
      EraseStepAfter(n, list, P, x, up, j, p);
    }
  }

  lemma {:induction false} EraseStepBefore(n: map<int, Node>, list: seq<int>, P: int, x: int, up: int, j: nat, p: int)
    requires ErasePoint(n, list, P, x, up, j) && RefOf(list, up) in n && j < |n[RefOf(list, up)].forward|
    requires -1 <= p <= P && p != up
    ensures LinkedAt(Unsplice(n, list, x, up, j), list, p, j)
  {
    var L2 := Ins(list, P, x);
    var n2 := Unsplice(n, list, x, up, j);
    assert RefOf(L2, p) == RefOf(list, p);
    assert LinkedAt(n, L2, p, j);
    if p < up {
      NextAboveFrame(n, n2, list, p + 1, j);
      NextAboveGap(n, L2, p + 1, j);
      assert L2[up] == list[up];
      NextAboveBefore(n, list, P, x, p + 1, j);
    }
  }

  lemma {:induction false} EraseStepAfter(n: map<int, Node>, list: seq<int>, P: int, x: int, up: int, j: nat, p: int)
    requires ErasePoint(n, list, P, x, up, j) && RefOf(list, up) in n && j < |n[RefOf(list, up)].forward|
    requires P < p < |list|
    ensures LinkedAt(Unsplice(n, list, x, up, j), list, p, j)
  {
    var L2 := Ins(list, P, x);
    var n2 := Unsplice(n, list, x, up, j);
    NextAboveFrame(n, n2, list, p + 1, j);
    assert RefOf(L2, p + 1) == list[p];
    assert LinkedAt(n, L2, p + 1, j);
    NextAboveAfter(n, list, P, x, p + 1, j);
    var r := NextAbove(n, list, p + 1, j);
    assert RefAt(L2, r + 1) == RefAt(list, r);
    assert list[p] != RefOf(list, up);
    assert n2[list[p]] == n[list[p]];
  }

  /** A level above the erased node's levels is the same list once the node is gone. */
  lemma EraseAbove(n: map<int, Node>, list: seq<int>, P: int, x: int, j: nat)
    requires -1 <= P < |list| && LevelOk(n, Ins(list, P, x), j)
    requires x in n && |n[x].forward| <= j
    ensures LevelOk(n, list, j)
  {
    forall p | -1 <= p < |list| ensures LinkedAt(n, list, p, j) {
      EraseAboveAt(n, list, P, x, j, p);
    }
  }

  lemma {:induction false} EraseAboveAt(n: map<int, Node>, list: seq<int>, P: int, x: int, j: nat, p: int)
    requires -1 <= P < |list| && LevelOk(n, Ins(list, P, x), j)
    requires x in n && |n[x].forward| <= j
    requires -1 <= p < |list|
    ensures LinkedAt(n, list, p, j)
  {
    InsAt(list, P, x, p);
    if p <= P {
      assert LinkedAt(n, Ins(list, P, x), p, j);
      EraseAboveBefore(n, list, P, x, j, p);
    } else {
      assert LinkedAt(n, Ins(list, P, x), p + 1, j);
      EraseAboveAfter(n, list, P, x, j, p);
    }
  }

  lemma {:induction false} EraseAboveBefore(n: map<int, Node>, list: seq<int>, P: int, x: int, j: nat, p: int)
    requires -1 <= p <= P < |list| && x in n && |n[x].forward| <= j
    requires RefOf(Ins(list, P, x), p) == RefOf(list, p) && LinkedAt(n, Ins(list, P, x), p, j)
    ensures LinkedAt(n, list, p, j)
  {
    var r := NextAbove(n, list, p + 1, j);
    NextAboveBefore(n, list, P, x, p + 1, j);
    InsAt(list, P, x, r);
    if r <= P {
      assert RefAt(Ins(list, P, x), r) == RefAt(list, r);
    }
  }

  lemma {:induction false} EraseAboveAfter(n: map<int, Node>, list: seq<int>, P: int, x: int, j: nat, p: int)
    requires -1 <= P < p < |list| && x in n
    requires RefOf(Ins(list, P, x), p + 1) == list[p] && LinkedAt(n, Ins(list, P, x), p + 1, j)
    ensures LinkedAt(n, list, p, j)
  {
    var r := NextAbove(n, list, p + 1, j);
    NextAboveAfter(n, list, P, x, p + 1, j);
    InsAt(list, P, x, r);
  }

  /**
   * The test of the erase loop (skiplist.h:176): the predecessor at level `j`
   * points at `x` exactly when `x` is on level `j`.
   */
  lemma PointsAtErased(n: map<int, Node>, list: seq<int>, P: int, x: int, up: int, j: nat)
    requires Predecessor(n, list, up, P, j) && Header in n && j < |n[Header].forward|
    requires LevelOk(n, Ins(list, P, x), j) && x !in list && x != Nil
    ensures RefOf(list, up) in n && j < |n[RefOf(list, up)].forward|
    ensures n[RefOf(list, up)].forward[j] == x <==> j < Height(n, x)
  {
    InsAt(list, P, x, up);
    assert LinkedAt(n, Ins(list, P, x), up, j);
    ErasedPredecessorLink(n, list, P, x, up, j);
    var r := NextAbove(n, list, P + 1, j);
    if r < |list| {
      assert list[r] in list;
    }
  }

  lemma {:induction false} ErasedPredecessorLink(n: map<int, Node>, list: seq<int>, P: int, x: int, up: int, j: nat)
    requires Predecessor(n, list, up, P, j) && Header in n && j < |n[Header].forward|
    requires RefOf(Ins(list, P, x), up) == RefOf(list, up) && LinkedAt(n, Ins(list, P, x), up, j)
    ensures RefOf(list, up) in n && j < |n[RefOf(list, up)].forward|
    ensures n[RefOf(list, up)].forward[j] == if j < Height(n, x) then x else RefAt(list, NextAbove(n, list, P + 1, j))
  {
    NextAboveSkip(n, list, up + 1, P + 1, j);
    NextAboveBefore(n, list, P, x, up + 1, j);
    InsAt(list, P, x, NextAbove(n, list, P + 1, j));
  }

  // ---------------------------------------------------------------------------
  // The key-value map

  lemma {:induction false} ContentsDomain(nodes: map<int, Node>, list: seq<int>, k: int)
    requires forall q :: 0 <= q < |list| ==> list[q] in nodes
    ensures k in ContentsOf(nodes, list) <==> exists q :: 0 <= q < |list| && nodes[list[q]].key == k
    decreases |list|
  {
    if |list| > 0 {
      ContentsDomain(nodes, list[1..], k);
      if k in ContentsOf(nodes, list) && nodes[list[0]].key != k {
        var q :| 0 <= q < |list[1..]| && nodes[list[1..][q]].key == k;
        assert list[q + 1] == list[1..][q];
      }
      if exists q :: 0 <= q < |list| && nodes[list[q]].key == k {
        var q :| 0 <= q < |list| && nodes[list[q]].key == k;
        if q > 0 {
          assert list[1..][q - 1] == list[q];
        }
      }
    }
  }

  lemma {:induction false} ContentsAt(nodes: map<int, Node>, list: seq<int>, q: int)
    requires forall s :: 0 <= s < |list| ==> list[s] in nodes
    requires Ascending(nodes, list) && 0 <= q < |list|
    ensures nodes[list[q]].key in ContentsOf(nodes, list)
    ensures ContentsOf(nodes, list)[nodes[list[q]].key] == nodes[list[q]].value
    decreases |list|
  {
    if q == 0 {
    } else {
      assert list[1..][q - 1] == list[q];
      ContentsAt(nodes, list[1..], q - 1);
    }
  }

  lemma {:induction false} ContentsInsert(nodes: map<int, Node>, list: seq<int>, P: int, x: int)
    requires -1 <= P < |list| && x in nodes
    requires forall s :: 0 <= s < |list| ==> list[s] in nodes && nodes[list[s]].key != nodes[x].key
    ensures ContentsOf(nodes, Ins(list, P, x)) == ContentsOf(nodes, list)[nodes[x].key := nodes[x].value]
    decreases |list|
  {
    var L2 := Ins(list, P, x);
    if P == -1 {
      assert L2[1..] == list;
    } else {
      assert L2[1..] == Ins(list[1..], P - 1, x);
      ContentsInsert(nodes, list[1..], P - 1, x);
    }
  }

  lemma {:induction false} ContentsRemove(nodes: map<int, Node>, list: seq<int>, P: int, x: int)
    requires -1 <= P < |list| && x in nodes
    requires forall s :: 0 <= s < |list| ==> list[s] in nodes && nodes[list[s]].key != nodes[x].key
    ensures ContentsOf(nodes, list) == ContentsOf(nodes, Ins(list, P, x)) - {nodes[x].key}
  {
    ContentsInsert(nodes, list, P, x);
    ContentsDomain(nodes, list, nodes[x].key);
  }

  lemma {:induction false} ContentsFrame(n1: map<int, Node>, n2: map<int, Node>, list: seq<int>)
    requires forall s :: 0 <= s < |list| ==>
      list[s] in n1 && list[s] in n2 && n1[list[s]].key == n2[list[s]].key && n1[list[s]].value == n2[list[s]].value
    ensures ContentsOf(n1, list) == ContentsOf(n2, list)
    decreases |list|
  {
    if |list| > 0 {
      ContentsFrame(n1, n2, list[1..]);
    }
  }

  /** Overwriting the value of the node at position `q` overwrites the map at its key. */
  lemma {:induction false} ContentsOverwrite(nodes: map<int, Node>, list: seq<int>, q: int, v: int)
    requires forall s :: 0 <= s < |list| ==> list[s] in nodes
    requires Ascending(nodes, list) && Distinct(list) && 0 <= q < |list|
    ensures ContentsOf(nodes[list[q] := nodes[list[q]].(value := v)], list)
            == ContentsOf(nodes, list)[nodes[list[q]].key := v]
    decreases |list|
  {
    var n2 := nodes[list[q] := nodes[list[q]].(value := v)];
    if q == 0 {
      ContentsFrame(nodes, n2, list[1..]);
      ContentsDomain(nodes, list[1..], nodes[list[0]].key);
    } else {
      assert list[1..][q - 1] == list[q];
      ContentsOverwrite(nodes, list[1..], q - 1, v);
      assert nodes[list[0]].key != nodes[list[q]].key;
    }
  }

  // ---------------------------------------------------------------------------
  // Whole-list facts

  /** A descent's predecessor stays one when the nodes keep their levels and the positions up to `P` their nodes. */
  lemma PredecessorMoves(n1: map<int, Node>, l1: seq<int>, n2: map<int, Node>, l2: seq<int>, up: int, P: int, j: nat)
    requires Predecessor(n1, l1, up, P, j) && P < |l2|
    requires forall s :: 0 <= s <= P ==> l2[s] == l1[s] && Height(n2, l1[s]) == Height(n1, l1[s])
    ensures Predecessor(n2, l2, up, P, j)
    ensures RefOf(l2, up) == RefOf(l1, up)
  {
  }

  /**
   * Every level is strictly ascending by key and a sub-list of the level below:
   * the node a level-`j` pointer leads to lies further along level 0, has a
   * larger key, and is on level `j` and so on every level below it.
   */
  lemma {:induction false} LevelAscending(nodes: map<int, Node>, list: seq<int>, maxLevel: int, level: int, p: int, j: nat)
    requires Linked(nodes, list, maxLevel, level) && -1 <= p < |list|
    requires j < Height(nodes, RefOf(list, p))
    ensures var f := nodes[RefOf(list, p)].forward[j];
            f == Nil || exists s :: p < s < |list| && list[s] == f && j < Height(nodes, f)
                                    && (0 <= p ==> nodes[list[p]].key < nodes[f].key)
  {
    assert LevelOk(nodes, list, j);
    assert LinkedAt(nodes, list, p, j);
    var r := NextAbove(nodes, list, p + 1, j);
    if r < |list| {
      assert list[r] == nodes[RefOf(list, p)].forward[j];
    }
  }

  /** Overwriting the value of the node at position `q` keeps the shape, and the map gets the new value. */
  lemma Overwritten(nodes: map<int, Node>, list: seq<int>, maxLevel: int, level: int, q: int, v: int)
    requires Linked(nodes, list, maxLevel, level) && TopInUse(nodes, level) && 0 <= q < |list|
    ensures var n2 := nodes[list[q] := nodes[list[q]].(value := v)];
            Linked(n2, list, maxLevel, level) && TopInUse(n2, level)
            && ContentsOf(n2, list) == ContentsOf(nodes, list)[nodes[list[q]].key := v]
  {
    var n2 := nodes[list[q] := nodes[list[q]].(value := v)];
    forall j | 0 <= j < maxLevel ensures LevelOk(n2, list, j) {
      assert LevelOk(nodes, list, j);
      LevelKept(nodes, n2, list, j);
    }
    ContentsOverwrite(nodes, list, q, v);
  }

  /** The shape after an insert of key `k` as node `x` just after position `P`, and the map it holds. */
  lemma Inserted(nodes: map<int, Node>, list: seq<int>, maxLevel: int, level: int, P: int, x: int, k: int,
                 ns: map<int, Node>, newLevel: int)
    requires Linked(nodes, list, maxLevel, level) && TopInUse(nodes, level) && -1 <= P < |list|
    requires 0 <= P ==> nodes[list[P]].key < k
    requires P + 1 < |list| ==> k < nodes[list[P + 1]].key
    requires x !in nodes && x != Nil && x in ns
    requires SameShape(nodes, ns - {x}) && ns.Keys == nodes.Keys + {x}
    requires ns[x].key == k && 1 <= |ns[x].forward| <= maxLevel
    requires newLevel == if |ns[x].forward| - 1 > level then |ns[x].forward| - 1 else level
    requires forall j :: 0 <= j < maxLevel ==> LevelOk(ns, Ins(list, P, x), j)
    ensures Linked(ns, Ins(list, P, x), maxLevel, newLevel) && TopInUse(ns, newLevel)
    ensures ContentsOf(ns, Ins(list, P, x)) == ContentsOf(nodes, list)[k := ns[x].value]
  {
    var L2 := Ins(list, P, x);
    assert forall r :: r in nodes ==> r in ns && ns[r] == (ns - {x})[r];
    InsertedOrder(nodes, list, P, x, k, ns);
    InsertedMembers(list, P, x);
    forall s | 0 <= s < |L2| ensures L2[s] in ns && 1 <= |ns[L2[s]].forward| <= newLevel + 1 && L2[s] != Header {
    }
    InsertedTop(nodes, list, maxLevel, level, P, x, ns, newLevel);
    InsertedContents(nodes, list, P, x, k, ns);
  }

  lemma InsertedMembers(list: seq<int>, P: int, x: int)
    requires -1 <= P < |list|
    ensures forall r :: r in Ins(list, P, x) <==> r == x || r in list
  {
    var L2 := Ins(list, P, x);
    forall r | r in list ensures r in L2 {
      var s :| 0 <= s < |list| && list[s] == r;
      if s <= P {
        assert L2[s] == r;
      } else {
        assert L2[s + 1] == r;
      }
    }
    assert L2[P + 1] == x;
  }

  lemma InsertedOrder(nodes: map<int, Node>, list: seq<int>, P: int, x: int, k: int, ns: map<int, Node>)
    requires -1 <= P < |list| && Distinct(list) && x !in list
    requires forall s :: 0 <= s < |list| ==> list[s] in nodes && list[s] in ns && ns[list[s]].key == nodes[list[s]].key
    requires Ascending(nodes, list)
    requires 0 <= P ==> nodes[list[P]].key < k
    requires P + 1 < |list| ==> k < nodes[list[P + 1]].key
    requires x in ns && ns[x].key == k
    ensures Distinct(Ins(list, P, x)) && Ascending(ns, Ins(list, P, x))
  {
    var L2 := Ins(list, P, x);
    forall a, b | 0 <= a < b < |L2| ensures ns[L2[a]].key < ns[L2[b]].key && L2[a] != L2[b] {
      if b <= P {
        assert L2[a] == list[a] && L2[b] == list[b];
      } else if b == P + 1 {
        assert L2[a] == list[a];
        if a < P {
          assert nodes[list[a]].key < nodes[list[P]].key;
        }
      } else if a == P + 1 {
        assert L2[b] == list[b - 1];
        if b - 1 > P + 1 {
          assert nodes[list[P + 1]].key < nodes[list[b - 1]].key;
        }
      } else if a <= P {
        assert L2[a] == list[a] && L2[b] == list[b - 1];
      } else {
        assert L2[a] == list[a - 1] && L2[b] == list[b - 1];
      }
    }
  }

  lemma InsertedTop(nodes: map<int, Node>, list: seq<int>, maxLevel: int, level: int, P: int, x: int,
                    ns: map<int, Node>, newLevel: int)
    requires Linked(nodes, list, maxLevel, level) && TopInUse(nodes, level) && -1 <= P < |list|
    requires x in ns && Nil !in ns && Header in ns && |ns[Header].forward| == maxLevel
    requires forall s :: 0 <= s < |list| ==> list[s] in ns && Height(ns, list[s]) == Height(nodes, list[s])
    requires 1 <= |ns[x].forward| <= maxLevel
    requires newLevel == if |ns[x].forward| - 1 > level then |ns[x].forward| - 1 else level
    requires forall j :: 0 <= j < maxLevel ==> LevelOk(ns, Ins(list, P, x), j)
    ensures TopInUse(ns, newLevel)
  {
    var L2 := Ins(list, P, x);
    if newLevel > level {
      assert LevelOk(ns, L2, newLevel);
      assert LinkedAt(ns, L2, -1, newLevel);
      NextAboveGap(ns, L2, 0, newLevel);
      assert L2[P + 1] == x;
      var r := NextAbove(ns, L2, 0, newLevel);
      assert r <= P + 1;
      assert L2[r] in ns;
    } else if level > 0 {
      assert LevelOk(nodes, list, level);
      assert LinkedAt(nodes, list, -1, level);
      assert LevelOk(ns, L2, level);
      assert LinkedAt(ns, L2, -1, level);
      NextAboveFrame(nodes, ns, list, 0, level);
      NextAboveBefore(ns, list, P, x, 0, level);
      var r := NextAbove(ns, L2, 0, level);
      assert r < |L2|;
      assert L2[r] in ns;
    }
  }

  lemma InsertedContents(nodes: map<int, Node>, list: seq<int>, P: int, x: int, k: int, ns: map<int, Node>)
    requires -1 <= P < |list|
    requires forall s :: 0 <= s < |list| ==>
               list[s] in nodes && list[s] in ns
               && ns[list[s]].key == nodes[list[s]].key && ns[list[s]].value == nodes[list[s]].value
    requires Ascending(nodes, list)
    requires 0 <= P ==> nodes[list[P]].key < k
    requires P + 1 < |list| ==> k < nodes[list[P + 1]].key
    requires x in ns && ns[x].key == k
    ensures ContentsOf(ns, Ins(list, P, x)) == ContentsOf(nodes, list)[k := ns[x].value]
  {
    forall s | 0 <= s < |list| ensures ns[list[s]].key != k {
      if s < P {
        assert nodes[list[s]].key < nodes[list[P]].key;
      } else if s > P + 1 {
        assert nodes[list[P + 1]].key < nodes[list[s]].key;
      }
    }
    ContentsFrame(nodes, ns, list);
    ContentsInsert(ns, list, P, x);
  }

  /** After the unlink loop and the free of `x`, the list without `x` keeps its shape and loses `x`'s key. */
  lemma Erased(nodes: map<int, Node>, list: seq<int>, maxLevel: int, level: int, P: int, x: int,
               ns: map<int, Node>, rest: seq<int>)
    requires Linked(nodes, list, maxLevel, level) && -1 <= P < |rest| && list == Ins(rest, P, x)
    requires x in nodes && ns.Keys == nodes.Keys - {x} && SameShape(nodes - {x}, ns)
    requires forall j :: 0 <= j < maxLevel ==> LevelOk(ns, rest, j)
    ensures Linked(ns, rest, maxLevel, level)
    ensures ContentsOf(ns, rest) == ContentsOf(nodes, list) - {nodes[x].key}
  {
    forall r | r in ns
      ensures r in nodes && r != x && ns[r].key == nodes[r].key && ns[r].value == nodes[r].value
      ensures |ns[r].forward| == |nodes[r].forward|
    {
      assert r in (nodes - {x}).Keys;
    }
    InsertedMembers(rest, P, x);
    ErasedOrder(nodes, list, P, x, rest);
    forall s | 0 <= s < |rest| ensures rest[s] in ns && 1 <= |ns[rest[s]].forward| <= level + 1 && rest[s] != Header {
      assert rest[s] in list;
    }
    ContentsFrame(ns, nodes, rest);
    ContentsRemove(nodes, rest, P, x);
  }

  lemma ErasedOrder(nodes: map<int, Node>, list: seq<int>, P: int, x: int, rest: seq<int>)
    requires -1 <= P < |rest| && list == Ins(rest, P, x)
    requires Distinct(list) && forall s :: 0 <= s < |list| ==> list[s] in nodes
    requires Ascending(nodes, list)
    ensures Distinct(rest) && x !in rest && x in nodes
    ensures forall s :: 0 <= s < |rest| ==> rest[s] in nodes && nodes[rest[s]].key != nodes[x].key
    ensures Ascending(nodes, rest)
  {
    assert list[P + 1] == x;
    forall s | 0 <= s < |rest| ensures rest[s] == list[if s <= P then s else s + 1] {
    }
    forall a, b | 0 <= a < b < |rest|
      ensures rest[a] != rest[b] && nodes[rest[a]].key < nodes[rest[b]].key
    {
      assert rest[a] == list[if a <= P then a else a + 1];
      assert rest[b] == list[if b <= P then b else b + 1];
    }
    forall s | 0 <= s < |rest| ensures rest[s] != x && nodes[rest[s]].key != nodes[x].key {
      var s2 := if s <= P then s else s + 1;
      assert rest[s] == list[s2];
    }
  }

  /** The list `list` with the node just after position `P` taken out. */
  lemma Unlinked(list: seq<int>, P: int)
    requires -1 <= P && P + 1 < |list|
    ensures var rest := list[..P + 1] + list[P + 2..];
            |rest| == |list| - 1 && Ins(rest, P, list[P + 1]) == list
  {
    var rest := list[..P + 1] + list[P + 2..];
    assert Ins(rest, P, list[P + 1]) == list;
  }

  /** The erase's final loop (skiplist.h:182-184): an empty top level can be dropped. */
  lemma Lower(ns: map<int, Node>, rest: seq<int>, maxLevel: int, lev: int)
    requires Linked(ns, rest, maxLevel, lev) && 0 < lev && ns[Header].forward[lev] == Nil
    ensures Linked(ns, rest, maxLevel, lev - 1)
  {
    assert LevelOk(ns, rest, lev);
    assert LinkedAt(ns, rest, -1, lev);
    NextAboveGap(ns, rest, 0, lev);
  }

  /**
   * What a descent for `k` ending just after position `P` tells: `k` is held
   * exactly when the next node has key `k`, and then with that node's value.
   */
  lemma DescentFinds(nodes: map<int, Node>, list: seq<int>, maxLevel: int, level: int, P: int, k: int)
    requires Linked(nodes, list, maxLevel, level) && -1 <= P < |list|
    requires 0 <= P ==> nodes[list[P]].key < k
    requires P + 1 < |list| ==> k <= nodes[list[P + 1]].key
    ensures k in ContentsOf(nodes, list) <==> P + 1 < |list| && nodes[list[P + 1]].key == k
    ensures P + 1 < |list| && nodes[list[P + 1]].key == k ==> ContentsOf(nodes, list)[k] == nodes[list[P + 1]].value
  {
    ContentsDomain(nodes, list, k);
    if P + 1 < |list| && nodes[list[P + 1]].key == k {
      ContentsAt(nodes, list, P + 1);
    } else {
      forall s | 0 <= s < |list| ensures nodes[list[s]].key != k {
        if s < P {
          assert nodes[list[s]].key < nodes[list[P]].key;
        } else if s > P + 1 {
          assert nodes[list[P + 1]].key < nodes[list[s]].key;
        }
      }
    }
  }

  /** The search for `k` left level `j` at position `up`: the next node on that level, if any, has a key at least `k`. */
  ghost predicate Fenced(nodes: map<int, Node>, list: seq<int>, up: int, j: nat, k: int)
  {
    -1 <= up < |list|
    && (0 <= up ==> j < Height(nodes, list[up]) && list[up] in nodes && nodes[list[up]].key < k)
    && var r := NextAbove(nodes, list, up + 1, j);
       r < |list| ==> list[r] in nodes && k <= nodes[list[r]].key
  }

  lemma FencedPredecessor(nodes: map<int, Node>, list: seq<int>, maxLevel: int, level: int, up: int, P: int, j: nat, k: int)
    requires Linked(nodes, list, maxLevel, level) && Fenced(nodes, list, up, j, k) && up <= P < |list|
    requires 0 <= P ==> nodes[list[P]].key < k
    ensures Predecessor(nodes, list, up, P, j)
  {
    NextAboveGap(nodes, list, up + 1, j);
  }

  /** Where the descent stops on each level is a predecessor of the position it ends at. */
  lemma DescentPredecessors(nodes: map<int, Node>, list: seq<int>, maxLevel: int, level: int, ups: seq<int>, P: int, k: int)
    requires Linked(nodes, list, maxLevel, level) && -1 <= P < |list| && |ups| == level + 1
    requires 0 <= P ==> nodes[list[P]].key < k
    requires forall j :: 0 <= j <= level ==> Fenced(nodes, list, ups[j], j, k) && ups[j] <= P
    ensures forall j :: 0 <= j <= level ==> Predecessor(nodes, list, ups[j], P, j)
  {
    forall j | 0 <= j <= level ensures Predecessor(nodes, list, ups[j], P, j) {
      FencedPredecessor(nodes, list, maxLevel, level, ups[j], P, j, k);
    }
  }

  /** The last step of the descent: the level-0 successor of position `P` is the first key at least `k`. */
  lemma DescentNext(nodes: map<int, Node>, list: seq<int>, maxLevel: int, level: int, P: int, k: int)
    requires Linked(nodes, list, maxLevel, level) && Fenced(nodes, list, P, 0, k)
    ensures RefOf(list, P) in nodes && 1 <= |nodes[RefOf(list, P)].forward|
    ensures nodes[RefOf(list, P)].forward[0] == RefAt(list, P + 1)
    ensures P + 1 < |list| ==> k <= nodes[list[P + 1]].key
  {
    assert LevelOk(nodes, list, 0) && LinkedAt(nodes, list, P, 0);
  }

  /** One round of the insert's linking loop: splice `x` in at level `lv`. */
  lemma SpliceStep(n0: map<int, Node>, ns: map<int, Node>, list: seq<int>, maxLevel: int, P: int, x: int, up: int, lv: nat)
    requires ns.Keys == n0.Keys && SameShape(n0, ns) && lv < maxLevel
    requires Predecessor(n0, list, up, P, lv) && Header in n0 && |n0[Header].forward| == maxLevel
    requires Header !in list && Distinct(list) && x in n0 && x != Header && x !in list && lv < |n0[x].forward|
    requires forall j :: 0 <= j <= lv ==> LevelOk(ns, list, j)
    requires forall j :: lv < j < maxLevel ==> LevelOk(ns, Ins(list, P, x), j)
    ensures RefOf(list, up) in ns && lv < |ns[RefOf(list, up)].forward|
    ensures var n2 := Splice(ns, list, x, up, lv);
            n2.Keys == n0.Keys && SameShape(n0, n2)
            && (forall j :: 0 <= j < lv ==> LevelOk(n2, list, j))
            && (forall j :: lv <= j < maxLevel ==> LevelOk(n2, Ins(list, P, x), j))
  {
    PredecessorMoves(n0, list, ns, list, up, P, lv);
    InsertStep(ns, list, P, x, up, lv);
    var n2 := Splice(ns, list, x, up, lv);
    assert SameShape(ns, n2);
    forall j | 0 <= j < lv ensures LevelOk(n2, list, j) {
      LevelElsewhere(ns, n2, list, j, lv);
    }
    forall j | lv < j < maxLevel ensures LevelOk(n2, Ins(list, P, x), j) {
      LevelElsewhere(ns, n2, Ins(list, P, x), j, lv);
    }
  }

  /**
   * What the descent for an absent key `k` records: it stopped after position
   * `P`, and on each level `j` in use at position `ups[j]`, node `upd[j]`.
   */
  ghost predicate Descended(nodes: map<int, Node>, list: seq<int>, level: int, P: int, ups: seq<int>, upd: seq<int>, k: int)
  {
    -1 <= P < |list|
    && (0 <= P ==> list[P] in nodes && nodes[list[P]].key < k)
    && (P + 1 < |list| ==> list[P + 1] in nodes && k < nodes[list[P + 1]].key)
    && |ups| == level + 1 && level < |upd|
    && forall j :: 0 <= j <= level ==> Predecessor(nodes, list, ups[j], P, j) && upd[j] == RefOf(list, ups[j])
  }

  /** `upd` is `upd0` with the levels above `level` up to `top` starting at the header (skiplist.h:132-137). */
  ghost predicate RaisedUpdate(upd0: seq<int>, upd: seq<int>, level: int, top: int)
  {
    |upd| == |upd0| && forall j :: 0 <= j < |upd0| ==> upd[j] == if level < j <= top then Header else upd0[j]
  }

  /** What the insert's linking loop needs: where to splice the fresh node `x` on each of its levels. */
  ghost predicate SpliceReady(n0: map<int, Node>, upd: seq<int>, x: int, top: int, list: seq<int>, P: int,
                              ups: seq<int>, maxLevel: int)
  {
    0 <= top < maxLevel && |upd| == maxLevel && |ups| == maxLevel && -1 <= P < |list|
    && Header in n0 && |n0[Header].forward| == maxLevel
    && Header !in list && Distinct(list) && x in n0 && x != Header && x !in list && |n0[x].forward| == top + 1
    && (forall j :: 0 <= j <= top ==> Predecessor(n0, list, ups[j], P, j) && upd[j] == RefOf(list, ups[j]))
    && forall j :: 0 <= j < maxLevel ==> LevelOk(n0, list, j)
  }

  /** What the linking loop achieves: every level of `ns` is the sub-list of the list with `x` after position `P`. */
  ghost predicate Spliced(n0: map<int, Node>, ns: map<int, Node>, list: seq<int>, P: int, x: int, maxLevel: int)
  {
    -1 <= P < |list| && ns.Keys == n0.Keys && SameShape(n0, ns)
    && forall j :: 0 <= j < maxLevel ==> LevelOk(ns, Ins(list, P, x), j)
  }

  /** The fresh node, not yet linked, leaves every level as it was; the descent's record, raised to `top`, says where to splice. */
  lemma Allocated(nodes: map<int, Node>, list: seq<int>, maxLevel: int, level: int, bound: int, P: int, ups: seq<int>,
                  upd0: seq<int>, upd: seq<int>, x: int, top: int, k: int)
    requires Shaped(nodes, list, maxLevel, level, bound) && x == bound + 1 && 0 <= top < maxLevel
    requires Descended(nodes, list, level, P, ups, upd0, k) && |upd0| == maxLevel && RaisedUpdate(upd0, upd, level, top)
    ensures SpliceReady(nodes[x := Node(0, 0, seq(top + 1, _ => Nil))], upd, x, top, list, P, Raised(ups, maxLevel), maxLevel)
  {
    var n0 := nodes[x := Node(0, 0, seq(top + 1, _ => Nil))];
    var ups2 := Raised(ups, maxLevel);
    forall r | r in list ensures r != x {
    }
    forall j | 0 <= j < maxLevel ensures LevelOk(n0, list, j) {
      assert LevelOk(nodes, list, j);
      LevelKept(nodes, n0, list, j);
    }
    forall j | 0 <= j <= top ensures Predecessor(n0, list, ups2[j], P, j) && upd[j] == RefOf(list, ups2[j]) {
      if j <= level {
        PredecessorMoves(nodes, list, n0, list, ups[j], P, j);
      } else {
        forall s | 0 <= s <= P ensures Height(n0, list[s]) <= j {
          assert list[s] != x;
        }
      }
    }
  }

  /** The descent's record of where each level was left, padded with the header's position -1 above `level`. */
  function Raised(ups: seq<int>, maxLevel: int): (ups2: seq<int>)
    requires |ups| <= maxLevel
    ensures |ups2| == maxLevel
    ensures forall j :: 0 <= j < |ups| ==> ups2[j] == ups[j]
    ensures forall j :: |ups| <= j < maxLevel ==> ups2[j] == -1
  {
    ups + seq(maxLevel - |ups|, _ => -1)
  }

  /** Once every level is spliced and the key and value are written, the list holds the new entry. */
  lemma Added(nodes: map<int, Node>, list: seq<int>, maxLevel: int, level: int, bound: int, P: int, ups: seq<int>,
              upd0: seq<int>, x: int, k: int, v: int, ns: map<int, Node>, top: int)
    requires Shaped(nodes, list, maxLevel, level, bound) && x == bound + 1 && 0 <= top < maxLevel
    requires Descended(nodes, list, level, P, ups, upd0, k)
    requires Spliced(nodes[x := Node(0, 0, seq(top + 1, _ => Nil))], ns, list, P, x, maxLevel)
    ensures var n2 := ns[x := ns[x].(key := k, value := v)];
            Shaped(n2, Ins(list, P, x), maxLevel, LevelAfter(level, top), x)
            && ContentsOf(n2, Ins(list, P, x)) == ContentsOf(nodes, list)[k := v]
  {
    var n2 := ns[x := ns[x].(key := k, value := v)];
    var L2 := Ins(list, P, x);
    forall j | 0 <= j < maxLevel ensures LevelOk(n2, L2, j) {
      LevelKept(ns, n2, L2, j);
    }
    forall r | r in nodes ensures r in n2 && n2[r].key == nodes[r].key && n2[r].value == nodes[r].value
      && |n2[r].forward| == |nodes[r].forward|
    {
      assert r != x;
    }
    Inserted(nodes, list, maxLevel, level, P, x, k, n2, LevelAfter(level, top));
  }

  /**
   * What the descent for a held key records: the node after position `P`
   * holds it, and on each level `j` in use the descent stopped at position
   * `ups[j]`, node `upd[j]`.
   */
  ghost predicate Located(nodes: map<int, Node>, list: seq<int>, level: int, P: int, ups: seq<int>, upd: seq<int>)
  {
    -1 <= P && P + 1 < |list| && |ups| == level + 1 && level < |upd|
    && forall j :: 0 <= j <= level ==> Predecessor(nodes, list, ups[j], P, j) && upd[j] == RefOf(list, ups[j])
  }

  /** What the erase's unlink loop needs: `x` follows position `P` of `rest` on each of its levels. */
  ghost predicate UnspliceReady(n0: map<int, Node>, upd: seq<int>, x: int, level: int, rest: seq<int>, P: int,
                                ups: seq<int>, maxLevel: int)
  {
    0 <= level < maxLevel && |upd| == maxLevel && |ups| == level + 1 && -1 <= P < |rest|
    && Header in n0 && |n0[Header].forward| == maxLevel
    && Header !in rest && Distinct(rest) && x in n0 && x != Header && x != Nil && x !in rest
    && 1 <= |n0[x].forward| <= level + 1
    && (forall j :: 0 <= j <= level ==> Predecessor(n0, rest, ups[j], P, j) && upd[j] == RefOf(rest, ups[j]))
    && forall j :: 0 <= j < maxLevel ==> LevelOk(n0, Ins(rest, P, x), j)
  }

  /** What the unlink loop achieves: every level of `ns` is the sub-list of `rest`, the list without `x`. */
  ghost predicate Unspliced(n0: map<int, Node>, ns: map<int, Node>, rest: seq<int>, P: int, x: int, maxLevel: int)
  {
    -1 <= P < |rest| && ns.Keys == n0.Keys && SameShape(n0, ns) && x in ns && ns[x] == n0[x]
    && forall j :: 0 <= j < maxLevel ==> LevelOk(ns, rest, j)
  }

  /** The erase's starting point: the list is `rest` with `x` inserted after position `P`. */
  lemma EraseReady(nodes: map<int, Node>, list: seq<int>, maxLevel: int, level: int, bound: int, P: int,
                   ups: seq<int>, upd: seq<int>)
    requires Shaped(nodes, list, maxLevel, level, bound) && Located(nodes, list, level, P, ups, upd) && |upd| == maxLevel
    ensures var rest := list[..P + 1] + list[P + 2..];
            Ins(rest, P, list[P + 1]) == list
            && UnspliceReady(nodes, upd, list[P + 1], level, rest, P, ups, maxLevel)
  {
    var rest := list[..P + 1] + list[P + 2..];
    var x := list[P + 1];
    Unlinked(list, P);
    ErasedOrder(nodes, list, P, x, rest);
    forall j | 0 <= j <= level ensures Predecessor(nodes, rest, ups[j], P, j) && upd[j] == RefOf(rest, ups[j]) {
      PredecessorMoves(nodes, list, nodes, rest, ups[j], P, j);
    }
  }

  /** One round of the erase's unlink loop (skiplist.h:172-176): the predecessor at level `lv` skips `x`. */
  lemma UnspliceStep(n0: map<int, Node>, ns: map<int, Node>, upd: seq<int>, x: int, level: int, rest: seq<int>,
                     P: int, ups: seq<int>, maxLevel: int, lv: nat)
    requires UnspliceReady(n0, upd, x, level, rest, P, ups, maxLevel) && lv <= level && lv < Height(n0, x)
    requires ns.Keys == n0.Keys && SameShape(n0, ns) && x in ns && ns[x] == n0[x]
    requires forall j :: 0 <= j < lv ==> LevelOk(ns, rest, j)
    requires forall j :: lv <= j < maxLevel ==> LevelOk(ns, Ins(rest, P, x), j)
    ensures upd[lv] in ns && lv < |ns[upd[lv]].forward|
    ensures var n2 := Link(ns, upd[lv], lv, ns[x].forward[lv]);
            n2.Keys == n0.Keys && SameShape(n0, n2) && x in n2 && n2[x] == n0[x]
            && (forall j :: 0 <= j <= lv ==> LevelOk(n2, rest, j))
            && (forall j :: lv < j < maxLevel ==> LevelOk(n2, Ins(rest, P, x), j))
  {
    var up := ups[lv];
    PredecessorMoves(n0, rest, ns, rest, up, P, lv);
    assert ErasePoint(ns, rest, P, x, up, lv);
    EraseStep(ns, rest, P, x, up, lv);
    var n2 := Unsplice(ns, rest, x, up, lv);
    assert SameShape(ns, n2);
    forall j | 0 <= j < lv ensures LevelOk(n2, rest, j) {
      LevelElsewhere(ns, n2, rest, j, lv);
    }
    forall j | lv < j < maxLevel ensures LevelOk(n2, Ins(rest, P, x), j) {
      LevelElsewhere(ns, n2, Ins(rest, P, x), j, lv);
    }
  }

  /** The test of the erase's unlink loop (skiplist.h:176) at level `lv`: the predecessor points at `x` exactly when `x` is on level `lv`. */
  lemma UnspliceTest(n0: map<int, Node>, ns: map<int, Node>, upd: seq<int>, x: int, level: int, rest: seq<int>,
                     P: int, ups: seq<int>, maxLevel: int, lv: nat)
    requires UnspliceReady(n0, upd, x, level, rest, P, ups, maxLevel) && lv <= level
    requires ns.Keys == n0.Keys && SameShape(n0, ns) && LevelOk(ns, Ins(rest, P, x), lv)
    ensures upd[lv] in ns && lv < |ns[upd[lv]].forward|
    ensures ns[upd[lv]].forward[lv] == x <==> lv < Height(n0, x)
  {
    PredecessorMoves(n0, rest, ns, rest, ups[lv], P, lv);
    PointsAtErased(ns, rest, P, x, ups[lv], lv);
  }

  /** After the unlink loop and the free of `x`, the list without `x` keeps its shape and loses `x`'s key. */
  lemma Removed(nodes: map<int, Node>, list: seq<int>, maxLevel: int, level: int, bound: int, P: int, x: int,
                rest: seq<int>, ns: map<int, Node>)
    requires Shaped(nodes, list, maxLevel, level, bound) && -1 <= P < |rest| && list == Ins(rest, P, x)
    requires x in nodes && x != Header && x !in rest && Unspliced(nodes, ns, rest, P, x, maxLevel)
    ensures Linked(ns - {x}, rest, maxLevel, level) && (forall r :: r in ns - {x} ==> r <= bound)
    ensures ContentsOf(ns - {x}, rest) == ContentsOf(nodes, list) - {nodes[x].key}
  {
    forall j | 0 <= j < maxLevel ensures LevelOk(ns - {x}, rest, j) {
      LevelKept(ns, ns - {x}, rest, j);
    }
    Erased(nodes, list, maxLevel, level, P, x, ns - {x}, rest);
  }

  /** The level-0 list as `clear` walks it: each node points at level 0 to the next. */
  ghost predicate Chain(ns: map<int, Node>, rest: seq<int>)
  {
    Header in ns && 1 <= |ns[Header].forward| && ns[Header].forward[0] == RefAt(rest, 0)
    && Nil !in ns && Header !in rest && Distinct(rest)
    && (forall r :: r in ns <==> r == Header || r in rest)
    && forall s :: 0 <= s < |rest| ==>
         rest[s] in ns && 1 <= |ns[rest[s]].forward| && ns[rest[s]].forward[0] == RefAt(rest, s + 1)
  }

  lemma ChainOfLevelZero(nodes: map<int, Node>, list: seq<int>, maxLevel: int, level: int)
    requires Linked(nodes, list, maxLevel, level)
    ensures Chain(nodes, list)
  {
    assert LevelOk(nodes, list, 0);
    forall s | 0 <= s < |list|
      ensures list[s] in nodes && 1 <= |nodes[list[s]].forward| && nodes[list[s]].forward[0] == RefAt(list, s + 1)
    {
      assert LinkedAt(nodes, list, s, 0);
      assert RefOf(list, s) == list[s];
    }
    assert LinkedAt(nodes, list, -1, 0);
    forall r | r in list ensures r in nodes {
    }
  }

  /** One round of `clear`'s loop (skiplist.h:196-201) frees the first node. */
  lemma ChainStep(ns: map<int, Node>, rest: seq<int>)
    requires Chain(ns, rest) && |rest| > 0
    ensures Chain(Link(ns, Header, 0, ns[rest[0]].forward[0]) - {rest[0]}, rest[1..])
  {
    var n2 := Link(ns, Header, 0, ns[rest[0]].forward[0]) - {rest[0]};
    forall s | 0 <= s < |rest[1..]| ensures rest[1..][s] == rest[s + 1] && rest[s + 1] != rest[0] {
    }
    forall r | r in n2 && r != Header ensures r in rest[1..] {
      assert r in rest;
      var s :| 0 <= s < |rest| && rest[s] == r;
      assert rest[1..][s - 1] == r;
    }
  }

  /** The linking loop of insert (skiplist.h:140-144): splice `x` in on levels `top` down to 0. */
  method SpliceLevels(n0: map<int, Node>, upd: seq<int>, x: int, top: int, ghost list: seq<int>, ghost P: int,
                      ghost ups: seq<int>, ghost maxLevel: int) returns (ns: map<int, Node>)
    requires SpliceReady(n0, upd, x, top, list, P, ups, maxLevel)
    ensures Spliced(n0, ns, list, P, x, maxLevel)
  {
    ns := n0;
    forall j | top < j < maxLevel ensures LevelOk(ns, Ins(list, P, x), j) {
      InsertAbove(ns, list, P, x, j);
    }
    var lv := top;
    while lv >= 0
      invariant -1 <= lv <= top
      invariant ns.Keys == n0.Keys && SameShape(n0, ns)
      invariant forall j :: 0 <= j <= lv ==> LevelOk(ns, list, j)
      invariant forall j :: lv < j < maxLevel ==> LevelOk(ns, Ins(list, P, x), j)
      decreases lv
    {
      SpliceStep(n0, ns, list, maxLevel, P, x, ups[lv], lv);
      ns := Link(ns, x, lv, ns[upd[lv]].forward[lv]);
      ns := Link(ns, upd[lv], lv, x);
      lv := lv - 1;
    }
  }

  /** The insert's raise of `update` (skiplist.h:132-137): levels above `level` up to `top` start at the header. */
  method RaiseUpdate(upd0: seq<int>, level: int, top: int) returns (upd: seq<int>)
    requires 0 <= level < top < |upd0|
    ensures RaisedUpdate(upd0, upd, level, top)
  {
    upd := upd0;
    var j := level + 1;
    while j <= top
      invariant level + 1 <= j <= top + 1 && |upd| == |upd0|
      invariant forall t :: 0 <= t < |upd0| ==> upd[t] == if level < t < j then Header else upd0[t]
    {
      upd := upd[j := Header];
      j := j + 1;
    }
  }

  /** The unlink loop of erase (skiplist.h:171-176): from level 0 up, while the predecessor points at `x`, skip it. */
  method UnspliceLevels(n0: map<int, Node>, upd: seq<int>, x: int, level: int, ghost rest: seq<int>, ghost P: int,
                        ghost ups: seq<int>, ghost maxLevel: int) returns (ns: map<int, Node>)
    requires UnspliceReady(n0, upd, x, level, rest, P, ups, maxLevel)
    ensures Unspliced(n0, ns, rest, P, x, maxLevel)
  {
    ns := n0;
    UnspliceStep(n0, ns, upd, x, level, rest, P, ups, maxLevel, 0);
    ns := Link(ns, upd[0], 0, ns[x].forward[0]);
    var lv := 1;
    if lv <= level {
      UnspliceTest(n0, ns, upd, x, level, rest, P, ups, maxLevel, lv);
    }
    while lv <= level && ns[upd[lv]].forward[lv] == x
      invariant 1 <= lv <= Height(n0, x)
      invariant ns.Keys == n0.Keys && SameShape(n0, ns) && x in ns && ns[x] == n0[x]
      invariant forall j :: 0 <= j < lv ==> LevelOk(ns, rest, j)
      invariant forall j :: lv <= j < maxLevel ==> LevelOk(ns, Ins(rest, P, x), j)
      invariant lv <= level ==> upd[lv] in ns && lv < |ns[upd[lv]].forward|
      invariant lv <= level ==> (ns[upd[lv]].forward[lv] == x <==> lv < Height(n0, x))
      decreases maxLevel - lv
    {
      UnspliceStep(n0, ns, upd, x, level, rest, P, ups, maxLevel, lv);
      ns := Link(ns, upd[lv], lv, ns[x].forward[lv]);
      lv := lv + 1;
      if lv <= level {
        UnspliceTest(n0, ns, upd, x, level, rest, P, ups, maxLevel, lv);
      }
    }
    forall j | lv <= j < maxLevel ensures LevelOk(ns, rest, j) {
      EraseAbove(ns, rest, P, x, j);
    }
  }

  /**
   * The found branch of erase (skiplist.h:170-186) on the node table: unlink
   * the node after position `P`, free it and drop the empty top levels.
   */
  method RemoveLevels(nodes: map<int, Node>, upd: seq<int>, level: int, ghost list: seq<int>, ghost maxLevel: int,
                      ghost bound: int, ghost P: int, ghost ups: seq<int>)
    returns (ns: map<int, Node>, lev: int, ghost rest: seq<int>)
    requires Shaped(nodes, list, maxLevel, level, bound) && Located(nodes, list, level, P, ups, upd)
    requires |upd| == maxLevel
    ensures lev <= level && Shaped(ns, rest, maxLevel, lev, bound)
    ensures ContentsOf(ns, rest) == ContentsOf(nodes, list) - {nodes[list[P + 1]].key}
  {
    var x := nodes[upd[0]].forward[0];
    rest := list[..P + 1] + list[P + 2..];
    EraseReady(nodes, list, maxLevel, level, bound, P, ups, upd);
    assert LinkedAt(nodes, list, P, 0) by {
      assert LevelOk(nodes, list, 0);
    }
    ns := UnspliceLevels(nodes, upd, x, level, rest, P, ups, maxLevel);
    Removed(nodes, list, maxLevel, level, bound, P, x, rest, ns);
    ns := ns - {x};
    lev := Shrink(ns, rest, maxLevel, level, bound);
  }

  /** The erase's final loop (skiplist.h:182-184): drop the empty top levels. */
  method Shrink(ns: map<int, Node>, ghost rest: seq<int>, ghost maxLevel: int, level0: int, ghost bound: int)
    returns (lev: int)
    requires Linked(ns, rest, maxLevel, level0) && forall r :: r in ns ==> r <= bound
    ensures 0 <= lev <= level0 && Shaped(ns, rest, maxLevel, lev, bound)
    ensures forall j :: lev < j <= level0 ==> ns[Header].forward[j] == Nil
  {
    lev := level0;
    while lev > 0 && ns[Header].forward[lev] == Nil
      invariant 0 <= lev <= level0 && Linked(ns, rest, maxLevel, lev)
      invariant forall j :: lev < j <= level0 ==> ns[Header].forward[j] == Nil
    {
      Lower(ns, rest, maxLevel, lev);
      lev := lev - 1;
    }
  }

  /** The loop of clear (skiplist.h:196-201): free the first node until the header's level-0 list is empty. */
  method FreeChain(n0: map<int, Node>, ghost rest0: seq<int>) returns (ns: map<int, Node>)
    requires Chain(n0, rest0)
    ensures ns.Keys == {Header}
  {
    ns := n0;
    ghost var rest := rest0;
    while ns[Header].forward[0] != Nil
      invariant Chain(ns, rest)
      decreases |rest|
    {
      var x := ns[Header].forward[0];
      ChainStep(ns, rest);
      ns := Link(ns, Header, 0, ns[x].forward[0]) - {x};
      rest := rest[1..];
    }
    assert |rest| == 0;
    forall r ensures r in ns.Keys <==> r == Header {
    }
  }

  // ---------------------------------------------------------------------------
  // random_level

  /** How many of the `rand()` draws in `rolls`, from the first, are multiples of 4. */
  function LeadingHits(rolls: seq<int>): (n: nat)
    ensures n <= |rolls|
  {
    if |rolls| == 0 || rolls[0] % 4 != 0 then 0 else 1 + LeadingHits(rolls[1..])
  }

  /** The level random_level returns: one more than the leading hits, at most `maxLevel`. */
  function DrawnLevel(rolls: seq<int>, maxLevel: int): (lv: int)
    requires 1 <= maxLevel
    ensures 1 <= lv <= maxLevel
    ensures lv < maxLevel ==> lv == 1 + LeadingHits(rolls)
  {
    if 1 + LeadingHits(rolls) < maxLevel then 1 + LeadingHits(rolls) else maxLevel
  }

  /** The list's `level` after linking a node whose highest level is `top` (skiplist.h:132-137): raised to `top` when that is higher. */
  function LevelAfter(level: int, top: int): int
  {
    if level < top then top else level
  }

  // ---------------------------------------------------------------------------
  // The skip list object

  /** A skip list: `header`, `level`, `max_level` and `update` of skiplist.h:271-274. */
  class SkipList {
    const maxLevel: int
    /** The malloc heap of this list: the header and the live nodes, by address. */
    var nodes: map<int, Node>
    /** `header` and `update` are allocated. */
    var initialized: bool
    var level: int
    var update: seq<int>
    /** The highest address handed out so far. */
    var lastAddress: nat
    ghost var list: seq<int>

    ghost predicate Valid()
      reads this
    {
      initialized && |update| == maxLevel && Shaped(nodes, list, maxLevel, level, lastAddress)
    }

    /** The key-value map the list holds. */
    ghost function Contents(): map<int, int>
      reads this
    {
      ContentsOf(nodes, list)
    }

    /** SkipList(int levels) (skiplist.h:30); the list is usable once `Init` has run. */
    constructor (levels: int)
      requires 1 <= levels
      ensures maxLevel == levels && !initialized
    {
      maxLevel := levels;
      nodes := map[];
      initialized := false;
      level := 0;
      update := [];
      lastAddress := 0;
      list := [];
    }

    /** SkipList() (skiplist.h:23): DEFAULT_MAX_LEVEL levels. */
    constructor Default()
      ensures maxLevel == DefaultMaxLevel && !initialized
    {
      maxLevel := DefaultMaxLevel;
      nodes := map[];
      initialized := false;
      level := 0;
      update := [];
      lastAddress := 0;
      list := [];
    }

    /**
     * init (skiplist.h:46-66): a header with every forward pointer null and
     * level 0; -2 when either allocation fails.
     */
    method Init(headerOk: bool, updateOk: bool) returns (r: int)
      requires 1 <= maxLevel
      modifies this
      ensures headerOk && updateOk ==>
                r == 0 && Valid() && Contents() == map[] && level == 0
                && forall i :: 0 <= i < maxLevel ==> nodes[Header].forward[i] == Nil
      ensures !(headerOk && updateOk) ==> r == -2 && !initialized
    {
      if !headerOk {
        initialized := false;
        return -2;
      }
      var forward := seq(maxLevel, _ => Header);
      for i := 0 to maxLevel
        invariant |forward| == maxLevel
        invariant forall t :: 0 <= t < i ==> forward[t] == Nil
      {
        forward := forward[i := Nil];
      }
      if !updateOk {
        initialized := false;
        return -2;
      }
      nodes := map[Header := Node(0, 0, forward)];
      list := [];
      update := seq(maxLevel, _ => Nil);
      level := 0;
      initialized := true;
      assert LevelOk(nodes, list, 0);
      r := 0;
    }

    /**
     * The descent of search, insert and erase (skiplist.h:76-89, 106-116,
     * 159-169): from the top level down, move right while the next key is
     * below `k`, and record where each level was left.
     */
    method Descend(k: int) returns (x: int, preds: seq<int>, ghost P: int, ghost ups: seq<int>)
      requires Valid()
      ensures -1 <= P < |list| && x == RefAt(list, P + 1)
      ensures 0 <= P ==> nodes[list[P]].key < k
      ensures P + 1 < |list| ==> k <= nodes[list[P + 1]].key
      ensures |preds| == maxLevel && |ups| == level + 1
      ensures forall j :: 0 <= j <= level ==> Predecessor(nodes, list, ups[j], P, j) && preds[j] == RefOf(list, ups[j])
      ensures forall j :: level < j < maxLevel ==> preds[j] == update[j]
    {
      var y;
      y, preds, P, ups := DescendLevels(k);
      DescentPredecessors(nodes, list, maxLevel, level, ups, P, k);
      DescentNext(nodes, list, maxLevel, level, P, k);
      x := nodes[y].forward[0];
    }

    /** The outer loop of the descent, from level `level` down to 0. */
    method DescendLevels(k: int) returns (x: int, preds: seq<int>, ghost xp: int, ghost ups: seq<int>)
      requires Valid()
      ensures -1 <= xp < |list| && x == RefOf(list, xp)
      ensures 0 <= xp ==> nodes[list[xp]].key < k
      ensures |preds| == maxLevel && |ups| == level + 1 && ups[0] == xp
      ensures forall j :: 0 <= j <= level ==>
                Fenced(nodes, list, ups[j], j, k) && ups[j] <= xp && preds[j] == RefOf(list, ups[j])
      ensures forall j :: level < j < maxLevel ==> preds[j] == update[j]
    {
      x := Header;
      xp := -1;
      preds := update;
      ups := seq(level + 1, _ => -1);
      var i := level;
      while i >= 0
        invariant -1 <= i <= level
        invariant -1 <= xp < |list| && x == RefOf(list, xp) && i < Height(nodes, x)
        invariant 0 <= xp ==> nodes[list[xp]].key < k
        invariant |preds| == maxLevel && |ups| == level + 1 && (i < 0 ==> ups[0] == xp)
        invariant forall j :: i < j <= level ==> Fenced(nodes, list, ups[j], j, k) && ups[j] <= xp
        invariant forall j :: i < j <= level ==> preds[j] == RefOf(list, ups[j])
        invariant forall j :: level < j < maxLevel ==> preds[j] == update[j]
      {
        x, xp := Forward(k, i, x, xp);
        preds := preds[i := x];
        ups := ups[i := xp];
        i := i - 1;
      }
    }

    /** The inner loop of the descent on level `i`: move right while the next key is below `k`. */
    method Forward(k: int, i: int, x0: int, ghost xp0: int) returns (x: int, ghost xp: int)
      requires Valid() && 0 <= i
      requires -1 <= xp0 < |list| && x0 == RefOf(list, xp0) && i < Height(nodes, x0)
      requires 0 <= xp0 ==> nodes[list[xp0]].key < k
      ensures xp0 <= xp < |list| && x == RefOf(list, xp) && i < Height(nodes, x)
      ensures 0 <= xp ==> nodes[list[xp]].key < k
      ensures Fenced(nodes, list, xp, i, k)
    {
      x, xp := x0, xp0;
      assert LevelOk(nodes, list, i);
      while nodes[x].forward[i] != Nil
        invariant xp0 <= xp < |list| && x == RefOf(list, xp) && i < Height(nodes, x)
        invariant 0 <= xp ==> nodes[list[xp]].key < k
        decreases |list| - xp
      {
        assert LinkedAt(nodes, list, xp, i);
        var next := nodes[x].forward[i];
        if nodes[next].key < k {
          x := next;
          xp := NextAbove(nodes, list, xp + 1, i);
        } else {
          break;
        }
      }
      assert LinkedAt(nodes, list, xp, i);
    }

    /**
     * search (skiplist.h:74-97): 0 and the value when `k` is held; -1
     * otherwise, with the caller's `v0` handed back untouched.
     */
    method Search(k: int, v0: int) returns (r: int, v: int)
      requires Valid()
      ensures r == 0 || r == -1
      ensures r == 0 <==> k in Contents()
      ensures r == 0 ==> v == Contents()[k]
      ensures r == -1 ==> v == v0
    {
      var x, _, P, _ := Descend(k);
      DescentFinds(nodes, list, maxLevel, level, P, k);
      if x != Nil && nodes[x].key == k {
        v := nodes[x].value;
        r := 0;
      } else {
        r, v := -1, v0;
      }
    }

    /**
     * insert (skiplist.h:105-151): overwrite the value of a held key (1);
     * otherwise draw a level, allocate a node (-2 when that fails), raise
     * `level` if needed and splice the node in on each of its levels (0).
     */
    method Insert(k: int, v: int, rolls: seq<int>, allocOk: bool) returns (r: int)
      requires Valid()
      modifies this
      ensures Valid()
      ensures old(k in Contents()) ==> r == 1 && Contents() == old(Contents())[k := v] && level == old(level)
      ensures old(k !in Contents()) && allocOk ==>
                r == 0 && Contents() == old(Contents())[k := v]
                && level == LevelAfter(old(level), DrawnLevel(rolls, maxLevel) - 1)
      ensures old(k !in Contents()) && !allocOk ==> r == -2 && Contents() == old(Contents()) && level == old(level)
    {
      var x, preds, P, ups := Descend(k);
      update := preds;
      DescentFinds(nodes, list, maxLevel, level, P, k);
      if x != Nil && nodes[x].key == k {
        Overwritten(nodes, list, maxLevel, level, P + 1, v);
        nodes := nodes[x := nodes[x].(value := v)];
        return 1;
      }
      var top := RandomLevel(rolls);
      top := top - 1;
      if !allocOk {
        return -2;
      }
      assert Descended(nodes, list, level, P, ups, update, k);
      AddNode(k, v, top, P, ups);
      r := 0;
    }

    /** The allocation-succeeded branch of insert (skiplist.h:127-149). */
    method AddNode(k: int, v: int, top: int, ghost P: int, ghost ups: seq<int>)
      requires Valid() && 0 <= top < maxLevel && Descended(nodes, list, level, P, ups, update, k)
      modifies this
      ensures Valid() && Contents() == old(Contents())[k := v] && level == LevelAfter(old(level), top)
    {
      var x := lastAddress + 1;
      var upd := update;
      if top > level {
        upd := RaiseUpdate(upd, level, top);
      }
      Allocated(nodes, list, maxLevel, level, lastAddress, P, ups, update, upd, x, top, k);
      var ns := SpliceLevels(nodes[x := Node(0, 0, seq(top + 1, _ => Nil))], upd, x, top, list, P, Raised(ups, maxLevel), maxLevel);
      Added(nodes, list, maxLevel, level, lastAddress, P, ups, update, x, k, v, ns, top);
      nodes, list, update, level, lastAddress := ns[x := ns[x].(key := k, value := v)], Ins(list, P, x), upd, LevelAfter(level, top), x;
    }

    /**
     * erase (skiplist.h:158-189): unlink the node holding `k` on each of its
     * levels, free it and drop the empty top levels (0); -1 when `k` is not held.
     */
    method Erase(k: int) returns (r: int)
      requires Valid()
      modifies this
      ensures Valid() && level <= old(level)
      ensures old(k in Contents()) ==> r == 0 && Contents() == old(Contents()) - {k}
      ensures old(k !in Contents()) ==> r == -1 && Contents() == old(Contents()) && level == old(level)
    {
      var x, preds, P, ups := Descend(k);
      update := preds;
      DescentFinds(nodes, list, maxLevel, level, P, k);
      if x != Nil && nodes[x].key == k {
        assert Located(nodes, list, level, P, ups, update);
        RemoveNode(P, ups);
        return 0;
      }
      return -1;
    }

    /** The found branch of erase (skiplist.h:170-186) for the node after position `P`. */
    method RemoveNode(ghost P: int, ghost ups: seq<int>)
      requires Valid() && Located(nodes, list, level, P, ups, update)
      modifies this
      ensures Valid() && level <= old(level)
      ensures Contents() == old(Contents()) - {old(nodes[list[P + 1]].key)}
    {
      var ns, lev, rest := RemoveLevels(nodes, update, level, list, maxLevel, lastAddress, P, ups);
      nodes, list, level := ns, rest, lev;
    }

    /** clear (skiplist.h:195-210): free every node, then the header and `update`. */
    method Clear() returns (r: int)
      requires Valid()
      modifies this
      ensures r == 0 && !initialized && nodes == map[] && list == [] && update == [] && level == 0
    {
      ChainOfLevelZero(nodes, list, maxLevel, level);
      var ns := FreeChain(nodes, list);
      nodes, list := map[], [];
      update, level, initialized := [], 0, false;
      r := 0;
    }

    /** random_level (skiplist.h:235-256), with `rolls` the successive results of `rand()`. */
    method RandomLevel(rolls: seq<int>) returns (lv: int)
      requires 1 <= maxLevel
      ensures lv == DrawnLevel(rolls, maxLevel)
    {
      lv := 1;
      var i := 0;
      while lv < maxLevel && i < |rolls| && rolls[i] % 4 == 0
        invariant 1 <= lv <= maxLevel && i == lv - 1 && i <= |rolls|
        invariant LeadingHits(rolls) == i + LeadingHits(rolls[i..])
      {
        assert rolls[i..][1..] == rolls[i + 1..];
        lv := lv + 1;
        i := i + 1;
      }
    }
  }
}
