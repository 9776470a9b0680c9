/**
 * The node records shared by the red-black tree of rbtree.h and the AVL tree
 * of avl_tree.h, and the tree those records form.
 *
 * The memory the nodes live in is a map from addresses to records (`Cell`):
 * `parent`, `left` and `right` are addresses, `Null` standing for the
 * red-black tree's sentinel `nil_` and for the AVL tree's NULL. `tag` is a
 * red-black node's colour or an AVL node's balance factor. A ghost `Tree`
 * with each node's address mirrors the records; a `Path` is the way from a
 * subtree up to the root (a zipper), so that a loop walking the parent
 * pointers can name where it stands.
 */
module BinaryTrees {

  /** The address of a node record. */
  type Ref = int

  /** The address of the sentinel (red-black tree) or NULL (AVL tree). */
  const Null: Ref := 0

  /** One node record as it lies in memory. */
  datatype Cell = Cell(parent: Ref, left: Ref, right: Ref, tag: int, key: int, value: int)

  /** The tree the records form, with each node's address. */
  datatype Tree = Leaf | Node(left: Tree, ref: Ref, tag: int, key: int, value: int, right: Tree)

  /**
   * The ancestors of a subtree, nearest first: `LeftOf` when the subtree is
   * the ancestor's left subtree (`right` is then the other one), `RightOf`
   * when it is the right subtree.
   */
  datatype Path =
    | Top
    | LeftOf(ref: Ref, tag: int, key: int, value: int, right: Tree, up: Path)
    | RightOf(left: Tree, ref: Ref, tag: int, key: int, value: int, up: Path)

  /** A key and its value, as an in-order walk meets them. */
  datatype Entry = Entry(key: int, value: int)

  type Arena = map<Ref, Cell>

  // ---------------------------------------------------------------------------
  // Trees and paths

  function RootRef(t: Tree): Ref
  {
    if t.Leaf? then Null else t.ref
  }

  /** The address of the nearest ancestor: the parent of a subtree at this path. */
  function FrameRef(p: Path): Ref
  {
    if p.Top? then Null else p.ref
  }

  /** The subtree rooted at the nearest ancestor. */
  function Parent(p: Path, t: Tree): Tree
    requires !p.Top?
  {
    if p.LeftOf? then Node(t, p.ref, p.tag, p.key, p.value, p.right)
    else Node(p.left, p.ref, p.tag, p.key, p.value, t)
  }

  /** The other subtree of the nearest ancestor. */
  function Sibling(p: Path): Tree
    requires !p.Top?
  {
    if p.LeftOf? then p.right else p.left
  }

  /** The path of the sibling, when `t` is the subtree at `p`. */
  function SiblingPath(p: Path, t: Tree): Path
    requires !p.Top?
  {
    if p.LeftOf? then RightOf(t, p.ref, p.tag, p.key, p.value, p.up)
    else LeftOf(p.ref, p.tag, p.key, p.value, t, p.up)
  }

  /** The whole tree, with `t` put back at `p`. */
  function Plug(p: Path, t: Tree): Tree
    decreases p
  {
    if p.Top? then t else Plug(p.up, Parent(p, t))
  }

  function Depth(p: Path): nat
  {
    if p.Top? then 0 else 1 + Depth(p.up)
  }

  function Size(t: Tree): nat
  {
    if t.Leaf? then 0 else Size(t.left) + 1 + Size(t.right)
  }

  function Refs(t: Tree): set<Ref>
  {
    if t.Leaf? then {} else Refs(t.left) + {t.ref} + Refs(t.right)
  }

  /** The addresses of the ancestors and of the subtrees hanging off them. */
  function PathRefs(p: Path): set<Ref>
  {
    match p
    case Top => {}
    case LeftOf(r, _, _, _, rt, up) => {r} + Refs(rt) + PathRefs(up)
    case RightOf(lt, r, _, _, _, up) => Refs(lt) + {r} + PathRefs(up)
  }

  /** No two nodes share an address, and none sits at `Null`. */
  ghost predicate Unique(t: Tree)
  {
    t.Node? ==>
      t.ref != Null && t.ref !in Refs(t.left) && t.ref !in Refs(t.right) && Refs(t.left) !! Refs(t.right)
      && Unique(t.left) && Unique(t.right)
  }

  ghost predicate UniquePath(p: Path)
  {
    match p
    case Top => true
    case LeftOf(r, _, _, _, rt, up) =>
      r != Null && r !in Refs(rt) && Unique(rt) && ({r} + Refs(rt)) !! PathRefs(up) && UniquePath(up)
    case RightOf(lt, r, _, _, _, up) =>
      r != Null && r !in Refs(lt) && Unique(lt) && ({r} + Refs(lt)) !! PathRefs(up) && UniquePath(up)
  }

  lemma {:induction false} PlugRefs(p: Path, t: Tree)
    ensures Refs(Plug(p, t)) == Refs(t) + PathRefs(p)
    decreases p
  {
    if !p.Top? {
      PlugRefs(p.up, Parent(p, t));
    }
  }

  /** Whatever sits at `p`, the whole tree uses the same addresses when that subtree does. */
  lemma PlugSameRefs(p: Path, a: Tree, b: Tree)
    requires Refs(a) == Refs(b)
    ensures Refs(Plug(p, a)) == Refs(Plug(p, b))
  {
    PlugRefs(p, a);
    PlugRefs(p, b);
  }

  lemma {:induction false} PlugUnique(p: Path, t: Tree)
    ensures Unique(Plug(p, t)) <==> Unique(t) && UniquePath(p) && Refs(t) !! PathRefs(p)
    decreases p
  {
    if !p.Top? {
      PlugUnique(p.up, Parent(p, t));
    }
  }

  // ---------------------------------------------------------------------------
  // In-order entries, search-tree order and the key-value map

  function Entries(t: Tree): seq<Entry>
  {
    if t.Leaf? then [] else Entries(t.left) + [Entry(t.key, t.value)] + Entries(t.right)
  }

  /** The entries an in-order walk of the whole tree meets before the subtree at `p`. */
  function Before(p: Path): seq<Entry>
  {
    match p
    case Top => []
    case LeftOf(_, _, _, _, _, up) => Before(up)
    case RightOf(lt, _, _, k, v, up) => Before(up) + Entries(lt) + [Entry(k, v)]
  }

  /** The entries an in-order walk of the whole tree meets after the subtree at `p`. */
  function After(p: Path): seq<Entry>
  {
    match p
    case Top => []
    case LeftOf(_, _, k, v, rt, up) => [Entry(k, v)] + Entries(rt) + After(up)
    case RightOf(_, _, _, _, _, up) => After(up)
  }

  lemma {:induction false} PlugEntries(p: Path, t: Tree)
    ensures Entries(Plug(p, t)) == Before(p) + Entries(t) + After(p)
    decreases p
  {
    if !p.Top? {
      PlugEntries(p.up, Parent(p, t));
    }
  }

  /** Whatever sits at `p`, the whole tree has the same entries when that subtree does. */
  lemma PlugSameEntries(p: Path, t: Tree, u: Tree)
    requires Entries(t) == Entries(u)
    ensures Entries(Plug(p, t)) == Entries(Plug(p, u)) && Size(Plug(p, t)) == Size(Plug(p, u))
  {
    PlugEntries(p, t);
    PlugEntries(p, u);
    SizeEntries(Plug(p, t));
    SizeEntries(Plug(p, u));
  }


  lemma SizeEntries(t: Tree)
    ensures Size(t) == |Entries(t)|
  {
  }

  /** Strictly increasing keys. */
  ghost predicate Increasing(s: seq<Entry>)
  {
    forall i, j :: 0 <= i < j < |s| ==> s[i].key < s[j].key
  }

  /** The binary-search-tree order: the in-order keys strictly increase. */
  ghost predicate Ordered(t: Tree)
  {
    Increasing(Entries(t))
  }

  /** The map the entries spell, later entries overriding earlier ones. */
  function MapOf(s: seq<Entry>): map<int, int>
  {
    if s == [] then map[] else MapOf(s[..|s| - 1])[s[|s| - 1].key := s[|s| - 1].value]
  }

  /** The key-value map a tree holds. */
  function Contents(t: Tree): map<int, int>
  {
    MapOf(Entries(t))
  }

  lemma {:induction false} MapOfKeys(s: seq<Entry>, k: int)
    ensures k in MapOf(s) <==> exists i :: 0 <= i < |s| && s[i].key == k
  {
    if s != [] {
      var s' := s[..|s| - 1];
      MapOfKeys(s', k);
      if k in MapOf(s') {
        var i :| 0 <= i < |s'| && s'[i].key == k;
        assert s[i].key == k;
      }
    }
  }

  /** In increasing entries, each key maps to its own entry's value. */
  lemma {:induction false} MapOfAt(s: seq<Entry>, i: int)
    requires Increasing(s) && 0 <= i < |s|
    ensures s[i].key in MapOf(s) && MapOf(s)[s[i].key] == s[i].value
  {
    var s' := s[..|s| - 1];
    if i < |s| - 1 {
      MapOfAt(s', i);
    }
  }

  lemma {:induction false} MapOfAppend(a: seq<Entry>, b: seq<Entry>)
    ensures MapOf(a + b) == MapOf(a) + MapOf(b)
    decreases |b|
  {
    if b == [] {
      assert a + b == a;
    } else {
      assert (a + b)[..|a + b| - 1] == a + b[..|b| - 1];
      MapOfAppend(a, b[..|b| - 1]);
    }
  }

  /** Every key of `s` is below `k`. */
  ghost predicate Below(s: seq<Entry>, k: int)
  {
    forall i :: 0 <= i < |s| ==> s[i].key < k
  }

  /** Every key of `s` is above `k`. */
  ghost predicate Above(s: seq<Entry>, k: int)
  {
    forall i :: 0 <= i < |s| ==> k < s[i].key
  }

  /** A search for `k` that has reached `p` has passed every key on the wrong side of `k`. */
  ghost predicate Between(p: Path, k: int)
  {
    Below(Before(p), k) && Above(After(p), k)
  }

  lemma {:induction false} MapOfMissing(s: seq<Entry>, k: int)
    requires forall i :: 0 <= i < |s| ==> s[i].key != k
    ensures k !in MapOf(s)
  {
    MapOfKeys(s, k);
  }

  /** An entry splits increasing entries into smaller keys before it and larger ones after. */
  lemma Pivot(x: seq<Entry>, e: Entry, y: seq<Entry>)
    requires Increasing(x + [e] + y)
    ensures Below(x, e.key) && Above(y, e.key) && Increasing(x) && Increasing(y)
  {
    var s := x + [e] + y;
    forall i | 0 <= i < |x| ensures x[i].key < e.key {
      assert s[i] == x[i] && s[|x|] == e;
    }
    forall i | 0 <= i < |y| ensures e.key < y[i].key {
      assert s[|x| + 1 + i] == y[i] && s[|x|] == e;
    }
    forall i, j | 0 <= i < j < |x| ensures x[i].key < x[j].key {
      assert s[i] == x[i] && s[j] == x[j];
    }
    forall i, j | 0 <= i < j < |y| ensures y[i].key < y[j].key {
      assert s[|x| + 1 + i] == y[i] && s[|x| + 1 + j] == y[j];
    }
  }

  /** Increasing entries with `e` slotted in where its key belongs stay increasing. */
  lemma Slot(x: seq<Entry>, e: Entry, y: seq<Entry>)
    requires Increasing(x + y) && Below(x, e.key) && Above(y, e.key)
    ensures Increasing(x + [e] + y)
  {
    var s, o := x + [e] + y, x + y;
    forall i, j | 0 <= i < j < |s| ensures s[i].key < s[j].key {
      if j < |x| {
        assert s[i] == o[i] && s[j] == o[j];
      } else if j == |x| {
        assert s[i] == x[i];
      } else if i < |x| {
        assert s[i] == x[i] && s[j] == y[j - |x| - 1];
      } else if i == |x| {
        assert s[j] == y[j - |x| - 1];
      } else {
        assert s[i] == o[i - 1] && s[j] == o[j - 1];
      }
    }
  }

  lemma MapOfSingle(e: Entry)
    ensures MapOf([e]) == map[e.key := e.value]
  {
    assert [e][..0] == [];
  }

  /** The map of `x + [e] + y`, when `e`'s key is not in `y`. */
  lemma MapOfSlot(x: seq<Entry>, e: Entry, y: seq<Entry>)
    requires Above(y, e.key)
    ensures MapOf(x + [e] + y) == MapOf(x + y)[e.key := e.value]
  {
    MapOfAppend(x + [e], y);
    MapOfAppend(x, [e]);
    MapOfAppend(x, y);
    MapOfSingle(e);
    MapOfMissing(y, e.key);
  }

  /** A search that ends at an empty subtree finds no `k`. */
  lemma {:induction false} NotFound(p: Path, k: int)
    requires Between(p, k)
    ensures k !in Contents(Plug(p, Leaf))
  {
    PlugEntries(p, Leaf);
    var s := Entries(Plug(p, Leaf));
    assert s == Before(p) + After(p);
    forall i | 0 <= i < |s| ensures s[i].key != k {
      if i < |Before(p)| {
        assert s[i] == Before(p)[i];
      } else {
        assert s[i] == After(p)[i - |Before(p)|];
      }
    }
    MapOfMissing(s, k);
  }

  /** The in-order walk of the whole tree meets the subtree's root between its left and right subtrees. */
  lemma RootEntry(p: Path, t: Tree)
    requires t.Node?
    ensures Entries(Plug(p, t)) == (Before(p) + Entries(t.left)) + [Entry(t.key, t.value)] + (Entries(t.right) + After(p))
  {
    PlugEntries(p, t);
    var B, L, e, R, A := Before(p), Entries(t.left), [Entry(t.key, t.value)], Entries(t.right), After(p);
    assert Entries(t) == L + e + R;
    SeqRegroup(B, L, e, R, A);
  }

  lemma SeqRegroup<T>(b: seq<T>, l: seq<T>, e: seq<T>, r: seq<T>, a: seq<T>)
    ensures b + (l + e + r) + a == (b + l) + e + (r + a)
  {
  }

  /** A search that ends at a node holding `k` finds that node's value. */
  lemma Found(p: Path, t: Tree)
    requires t.Node? && Ordered(Plug(p, t))
    ensures t.key in Contents(Plug(p, t)) && Contents(Plug(p, t))[t.key] == t.value
  {
    RootEntry(p, t);
    var x, e, y := Before(p) + Entries(t.left), Entry(t.key, t.value), Entries(t.right) + After(p);
    Pivot(x, e, y);
    MapOfSlot(x, e, y);
  }

  /** Keys above `e`'s key, which is above `k`, are above `k` together with `e`. */
  lemma AboveCons(e: Entry, y: seq<Entry>, k: int)
    requires k < e.key && Above(y, e.key)
    ensures Above([e] + y, k)
  {
    forall i | 0 <= i < |[e] + y| ensures k < ([e] + y)[i].key {
      if i > 0 {
        assert ([e] + y)[i] == y[i - 1];
      }
    }
  }

  /** Keys below `e`'s key, which is below `k`, are below `k` together with `e`. */
  lemma BelowSnoc(x: seq<Entry>, e: Entry, k: int)
    requires e.key < k && Below(x, e.key)
    ensures Below(x + [e], k)
  {
    forall i | 0 <= i < |x + [e]| ensures (x + [e])[i].key < k {
      if i < |x| {
        assert (x + [e])[i] == x[i];
      }
    }
  }

  /** The search goes left at a node whose key is above `k`. */
  lemma BetweenLeft(p: Path, t: Tree, k: int)
    requires t.Node? && Ordered(Plug(p, t)) && Between(p, k) && k < t.key
    ensures Between(LeftOf(t.ref, t.tag, t.key, t.value, t.right, p), k)
  {
    RootEntry(p, t);
    var e, y := Entry(t.key, t.value), Entries(t.right) + After(p);
    Pivot(Before(p) + Entries(t.left), e, y);
    AboveCons(e, y, k);
    assert After(LeftOf(t.ref, t.tag, t.key, t.value, t.right, p)) == [e] + y;
  }

  /** The search goes right at a node whose key is below `k`. */
  lemma BetweenRight(p: Path, t: Tree, k: int)
    requires t.Node? && Ordered(Plug(p, t)) && Between(p, k) && t.key < k
    ensures Between(RightOf(t.left, t.ref, t.tag, t.key, t.value, p), k)
  {
    RootEntry(p, t);
    var x, e := Before(p) + Entries(t.left), Entry(t.key, t.value);
    Pivot(x, e, Entries(t.right) + After(p));
    BelowSnoc(x, e, k);
    assert Before(RightOf(t.left, t.ref, t.tag, t.key, t.value, p)) == x + [e];
  }

  /**
   * Hanging a new node with key `k` at the empty subtree a search for `k`
   * ended at keeps the order and adds `k` to the map.
   */
  lemma InsertedAtLeaf(p: Path, t: Tree)
    requires t.Node? && t.left.Leaf? && t.right.Leaf? && Between(p, t.key) && Ordered(Plug(p, Leaf))
    ensures Ordered(Plug(p, t))
    ensures Contents(Plug(p, t)) == Contents(Plug(p, Leaf))[t.key := t.value]
    ensures Size(Plug(p, t)) == Size(Plug(p, Leaf)) + 1
  {
    PlugEntries(p, t);
    PlugEntries(p, Leaf);
    var e := Entry(t.key, t.value);
    var x, y := Before(p), After(p);
    assert Entries(Plug(p, Leaf)) == x + y;
    assert Entries(Plug(p, t)) == x + [e] + y;
    Slot(x, e, y);
    MapOfSlot(x, e, y);
    SizeEntries(Plug(p, t));
    SizeEntries(Plug(p, Leaf));
  }

  // ---------------------------------------------------------------------------
  // The records mirror the tree

  /** The records at the addresses of `t` hold `t`, its root's parent being `parent`. */
  ghost predicate LinkedTree(n: Arena, t: Tree, parent: Ref)
  {
    t.Node? ==>
      t.ref in n && n[t.ref] == Cell(parent, RootRef(t.left), RootRef(t.right), t.tag, t.key, t.value)
      && LinkedTree(n, t.left, t.ref) && LinkedTree(n, t.right, t.ref)
  }

  /** The records of the ancestors in `p` hold them, the nearest one's child being `child` and the root being `root`. */
  ghost predicate LinkedPath(n: Arena, root: Ref, p: Path, child: Ref)
  {
    match p
    case Top => root == child
    case LeftOf(r, g, k, v, rt, up) =>
      r in n && n[r] == Cell(FrameRef(up), child, RootRef(rt), g, k, v)
      && LinkedTree(n, rt, r) && LinkedPath(n, root, up, r)
    case RightOf(lt, r, g, k, v, up) =>
      r in n && n[r] == Cell(FrameRef(up), RootRef(lt), child, g, k, v)
      && LinkedTree(n, lt, r) && LinkedPath(n, root, up, r)
  }

  /** The records hold the tree `Plug(p, t)`, rooted at `root`, and a walk of them stands at `t`. */
  ghost predicate Focused(n: Arena, root: Ref, p: Path, t: Tree)
  {
    Unique(t) && UniquePath(p) && Refs(t) !! PathRefs(p)
    && LinkedTree(n, t, FrameRef(p)) && LinkedPath(n, root, p, RootRef(t))
  }

  /** The same addresses are in use. */
  ghost predicate SameKeys(n: Arena, n2: Arena)
  {
    forall r :: r in n <==> r in n2
  }

  /** The records at the addresses in `s` are the same in `n` and `n2`. */
  ghost predicate Agree(n: Arena, n2: Arena, s: set<Ref>)
  {
    forall r :: r in s && r in n ==> r in n2 && n2[r] == n[r]
  }

  lemma {:induction false} TreeFrame(n: Arena, n2: Arena, t: Tree, parent: Ref)
    requires LinkedTree(n, t, parent) && Agree(n, n2, Refs(t))
    ensures LinkedTree(n2, t, parent)
  {
    if t.Node? {
      TreeFrame(n, n2, t.left, t.ref);
      TreeFrame(n, n2, t.right, t.ref);
    }
  }

  lemma {:induction false} PathFrame(n: Arena, n2: Arena, root: Ref, p: Path, child: Ref)
    requires LinkedPath(n, root, p, child) && Agree(n, n2, PathRefs(p))
    ensures LinkedPath(n2, root, p, child)
  {
    match p
    case Top =>
    case LeftOf(r, _, _, _, rt, up) =>
      TreeFrame(n, n2, rt, r);
      PathFrame(n, n2, root, up, r);
    case RightOf(lt, r, _, _, _, up) =>
      TreeFrame(n, n2, lt, r);
      PathFrame(n, n2, root, up, r);
  }

  /** The whole tree is held when the walk stands at its root. */
  lemma {:induction false} Whole(n: Arena, root: Ref, p: Path, t: Tree)
    requires Focused(n, root, p, t)
    ensures Focused(n, root, Top, Plug(p, t))
    decreases p
  {
    if !p.Top? {
      Ascend(n, root, p, t);
      Whole(n, root, p.up, Parent(p, t));
    }
  }

  /** Moving the walk up to the parent. */
  lemma Ascend(n: Arena, root: Ref, p: Path, t: Tree)
    requires Focused(n, root, p, t) && !p.Top?
    ensures Focused(n, root, p.up, Parent(p, t))
  {
  }

  /** Moving the walk down to the left subtree. */
  lemma DescendLeft(n: Arena, root: Ref, p: Path, t: Tree)
    requires Focused(n, root, p, t) && t.Node?
    ensures Focused(n, root, LeftOf(t.ref, t.tag, t.key, t.value, t.right, p), t.left)
  {
  }

  /** Moving the walk down to the right subtree. */
  lemma DescendRight(n: Arena, root: Ref, p: Path, t: Tree)
    requires Focused(n, root, p, t) && t.Node?
    ensures Focused(n, root, RightOf(t.left, t.ref, t.tag, t.key, t.value, p), t.right)
  {
  }

  /** Moving the walk across to the sibling. */
  lemma ToSibling(n: Arena, root: Ref, p: Path, t: Tree)
    requires Focused(n, root, p, t) && !p.Top?
    ensures Focused(n, root, SiblingPath(p, t), Sibling(p))
    ensures Parent(SiblingPath(p, t), Sibling(p)) == Parent(p, t) && SiblingPath(p, t).up == p.up
  {
  }

  /** What the records say about the nearest ancestor. */
  lemma FrameCell(n: Arena, root: Ref, p: Path, t: Tree)
    requires Focused(n, root, p, t) && !p.Top?
    ensures p.ref in n && p.ref != Null && p.ref !in Refs(t) && p.ref !in Refs(Sibling(p))
    ensures n[p.ref].parent == FrameRef(p.up) && n[p.ref].tag == p.tag
    ensures n[p.ref].key == p.key && n[p.ref].value == p.value
    ensures p.LeftOf? ==> n[p.ref].left == RootRef(t) && n[p.ref].right == RootRef(p.right)
    ensures p.RightOf? ==> n[p.ref].right == RootRef(t) && n[p.ref].left == RootRef(p.left)
    ensures t.Node? ==> (n[p.ref].left == t.ref <==> p.LeftOf?)
    ensures RootRef(Sibling(p)) != Null ==> RootRef(Sibling(p)) != RootRef(t)
  {
  }

  /** What the records say about the subtree's root. */
  lemma RootCell(n: Arena, root: Ref, p: Path, t: Tree)
    requires Focused(n, root, p, t) && t.Node?
    ensures t.ref in n && t.ref != Null && n[t.ref].parent == FrameRef(p) && n[t.ref].tag == t.tag
    ensures n[t.ref].key == t.key && n[t.ref].value == t.value
    ensures n[t.ref].left == RootRef(t.left) && n[t.ref].right == RootRef(t.right)
    ensures (RootRef(t.left) == Null <==> t.left.Leaf?) && (RootRef(t.right) == Null <==> t.right.Leaf?)
    ensures t.ref !in PathRefs(p) && FrameRef(p) != t.ref
  {
    assert Unique(t.left) && Unique(t.right);
  }

  /** Rewriting the tag of the subtree's root. */
  lemma Retag(n: Arena, root: Ref, p: Path, t: Tree, g: int)
    requires Focused(n, root, p, t) && t.Node?
    ensures t.ref in n && t.ref != Null
    ensures Focused(n[t.ref := n[t.ref].(tag := g)], root, p, t.(tag := g))
    ensures SameKeys(n[t.ref := n[t.ref].(tag := g)], n)
    ensures Null in n ==> n[t.ref := n[t.ref].(tag := g)][Null] == n[Null]
  {
    var n2 := n[t.ref := n[t.ref].(tag := g)];
    TreeFrame(n, n2, t.left, t.ref);
    TreeFrame(n, n2, t.right, t.ref);
    PathFrame(n, n2, root, p, t.ref);
  }

  /** Rewriting the key and value of the subtree's root. */
  lemma Relabel(n: Arena, root: Ref, p: Path, t: Tree, k: int, v: int)
    requires Focused(n, root, p, t) && t.Node?
    ensures t.ref in n
    ensures Focused(n[t.ref := n[t.ref].(key := k, value := v)], root, p, t.(key := k, value := v))
  {
    var n2 := n[t.ref := n[t.ref].(key := k, value := v)];
    TreeFrame(n, n2, t.left, t.ref);
    TreeFrame(n, n2, t.right, t.ref);
    PathFrame(n, n2, root, p, t.ref);
  }

  /** The walk down to the node at address `r`, somewhere in `t`. */
  lemma {:induction false} Locate(n: Arena, root: Ref, p: Path, t: Tree, r: Ref) returns (q: Path, s: Tree)
    requires Focused(n, root, p, t) && r in Refs(t)
    ensures Focused(n, root, q, s) && s.Node? && s.ref == r && Plug(q, s) == Plug(p, t)
    decreases t
  {
    if t.ref == r {
      q, s := p, t;
    } else if r in Refs(t.left) {
      DescendLeft(n, root, p, t);
      q, s := Locate(n, root, LeftOf(t.ref, t.tag, t.key, t.value, t.right, p), t.left, r);
    } else {
      DescendRight(n, root, p, t);
      q, s := Locate(n, root, RightOf(t.left, t.ref, t.tag, t.key, t.value, p), t.right, r);
    }
  }

  /** In increasing entries an entry's key fixes its place: what comes before it and after it. */
  lemma SamePlace(a: seq<Entry>, e: Entry, b: seq<Entry>, c: seq<Entry>, f: Entry, d: seq<Entry>)
    requires a + [e] + b == c + [f] + d && Increasing(a + [e] + b) && e.key == f.key
    ensures a == c && e == f && b == d
  {
    var s := a + [e] + b;
    assert s[|a|] == e && s[|c|] == f;
    assert |a| == |c|;
    assert a == s[..|a|] && c == s[..|c|];
    assert b == s[|a| + 1..] && d == s[|c| + 1..];
  }

  // ---------------------------------------------------------------------------
  // Rotations

  /** The left rotation at `t`'s root: its right child `y` takes its place. */
  function RotateLeft(t: Tree): Tree
    requires t.Node? && t.right.Node?
  {
    var y := t.right;
    Node(Node(t.left, t.ref, t.tag, t.key, t.value, y.left), y.ref, y.tag, y.key, y.value, y.right)
  }

  /** The right rotation at `t`'s root: its left child `y` takes its place. */
  function RotateRight(t: Tree): Tree
    requires t.Node? && t.left.Node?
  {
    var y := t.left;
    Node(y.left, y.ref, y.tag, y.key, y.value, Node(y.right, t.ref, t.tag, t.key, t.value, t.right))
  }

  /** A rotation keeps the in-order entries, hence the order and the map. */
  lemma RotateLeftEntries(t: Tree)
    requires t.Node? && t.right.Node?
    ensures Entries(RotateLeft(t)) == Entries(t)
  {
    var y := t.right;
    SeqRegroup(Entries(t.left), [Entry(t.key, t.value)], Entries(y.left), [Entry(y.key, y.value)], Entries(y.right));
  }

  lemma RotateRightEntries(t: Tree)
    requires t.Node? && t.left.Node?
    ensures Entries(RotateRight(t)) == Entries(t)
  {
    var y := t.left;
    SeqRegroup(Entries(y.left), [Entry(y.key, y.value)], Entries(y.right), [Entry(t.key, t.value)], Entries(t.right));
  }

  /** A rotation keeps the addresses the subtree uses. */
  lemma RotateLeftRefs(t: Tree)
    requires t.Node? && t.right.Node?
    ensures Refs(RotateLeft(t)) == Refs(t)
  {
    var y := t.right;
    assert Refs(RotateLeft(t)) == (Refs(t.left) + {t.ref} + Refs(y.left)) + {y.ref} + Refs(y.right);
    assert Refs(t) == Refs(t.left) + {t.ref} + (Refs(y.left) + {y.ref} + Refs(y.right));
  }

  lemma RotateRightRefs(t: Tree)
    requires t.Node? && t.left.Node?
    ensures Refs(RotateRight(t)) == Refs(t)
  {
    var y := t.left;
    assert Refs(RotateRight(t)) == Refs(y.left) + {y.ref} + (Refs(y.right) + {t.ref} + Refs(t.right));
    assert Refs(t) == (Refs(y.left) + {y.ref} + Refs(y.right)) + {t.ref} + Refs(t.right);
  }

  /** Only the records at the addresses in `out` differ. */
  ghost predicate Unchanged(n: Arena, n2: Arena, out: set<Ref>)
  {
    forall r :: r in n && r !in out ==> r in n2 && n2[r] == n[r]
  }

  lemma UnchangedAgree(n: Arena, n2: Arena, out: set<Ref>, s: set<Ref>)
    requires Unchanged(n, n2, out) && s !! out
    ensures Agree(n, n2, s)
  {
  }

  /** The address of the nearest ancestor, when there is one. */
  function FrameRefs(p: Path): set<Ref>
  {
    if p.Top? then {} else {p.ref}
  }

  /** The records that hold a subtree's root, whose parent now points at `y` where it pointed at `x`. */
  ghost predicate Relinked(n: Arena, n2: Arena, root: Ref, root2: Ref, p: Path, x: Ref, y: Ref)
  {
    (p.Top? ==> root2 == y)
    && (!p.Top? ==> root2 == root && p.ref in n && p.ref in n2
                    && n2[p.ref] == if n[p.ref].left == x then n[p.ref].(left := y) else n[p.ref].(right := y))
  }

  /** The ancestors are still linked when their child `x` is replaced by `y`. */
  lemma Relink(n: Arena, n2: Arena, root: Ref, root2: Ref, p: Path, x: Ref, y: Ref)
    requires LinkedPath(n, root, p, x) && UniquePath(p) && x != Null && x !in PathRefs(p)
    requires Relinked(n, n2, root, root2, p, x, y) && Agree(n, n2, PathRefs(p) - FrameRefs(p))
    ensures LinkedPath(n2, root2, p, y)
  {
    match p
    case Top =>
    case LeftOf(r, _, _, _, rt, up) =>
      assert Refs(rt) <= PathRefs(p) - {r} && PathRefs(up) <= PathRefs(p) - {r};
      TreeFrame(n, n2, rt, r);
      PathFrame(n, n2, root, up, r);
    case RightOf(lt, r, _, _, _, up) =>
      assert Refs(lt) <= PathRefs(p) - {r} && PathRefs(up) <= PathRefs(p) - {r};
      TreeFrame(n, n2, lt, r);
      PathFrame(n, n2, root, up, r);
  }

  /** What a left rotation at `t`'s root (rbtree.h:299-320) leaves in the records. */
  ghost predicate RotatedLeftCells(n: Arena, n2: Arena, root: Ref, root2: Ref, p: Path, t: Tree)
    requires t.Node? && t.right.Node?
  {
    var x, y, b := t.ref, t.right.ref, t.right.left;
    x in n2 && n2[x] == Cell(y, RootRef(t.left), RootRef(b), t.tag, t.key, t.value)
    && y in n2 && n2[y] == Cell(FrameRef(p), x, RootRef(t.right.right), t.right.tag, t.right.key, t.right.value)
    && (b.Node? ==> b.ref in n && b.ref in n2 && n2[b.ref] == n[b.ref].(parent := x))
    && Relinked(n, n2, root, root2, p, x, y)
    && Unchanged(n, n2, {x, y} + (if b.Node? then {b.ref} else {}) + FrameRefs(p))
  }

  /** What a right rotation at `t`'s root (rbtree.h:330-351) leaves in the records. */
  ghost predicate RotatedRightCells(n: Arena, n2: Arena, root: Ref, root2: Ref, p: Path, t: Tree)
    requires t.Node? && t.left.Node?
  {
    var x, y, b := t.ref, t.left.ref, t.left.right;
    x in n2 && n2[x] == Cell(y, RootRef(b), RootRef(t.right), t.tag, t.key, t.value)
    && y in n2 && n2[y] == Cell(FrameRef(p), RootRef(t.left.left), x, t.left.tag, t.left.key, t.left.value)
    && (b.Node? ==> b.ref in n && b.ref in n2 && n2[b.ref] == n[b.ref].(parent := x))
    && Relinked(n, n2, root, root2, p, x, y)
    && Unchanged(n, n2, {x, y} + (if b.Node? then {b.ref} else {}) + FrameRefs(p))
  }

  /** After a left rotation the records hold the rotated tree at the same place. */
  lemma RotatedLeft(n: Arena, n2: Arena, root: Ref, root2: Ref, p: Path, t: Tree)
    requires Focused(n, root, p, t) && t.Node? && t.right.Node?
    requires RotatedLeftCells(n, n2, root, root2, p, t)
    ensures Focused(n2, root2, p, RotateLeft(t))
  {
    var x, y, a, b, c := t.ref, t.right.ref, t.left, t.right.left, t.right.right;
    var out := {x, y} + (if b.Node? then {b.ref} else {}) + FrameRefs(p);
    assert LinkedTree(n, t.right, x);
    assert Unique(t.right) && Refs(t.right) == Refs(b) + {y} + Refs(c);
    UnchangedAgree(n, n2, out, Refs(a));
    UnchangedAgree(n, n2, out, Refs(c));
    TreeFrame(n, n2, a, x);
    TreeFrame(n, n2, c, y);
    if b.Node? {
      assert LinkedTree(n, b, y) && Unique(b) && Refs(b) == Refs(b.left) + {b.ref} + Refs(b.right);
      UnchangedAgree(n, n2, out, Refs(b.left));
      UnchangedAgree(n, n2, out, Refs(b.right));
      TreeFrame(n, n2, b.left, b.ref);
      TreeFrame(n, n2, b.right, b.ref);
    }
    assert LinkedTree(n2, Node(a, x, t.tag, t.key, t.value, b), y);
    UnchangedAgree(n, n2, out, PathRefs(p) - FrameRefs(p));
    Relink(n, n2, root, root2, p, x, y);
  }

  /** After a right rotation the records hold the rotated tree at the same place. */
  lemma RotatedRight(n: Arena, n2: Arena, root: Ref, root2: Ref, p: Path, t: Tree)
    requires Focused(n, root, p, t) && t.Node? && t.left.Node?
    requires RotatedRightCells(n, n2, root, root2, p, t)
    ensures Focused(n2, root2, p, RotateRight(t))
  {
    var x, y, a, b, c := t.ref, t.left.ref, t.left.left, t.left.right, t.right;
    var out := {x, y} + (if b.Node? then {b.ref} else {}) + FrameRefs(p);
    assert LinkedTree(n, t.left, x);
    assert Unique(t.left) && Refs(t.left) == Refs(a) + {y} + Refs(b);
    UnchangedAgree(n, n2, out, Refs(a));
    UnchangedAgree(n, n2, out, Refs(c));
    TreeFrame(n, n2, a, y);
    TreeFrame(n, n2, c, x);
    if b.Node? {
      assert LinkedTree(n, b, y) && Unique(b) && Refs(b) == Refs(b.left) + {b.ref} + Refs(b.right);
      UnchangedAgree(n, n2, out, Refs(b.left));
      UnchangedAgree(n, n2, out, Refs(b.right));
      TreeFrame(n, n2, b.left, b.ref);
      TreeFrame(n, n2, b.right, b.ref);
    }
    assert LinkedTree(n2, Node(b, x, t.tag, t.key, t.value, c), y);
    UnchangedAgree(n, n2, out, PathRefs(p) - FrameRefs(p));
    Relink(n, n2, root, root2, p, x, y);
  }

  // ---------------------------------------------------------------------------
  // Deleting a node: the predecessor walk, the splice and the copy

  /** Nothing lives at `Null`. */
  lemma {:induction false} NullFree(t: Tree)
    requires Unique(t)
    ensures Null !in Refs(t)
  {
    if t.Node? {
      NullFree(t.left);
      NullFree(t.right);
    }
  }

  lemma {:induction false} NullFreePath(p: Path)
    requires UniquePath(p)
    ensures Null !in PathRefs(p)
  {
    match p
    case Top =>
    case LeftOf(_, _, _, _, rt, up) =>
      NullFree(rt);
      NullFreePath(up);
    case RightOf(lt, _, _, _, _, up) =>
      NullFree(lt);
      NullFreePath(up);
  }

  /** Above a subtree that is not the whole tree, the root is an ancestor. */
  lemma {:induction false} RootAbove(n: Arena, root: Ref, p: Path, child: Ref)
    requires LinkedPath(n, root, p, child) && !p.Top?
    ensures root in PathRefs(p)
  {
    if !p.up.Top? {
      RootAbove(n, root, p.up, p.ref);
    }
  }

  /** The path `q`, continued above its top by the ancestors `top`. */
  function Graft(q: Path, top: Path): Path
  {
    match q
    case Top => top
    case LeftOf(r, g, k, v, rt, up) => LeftOf(r, g, k, v, rt, Graft(up, top))
    case RightOf(lt, r, g, k, v, up) => RightOf(lt, r, g, k, v, Graft(up, top))
  }

  lemma {:induction false} PlugGraft(q: Path, top: Path, t: Tree)
    ensures Plug(Graft(q, top), t) == Plug(top, Plug(q, t))
  {
    if !q.Top? {
      PlugGraft(q.up, top, Parent(q, t));
    }
  }

  lemma {:induction false} GraftRefs(q: Path, top: Path)
    ensures PathRefs(Graft(q, top)) == PathRefs(q) + PathRefs(top)
  {
    if !q.Top? {
      GraftRefs(q.up, top);
    }
  }

  /** A walk down right children only: the ancestors in `q` all precede the subtree. */
  ghost predicate RightSpine(q: Path)
  {
    q.Top? || (q.RightOf? && RightSpine(q.up))
  }

  lemma {:induction false} GraftEntries(q: Path, top: Path)
    requires RightSpine(q)
    ensures Before(Graft(q, top)) == Before(top) + Before(q) && After(Graft(q, top)) == After(top)
  {
    if !q.Top? {
      GraftEntries(q.up, top);
    }
  }

  /** The in-order predecessor's parent is the node above the left subtree exactly when the spine is empty. */
  lemma SpineParent(q: Path, f: Path)
    requires RightSpine(q) && f.LeftOf? && UniquePath(Graft(q, f))
    ensures (Graft(q, f).LeftOf? <==> q.Top?) && (Graft(q, f).ref == f.ref <==> q.Top?)
  {
    if !q.Top? {
      GraftRefs(q.up, f);
      assert f.ref in PathRefs(Graft(q.up, f));
    }
  }

  /** Rewriting the key and value of the ancestor at the top of `top`. */
  function Rekey(top: Path, k: int, v: int): Path
    requires !top.Top?
  {
    top.(key := k, value := v)
  }

  lemma {:induction false} RekeyShape(q: Path, top: Path, k: int, v: int)
    requires !top.Top?
    ensures PathRefs(Graft(q, Rekey(top, k, v))) == PathRefs(Graft(q, top))
    ensures UniquePath(Graft(q, Rekey(top, k, v))) == UniquePath(Graft(q, top))
    ensures FrameRef(Graft(q, Rekey(top, k, v))) == FrameRef(Graft(q, top))
  {
    if !q.Top? {
      RekeyShape(q.up, top, k, v);
    }
  }

  lemma {:induction false} RekeyLinked(n: Arena, root: Ref, q: Path, top: Path, child: Ref, k: int, v: int)
    requires !top.Top? && top.ref in n && LinkedPath(n, root, Graft(q, top), child) && UniquePath(Graft(q, top))
    ensures LinkedPath(n[top.ref := n[top.ref].(key := k, value := v)], root, Graft(q, Rekey(top, k, v)), child)
  {
    var n2 := n[top.ref := n[top.ref].(key := k, value := v)];
    var r := top.ref;
    if q.Top? {
      var rt := Sibling(top);
      assert r !in Refs(rt) && r !in PathRefs(top.up);
      TreeFrame(n, n2, rt, r);
      PathFrame(n, n2, root, top.up, r);
    } else {
      var s := Sibling(q);
      GraftRefs(q.up, top);
      assert r in PathRefs(Graft(q.up, top));
      assert r !in Refs(s) && r != q.ref;
      TreeFrame(n, n2, s, q.ref);
      RekeyShape(q.up, top, k, v);
      RekeyLinked(n, root, q.up, top, q.ref, k, v);
    }
  }

  /** Copying a key and value into an ancestor (rbtree.h:231-234) keeps the walk's records. */
  lemma RekeyFocused(n: Arena, root: Ref, q: Path, top: Path, t: Tree, k: int, v: int)
    requires !top.Top? && top.ref in n && Focused(n, root, Graft(q, top), t)
    ensures Focused(n[top.ref := n[top.ref].(key := k, value := v)], root, Graft(q, Rekey(top, k, v)), t)
  {
    var n2 := n[top.ref := n[top.ref].(key := k, value := v)];
    GraftRefs(q, top);
    RekeyShape(q, top, k, v);
    TreeFrame(n, n2, t, FrameRef(Graft(q, top)));
    RekeyLinked(n, root, q, top, RootRef(t), k, v);
  }

  /** The only child of a node with an empty side; `Leaf` when it has none. */
  function SpliceChild(t: Tree): Tree
    requires t.Node?
  {
    if t.left.Node? then t.left else t.right
  }

  /**
   * Cutting a node with an empty side out of the tree (rbtree.h:221-230):
   * its child (perhaps the sentinel) takes its parent, and the parent, or the
   * root, takes the child.
   */
  lemma Spliced(n: Arena, n1: Arena, n2: Arena, root: Ref, root2: Ref, p: Path, t: Tree)
    requires Focused(n, root, p, t) && t.Node? && (t.left.Leaf? || t.right.Leaf?) && RootRef(SpliceChild(t)) in n
    requires n1 == n[RootRef(SpliceChild(t)) := n[RootRef(SpliceChild(t))].(parent := FrameRef(p))]
    requires Relinked(n1, n2, root, root2, p, t.ref, RootRef(SpliceChild(t))) && Unchanged(n1, n2, FrameRefs(p))
    ensures Focused(n2, root2, p, SpliceChild(t))
  {
    var x := SpliceChild(t);
    NullFreePath(p);
    assert LinkedTree(n, x, t.ref);
    if x.Node? {
      assert x.ref !in FrameRefs(p);
      assert Unchanged(n, n2, {x.ref} + FrameRefs(p));
      assert Refs(t) == Refs(t.left) + {t.ref} + Refs(t.right);
      assert Refs(x) == Refs(x.left) + {x.ref} + Refs(x.right) && Refs(x) <= Refs(t);
      assert FrameRefs(p) <= PathRefs(p);
      assert Unique(x) && x.ref !in Refs(x.left) && x.ref !in Refs(x.right);
      assert Refs(x.left) !! FrameRefs(p) && Refs(x.right) !! FrameRefs(p);
      UnchangedAgree(n, n2, {x.ref} + FrameRefs(p), Refs(x.left));
      UnchangedAgree(n, n2, {x.ref} + FrameRefs(p), Refs(x.right));
      TreeFrame(n, n2, x.left, x.ref);
      TreeFrame(n, n2, x.right, x.ref);
    }
    PathFrame(n, n1, root, p, t.ref);
    UnchangedAgree(n1, n2, FrameRefs(p), PathRefs(p) - FrameRefs(p));
    Relink(n1, n2, root, root2, p, t.ref, RootRef(x));
  }

  /** Releasing a record the tree no longer uses. */
  lemma Forget(n: Arena, root: Ref, p: Path, t: Tree, r: Ref)
    requires Focused(n, root, p, t) && r !in Refs(t) && r !in PathRefs(p)
    ensures Focused(n - {r}, root, p, t)
  {
    TreeFrame(n, n - {r}, t, FrameRef(p));
    PathFrame(n, n - {r}, root, p, RootRef(t));
  }

  /** Dropping an entry from increasing entries keeps them increasing and drops its key from the map. */
  lemma Unslot(x: seq<Entry>, e: Entry, y: seq<Entry>)
    requires Increasing(x + [e] + y)
    ensures Increasing(x + y) && MapOf(x + y) == MapOf(x + [e] + y) - {e.key}
  {
    Pivot(x, e, y);
    var s, o := x + [e] + y, x + y;
    forall i, j | 0 <= i < j < |o| ensures o[i].key < o[j].key {
      if j < |x| {
        assert o[i] == s[i] && o[j] == s[j];
      } else if i < |x| {
        assert o[i] == s[i] && o[j] == s[j + 1];
      } else {
        assert o[i] == s[i + 1] && o[j] == s[j + 1];
      }
    }
    forall i | 0 <= i < |o| ensures o[i].key != e.key {
      if i < |x| {
        assert o[i] == x[i];
      } else {
        assert o[i] == y[i - |x|];
      }
    }
    MapOfMissing(o, e.key);
    MapOfSlot(x, e, y);
  }

  /** Removing a node with an empty side drops its entry from the in-order walk. */
  lemma SpliceEntries(p: Path, t: Tree)
    requires t.Node? && (t.left.Leaf? || t.right.Leaf?)
    ensures var x, y := Before(p) + Entries(t.left), Entries(t.right) + After(p);
      Entries(Plug(p, t)) == x + [Entry(t.key, t.value)] + y && Entries(Plug(p, SpliceChild(t))) == x + y
  {
    RootEntry(p, t);
    PlugEntries(p, SpliceChild(t));
  }

  /** No ancestor on a right spine follows the subtree. */
  lemma {:induction false} SpineAfter(q: Path)
    requires RightSpine(q)
    ensures After(q) == []
  {
    if !q.Top? {
      SpineAfter(q.up);
    }
  }

  /** The in-order walk of a subtree whose last node `r` ends the right spine `q`. */
  lemma SpineEntries(q: Path, r: Tree)
    requires RightSpine(q) && r.Node? && r.right.Leaf?
    ensures Entries(Plug(q, r)) == Before(q) + Entries(r.left) + [Entry(r.key, r.value)]
  {
    SpineAfter(q);
    PlugEntries(q, r);
    assert Entries(r) == Entries(r.left) + [Entry(r.key, r.value)] + [];
  }

  lemma SeqRegroup2<T>(b: seq<T>, c: seq<T>, l: seq<T>, e: seq<T>, d: seq<T>, r: seq<T>, a: seq<T>)
    ensures b + (c + l + e) + d + (r + a) == (b + c + l + e) + d + (r + a)
    ensures (b + c) + l + (e + r + a) == (b + c + l + e) + (r + a)
  {
  }

  /**
   * Removing the in-order predecessor `r` (the last node down the right spine
   * `q` of `d`'s left subtree) and copying its key and value into `d` drops
   * `d`'s entry from the in-order walk.
   */
  lemma PredecessorEntries(p: Path, d: Tree, q: Path, r: Tree)
    requires d.Node? && RightSpine(q) && Plug(q, r) == d.left && r.Node? && r.right.Leaf?
    ensures var f := LeftOf(d.ref, d.tag, d.key, d.value, d.right, p);
      var x := Before(p) + Before(q) + Entries(r.left) + [Entry(r.key, r.value)];
      var y := Entries(d.right) + After(p);
      Entries(Plug(p, d)) == x + [Entry(d.key, d.value)] + y
      && Entries(Plug(Graft(q, Rekey(f, r.key, r.value)), r.left)) == x + y
  {
    var f := LeftOf(d.ref, d.tag, d.key, d.value, d.right, p);
    var f2 := Rekey(f, r.key, r.value);
    var B0, Bq, L, E, D, R, A := Before(p), Before(q), Entries(r.left), [Entry(r.key, r.value)], [Entry(d.key, d.value)], Entries(d.right), After(p);
    GraftEntries(q, f2);
    PlugEntries(Graft(q, f2), r.left);
    assert Entries(Plug(Graft(q, f2), r.left)) == (B0 + Bq) + L + (E + R + A);
    SpineEntries(q, r);
    RootEntry(p, d);
    SeqRegroup2(B0, Bq, L, E, D, R, A);
  }

  // ---------------------------------------------------------------------------
  // Adding a node, and writes the tree does not see

  lemma {:induction false} TreeKeys(n: Arena, t: Tree, parent: Ref)
    requires LinkedTree(n, t, parent)
    ensures Refs(t) <= n.Keys
  {
    if t.Node? {
      TreeKeys(n, t.left, t.ref);
      TreeKeys(n, t.right, t.ref);
    }
  }

  lemma {:induction false} PathKeys(n: Arena, root: Ref, p: Path, child: Ref)
    requires LinkedPath(n, root, p, child)
    ensures PathRefs(p) <= n.Keys
  {
    if !p.Top? {
      TreeKeys(n, Sibling(p), p.ref);
      PathKeys(n, root, p.up, p.ref);
    }
  }

  /** Every address of the tree has a record. */
  lemma FocusedKeys(n: Arena, root: Ref, p: Path, t: Tree)
    requires Focused(n, root, p, t)
    ensures Refs(t) <= n.Keys && PathRefs(p) <= n.Keys && Refs(Plug(p, t)) <= n.Keys
  {
    TreeKeys(n, t, FrameRef(p));
    PathKeys(n, root, p, RootRef(t));
    PlugRefs(p, t);
  }

  /** The record at `Null`, which no node uses, can change freely. */
  lemma SentinelWrite(n: Arena, root: Ref, p: Path, t: Tree, c: Cell)
    requires Focused(n, root, p, t)
    ensures Focused(n[Null := c], root, p, t)
  {
    NullFree(t);
    NullFreePath(p);
    TreeFrame(n, n[Null := c], t, FrameRef(p));
    PathFrame(n, n[Null := c], root, p, RootRef(t));
  }

  /** Every address in use is at most `last`. */
  ghost predicate Bounded(n: Arena, last: int)
  {
    forall a :: a in n ==> 0 <= a <= last
  }

  /** The address after the largest one in use is free, and becomes the largest once it is used. */
  lemma Fresh(n: Arena, last: nat, c: Cell)
    requires Bounded(n, last)
    ensures last + 1 !in n && Bounded(n[last + 1 := c], last + 1)
  {
  }

  /** Releasing a record keeps every address in use at most `last`. */
  lemma Released(n: Arena, r: Ref, last: int)
    requires Bounded(n, last)
    ensures Bounded(n - {r}, last)
  {
  }

  /** A search for `k` that reached an empty subtree came from the parent's right exactly when the parent's key is below `k`. */
  lemma SideOf(p: Path, k: int)
    requires !p.Top? && Between(p, k)
    ensures p.RightOf? <==> p.key < k
  {
    if p.RightOf? {
      var b := Before(p);
      assert b[|b| - 1] == Entry(p.key, p.value);
    } else {
      assert After(p)[0] == Entry(p.key, p.value);
    }
  }

  /** Hanging a new childless node at the empty subtree a walk stands at. */
  lemma Attached(n: Arena, n2: Arena, root: Ref, p: Path, t: Tree)
    requires Focused(n, root, p, Leaf) && !p.Top? && t.Node? && t.left.Leaf? && t.right.Leaf?
    requires t.ref !in n && t.ref != Null
    requires n2 == n[t.ref := Cell(p.ref, Null, Null, t.tag, t.key, t.value)]
                    [p.ref := if p.LeftOf? then n[p.ref].(left := t.ref) else n[p.ref].(right := t.ref)]
    ensures Focused(n2, root, p, t)
  {
    FocusedKeys(n, root, p, Leaf);
    var s := Sibling(p);
    assert t.ref !in Refs(s) && t.ref !in PathRefs(p.up) && p.ref !in Refs(s) && p.ref !in PathRefs(p.up);
    TreeFrame(n, n2, s, p.ref);
    PathFrame(n, n2, root, p.up, p.ref);
  }

  /** A tree with a node in it is not empty. */
  lemma {:induction false} PlugNode(p: Path, t: Tree)
    requires t.Node?
    ensures Plug(p, t).Node?
    decreases p
  {
    if !p.Top? {
      PlugNode(p.up, Parent(p, t));
    }
  }
}
