/**
 * The AVL tree of avl_tree.h: a binary search tree whose nodes carry a
 * balance factor `bf`, the height of the left subtree less that of the right
 * one, kept within -1..1 by single and double rotations after each insertion
 * and deletion.
 *
 * The node records live in the map `nodes` of the shared BinaryTrees model,
 * `tag` holding `bf`; NULL is the address `Null`, which has no record.
 */
module AVLTree {
  import opened BinaryTrees

  // ---------------------------------------------------------------------------
  // Heights and balance factors

  function Max(a: nat, b: nat): nat
  {
    if a < b then b else a
  }

  /** The number of nodes on the longest way down from the root: the depth of avl_tree.h:10-18. */
  function Height(t: Tree): nat
  {
    if t.Leaf? then 0 else 1 + Max(Height(t.left), Height(t.right))
  }

  /** Every node's `bf` is its left subtree's height less its right subtree's, and lies in -1..1. */
  ghost predicate Balanced(t: Tree)
  {
    t.Node? ==>
      t.tag == Height(t.left) - Height(t.right) && -1 <= t.tag <= 1
      && Balanced(t.left) && Balanced(t.right)
  }

  /** A search tree whose balance factors are right. */
  ghost predicate IsAVL(t: Tree)
  {
    Ordered(t) && Balanced(t)
  }

  /**
   * Above a subtree of height `h` at `p`, every ancestor's `bf` is right and
   * within -1..1, and the subtrees hanging off the path are balanced.
   */
  ghost predicate PathBalanced(p: Path, h: nat)
    decreases p
  {
    match p
    case Top => true
    case LeftOf(_, g, _, _, rt, up) =>
      Balanced(rt) && g == h - Height(rt) && -1 <= g <= 1 && PathBalanced(up, 1 + Max(h, Height(rt)))
    case RightOf(lt, _, g, _, _, up) =>
      Balanced(lt) && g == Height(lt) - h && -1 <= g <= 1 && PathBalanced(up, 1 + Max(Height(lt), h))
  }

  /** The whole tree is balanced exactly when the subtree and everything around it are. */
  lemma {:induction false} PlugBalanced(p: Path, t: Tree)
    ensures Balanced(Plug(p, t)) <==> Balanced(t) && PathBalanced(p, Height(t))
    decreases p
  {
    if !p.Top? {
      PlugBalanced(p.up, Parent(p, t));
      BalancedStep(p, t);
    }
  }

  /** One level of PlugBalanced: `t` and the path above it are balanced exactly when its parent and the path above that are. */
  lemma BalancedStep(p: Path, t: Tree)
    requires !p.Top?
    ensures Balanced(t) && PathBalanced(p, Height(t)) <==> Balanced(Parent(p, t)) && PathBalanced(p.up, Height(Parent(p, t)))
  {
    match p
    case LeftOf(r, g, k, v, rt, up) =>
      var u := Node(t, r, g, k, v, rt);
      assert Parent(p, t) == u;
      assert Height(u) == 1 + Max(Height(t), Height(rt));
    case RightOf(lt, r, g, k, v, up) =>
      var u := Node(lt, r, g, k, v, t);
      assert Parent(p, t) == u;
      assert Height(u) == 1 + Max(Height(lt), Height(t));
  }

  // ---------------------------------------------------------------------------
  // L_Balance and R_Balance on the tree (avl_tree.h:356-557)

  /** A left rotation at `x` (avl_tree.h:362-368), `x` getting the bf `tx` and its right child `y`, the new root, `ty`. */
  function LeftTurn(x: Tree, tx: int, ty: int): Tree
    requires x.Node? && x.right.Node?
  {
    RotateLeft(x.(tag := tx, right := x.right.(tag := ty)))
  }

  /** A right rotation at `x` (avl_tree.h:471-477), the mirror image of LeftTurn. */
  function RightTurn(x: Tree, tx: int, ty: int): Tree
    requires x.Node? && x.left.Node?
  {
    RotateRight(x.(tag := tx, left := x.left.(tag := ty)))
  }

  /**
   * A right-left double rotation at `x` (avl_tree.h:387-403): `g`, the left
   * child of `x`'s right child `y`, becomes the root with `x` and `y` below it;
   * the bf of `x`, `y` and `g` become `tx`, `ty` and `tg`.
   */
  function RightLeftTurn(x: Tree, tx: int, ty: int, tg: int): Tree
    requires x.Node? && x.right.Node? && x.right.left.Node?
  {
    var y := x.right;
    var g := y.left;
    Node(Node(x.left, x.ref, tx, x.key, x.value, g.left), g.ref, tg, g.key, g.value,
         Node(g.right, y.ref, ty, y.key, y.value, y.right))
  }

  /** A left-right double rotation at `x` (avl_tree.h:496-512), the mirror image of RightLeftTurn. */
  function LeftRightTurn(x: Tree, tx: int, ty: int, tg: int): Tree
    requires x.Node? && x.left.Node? && x.left.right.Node?
  {
    var y := x.left;
    var g := y.right;
    Node(Node(y.left, y.ref, ty, y.key, y.value, g.left), g.ref, tg, g.key, g.value,
         Node(g.right, x.ref, tx, x.key, x.value, x.right))
  }

  /**
   * The bf a double rotation gives the rotation root, its child and the new
   * root (avl_tree.h:405-431 and 514-540), from the new root's bf `bg`: the
   * side that had the taller half of `g` keeps it. Another `bg` leaves all
   * three as they were (the `default` branch).
   */
  function OuterTag(bg: int, kept: int, tall: int): int
  {
    if bg == tall then 0 else if bg == -tall then tall else if bg == 0 then 0 else kept
  }

  function InnerTag(bg: int, kept: int, tall: int): int
  {
    if bg == tall then -tall else if bg == -tall then 0 else if bg == 0 then 0 else kept
  }

  function RootTag(bg: int): int
  {
    if bg == 1 || bg == -1 || bg == 0 then 0 else bg
  }

  /**
   * The subtree L_Balance (avl_tree.h:356-457) leaves at `x`, whose right
   * side is too tall: a left rotation when the right child's bf is -1 or 0, a
   * right-left double rotation when it is 1, `x` as it was otherwise.
   */
  function LeftBalanced(x: Tree): Tree
    requires x.Node? && x.right.Node? && (x.right.tag == 1 ==> x.right.left.Node?)
  {
    var y := x.right;
    if y.tag == -1 || y.tag == 0 then
      LeftTurn(x, if y.tag == -1 then 0 else -1, if y.tag == -1 then 0 else 1)
    else if y.tag == 1 then
      var bg := y.left.tag;
      RightLeftTurn(x, OuterTag(bg, x.tag, 1), InnerTag(bg, y.tag, 1), RootTag(bg))
    else x
  }

  /**
   * The subtree R_Balance (avl_tree.h:465-557) leaves at `x`, whose left side
   * is too tall: a right rotation when the left child's bf is 1 or 0, a
   * left-right double rotation when it is -1, `x` as it was otherwise.
   */
  function RightBalanced(x: Tree): Tree
    requires x.Node? && x.left.Node? && (x.left.tag == -1 ==> x.left.right.Node?)
  {
    var y := x.left;
    if y.tag == 1 || y.tag == 0 then
      RightTurn(x, if y.tag == 1 then 0 else 1, if y.tag == 1 then 0 else -1)
    else if y.tag == -1 then
      var bg := y.right.tag;
      LeftRightTurn(x, OuterTag(bg, x.tag, -1), InnerTag(bg, y.tag, -1), RootTag(bg))
    else x
  }

  /** What L_Balance needs of the tree: the right child, and its left child for a double rotation. */
  ghost predicate LeftReady(x: Tree)
  {
    x.Node? && x.right.Node? && (x.right.tag == 1 ==> x.right.left.Node?)
  }

  ghost predicate RightReady(x: Tree)
  {
    x.Node? && x.left.Node? && (x.left.tag == -1 ==> x.left.right.Node?)
  }

  /**
   * A subtree whose right side is two levels taller than its left one, both
   * balanced, is balanced after L_Balance; it is one level lower with bf 0,
   * unless the right child had bf 0, when it keeps its height with bf 1.
   */
  lemma LeftBalancedFixes(x: Tree)
    requires x.Node? && Balanced(x.left) && Balanced(x.right) && Height(x.left) + 2 == Height(x.right)
    ensures LeftReady(x)
    ensures var r := LeftBalanced(x);
      r.Node? && Balanced(r)
      && (x.right.tag == 0 ==> Height(r) == Height(x) && r.tag == 1)
      && (x.right.tag != 0 ==> Height(r) + 1 == Height(x) && r.tag == 0)
  {
    if x.right.tag == 1 {
      RightLeftFixes(x);
    } else {
      LeftTurnFixes(x);
    }
  }

  /** LeftBalancedFixes for a single left rotation: the right child's bf is -1 or 0. */
  lemma LeftTurnFixes(x: Tree)
    requires x.Node? && Balanced(x.left) && Balanced(x.right) && Height(x.left) + 2 == Height(x.right)
    requires x.right.tag != 1
    ensures x.right.Node?
    ensures var r := LeftBalanced(x);
      r.Node? && Balanced(r)
      && (x.right.tag == 0 ==> Height(r) == Height(x) && r.tag == 1)
      && (x.right.tag != 0 ==> Height(r) + 1 == Height(x) && r.tag == 0)
  {
    var y := x.right;
    var h := Height(x.left);
    assert Height(x) == h + 3;
    assert Height(y.right) == h + 1 && Height(y.left) == (if y.tag == 0 then h + 1 else h);
    var tx, ty := if y.tag == -1 then 0 else -1, if y.tag == -1 then 0 else 1;
    var lo := Node(x.left, x.ref, tx, x.key, x.value, y.left);
    assert LeftBalanced(x) == Node(lo, y.ref, ty, y.key, y.value, y.right);
    assert Balanced(lo) && Height(lo) == Height(y.left) + 1;
  }

  /** LeftBalancedFixes for a right-left double rotation: the right child's bf is 1. */
  lemma RightLeftFixes(x: Tree)
    requires x.Node? && Balanced(x.left) && Balanced(x.right) && Height(x.left) + 2 == Height(x.right)
    requires x.right.tag == 1
    ensures LeftReady(x)
    ensures var r := LeftBalanced(x);
      r.Node? && Balanced(r) && Height(r) + 1 == Height(x) && r.tag == 0
  {
    var y := x.right;
    var g := y.left;
    var h := Height(x.left);
    assert Balanced(g) && Height(g) == h + 1 && Height(y.right) == h;
    var bg := g.tag;
    assert Height(g.left) == (if bg == -1 then h - 1 else h) && Height(g.right) == (if bg == 1 then h - 1 else h);
    var lo := Node(x.left, x.ref, OuterTag(bg, x.tag, 1), x.key, x.value, g.left);
    var hi := Node(g.right, y.ref, InnerTag(bg, y.tag, 1), y.key, y.value, y.right);
    assert LeftBalanced(x) == Node(lo, g.ref, RootTag(bg), g.key, g.value, hi);
    assert Balanced(lo) && Height(lo) == h + 1;
    assert Balanced(hi) && Height(hi) == h + 1;
  }

  /** The mirror image of LeftBalancedFixes, for R_Balance. */
  lemma RightBalancedFixes(x: Tree)
    requires x.Node? && Balanced(x.left) && Balanced(x.right) && Height(x.left) == Height(x.right) + 2
    ensures RightReady(x)
    ensures var r := RightBalanced(x);
      r.Node? && Balanced(r)
      && (x.left.tag == 0 ==> Height(r) == Height(x) && r.tag == -1)
      && (x.left.tag != 0 ==> Height(r) + 1 == Height(x) && r.tag == 0)
  {
    if x.left.tag == -1 {
      LeftRightFixes(x);
    } else {
      RightTurnFixes(x);
    }
  }

  /** RightBalancedFixes for a single right rotation: the left child's bf is 1 or 0. */
  lemma RightTurnFixes(x: Tree)
    requires x.Node? && Balanced(x.left) && Balanced(x.right) && Height(x.left) == Height(x.right) + 2
    requires x.left.tag != -1
    ensures x.left.Node?
    ensures var r := RightBalanced(x);
      r.Node? && Balanced(r)
      && (x.left.tag == 0 ==> Height(r) == Height(x) && r.tag == -1)
      && (x.left.tag != 0 ==> Height(r) + 1 == Height(x) && r.tag == 0)
  {
    var y := x.left;
    var h := Height(x.right);
    assert Height(x) == h + 3;
    assert Height(y.left) == h + 1 && Height(y.right) == (if y.tag == 0 then h + 1 else h);
    var tx, ty := if y.tag == 1 then 0 else 1, if y.tag == 1 then 0 else -1;
    var lo := Node(y.right, x.ref, tx, x.key, x.value, x.right);
    assert RightBalanced(x) == Node(y.left, y.ref, ty, y.key, y.value, lo);
    assert Balanced(lo) && Height(lo) == Height(y.right) + 1;
  }

  /** RightBalancedFixes for a left-right double rotation: the left child's bf is -1. */
  lemma LeftRightFixes(x: Tree)
    requires x.Node? && Balanced(x.left) && Balanced(x.right) && Height(x.left) == Height(x.right) + 2
    requires x.left.tag == -1
    ensures RightReady(x)
    ensures var r := RightBalanced(x);
      r.Node? && Balanced(r) && Height(r) + 1 == Height(x) && r.tag == 0
  {
    var y := x.left;
    var g := y.right;
    var h := Height(x.right);
    assert Balanced(g) && Height(g) == h + 1 && Height(y.left) == h;
    var bg := g.tag;
    assert Height(g.left) == (if bg == -1 then h - 1 else h) && Height(g.right) == (if bg == 1 then h - 1 else h);
    var lo := Node(y.left, y.ref, InnerTag(bg, y.tag, -1), y.key, y.value, g.left);
    var hi := Node(g.right, x.ref, OuterTag(bg, x.tag, -1), x.key, x.value, x.right);
    assert RightBalanced(x) == Node(lo, g.ref, RootTag(bg), g.key, g.value, hi);
    assert Balanced(lo) && Height(lo) == h + 1;
    assert Balanced(hi) && Height(hi) == h + 1;
  }

  /** The double rotations keep the in-order entries and the addresses. */
  lemma RightLeftTurnKeeps(x: Tree, tx: int, ty: int, tg: int)
    requires x.Node? && x.right.Node? && x.right.left.Node? && Unique(x)
    ensures var r := RightLeftTurn(x, tx, ty, tg);
      Entries(r) == Entries(x) && Refs(r) == Refs(x) && Unique(r)
  {
    var y := x.right;
    var g := y.left;
    RightLeftEntries(x, tx, ty, tg);
    DoubleRefs(x.left, x.ref, g.left, g.ref, g.right, y.ref, y.right, x.tag, y.tag, g.tag, tx, ty, tg,
      x.key, x.value, g.key, g.value, y.key, y.value);
  }

  lemma LeftRightTurnKeeps(x: Tree, tx: int, ty: int, tg: int)
    requires x.Node? && x.left.Node? && x.left.right.Node? && Unique(x)
    ensures var r := LeftRightTurn(x, tx, ty, tg);
      Entries(r) == Entries(x) && Refs(r) == Refs(x) && Unique(r)
  {
    var y := x.left;
    var g := y.right;
    LeftRightEntries(x, tx, ty, tg);
    DoubleRefsMirrored(y.left, y.ref, g.left, g.ref, g.right, x.ref, x.right, y.tag, x.tag, g.tag, ty, tx, tg,
      y.key, y.value, g.key, g.value, x.key, x.value);
  }

  lemma RightLeftEntries(x: Tree, tx: int, ty: int, tg: int)
    requires x.Node? && x.right.Node? && x.right.left.Node?
    ensures Entries(RightLeftTurn(x, tx, ty, tg)) == Entries(x)
  {
    var y := x.right;
    var g := y.left;
    var A, X, B, G, C, Y, D := Entries(x.left), [Entry(x.key, x.value)], Entries(g.left), [Entry(g.key, g.value)],
      Entries(g.right), [Entry(y.key, y.value)], Entries(y.right);
    assert Entries(g) == B + G + C;
    assert Entries(y) == (B + G + C) + Y + D;
    assert Entries(x) == A + X + ((B + G + C) + Y + D);
    assert Entries(RightLeftTurn(x, tx, ty, tg)) == (A + X + B) + G + (C + Y + D);
    Regroup(A, X, B, G, C, Y, D);
  }

  lemma LeftRightEntries(x: Tree, tx: int, ty: int, tg: int)
    requires x.Node? && x.left.Node? && x.left.right.Node?
    ensures Entries(LeftRightTurn(x, tx, ty, tg)) == Entries(x)
  {
    var y := x.left;
    var g := y.right;
    var A, Y, B, G, C, X, D := Entries(y.left), [Entry(y.key, y.value)], Entries(g.left), [Entry(g.key, g.value)],
      Entries(g.right), [Entry(x.key, x.value)], Entries(x.right);
    assert Entries(g) == B + G + C;
    assert Entries(y) == A + Y + (B + G + C);
    assert Entries(x) == (A + Y + (B + G + C)) + X + D;
    assert Entries(LeftRightTurn(x, tx, ty, tg)) == (A + Y + B) + G + (C + X + D);
    Regroup(A, Y, B, G, C, X, D);
  }

  /** The two groupings of seven runs of entries a double rotation moves between. */
  lemma Regroup(A: seq<Entry>, X: seq<Entry>, B: seq<Entry>, G: seq<Entry>, C: seq<Entry>, Y: seq<Entry>, D: seq<Entry>)
    ensures A + X + ((B + G + C) + Y + D) == (A + X + B) + G + (C + Y + D)
    ensures (A + X + (B + G + C)) + Y + D == (A + X + B) + G + (C + Y + D)
  {
  }

  /** The addresses of `a x ((b g c) y d)` rotated to `(a x b) g (c y d)`: the same addresses, still all different. */
  lemma DoubleRefs(a: Tree, x: Ref, b: Tree, g: Ref, c: Tree, y: Ref, d: Tree, sx: int, sy: int, sg: int,
                   tx: int, ty: int, tg: int, kx: int, vx: int, kg: int, vg: int, ky: int, vy: int)
    requires Unique(Node(a, x, sx, kx, vx, Node(Node(b, g, sg, kg, vg, c), y, sy, ky, vy, d)))
    ensures var before := Node(a, x, sx, kx, vx, Node(Node(b, g, sg, kg, vg, c), y, sy, ky, vy, d));
      var after := Node(Node(a, x, tx, kx, vx, b), g, tg, kg, vg, Node(c, y, ty, ky, vy, d));
      Unique(after) && Refs(after) == Refs(before)
  {
    var A, B, C, D := Refs(a), Refs(b), Refs(c), Refs(d);
    var right := Node(Node(b, g, sg, kg, vg, c), y, sy, ky, vy, d);
    assert Refs(right) == B + {g} + C + {y} + D;
    assert Unique(right) && Unique(right.left);
    assert x !in A && x !in B && x !in C && x !in D && x != g && x != y;
    assert g !in A && g !in B && g !in C && g !in D && g != y;
    assert y !in A && y !in B && y !in C && y !in D;
    assert A !! B && A !! C && A !! D && B !! C && B !! D && C !! D;
  }

  /** The addresses of `((a x (b g c)) y d` rotated to `(a x b) g (c y d)`: the same addresses, still all different. */
  lemma DoubleRefsMirrored(a: Tree, x: Ref, b: Tree, g: Ref, c: Tree, y: Ref, d: Tree, sx: int, sy: int, sg: int,
                           tx: int, ty: int, tg: int, kx: int, vx: int, kg: int, vg: int, ky: int, vy: int)
    requires Unique(Node(Node(a, x, sx, kx, vx, Node(b, g, sg, kg, vg, c)), y, sy, ky, vy, d))
    ensures var before := Node(Node(a, x, sx, kx, vx, Node(b, g, sg, kg, vg, c)), y, sy, ky, vy, d);
      var after := Node(Node(a, x, tx, kx, vx, b), g, tg, kg, vg, Node(c, y, ty, ky, vy, d));
      Unique(after) && Refs(after) == Refs(before)
  {
    var A, B, C, D := Refs(a), Refs(b), Refs(c), Refs(d);
    var left := Node(a, x, sx, kx, vx, Node(b, g, sg, kg, vg, c));
    assert Refs(left) == A + {x} + B + {g} + C;
    assert Unique(left) && Unique(left.right);
    assert x !in A && x !in B && x !in C && x !in D && x != g && x != y;
    assert g !in A && g !in B && g !in C && g !in D && g != y;
    assert y !in A && y !in B && y !in C && y !in D;
    assert A !! B && A !! C && A !! D && B !! C && B !! D && C !! D;
  }

  /** The single rotations keep the in-order entries and the addresses. */
  lemma LeftTurnKeeps(x: Tree, tx: int, ty: int)
    requires x.Node? && x.right.Node? && Unique(x)
    ensures var r := LeftTurn(x, tx, ty);
      Entries(r) == Entries(x) && Refs(r) == Refs(x) && Unique(r)
  {
    var x2 := x.(tag := tx, right := x.right.(tag := ty));
    RotateLeftEntries(x2);
    RotateLeftRefs(x2);
    assert Refs(x.right) == Refs(x.right.left) + {x.right.ref} + Refs(x.right.right);
  }

  lemma RightTurnKeeps(x: Tree, tx: int, ty: int)
    requires x.Node? && x.left.Node? && Unique(x)
    ensures var r := RightTurn(x, tx, ty);
      Entries(r) == Entries(x) && Refs(r) == Refs(x) && Unique(r)
  {
    var x2 := x.(tag := tx, left := x.left.(tag := ty));
    RotateRightEntries(x2);
    RotateRightRefs(x2);
    assert Refs(x.left) == Refs(x.left.left) + {x.left.ref} + Refs(x.left.right);
  }

  /** Whatever L_Balance does, the subtree keeps its entries and its addresses. */
  lemma LeftBalancedKeeps(x: Tree)
    requires LeftReady(x) && Unique(x)
    ensures var r := LeftBalanced(x);
      r.Node? && Entries(r) == Entries(x) && Refs(r) == Refs(x) && Unique(r)
  {
    var y := x.right;
    if y.tag == -1 || y.tag == 0 {
      LeftTurnKeeps(x, if y.tag == -1 then 0 else -1, if y.tag == -1 then 0 else 1);
    } else if y.tag == 1 {
      var bg := y.left.tag;
      RightLeftTurnKeeps(x, OuterTag(bg, x.tag, 1), InnerTag(bg, y.tag, 1), RootTag(bg));
    }
  }

  lemma RightBalancedKeeps(x: Tree)
    requires RightReady(x) && Unique(x)
    ensures var r := RightBalanced(x);
      r.Node? && Entries(r) == Entries(x) && Refs(r) == Refs(x) && Unique(r)
  {
    var y := x.left;
    if y.tag == 1 || y.tag == 0 {
      RightTurnKeeps(x, if y.tag == 1 then 0 else 1, if y.tag == 1 then 0 else -1);
    } else if y.tag == -1 {
      var bg := y.right.tag;
      LeftRightTurnKeeps(x, OuterTag(bg, x.tag, -1), InnerTag(bg, y.tag, -1), RootTag(bg));
    }
  }

  // ---------------------------------------------------------------------------
  // The retrace after an insertion (avl_tree.h:154-169) or a deletion (avl_tree.h:227-243)

  /**
   * The parent at `p` once the retrace has moved its bf one step toward the
   * side of `t` when `t` grew (avl_tree.h:156), or away from it when `t`
   * shrank (avl_tree.h:229).
   */
  function Tilted(p: Path, t: Tree, grown: bool): Tree
    requires !p.Top?
  {
    var step := if p.LeftOf? then 1 else -1;
    Parent(p, t).(tag := if grown then p.tag + step else p.tag - step)
  }

  /** What the retrace's balancing needs of the parent. */
  ghost predicate Ready(x: Tree)
  {
    x.Node? && (x.tag == 2 ==> RightReady(x)) && (x.tag == -2 ==> LeftReady(x))
  }

  /** R_Balance on bf 2, L_Balance on bf -2, the parent as it is otherwise (avl_tree.h:157-160, 230-233). */
  function Rebalanced(x: Tree): Tree
    requires x.Node? && (x.tag == 2 ==> RightReady(x)) && (x.tag == -2 ==> LeftReady(x))
  {
    if x.tag == 2 then RightBalanced(x) else if x.tag == -2 then LeftBalanced(x) else x
  }

  /**
   * Insert's retrace stands at `t`, balanced and one level taller than the
   * subtree it replaced, whose height the ancestors' bf still describe; `t`
   * is the new node or has bf -1 or 1.
   */
  ghost predicate Growing(p: Path, t: Tree)
  {
    t.Node? && Balanced(t) && PathBalanced(p, Height(t) - 1) && (Height(t) == 1 || t.tag != 0)
  }

  /**
   * One step of insert's retrace: the parent, tilted toward the taller side
   * and balanced, is balanced; it is as tall as before when its bf is 0, and
   * otherwise the retrace goes on from it.
   */
  lemma GrowStep(p: Path, t: Tree)
    requires Growing(p, t) && !p.Top?
    ensures Ready(Tilted(p, t, true))
    ensures var r := Rebalanced(Tilted(p, t, true));
      r.Node? && Balanced(r)
      && (r.tag == 0 ==> PathBalanced(p.up, Height(r)))
      && (r.tag != 0 ==> Growing(p.up, r))
  {
    var x := Tilted(p, t, true);
    TiltedGrown(p, t);
    if x.tag == 2 {
      RightBalancedFixes(x);
    } else if x.tag == -2 {
      LeftBalancedFixes(x);
    }
  }

  /** The parent tilted toward a subtree that grew: its bf is right, and its height tells whether it grew too. */
  lemma TiltedGrown(p: Path, t: Tree)
    requires Growing(p, t) && !p.Top?
    ensures var x := Tilted(p, t, true);
      Balanced(x.left) && Balanced(x.right) && x.tag == Height(x.left) - Height(x.right) && -2 <= x.tag <= 2
      && PathBalanced(p.up, if x.tag == 0 then Height(x) else Height(x) - 1)
      && (x.tag == 2 ==> x.left == t && t.tag != 0) && (x.tag == -2 ==> x.right == t && t.tag != 0)
  {
    var h: int, hs: int := Height(t), Height(Sibling(p));
    assert Balanced(Sibling(p)) && PathBalanced(p.up, 1 + Max(h - 1, hs));
  }

  /** Delete's retrace stands at `t`, balanced and one level lower than the subtree it replaced. */
  ghost predicate Shrunk(p: Path, t: Tree)
  {
    Balanced(t) && PathBalanced(p, Height(t) + 1)
  }

  /**
   * One step of delete's retrace: the parent, tilted away from the lower
   * side and balanced, is balanced; it is as tall as before when its bf is
   * -1 or 1, and otherwise one level lower, and the retrace goes on from it.
   */
  lemma ShrinkStep(p: Path, t: Tree)
    requires Shrunk(p, t) && !p.Top?
    ensures Ready(Tilted(p, t, false))
    ensures var r := Rebalanced(Tilted(p, t, false));
      r.Node? && Balanced(r)
      && (r.tag == 1 || r.tag == -1 ==> PathBalanced(p.up, Height(r)))
      && (r.tag != 1 && r.tag != -1 ==> Shrunk(p.up, r))
  {
    var x := Tilted(p, t, false);
    TiltedShrunk(p, t);
    if x.tag == 2 {
      RightBalancedFixes(x);
    } else if x.tag == -2 {
      LeftBalancedFixes(x);
    }
  }

  /** The parent tilted away from a subtree that shrank: its bf is right, and its height tells whether it shrank too. */
  lemma TiltedShrunk(p: Path, t: Tree)
    requires Shrunk(p, t) && !p.Top?
    ensures var x := Tilted(p, t, false);
      Balanced(x.left) && Balanced(x.right) && x.tag == Height(x.left) - Height(x.right) && -2 <= x.tag <= 2
      && PathBalanced(p.up, if x.tag == 0 then Height(x) + 1 else Height(x))
  {
    match p
    case LeftOf(r, g, k, v, rt, up) =>
      assert Tilted(p, t, false) == Node(t, r, g - 1, k, v, rt);
      LeftLowered(t, r, g, k, v, rt, up);
    case RightOf(lt, r, g, k, v, up) =>
      assert Tilted(p, t, false) == Node(lt, r, g + 1, k, v, t);
      RightLowered(lt, r, g, k, v, t, up);
  }

  /** TiltedShrunk when the lower subtree `t` is a left child. */
  lemma LeftLowered(t: Tree, r: Ref, g: int, k: int, v: int, rt: Tree, up: Path)
    requires Shrunk(LeftOf(r, g, k, v, rt, up), t)
    ensures var x := Node(t, r, g - 1, k, v, rt);
      Balanced(x.left) && Balanced(x.right) && x.tag == Height(x.left) - Height(x.right) && -2 <= x.tag <= 2
      && PathBalanced(up, if x.tag == 0 then Height(x) + 1 else Height(x))
  {
    var h, hr := Height(t), Height(rt);
    var x := Node(t, r, g - 1, k, v, rt);
    assert Height(x) == 1 + Max(h, hr);
    if g == 1 {
      assert 1 + Max(h + 1, hr) == Height(x) + 1;
    } else {
      assert 1 + Max(h + 1, hr) == Height(x);
    }
  }

  /** TiltedShrunk when the lower subtree `t` is a right child. */
  lemma RightLowered(lt: Tree, r: Ref, g: int, k: int, v: int, t: Tree, up: Path)
    requires Shrunk(RightOf(lt, r, g, k, v, up), t)
    ensures var x := Node(lt, r, g + 1, k, v, t);
      Balanced(x.left) && Balanced(x.right) && x.tag == Height(x.left) - Height(x.right) && -2 <= x.tag <= 2
      && PathBalanced(up, if x.tag == 0 then Height(x) + 1 else Height(x))
  {
    var h, hl := Height(t), Height(lt);
    var x := Node(lt, r, g + 1, k, v, t);
    assert Height(x) == 1 + Max(hl, h);
    if g == -1 {
      assert 1 + Max(hl, h + 1) == Height(x) + 1;
    } else {
      assert 1 + Max(hl, h + 1) == Height(x);
    }
  }

  /** Whatever the retrace does at the parent, the subtree keeps its entries and addresses. */
  lemma RebalancedKeeps(x: Tree)
    requires Ready(x) && Unique(x)
    ensures var r := Rebalanced(x);
      r.Node? && Entries(r) == Entries(x) && Refs(r) == Refs(x) && Unique(r)
  {
    if x.tag == 2 {
      RightBalancedKeeps(x);
    } else if x.tag == -2 {
      LeftBalancedKeeps(x);
    }
  }

  /** In a search tree a subtree is its parent's left one exactly when the parent's key is the larger. */
  lemma ChildSide(p: Path, t: Tree)
    requires !p.Top? && t.Node? && Ordered(Plug(p, t))
    ensures p.LeftOf? <==> p.key > t.key
  {
    RootEntry(p, t);
    var x, e, y := Before(p) + Entries(t.left), Entry(t.key, t.value), Entries(t.right) + After(p);
    Pivot(x, e, y);
    if p.LeftOf? {
      assert y[|Entries(t.right)|] == Entry(p.key, p.value);
    } else {
      assert x[|Before(p.up) + Entries(p.left)|] == Entry(p.key, p.value);
    }
  }

  // ---------------------------------------------------------------------------
  // The records under the rotations, the relink and the splice

  /** Only links and balance factors were written: the same addresses hold the same keys and values. */
  ghost predicate Rewired(n: Arena, n2: Arena)
  {
    n2.Keys == n.Keys && forall r :: r in n ==> n2[r].key == n[r].key && n2[r].value == n[r].value
  }

  /** A subtree none of whose records were written is still held. */
  lemma Kept(n: Arena, n2: Arena, s: Tree, parent: Ref, out: set<Ref>)
    requires LinkedTree(n, s, parent) && Unchanged(n, n2, out) && Refs(s) !! out
    ensures LinkedTree(n2, s, parent)
  {
    UnchangedAgree(n, n2, out, Refs(s));
    TreeFrame(n, n2, s, parent);
  }

  /** A subtree whose root record only had its parent rewritten, to `parent2`, hangs below `parent2`. */
  lemma Reparented(n: Arena, n2: Arena, s: Tree, parent: Ref, parent2: Ref, out: set<Ref>)
    requires LinkedTree(n, s, parent) && Unchanged(n, n2, out)
    requires s.Node? ==> s.ref in n2 && n2[s.ref] == n[s.ref].(parent := parent2) && Refs(s.left) !! out && Refs(s.right) !! out
    ensures LinkedTree(n2, s, parent2)
  {
    if s.Node? {
      Kept(n, n2, s.left, s.ref, out);
      Kept(n, n2, s.right, s.ref, out);
    }
  }

  /** What the single rotation of L_Balance (avl_tree.h:362-381) leaves in the records of `t`, whose root's parent is `parent`. */
  ghost predicate LeftTurnCells(n: Arena, n2: Arena, t: Tree, parent: Ref, tx: int, ty: int)
    requires t.Node? && t.right.Node?
  {
    var x, y, b := t.ref, t.right.ref, t.right.left;
    x in n2 && n2[x] == Cell(y, RootRef(t.left), RootRef(b), tx, t.key, t.value)
    && y in n2 && n2[y] == Cell(parent, x, RootRef(t.right.right), ty, t.right.key, t.right.value)
    && (b.Node? ==> b.ref in n && b.ref in n2 && n2[b.ref] == n[b.ref].(parent := x))
    && Unchanged(n, n2, {x, y, RootRef(b)}) && n2.Keys == n.Keys
  }

  /** What the single rotation of R_Balance (avl_tree.h:467-486) leaves in the records of `t`. */
  ghost predicate RightTurnCells(n: Arena, n2: Arena, t: Tree, parent: Ref, tx: int, ty: int)
    requires t.Node? && t.left.Node?
  {
    var x, y, b := t.ref, t.left.ref, t.left.right;
    x in n2 && n2[x] == Cell(y, RootRef(b), RootRef(t.right), tx, t.key, t.value)
    && y in n2 && n2[y] == Cell(parent, RootRef(t.left.left), x, ty, t.left.key, t.left.value)
    && (b.Node? ==> b.ref in n && b.ref in n2 && n2[b.ref] == n[b.ref].(parent := x))
    && Unchanged(n, n2, {x, y, RootRef(b)}) && n2.Keys == n.Keys
  }

  /** After the single rotation of L_Balance the records hold the turned subtree. */
  lemma TurnedLeft(n: Arena, n2: Arena, t: Tree, parent: Ref, tx: int, ty: int)
    requires LinkedTree(n, t, parent) && Unique(t) && Null !in n && t.Node? && t.right.Node?
    requires LeftTurnCells(n, n2, t, parent, tx, ty)
    ensures LinkedTree(n2, LeftTurn(t, tx, ty), parent) && Unchanged(n, n2, Refs(t)) && Rewired(n, n2)
  {
    var x, y, a, b, c := t.ref, t.right.ref, t.left, t.right.left, t.right.right;
    var out := {x, y, RootRef(b)};
    assert LinkedTree(n, t.right, x) && Unique(t.right);
    NullFree(a);
    NullFree(c);
    if b.Node? {
      assert Unique(b);
      NullFree(b.left);
      NullFree(b.right);
    }
    Kept(n, n2, a, x, out);
    Kept(n, n2, c, y, out);
    Reparented(n, n2, b, y, x, out);
    assert LinkedTree(n2, Node(a, x, tx, t.key, t.value, b), y);
  }

  /** After the single rotation of R_Balance the records hold the turned subtree. */
  lemma TurnedRight(n: Arena, n2: Arena, t: Tree, parent: Ref, tx: int, ty: int)
    requires LinkedTree(n, t, parent) && Unique(t) && Null !in n && t.Node? && t.left.Node?
    requires RightTurnCells(n, n2, t, parent, tx, ty)
    ensures LinkedTree(n2, RightTurn(t, tx, ty), parent) && Unchanged(n, n2, Refs(t)) && Rewired(n, n2)
  {
    var x, y, a, b, c := t.ref, t.left.ref, t.left.left, t.left.right, t.right;
    var out := {x, y, RootRef(b)};
    assert LinkedTree(n, t.left, x) && Unique(t.left);
    NullFree(a);
    NullFree(c);
    if b.Node? {
      assert Unique(b);
      NullFree(b.left);
      NullFree(b.right);
    }
    Kept(n, n2, a, y, out);
    Kept(n, n2, c, x, out);
    Reparented(n, n2, b, y, x, out);
    assert LinkedTree(n2, Node(b, x, tx, t.key, t.value, c), y);
  }

  /** What the double rotation of L_Balance (avl_tree.h:388-433) leaves in the records of `t`. */
  ghost predicate RightLeftCells(n: Arena, n2: Arena, t: Tree, parent: Ref, tx: int, ty: int, tg: int)
    requires t.Node? && t.right.Node? && t.right.left.Node?
  {
    var x, y, g := t.ref, t.right.ref, t.right.left.ref;
    var b, c := t.right.left.left, t.right.left.right;
    x in n2 && n2[x] == Cell(g, RootRef(t.left), RootRef(b), tx, t.key, t.value)
    && y in n2 && n2[y] == Cell(g, RootRef(c), RootRef(t.right.right), ty, t.right.key, t.right.value)
    && g in n2 && n2[g] == Cell(parent, x, y, tg, t.right.left.key, t.right.left.value)
    && (b.Node? ==> b.ref in n && b.ref in n2 && n2[b.ref] == n[b.ref].(parent := x))
    && (c.Node? ==> c.ref in n && c.ref in n2 && n2[c.ref] == n[c.ref].(parent := y))
    && Unchanged(n, n2, {x, y, g, RootRef(b), RootRef(c)})
    && n2.Keys == n.Keys
  }

  /** What the double rotation of R_Balance (avl_tree.h:492-538) leaves in the records of `t`. */
  ghost predicate LeftRightCells(n: Arena, n2: Arena, t: Tree, parent: Ref, tx: int, ty: int, tg: int)
    requires t.Node? && t.left.Node? && t.left.right.Node?
  {
    var x, y, g := t.ref, t.left.ref, t.left.right.ref;
    var b, c := t.left.right.left, t.left.right.right;
    y in n2 && n2[y] == Cell(g, RootRef(t.left.left), RootRef(b), ty, t.left.key, t.left.value)
    && x in n2 && n2[x] == Cell(g, RootRef(c), RootRef(t.right), tx, t.key, t.value)
    && g in n2 && n2[g] == Cell(parent, y, x, tg, t.left.right.key, t.left.right.value)
    && (b.Node? ==> b.ref in n && b.ref in n2 && n2[b.ref] == n[b.ref].(parent := y))
    && (c.Node? ==> c.ref in n && c.ref in n2 && n2[c.ref] == n[c.ref].(parent := x))
    && Unchanged(n, n2, {x, y, g, RootRef(b), RootRef(c)})
    && n2.Keys == n.Keys
  }

  /**
   * The records of `(a x b) g (c y d)` once a double rotation has written
   * `x`, `g` and `y` and given `b` and `c` their new parents.
   */
  lemma DoubleLinked(n: Arena, n2: Arena, a: Tree, x: Ref, b: Tree, g: Ref, c: Tree, y: Ref, d: Tree, parent: Ref,
                     tx: int, ty: int, tg: int, kx: int, vx: int, kg: int, vg: int, ky: int, vy: int)
    requires Unique(Node(Node(a, x, tx, kx, vx, b), g, tg, kg, vg, Node(c, y, ty, ky, vy, d)))
    requires LinkedTree(n, a, x) && LinkedTree(n, b, g) && LinkedTree(n, c, g) && LinkedTree(n, d, y)
    requires x in n2 && n2[x] == Cell(g, RootRef(a), RootRef(b), tx, kx, vx)
    requires y in n2 && n2[y] == Cell(g, RootRef(c), RootRef(d), ty, ky, vy)
    requires g in n2 && n2[g] == Cell(parent, x, y, tg, kg, vg)
    requires b.Node? ==> b.ref in n2 && n2[b.ref] == n[b.ref].(parent := x)
    requires c.Node? ==> c.ref in n2 && n2[c.ref] == n[c.ref].(parent := y)
    requires Unchanged(n, n2, {x, y, g, RootRef(b), RootRef(c)})
    ensures LinkedTree(n2, Node(Node(a, x, tx, kx, vx, b), g, tg, kg, vg, Node(c, y, ty, ky, vy, d)), parent)
  {
    var out := {x, y, g, RootRef(b), RootRef(c)};
    var l, r := Node(a, x, tx, kx, vx, b), Node(c, y, ty, ky, vy, d);
    assert Unique(l) && Unique(r);
    NullFree(a);
    NullFree(d);
    Kept(n, n2, a, x, out);
    Kept(n, n2, d, y, out);
    if b.Node? {
      assert Unique(b);
      NullFree(b.left);
      NullFree(b.right);
    }
    if c.Node? {
      assert Unique(c);
      NullFree(c.left);
      NullFree(c.right);
    }
    Reparented(n, n2, b, g, x, out);
    Reparented(n, n2, c, g, y, out);
  }

  /** After the double rotation of L_Balance the records hold the turned subtree. */
  lemma TurnedRightLeft(n: Arena, n2: Arena, t: Tree, parent: Ref, tx: int, ty: int, tg: int)
    requires LinkedTree(n, t, parent) && Unique(t) && Null !in n && t.Node? && t.right.Node? && t.right.left.Node?
    requires RightLeftCells(n, n2, t, parent, tx, ty, tg)
    ensures LinkedTree(n2, RightLeftTurn(t, tx, ty, tg), parent) && Unchanged(n, n2, Refs(t)) && Rewired(n, n2)
  {
    var y, g := t.right, t.right.left;
    RightLeftTurnKeeps(t, tx, ty, tg);
    assert LinkedTree(n, y, t.ref) && LinkedTree(n, g, y.ref);
    DoubleLinked(n, n2, t.left, t.ref, g.left, g.ref, g.right, y.ref, y.right, parent,
      tx, ty, tg, t.key, t.value, g.key, g.value, y.key, y.value);
    assert n[t.ref].key == t.key && n[y.ref].key == y.key && n[g.ref].key == g.key;
    assert n[t.ref].value == t.value && n[y.ref].value == y.value && n[g.ref].value == g.value;
    assert t.ref in Refs(t) && y.ref in Refs(t) && g.ref in Refs(t);
    assert g.left.Node? ==> g.left.ref in Refs(t);
    assert g.right.Node? ==> g.right.ref in Refs(t);
  }

  /** After the double rotation of R_Balance the records hold the turned subtree. */
  lemma TurnedLeftRight(n: Arena, n2: Arena, t: Tree, parent: Ref, tx: int, ty: int, tg: int)
    requires LinkedTree(n, t, parent) && Unique(t) && Null !in n && t.Node? && t.left.Node? && t.left.right.Node?
    requires LeftRightCells(n, n2, t, parent, tx, ty, tg)
    ensures LinkedTree(n2, LeftRightTurn(t, tx, ty, tg), parent) && Unchanged(n, n2, Refs(t)) && Rewired(n, n2)
  {
    var y, g := t.left, t.left.right;
    LeftRightTurnKeeps(t, tx, ty, tg);
    assert LinkedTree(n, y, t.ref) && LinkedTree(n, g, y.ref);
    DoubleLinked(n, n2, y.left, y.ref, g.left, g.ref, g.right, t.ref, t.right, parent,
      ty, tx, tg, y.key, y.value, g.key, g.value, t.key, t.value);
    assert n[t.ref].key == t.key && n[y.ref].key == y.key && n[g.ref].key == g.key;
    assert n[t.ref].value == t.value && n[y.ref].value == y.value && n[g.ref].value == g.value;
    assert t.ref in Refs(t) && y.ref in Refs(t) && g.ref in Refs(t);
    assert g.left.Node? ==> g.left.ref in Refs(t);
    assert g.right.Node? ==> g.right.ref in Refs(t);
  }

  /**
   * The subtree `r`, whose records already hang below the parent of the
   * subtree `t` it replaces, is in place once that parent, or the head,
   * points at its root (avl_tree.h:443-451, 548-556).
   */
  lemma Rehung(n0: Arena, n1: Arena, n2: Arena, root: Ref, root2: Ref, p: Path, t: Tree, r: Tree)
    requires Focused(n0, root, p, t) && t.Node? && r.Node?
    requires LinkedTree(n1, r, FrameRef(p)) && Unique(r) && Refs(r) == Refs(t) && Unchanged(n0, n1, Refs(t))
    requires Relinked(n1, n2, root, root2, p, t.ref, r.ref) && Unchanged(n1, n2, FrameRefs(p))
    ensures Focused(n2, root2, p, r)
  {
    assert FrameRefs(p) <= PathRefs(p);
    UnchangedAgree(n0, n1, Refs(t), PathRefs(p));
    PathFrame(n0, n1, root, p, t.ref);
    UnchangedAgree(n1, n2, FrameRefs(p), PathRefs(p) - FrameRefs(p));
    Relink(n1, n2, root, root2, p, t.ref, r.ref);
    Kept(n1, n2, r, FrameRef(p), FrameRefs(p));
  }

  /**
   * Cutting out a node with an empty side (avl_tree.h:192-199, 205-229): its
   * only child, if it has one, takes its parent, and the parent, or the
   * head, takes the child.
   */
  lemma Bypassed(n: Arena, n2: Arena, root: Ref, root2: Ref, p: Path, t: Tree)
    requires Focused(n, root, p, t) && t.Node? && (t.left.Leaf? || t.right.Leaf?)
    requires var c := SpliceChild(t);
      (c.Node? ==> c.ref in n && c.ref in n2 && n2[c.ref] == n[c.ref].(parent := FrameRef(p)))
      && Relinked(n, n2, root, root2, p, t.ref, RootRef(c))
      && Unchanged(n, n2, FrameRefs(p) + (if c.Node? then {c.ref} else {}))
    ensures Focused(n2, root2, p, SpliceChild(t))
  {
    var c := SpliceChild(t);
    var out := FrameRefs(p) + (if c.Node? then {c.ref} else {});
    assert FrameRefs(p) <= PathRefs(p);
    assert LinkedTree(n, c, t.ref) && Unique(c) && Refs(c) <= Refs(t);
    if c.Node? {
      assert Refs(c) == Refs(c.left) + {c.ref} + Refs(c.right);
    }
    Reparented(n, n2, c, t.ref, FrameRef(p), out);
    UnchangedAgree(n, n2, out, PathRefs(p) - FrameRefs(p));
    Relink(n, n2, root, root2, p, t.ref, RootRef(c));
  }

  /** Cutting out a node with an empty side leaves the subtree one level lower, its child, balanced. */
  lemma SpliceShrinks(p: Path, t: Tree)
    requires Balanced(Plug(p, t)) && t.Node? && (t.left.Leaf? || t.right.Leaf?)
    ensures Shrunk(p, SpliceChild(t))
  {
    PlugBalanced(p, t);
    assert Height(t) == 1 + Height(SpliceChild(t));
  }

  /**
   * Unhooking the in-order predecessor `r` of `d` (avl_tree.h:186-199),
   * before any key moves: `r`'s entry leaves the in-order walk and `d`'s stays.
   */
  lemma UnhookEntries(p: Path, d: Tree, q: Path, r: Tree)
    requires d.Node? && RightSpine(q) && Plug(q, r) == d.left && r.Node? && r.right.Leaf?
    ensures var x := Before(p) + Before(q) + Entries(r.left);
      var e, y := Entry(d.key, d.value), Entries(d.right) + After(p);
      Entries(Plug(p, d)) == x + [Entry(r.key, r.value)] + ([e] + y)
      && Entries(Plug(Graft(q, LeftOf(d.ref, d.tag, d.key, d.value, d.right, p)), r.left)) == x + [e] + y
  {
    UnhookBefore(p, d, q, r);
    UnhookAfter(p, d, q, r);
  }

  lemma UnhookBefore(p: Path, d: Tree, q: Path, r: Tree)
    requires d.Node? && RightSpine(q) && Plug(q, r) == d.left && r.Node? && r.right.Leaf?
    ensures Entries(Plug(p, d)) == Before(p) + Before(q) + Entries(r.left) + [Entry(r.key, r.value)]
                                   + ([Entry(d.key, d.value)] + (Entries(d.right) + After(p)))
  {
    var B, Q, L := Before(p), Before(q), Entries(r.left);
    var e, R, y := Entry(d.key, d.value), Entry(r.key, r.value), Entries(d.right) + After(p);
    PredecessorEntries(p, d, q, r);
    SeqAssoc(B + Q + L + [R], [e], y);
  }

  lemma UnhookAfter(p: Path, d: Tree, q: Path, r: Tree)
    requires d.Node? && RightSpine(q) && r.Node?
    ensures Entries(Plug(Graft(q, LeftOf(d.ref, d.tag, d.key, d.value, d.right, p)), r.left))
            == Before(p) + Before(q) + Entries(r.left) + [Entry(d.key, d.value)] + (Entries(d.right) + After(p))
  {
    var f := LeftOf(d.ref, d.tag, d.key, d.value, d.right, p);
    var B, Q, L := Before(p), Before(q), Entries(r.left);
    var e, y := Entry(d.key, d.value), Entries(d.right) + After(p);
    GraftEntries(q, f);
    PlugEntries(Graft(q, f), r.left);
    assert Before(f) == B && After(f) == [e] + y;
    SeqAssoc(B + Q + L, [e], y);
  }

  lemma SeqAssoc<T>(a: seq<T>, b: seq<T>, c: seq<T>)
    ensures a + b + c == a + (b + c)
  {
  }

  // ---------------------------------------------------------------------------
  // The fewest nodes a tree of a given depth can have (avl_tree.h:10-67)

  /** MN(d): the fewest nodes of a balanced tree of height `d`. */
  function MinNodes(d: nat): nat
  {
    if d == 0 then 0 else if d == 1 then 1 else MinNodes(d - 1) + MinNodes(d - 2) + 1
  }

  lemma {:induction false} MinNodesGrow(a: nat, b: nat)
    requires a <= b
    ensures MinNodes(a) <= MinNodes(b)
    decreases b
  {
    if a < b {
      MinNodesGrow(a, b - 1);
    }
  }

  /** A balanced tree of height `d` has at least MN(d) nodes. */
  lemma {:induction false} FewestNodes(t: Tree)
    requires Balanced(t)
    ensures Size(t) >= MinNodes(Height(t))
  {
    if t.Node? {
      FewestNodes(t.left);
      FewestNodes(t.right);
      var h := Height(t);
      if h >= 2 {
        if Height(t.left) == h - 1 {
          MinNodesGrow(h - 2, Height(t.right));
        } else {
          MinNodesGrow(h - 2, Height(t.left));
        }
      }
    }
  }

  /** The sparsest balanced tree of height `d`: each node's left subtree is one level taller than its right one. */
  function Sparsest(d: nat): Tree
  {
    if d == 0 then Leaf
    else if d == 1 then Node(Leaf, d, 0, 0, 0, Leaf)
    else Node(Sparsest(d - 1), d, 1, 0, 0, Sparsest(d - 2))
  }

  /** MN(d) is reached: the sparsest tree of height `d` is balanced and has MN(d) nodes. */
  lemma {:induction false} SparsestReaches(d: nat)
    ensures Balanced(Sparsest(d)) && Height(Sparsest(d)) == d && Size(Sparsest(d)) == MinNodes(d)
  {
    SparsestHeight(d);
    SparsestSize(d);
    SparsestBalanced(d);
  }

  /** The sparsest tree of height `d` has height `d`. */
  lemma {:induction false} SparsestHeight(d: nat)
    ensures Height(Sparsest(d)) == d
  {
    if d >= 2 {
      SparsestHeight(d - 1);
      SparsestHeight(d - 2);
    }
  }

  /** The sparsest tree of height `d` has MN(d) nodes. */
  lemma {:induction false} SparsestSize(d: nat)
    ensures Size(Sparsest(d)) == MinNodes(d)
  {
    if d >= 2 {
      SparsestSize(d - 1);
      SparsestSize(d - 2);
    }
  }

  /** The sparsest tree of height `d` is balanced: its root's subtrees differ in height by one. */
  lemma {:induction false} SparsestBalanced(d: nat)
    ensures Balanced(Sparsest(d))
  {
    if d >= 2 {
      SparsestBalanced(d - 1);
      SparsestBalanced(d - 2);
      SparsestHeight(d - 1);
      SparsestHeight(d - 2);
    }
  }

  /** The table of MN(d) for d from 2 to 45 in avl_tree.h:24-67. */
  const DepthTable: seq<nat> := [
    2, 4, 7, 12, 20, 33, 54, 88, 143, 232, 376, 609, 986, 1596, 2583, 4180, 6764, 10945, 17710,
    28656, 46367, 75024, 121392, 196417, 317810, 514228, 832039, 1346268, 2178308, 3524577,
    5702886, 9227464, 14930351, 24157816, 39088168, 63245985, 102334154, 165580140, 267914295,
    433494436, 701408732, 1134903169, 1836311902, 2971215072]

  /** Each row of the table is MN of its depth. */
  lemma DepthTableRows()
    ensures forall d :: 2 <= d <= 45 ==> MinNodes(d) == DepthTable[d - 2]
  {
    assert MinNodes(2) == 2;
    assert MinNodes(3) == 4;
    assert MinNodes(4) == 7;
    assert MinNodes(5) == 12;
    assert MinNodes(6) == 20;
    assert MinNodes(7) == 33;
    assert MinNodes(8) == 54;
    assert MinNodes(9) == 88;
    assert MinNodes(10) == 143;
    assert MinNodes(11) == 232;
    assert MinNodes(12) == 376;
    assert MinNodes(13) == 609;
    assert MinNodes(14) == 986;
    assert MinNodes(15) == 1596;
    assert MinNodes(16) == 2583;
    assert MinNodes(17) == 4180;
    assert MinNodes(18) == 6764;
    assert MinNodes(19) == 10945;
    assert MinNodes(20) == 17710;
    assert MinNodes(21) == 28656;
    assert MinNodes(22) == 46367;
    assert MinNodes(23) == 75024;
    assert MinNodes(24) == 121392;
    assert MinNodes(25) == 196417;
    assert MinNodes(26) == 317810;
    assert MinNodes(27) == 514228;
    assert MinNodes(28) == 832039;
    assert MinNodes(29) == 1346268;
    assert MinNodes(30) == 2178308;
    assert MinNodes(31) == 3524577;
    assert MinNodes(32) == 5702886;
    assert MinNodes(33) == 9227464;
    assert MinNodes(34) == 14930351;
    assert MinNodes(35) == 24157816;
    assert MinNodes(36) == 39088168;
    assert MinNodes(37) == 63245985;
    assert MinNodes(38) == 102334154;
    assert MinNodes(39) == 165580140;
    assert MinNodes(40) == 267914295;
    assert MinNodes(41) == 433494436;
    assert MinNodes(42) == 701408732;
    assert MinNodes(43) == 1134903169;
    assert MinNodes(44) == 1836311902;
    assert MinNodes(45) == 2971215072;
  }

  // ---------------------------------------------------------------------------
  // Searching (avl_tree.h:302-349)

  /**
   * The recursive Search (avl_tree.h:302-318) on the tree: 0 and the node
   * holding `k`, or -1 and the last node the descent passed (`parent` when
   * the subtree is empty).
   */
  function Descent(t: Tree, parent: Ref, k: int): (int, Ref)
  {
    if t.Leaf? then (-1, parent)
    else if t.key == k then (0, t.ref)
    else if t.key > k then Descent(t.left, t.ref, k)
    else Descent(t.right, t.ref, k)
  }

  /** A search that reached an empty subtree below a node came from its left exactly when `k` is below the node's key. */
  lemma BelowParent(p: Path, k: int)
    requires !p.Top? && Between(p, k)
    ensures p.LeftOf? <==> k < p.key
  {
    SideOf(p, k);
    if p.LeftOf? {
      assert After(p)[0] == Entry(p.key, p.value);
    }
  }

  // ---------------------------------------------------------------------------
  // The tree the records hold

  /** The records hold the AVL tree `t` of `size` nodes below `head`; NULL has no record. */
  ghost predicate Holds(n: Arena, head: Ref, size: int, t: Tree)
  {
    Null !in n && Focused(n, head, Top, t) && IsAVL(t) && size == Size(t)
  }

  /** A retrace that kept the entries and the addresses leaves an AVL tree of the same size held. */
  lemma Retraced(n1: Arena, n: Arena, head: Ref, last: int, w: Tree, before: Tree)
    requires Bounded(n1, last) && Null !in n1 && Rewired(n1, n)
    requires Focused(n, head, Top, w) && Balanced(w) && Entries(w) == Entries(before) && Ordered(before)
    ensures Bounded(n, last) && Holds(n, head, Size(before), w) && Contents(w) == Contents(before)
  {
    SizeEntries(w);
    SizeEntries(before);
  }

  /** Records rewired without a change of addresses keep within the same bound. */
  lemma RewiredBounded(n0: Arena, n: Arena, last: int)
    requires Bounded(n0, last) && Rewired(n0, n)
    ensures Bounded(n, last)
  {
  }

  /** A tree whose entries are another's less one has one node fewer. */
  lemma OneFewer(before: Tree, after: Tree, xs: seq<Entry>, c: Entry, e: Entry, ys: seq<Entry>)
    requires Entries(before) == xs + [c] + [e] + ys && Entries(after) == xs + [e] + ys
    ensures Size(before) == Size(after) + 1
  {
    SizeEntries(before);
    SizeEntries(after);
  }

  /** The retilted parent has the entries, addresses and uniqueness of the parent. */
  lemma TiltedKeeps(p: Path, t: Tree, grown: bool)
    requires !p.Top?
    ensures Entries(Plug(p.up, Tilted(p, t, grown))) == Entries(Plug(p, t))
    ensures Refs(Plug(p.up, Tilted(p, t, grown))) == Refs(Plug(p, t))
    ensures Refs(Tilted(p, t, grown)) == Refs(Parent(p, t)) && Unique(Tilted(p, t, grown)) == Unique(Parent(p, t))
  {
    PlugSameEntries(p.up, Tilted(p, t, grown), Parent(p, t));
    PlugSameRefs(p.up, Tilted(p, t, grown), Parent(p, t));
  }

  /** A key and value written into a node leave every balance factor right. */
  lemma RelabelBalanced(q: Path, s: Tree, k: int, v: int)
    requires s.Node? && Balanced(Plug(q, s))
    ensures Balanced(Plug(q, s.(key := k, value := v)))
  {
    PlugBalanced(q, s);
    PlugBalanced(q, s.(key := k, value := v));
  }

  /**
   * Insert's retrace stands at `t`, the subtree of `child`, below the node
   * `prev`; the tree keeps the entries `E` and the records keep the keys
   * and values of `n0`.
   */
  ghost predicate Rising(n: Arena, head: Ref, child: Ref, prev: Ref, p: Path, t: Tree, E: seq<Entry>, n0: Arena)
  {
    Focused(n, head, p, t) && Growing(p, t) && child == t.ref && prev == FrameRef(p) && Null !in n
    && Entries(Plug(p, t)) == E && Increasing(E) && Rewired(n0, n)
  }

  /**
   * Delete's retrace stands at `t` below the node `prev`; `child` is the
   * node whose key tells which side of `prev` lost height.
   */
  ghost predicate Sinking(n: Arena, head: Ref, child: Ref, prev: Ref, p: Path, t: Tree, E: seq<Entry>, A: set<Ref>, n0: Arena)
  {
    Focused(n, head, p, t) && Shrunk(p, t) && prev == FrameRef(p) && Null !in n
    && child in n && (!p.Top? ==> (p.LeftOf? <==> p.key > n[child].key))
    && Entries(Plug(p, t)) == E && Increasing(E) && Refs(Plug(p, t)) == A && Rewired(n0, n)
  }

  /** Rewiring twice is rewiring. */
  lemma RewiredTwice(n0: Arena, n1: Arena, n2: Arena)
    requires Rewired(n0, n1) && Rewired(n1, n2)
    ensures Rewired(n0, n2)
  {
  }

  /**
   * Splicing out a node with an empty side (avl_tree.h:201-229) removes its
   * entry and its address and leaves the subtree one level lower.
   */
  lemma SpliceRemoves(p: Path, d: Tree)
    requires d.Node? && (d.left.Leaf? || d.right.Leaf?) && IsAVL(Plug(p, d)) && Unique(d) && d.ref !in PathRefs(p)
    ensures var w := Plug(p, SpliceChild(d));
      Increasing(Entries(w)) && Contents(w) == Contents(Plug(p, d)) - {d.key}
      && Size(w) + 1 == Size(Plug(p, d)) && Shrunk(p, SpliceChild(d)) && d.ref !in Refs(w)
  {
    SpliceEntries(p, d);
    Unslot(Before(p) + Entries(d.left), Entry(d.key, d.value), Entries(d.right) + After(p));
    SpliceShrinks(p, d);
    PlugRefs(p, SpliceChild(d));
    SizeEntries(Plug(p, d));
    SizeEntries(Plug(p, SpliceChild(d)));
  }

  /**
   * Unhooking the predecessor `r` of `d` (avl_tree.h:184-199): `r`'s entry
   * `c` leaves the in-order walk, `d`'s entry `e` stays, and the subtree below
   * the cut is one level lower.
   */
  lemma UnhookRemoves(p: Path, d: Tree, q: Path, r: Tree) returns (xs: seq<Entry>, e: Entry, ys: seq<Entry>, c: Entry)
    requires d.Node? && RightSpine(q) && Plug(q, r) == d.left && r.Node? && r.right.Leaf? && IsAVL(Plug(p, d))
    ensures var P := Graft(q, LeftOf(d.ref, d.tag, d.key, d.value, d.right, p));
      e == Entry(d.key, d.value) && c == Entry(r.key, r.value)
      && Entries(Plug(P, r.left)) == xs + [e] + ys && Entries(Plug(p, d)) == xs + [c] + [e] + ys
      && Increasing(xs + [e] + ys) && Increasing(xs + [c] + [e] + ys)
  {
    xs, e, ys, c := Before(p) + Before(q) + Entries(r.left), Entry(d.key, d.value), Entries(d.right) + After(p), Entry(r.key, r.value);
    UnhookEntries(p, d, q, r);
    Unslot(xs, c, [e] + ys);
    SeqAssoc(xs, [e], ys);
    SeqAssoc(xs + [c], [e], ys);
  }

  /** Where the predecessor `r` of `d` sits: below `d`'s left spine, and one level lower once unhooked. */
  lemma UnhookShape(p: Path, d: Tree, q: Path, r: Tree)
    requires d.Node? && RightSpine(q) && Plug(q, r) == d.left && r.Node? && r.right.Leaf? && IsAVL(Plug(p, d))
    requires Unique(r) && r.ref !in PathRefs(Graft(q, LeftOf(d.ref, d.tag, d.key, d.value, d.right, p)))
    ensures var P := Graft(q, LeftOf(d.ref, d.tag, d.key, d.value, d.right, p));
      !P.Top? && Plug(P, r) == Plug(p, d) && Shrunk(P, r.left)
      && r.ref !in Refs(Plug(P, r.left)) && d.ref in Refs(Plug(P, r.left))
  {
    var F := LeftOf(d.ref, d.tag, d.key, d.value, d.right, p);
    var P := Graft(q, F);
    assert !P.Top?;
    PlugGraft(q, F, r);
    GraftRefs(q, F);
    assert SpliceChild(r) == r.left;
    SpliceShrinks(P, r);
    PlugRefs(P, r.left);
  }

  // ---------------------------------------------------------------------------
  // The tree object

  /**
   * class AVLTree (avl_tree.h:79-581). `nodes` is the memory the nodes live
   * in, `head` is `avl_head` and `size` is `size`; `lastAddress` is the
   * highest address handed out so far, so that a new node gets an address
   * no record uses. `tree` is the ghost tree the records hold.
   */
  class AVLTree {
    var nodes: Arena
    var head: Ref
    var size: int
    var lastAddress: nat
    ghost var tree: Tree

    /** The records hold an AVL tree of `size` nodes below `head`. */
    ghost predicate Valid()
      reads this
    {
      Bounded(nodes, lastAddress) && Holds(nodes, head, size, tree)
    }

    /** The key-value map the tree holds. */
    ghost function Mapping(): map<int, int>
      reads this
    {
      Contents(tree)
    }

    /** AVLTree() (avl_tree.h:83-88): no nodes, `avl_head` NULL, `size` 0. */
    constructor ()
      ensures Valid() && head == Null && size == 0 && Mapping() == map[]
    {
      nodes := map[];
      head := Null;
      size := 0;
      lastAddress := 0;
      tree := Leaf;
    }

    /**
     * The iterative Search (avl_tree.h:326-349): 0 and the node holding `k`,
     * or -1 and the last node the descent passed, NULL for an empty tree,
     * under which `k` belongs. It gives what the recursive Search gives.
     */
    method Search(k: int) returns (r: int, at: Ref, ghost p: Path, ghost t: Tree)
      requires Valid()
      ensures Focused(nodes, head, p, t) && Plug(p, t) == tree
      ensures r == 0 || r == -1
      ensures r == 0 <==> k in Mapping()
      ensures r == 0 ==> t.Node? && t.key == k && at == t.ref && Mapping()[k] == t.value
      ensures r == -1 ==> t.Leaf? && at == FrameRef(p) && Between(p, k)
      ensures (r, at) == Descent(tree, Null, k)
    {
      var cur := head;
      var prev := Null;
      p, t := Top, tree;
      while cur != Null
        invariant Focused(nodes, head, p, t) && Plug(p, t) == tree && Between(p, k)
        invariant cur == RootRef(t) && prev == FrameRef(p)
        invariant Descent(t, prev, k) == Descent(tree, Null, k)
        decreases Size(t)
      {
        RootCell(nodes, head, p, t);
        prev := cur;
        if nodes[cur].key == k {
          break;
        } else if nodes[cur].key > k {
          BetweenLeft(p, t, k);
          DescendLeft(nodes, head, p, t);
          cur := nodes[cur].left;
          p, t := LeftOf(t.ref, t.tag, t.key, t.value, t.right, p), t.left;
        } else {
          BetweenRight(p, t, k);
          DescendRight(nodes, head, p, t);
          cur := nodes[cur].right;
          p, t := RightOf(t.left, t.ref, t.tag, t.key, t.value, p), t.right;
        }
      }
      if cur == Null {
        NotFound(p, k);
        return -1, prev, p, t;
      }
      Found(p, t);
      r, at := 0, cur;
    }

    /**
     * The recursive Search (avl_tree.h:302-318), from the subtree `t` whose
     * root is `T` and whose parent is `parent`.
     */
    method SearchFrom(T: Ref, parent: Ref, k: int, ghost p: Path, ghost t: Tree)
      returns (r: int, at: Ref, ghost q: Path, ghost s: Tree)
      requires Focused(nodes, head, p, t) && T == RootRef(t) && parent == FrameRef(p)
      requires Between(p, k) && Ordered(Plug(p, t))
      ensures Focused(nodes, head, q, s) && Plug(q, s) == Plug(p, t)
      ensures r == 0 || r == -1
      ensures r == 0 <==> k in Contents(Plug(p, t))
      ensures r == 0 ==> s.Node? && s.key == k && at == s.ref && Contents(Plug(p, t))[k] == s.value
      ensures r == -1 ==> s.Leaf? && at == FrameRef(q) && Between(q, k)
      ensures (r, at) == Descent(t, parent, k)
      decreases t
    {
      if T == Null {
        NotFound(p, k);
        return -1, parent, p, t;
      }
      RootCell(nodes, head, p, t);
      if nodes[T].key == k {
        Found(p, t);
        return 0, T, p, t;
      } else if nodes[T].key > k {
        BetweenLeft(p, t, k);
        DescendLeft(nodes, head, p, t);
        r, at, q, s := SearchFrom(nodes[T].left, T, k, LeftOf(t.ref, t.tag, t.key, t.value, t.right, p), t.left);
      } else {
        BetweenRight(p, t, k);
        DescendRight(nodes, head, p, t);
        r, at, q, s := SearchFrom(nodes[T].right, T, k, RightOf(t.left, t.ref, t.tag, t.key, t.value, p), t.right);
      }
    }

    /** SearchNode (avl_tree.h:264-272): 0 and the key's value when present, else -1 with `retValue` left as it was. */
    method SearchNode(retValue: int, k: int) returns (r: int, v: int)
      requires Valid()
      ensures r == 0 || r == -1
      ensures r == 0 <==> k in Mapping()
      ensures r == 0 ==> v == Mapping()[k]
      ensures r == -1 ==> v == retValue
    {
      var at: Ref;
      ghost var p: Path, t: Tree;
      r, at, p, t := Search(k);
      if r == 0 {
        RootCell(nodes, head, p, t);
        return 0, nodes[at].value;
      }
      return -1, retValue;
    }
  
    /**
     * The writes of the single rotation of L_Balance (avl_tree.h:360-385):
     * `x`'s right child `y` takes `x`'s parent, `x` becomes `y`'s left child
     * and takes `y`'s old left child `b`; `y` and `x` get bf 0 and 0 when `y`
     * had -1, and 1 and -1 otherwise.
     */
    method LeftTurnWrites(x: Ref) returns (y: Ref)
      requires x in nodes && nodes[x].right in nodes && nodes[x].right != x
      requires var b := nodes[nodes[x].right].left; b != Null ==> b in nodes && b != x && b != nodes[x].right
      modifies this`nodes
      ensures y == old(nodes)[x].right
      ensures var n := old(nodes); var b := n[y].left;
        nodes.Keys == n.Keys
        && nodes[x] == n[x].(parent := y, right := b, tag := if n[y].tag == -1 then 0 else -1)
        && nodes[y] == n[y].(parent := n[x].parent, left := x, tag := if n[y].tag == -1 then 0 else 1)
        && (b != Null ==> nodes[b] == n[b].(parent := x))
        && Unchanged(n, nodes, {x, y, b})
    {
      var m := nodes;
      y := m[x].right;
      m := m[y := m[y].(parent := m[x].parent)];
      m := m[x := m[x].(parent := y)];
      if m[y].left != Null {
        m := m[m[y].left := m[m[y].left].(parent := x)];
      }
      m := m[x := m[x].(right := m[y].left)];
      m := m[y := m[y].(left := x)];
      if m[y].tag == -1 {
        m := m[y := m[y].(tag := 0)];
        m := m[x := m[x].(tag := 0)];
      } else {
        m := m[y := m[y].(tag := 1)];
        m := m[x := m[x].(tag := -1)];
      }
      nodes := m;
    }

    /**
     * The single rotation of L_Balance (avl_tree.h:360-385): `x`'s right
     * child `y` takes its place; `y` and `x` get bf 0 and 0 when `y` had -1,
     * and 1 and -1 when it had 0.
     */
    method TurnLeft(x: Ref, ghost t: Tree, ghost parent: Ref) returns (y: Ref)
      requires t.Node? && LinkedTree(nodes, t, parent) && Unique(t) && Null !in nodes && x == t.ref
      requires t.right.Node? && (t.right.tag == -1 || t.right.tag == 0)
      modifies this`nodes
      ensures LinkedTree(nodes, LeftBalanced(t), parent) && y == t.right.ref
      ensures Unchanged(old(nodes), nodes, Refs(t)) && Rewired(old(nodes), nodes)
    {
      ghost var n0 := nodes;
      ghost var b := t.right.left;
      assert LinkedTree(nodes, t.right, x) && Unique(t.right);
      assert b.Node? ==> LinkedTree(nodes, b, t.right.ref) && b.ref in Refs(t.right) && b.ref != Null;
      assert x != t.right.ref && (b.Node? ==> b.ref != x && b.ref != t.right.ref);
      y := LeftTurnWrites(x);
      ghost var tx, ty := if t.right.tag == -1 then 0 else -1, if t.right.tag == -1 then 0 else 1;
      assert LeftTurnCells(n0, nodes, t, parent, tx, ty);
      TurnedLeft(n0, nodes, t, parent, tx, ty);
    }

    /** The writes of the single rotation of R_Balance (avl_tree.h:465-489), the mirror image of LeftTurnWrites. */
    method RightTurnWrites(x: Ref) returns (y: Ref)
      requires x in nodes && nodes[x].left in nodes && nodes[x].left != x
      requires var b := nodes[nodes[x].left].right; b != Null ==> b in nodes && b != x && b != nodes[x].left
      modifies this`nodes
      ensures y == old(nodes)[x].left
      ensures var n := old(nodes); var b := n[y].right;
        nodes.Keys == n.Keys
        && nodes[x] == n[x].(parent := y, left := b, tag := if n[y].tag == 1 then 0 else 1)
        && nodes[y] == n[y].(parent := n[x].parent, right := x, tag := if n[y].tag == 1 then 0 else -1)
        && (b != Null ==> nodes[b] == n[b].(parent := x))
        && Unchanged(n, nodes, {x, y, b})
    {
      var m := nodes;
      y := m[x].left;
      m := m[y := m[y].(parent := m[x].parent)];
      m := m[x := m[x].(parent := y)];
      if m[y].right != Null {
        m := m[m[y].right := m[m[y].right].(parent := x)];
      }
      m := m[x := m[x].(left := m[y].right)];
      m := m[y := m[y].(right := x)];
      if m[y].tag == 1 {
        m := m[y := m[y].(tag := 0)];
        m := m[x := m[x].(tag := 0)];
      } else {
        m := m[y := m[y].(tag := -1)];
        m := m[x := m[x].(tag := 1)];
      }
      nodes := m;
    }

    /** The single rotation of R_Balance (avl_tree.h:465-489), the mirror image of TurnLeft. */
    method TurnRight(x: Ref, ghost t: Tree, ghost parent: Ref) returns (y: Ref)
      requires t.Node? && LinkedTree(nodes, t, parent) && Unique(t) && Null !in nodes && x == t.ref
      requires t.left.Node? && (t.left.tag == 1 || t.left.tag == 0)
      modifies this`nodes
      ensures LinkedTree(nodes, RightBalanced(t), parent) && y == t.left.ref
      ensures Unchanged(old(nodes), nodes, Refs(t)) && Rewired(old(nodes), nodes)
    {
      ghost var n0 := nodes;
      ghost var b := t.left.right;
      assert LinkedTree(nodes, t.left, x) && Unique(t.left);
      assert b.Node? ==> LinkedTree(nodes, b, t.left.ref) && b.ref in Refs(t.left) && b.ref != Null;
      assert x != t.left.ref && (b.Node? ==> b.ref != x && b.ref != t.left.ref);
      y := RightTurnWrites(x);
      ghost var tx, ty := if t.left.tag == 1 then 0 else 1, if t.left.tag == 1 then 0 else -1;
      assert RightTurnCells(n0, nodes, t, parent, tx, ty);
      TurnedRight(n0, nodes, t, parent, tx, ty);
    }

    /**
     * The writes of the double rotation of L_Balance (avl_tree.h:386-437):
     * `g`, the left child of `x`'s right child `y`, takes `x`'s parent and
     * has `x` and `y` as children; `x` takes `g`'s left child `b` and `y`
     * its right child `c`. The bf follow the table of avl_tree.h:405-433.
     */
    method RightLeftWrites(x: Ref, y: Ref) returns (g: Ref)
      requires x in nodes && y in nodes && nodes[x].right == y && x != y
      requires nodes[y].left in nodes && nodes[y].left !in {x, y}
      requires var b, c := nodes[nodes[y].left].left, nodes[nodes[y].left].right;
        (b != Null ==> b in nodes && b !in {x, y, nodes[y].left})
        && (c != Null ==> c in nodes && c !in {x, y, nodes[y].left, b})
      modifies this`nodes
      ensures g == old(nodes)[y].left
      ensures var n := old(nodes); var b, c, bg := n[g].left, n[g].right, n[g].tag;
        nodes.Keys == n.Keys
        && nodes[x] == n[x].(parent := g, right := b, tag := OuterTag(bg, n[x].tag, 1))
        && nodes[y] == n[y].(parent := g, left := c, tag := InnerTag(bg, n[y].tag, 1))
        && nodes[g] == n[g].(parent := n[x].parent, left := x, right := y, tag := RootTag(bg))
        && (b != Null ==> nodes[b] == n[b].(parent := x))
        && (c != Null ==> nodes[c] == n[c].(parent := y))
        && Unchanged(n, nodes, {x, y, g, b, c})
    {
      var m := nodes;
      g := m[y].left;
      var b, c, xp := m[g].left, m[g].right, m[x].parent;
      var sx, sy, sg := m[x].tag, m[y].tag, m[g].tag;
      if sg == 1 {
        sy, sx, sg := -1, 0, 0;
      } else if sg == -1 {
        sy, sx, sg := 0, 1, 0;
      } else if sg == 0 {
        sy, sx, sg := 0, 0, 0;
      }
      m := m[x := m[x].(parent := g, right := b, tag := sx)];
      m := m[y := m[y].(parent := g, left := c, tag := sy)];
      m := m[g := m[g].(parent := xp, left := x, right := y, tag := sg)];
      if b != Null {
        m := m[b := m[b].(parent := x)];
      }
      if c != Null {
        m := m[c := m[c].(parent := y)];
      }
      nodes := m;
    }

    /**
     * The double rotation of L_Balance (avl_tree.h:386-437): `g`, the left
     * child of `x`'s right child `y`, takes `x`'s place with `x` and `y`
     * below it; the bf follow the table of avl_tree.h:405-433.
     */
    method TurnRightLeft(x: Ref, ghost t: Tree, ghost parent: Ref) returns (g: Ref)
      requires t.Node? && LinkedTree(nodes, t, parent) && Unique(t) && Null !in nodes && x == t.ref
      requires t.right.Node? && t.right.tag == 1 && t.right.left.Node?
      modifies this`nodes
      ensures LinkedTree(nodes, LeftBalanced(t), parent) && g == t.right.left.ref
      ensures Unchanged(old(nodes), nodes, Refs(t)) && Rewired(old(nodes), nodes)
    {
      ghost var n0 := nodes;
      ghost var gt := t.right.left;
      assert LinkedTree(nodes, t.right, x) && Unique(t.right) && LinkedTree(nodes, gt, t.right.ref) && Unique(gt);
      assert gt.left.Node? ==> LinkedTree(nodes, gt.left, gt.ref) && gt.left.ref in Refs(gt) && gt.left.ref != Null;
      assert gt.right.Node? ==> LinkedTree(nodes, gt.right, gt.ref) && gt.right.ref in Refs(gt) && gt.right.ref != Null;
      assert Refs(t.right) == Refs(gt) + {t.right.ref} + Refs(t.right.right);
      g := RightLeftWrites(x, nodes[x].right);
      ghost var tg0 := t.right.left.tag;
      ghost var tx, ty, tg := OuterTag(tg0, t.tag, 1), InnerTag(tg0, t.right.tag, 1), RootTag(tg0);
      assert RightLeftCells(n0, nodes, t, parent, tx, ty, tg);
      TurnedRightLeft(n0, nodes, t, parent, tx, ty, tg);
    }

    /** The writes of the double rotation of R_Balance (avl_tree.h:490-542), the mirror image of RightLeftWrites. */
    method LeftRightWrites(x: Ref, y: Ref) returns (g: Ref)
      requires x in nodes && y in nodes && nodes[x].left == y && x != y
      requires nodes[y].right in nodes && nodes[y].right !in {x, y}
      requires var b, c := nodes[nodes[y].right].left, nodes[nodes[y].right].right;
        (b != Null ==> b in nodes && b !in {x, y, nodes[y].right})
        && (c != Null ==> c in nodes && c !in {x, y, nodes[y].right, b})
      modifies this`nodes
      ensures g == old(nodes)[y].right
      ensures var n := old(nodes); var b, c, bg := n[g].left, n[g].right, n[g].tag;
        nodes.Keys == n.Keys
        && nodes[y] == n[y].(parent := g, right := b, tag := InnerTag(bg, n[y].tag, -1))
        && nodes[x] == n[x].(parent := g, left := c, tag := OuterTag(bg, n[x].tag, -1))
        && nodes[g] == n[g].(parent := n[x].parent, left := y, right := x, tag := RootTag(bg))
        && (b != Null ==> nodes[b] == n[b].(parent := y))
        && (c != Null ==> nodes[c] == n[c].(parent := x))
        && Unchanged(n, nodes, {x, y, g, b, c})
    {
      var m := nodes;
      g := m[y].right;
      var b, c, xp := m[g].left, m[g].right, m[x].parent;
      var sx, sy, sg := m[x].tag, m[y].tag, m[g].tag;
      if sg == 1 {
        sy, sx, sg := 0, -1, 0;
      } else if sg == -1 {
        sy, sx, sg := 1, 0, 0;
      } else if sg == 0 {
        sy, sx, sg := 0, 0, 0;
      }
      m := m[y := m[y].(parent := g, right := b, tag := sy)];
      m := m[x := m[x].(parent := g, left := c, tag := sx)];
      m := m[g := m[g].(parent := xp, left := y, right := x, tag := sg)];
      if b != Null {
        m := m[b := m[b].(parent := y)];
      }
      if c != Null {
        m := m[c := m[c].(parent := x)];
      }
      nodes := m;
    }

    /** The double rotation of R_Balance (avl_tree.h:490-542), the mirror image of TurnRightLeft. */
    method TurnLeftRight(x: Ref, ghost t: Tree, ghost parent: Ref) returns (g: Ref)
      requires t.Node? && LinkedTree(nodes, t, parent) && Unique(t) && Null !in nodes && x == t.ref
      requires t.left.Node? && t.left.tag == -1 && t.left.right.Node?
      modifies this`nodes
      ensures LinkedTree(nodes, RightBalanced(t), parent) && g == t.left.right.ref
      ensures Unchanged(old(nodes), nodes, Refs(t)) && Rewired(old(nodes), nodes)
    {
      ghost var n0 := nodes;
      ghost var gt := t.left.right;
      assert LinkedTree(nodes, t.left, x) && Unique(t.left) && LinkedTree(nodes, gt, t.left.ref) && Unique(gt);
      assert gt.left.Node? ==> LinkedTree(nodes, gt.left, gt.ref) && gt.left.ref in Refs(gt) && gt.left.ref != Null;
      assert gt.right.Node? ==> LinkedTree(nodes, gt.right, gt.ref) && gt.right.ref in Refs(gt) && gt.right.ref != Null;
      assert Refs(t.left) == Refs(t.left.left) + {t.left.ref} + Refs(gt);
      g := LeftRightWrites(x, nodes[x].left);
      ghost var tg0 := t.left.right.tag;
      ghost var tx, ty, tg := OuterTag(tg0, t.tag, -1), InnerTag(tg0, t.left.tag, -1), RootTag(tg0);
      assert LeftRightCells(n0, nodes, t, parent, tx, ty, tg);
      TurnedLeftRight(n0, nodes, t, parent, tx, ty, tg);
    }

    /**
     * The end of L_Balance and R_Balance (avl_tree.h:440-452): the new
     * subtree root `top` is hung where the old one was, on the side of its
     * parent the keys choose, or becomes the head.
     */
    method Rehang(top: Ref, ghost n0: Arena, ghost p: Path, ghost t: Tree, ghost r: Tree)
      requires Focused(n0, head, p, t) && t.Node? && r.Node? && top == r.ref && Null !in nodes
      requires LinkedTree(nodes, r, FrameRef(p)) && Unique(r) && Refs(r) == Refs(t) && Unchanged(n0, nodes, Refs(t))
      requires Entries(r) == Entries(t) && Ordered(Plug(p, t)) && Rewired(n0, nodes)
      modifies this`nodes, this`head
      ensures Focused(nodes, head, p, r) && Rewired(n0, nodes)
    {
      ghost var n1 := nodes;
      var tp := nodes[top].parent;
      if tp != Null {
        FrameCell(n0, head, p, t);
        PlugSameEntries(p, r, t);
        ChildSide(p, r);
        if nodes[tp].key > nodes[top].key {
          nodes := nodes[tp := nodes[tp].(left := top)];
        } else {
          nodes := nodes[tp := nodes[tp].(right := top)];
        }
      } else {
        head := top;
      }
      Rehung(n0, n1, nodes, old(head), head, p, t, r);
    }

    /** L_Balance (avl_tree.h:356-453): the subtree at `x`, too tall on the right, is rebalanced in place. */
    method LBalance(x: Ref, ghost p: Path, ghost t: Tree) returns (top: Ref)
      requires Focused(nodes, head, p, t) && LeftReady(t) && x == t.ref && Null !in nodes && Ordered(Plug(p, t))
      modifies this`nodes, this`head
      ensures Focused(nodes, head, p, LeftBalanced(t)) && top == LeftBalanced(t).ref
      ensures Rewired(old(nodes), nodes)
    {
      ghost var n0 := nodes;
      LeftBalancedKeeps(t);
      RootCell(nodes, head, p, t);
      assert LinkedTree(nodes, t.right, x);
      var y := nodes[x].right;
      if nodes[y].tag == -1 || nodes[y].tag == 0 {
        top := TurnLeft(x, t, FrameRef(p));
      } else if nodes[y].tag == 1 {
        top := TurnRightLeft(x, t, FrameRef(p));
      } else {
        top := x;
      }
      Rehang(top, n0, p, t, LeftBalanced(t));
    }

    /** R_Balance (avl_tree.h:461-557), the mirror image of LBalance. */
    method RBalance(x: Ref, ghost p: Path, ghost t: Tree) returns (top: Ref)
      requires Focused(nodes, head, p, t) && RightReady(t) && x == t.ref && Null !in nodes && Ordered(Plug(p, t))
      modifies this`nodes, this`head
      ensures Focused(nodes, head, p, RightBalanced(t)) && top == RightBalanced(t).ref
      ensures Rewired(old(nodes), nodes)
    {
      ghost var n0 := nodes;
      RightBalancedKeeps(t);
      RootCell(nodes, head, p, t);
      assert LinkedTree(nodes, t.left, x);
      var y := nodes[x].left;
      if nodes[y].tag == 1 || nodes[y].tag == 0 {
        top := TurnRight(x, t, FrameRef(p));
      } else if nodes[y].tag == -1 {
        top := TurnLeftRight(x, t, FrameRef(p));
      } else {
        top := x;
      }
      Rehang(top, n0, p, t, RightBalanced(t));
    }

    /**
     * The bf update of either retrace at the parent `prev` of a subtree whose
     * root key is `ck` (avl_tree.h:150-154, 224-228): one step toward the
     * subtree when it `grown`, one step away from it when it shrank.
     */
    method Tilt(prev: Ref, ck: int, grown: bool, ghost p: Path, ghost t: Tree)
      requires Focused(nodes, head, p, t) && !p.Top? && prev == p.ref && (p.LeftOf? <==> p.key > ck) && Null !in nodes
      modifies this`nodes
      ensures Focused(nodes, head, p.up, Tilted(p, t, grown)) && Rewired(old(nodes), nodes) && Null !in nodes
      ensures prev in nodes && nodes[prev].tag == Tilted(p, t, grown).tag
    {
      FrameCell(nodes, head, p, t);
      Ascend(nodes, head, p, t);
      Retag(nodes, head, p.up, Parent(p, t), Tilted(p, t, grown).tag);
      var step := if nodes[prev].key > ck then 1 else -1;
      nodes := nodes[prev := nodes[prev].(tag := if grown then nodes[prev].tag + step else nodes[prev].tag - step)];
    }

    /**
     * One step of either retrace at the parent `prev` of a subtree whose root
     * key is `ck` (avl_tree.h:150-160, 224-233): the parent's bf moves toward
     * the subtree when it `grown`, away from it when it shrank, and R_Balance
     * or L_Balance runs on bf 2 or -2.
     */
    method Retilt(prev: Ref, ck: int, grown: bool, ghost p: Path, ghost t: Tree) returns (x: Ref)
      requires Focused(nodes, head, p, t) && !p.Top? && prev == p.ref && (p.LeftOf? <==> p.key > ck)
      requires Ready(Tilted(p, t, grown)) && Ordered(Plug(p, t)) && Null !in nodes
      modifies this`nodes, this`head
      ensures Focused(nodes, head, p.up, Rebalanced(Tilted(p, t, grown)))
      ensures x == Rebalanced(Tilted(p, t, grown)).ref && Rewired(old(nodes), nodes)
    {
      ghost var u := Tilted(p, t, grown);
      TiltedKeeps(p, t, grown);
      Tilt(prev, ck, grown, p, t);
      ghost var n1 := nodes;
      x := prev;
      if nodes[x].tag == 2 {
        x := RBalance(x, p.up, u);
        RewiredTwice(old(nodes), n1, nodes);
      } else if nodes[x].tag == -2 {
        x := LBalance(x, p.up, u);
        RewiredTwice(old(nodes), n1, nodes);
      }
    }
  
    /**
     * InsertNode (avl_tree.h:111-173): 1 when `k` was absent and is now
     * mapped to `v`, 0 when `k` was present (nothing changes), -1 when the
     * tree was empty and the first node could not be allocated.
     */
    method InsertNode(k: int, v: int, allocOk: bool) returns (r: int)
      requires Valid()
      modifies this
      ensures Valid()
      ensures r == -1 || r == 0 || r == 1
      ensures r == -1 <==> old(head) == Null && !allocOk
      ensures r == 0 <==> k in old(Mapping())
      ensures r != 1 ==> unchanged(this)
      ensures r == 1 ==> Mapping() == old(Mapping())[k := v] && size == old(size) + 1
    {
      if head == Null {
        assert tree == Leaf;
        if !allocOk {
          return -1;
        }
        InsertFirst(k, v);
        return 1;
      }
      var f, parent;
      ghost var p: Path, t: Tree;
      f, parent, p, t := Search(k);
      if f == 0 {
        return 0;
      }
      assert p.Top? ==> tree == Leaf;
      InsertBelow(k, v, parent, p);
      r := 1;
    }

    /** InsertNode on the empty tree (avl_tree.h:113-127): the new node, with bf 0, becomes the head. */
    method InsertFirst(k: int, v: int)
      requires Valid() && head == Null
      modifies this
      ensures Valid() && Mapping() == old(Mapping())[k := v] && size == old(size) + 1
    {
      assert tree == Leaf;
      var x := lastAddress + 1;
      Fresh(nodes, lastAddress, Cell(Null, Null, Null, 0, k, v));
      nodes := nodes[x := Cell(Null, Null, Null, 0, k, v)];
      head, lastAddress, size := x, x, size + 1;
      tree := Node(Leaf, x, 0, k, v, Leaf);
      assert Entries(tree) == [Entry(k, v)];
      assert LinkedTree(nodes, tree, Null);
    }

    /**
     * InsertNode after the search for `k` stopped below `parent`
     * (avl_tree.h:129-170): the new node with bf 0 is hung on the side of
     * `parent` the keys choose, then the retrace runs.
     */
    method InsertBelow(k: int, v: int, parent: Ref, ghost p: Path)
      requires Valid() && Focused(nodes, head, p, Leaf) && Plug(p, Leaf) == tree && Between(p, k)
      requires parent == FrameRef(p) && parent != Null
      modifies this
      ensures Valid() && Mapping() == old(Mapping())[k := v] && size == old(size) + 1
    {
      var x := lastAddress + 1;
      ghost var nt := Node(Leaf, x, 0, k, v, Leaf);
      InsertedAtLeaf(p, nt);
      PlugBalanced(p, Leaf);
      HangLeaf(k, v, parent, p);
      size := size + 1;
      ghost var n1 := nodes;
      ghost var w := InsertRetrace(x, parent, p, nt);
      Retraced(n1, nodes, head, lastAddress, w, Plug(p, nt));
      tree := w;
    }

    /**
     * The new node with bf 0 at the next free address, hung on the side of
     * `parent` the keys choose (avl_tree.h:129-147).
     */
    method HangLeaf(k: int, v: int, parent: Ref, ghost p: Path)
      requires Bounded(nodes, lastAddress) && Null !in nodes && Focused(nodes, head, p, Leaf)
      requires Ordered(Plug(p, Leaf)) && Between(p, k) && parent == FrameRef(p) && parent != Null
      modifies this`nodes, this`lastAddress
      ensures lastAddress == old(lastAddress) + 1 && Bounded(nodes, lastAddress) && Null !in nodes
      ensures Focused(nodes, head, p, Node(Leaf, lastAddress, 0, k, v, Leaf))
    {
      var x := lastAddress + 1;
      Fresh(nodes, lastAddress, Cell(parent, Null, Null, 0, k, v));
      FrameCell(nodes, head, p, Leaf);
      BelowParent(p, k);
      var n := nodes[x := Cell(parent, Null, Null, 0, k, v)];
      if k < n[parent].key {
        n := n[parent := n[parent].(left := x)];
      } else {
        n := n[parent := n[parent].(right := x)];
      }
      Attached(nodes, n, head, p, Node(Leaf, x, 0, k, v, Leaf));
      nodes, lastAddress := n, x;
    }

    /**
     * The retrace of InsertNode (avl_tree.h:152-168), from the new subtree
     * `t0` of `child0` below `prev0`: each ancestor's bf moves toward the
     * taller side, R_Balance or L_Balance runs on 2 or -2, and the walk stops
     * at bf 0 or above the head.
     */
    method InsertRetrace(child0: Ref, prev0: Ref, ghost p0: Path, ghost t0: Tree) returns (ghost w: Tree)
      requires Rising(nodes, head, child0, prev0, p0, t0, Entries(Plug(p0, t0)), nodes)
      modifies this`nodes, this`head
      ensures Focused(nodes, head, Top, w) && Balanced(w) && Entries(w) == Entries(Plug(p0, t0))
      ensures Rewired(old(nodes), nodes)
    {
      ghost var E := Entries(Plug(p0, t0));
      var child, prev := child0, prev0;
      ghost var p, t := p0, t0;
      while prev != Null
        invariant Rising(nodes, head, child, prev, p, t, E, old(nodes))
        decreases Depth(p)
      {
        ghost var n1 := nodes;
        var x;
        x, p, t := Climb(child, prev, p, t);
        RewiredTwice(old(nodes), n1, nodes);
        if nodes[x].tag == 0 {
          PlugBalanced(p, t);
          Whole(nodes, head, p, t);
          return Plug(p, t);
        }
        child, prev := x, nodes[x].parent;
      }
      w := t;
    }

    /** One step of InsertNode's retrace (avl_tree.h:154-167), at the parent `prev` of `child`. */
    method Climb(child: Ref, prev: Ref, ghost p: Path, ghost t: Tree) returns (x: Ref, ghost q: Path, ghost r: Tree)
      requires prev != Null && Rising(nodes, head, child, prev, p, t, Entries(Plug(p, t)), nodes)
      modifies this`nodes, this`head
      ensures q == p.up && Rewired(old(nodes), nodes) && x in nodes && Focused(nodes, head, q, r)
      ensures Entries(Plug(q, r)) == Entries(Plug(p, t)) && Depth(q) < Depth(p)
      ensures nodes[x].tag == 0 ==> Balanced(r) && PathBalanced(q, Height(r))
      ensures nodes[x].tag != 0 ==> Rising(nodes, head, x, nodes[x].parent, q, r, Entries(Plug(p, t)), nodes)
    {
      GrowStep(p, t);
      RootCell(nodes, head, p, t);
      ChildSide(p, t);
      ghost var u := Tilted(p, t, true);
      x := Retilt(prev, nodes[child].key, true, p, t);
      q, r := p.up, Rebalanced(u);
      TiltedKeeps(p, t, true);
      RebalancedKeeps(u);
      PlugSameEntries(q, r, u);
      RootCell(nodes, head, q, r);
    }
  
    /**
     * DeleteNode (avl_tree.h:176-261): 0 when `k` was present and is now
     * gone, -1 when it was absent (nothing changes).
     */
    method DeleteNode(k: int) returns (r: int)
      requires Valid()
      modifies this
      ensures Valid()
      ensures r == 0 || r == -1
      ensures r == 0 <==> k in old(Mapping())
      ensures r == -1 ==> unchanged(this)
      ensures r == 0 ==> Mapping() == old(Mapping()) - {k} && size == old(size) - 1
    {
      var f, cur;
      ghost var p: Path, d: Tree;
      f, cur, p, d := Search(k);
      if f < 0 {
        return -1;
      }
      RootCell(nodes, head, p, d);
      if nodes[cur].left != Null && nodes[cur].right != Null {
        var cut;
        ghost var q: Path, R: Tree;
        cut, q, R := Predecessor(cur, p, d);
        DeleteTwo(cur, cut, p, d, q, R);
      } else {
        DeleteOne(cur, p, d);
      }
      r := 0;
    }

    /**
     * DeleteNode when the node found has an empty side (avl_tree.h:201-229,
     * 233-260): its only child, or NULL, takes its place; at the head that
     * ends the deletion, elsewhere the retrace runs from its parent.
     */
    method DeleteOne(cur: Ref, ghost p: Path, ghost d: Tree)
      requires Valid() && Focused(nodes, head, p, d) && Plug(p, d) == tree && d.Node? && cur == d.ref
      requires d.left.Leaf? || d.right.Leaf?
      modifies this
      ensures Valid() && Mapping() == old(Mapping()) - {d.key} && size == old(size) - 1
    {
      ghost var X := SpliceChild(d);
      SpliceRemoves(p, d);
      if !p.Top? {
        ChildSide(p, d);
      }
      var up := Bypass(cur, p, d);
      if up == Null {
        Release(cur, X);
        return;
      }
      ghost var w := DeleteRetrace(cur, up, p, X);
      SizeEntries(w);
      SizeEntries(Plug(p, X));
      Release(cur, w);
    }

    /**
     * The splice of DeleteNode (avl_tree.h:203-229): the only child of `cur`,
     * if any, takes its parent, and the parent, or `avl_head`, takes the child.
     */
    method Bypass(cur: Ref, ghost p: Path, ghost d: Tree) returns (up: Ref)
      requires Focused(nodes, head, p, d) && d.Node? && cur == d.ref && (d.left.Leaf? || d.right.Leaf?) && Null !in nodes
      modifies this`nodes, this`head
      ensures Focused(nodes, head, p, SpliceChild(d)) && up == FrameRef(p)
      ensures Rewired(old(nodes), nodes) && cur in nodes && nodes[cur] == old(nodes[cur])
    {
      ghost var n0 := nodes;
      ghost var X := SpliceChild(d);
      RootCell(nodes, head, p, d);
      NullFreePath(p);
      assert LinkedTree(nodes, X, cur) && Unique(X) && cur !in Refs(X);
      NullFree(X);
      var x := if nodes[cur].left == Null then nodes[cur].right else nodes[cur].left;
      up := nodes[cur].parent;
      if up == Null {
        if x != Null {
          nodes := nodes[x := nodes[x].(parent := Null)];
        }
        head := x;
      } else {
        FrameCell(nodes, head, p, d);
        if cur == nodes[up].left {
          if x != Null {
            nodes := nodes[x := nodes[x].(parent := up)];
          }
          nodes := nodes[up := nodes[up].(left := x)];
        } else {
          if x != Null {
            nodes := nodes[x := nodes[x].(parent := up)];
          }
          nodes := nodes[up := nodes[up].(right := x)];
        }
      }
      Bypassed(n0, nodes, old(head), head, p, d);
    }

    /**
     * DeleteNode when the node found has two children (avl_tree.h:184-200,
     * 233-260): its predecessor `cut` is unhooked, the retrace runs from
     * `cut`'s parent, and then `cut`'s key and value move into the node found.
     */
    method DeleteTwo(cur: Ref, cut: Ref, ghost p: Path, ghost d: Tree, ghost q: Path, ghost R: Tree)
      requires Valid() && Plug(p, d) == tree && d.Node? && cur == d.ref && d.left.Node? && cur in nodes && nodes[cur].key == d.key
      requires Focused(nodes, head, Graft(q, LeftOf(d.ref, d.tag, d.key, d.value, d.right, p)), R)
      requires RightSpine(q) && Plug(q, R) == d.left && R.Node? && R.right.Leaf? && cut == R.ref && cut != cur
      modifies this
      ensures Valid() && Mapping() == old(Mapping()) - {d.key} && size == old(size) - 1
    {
      ghost var P := Graft(q, LeftOf(d.ref, d.tag, d.key, d.value, d.right, p));
      ghost var xs, e, ys, c := UnhookRemoves(p, d, q, R);
      UnhookShape(p, d, q, R);
      SpineParent(q, LeftOf(d.ref, d.tag, d.key, d.value, d.right, p));
      ghost var n0 := nodes;
      ghost var w := UnhookRetrace(cur, cut, P, R);
      OneFewer(Plug(p, d), w, xs, c, e, ys);
      RewiredBounded(n0, nodes, lastAddress);
      DeleteMoveUp(cur, cut, w, xs, e, ys, c);
    }

    /** Unhooking the predecessor `cut` of `cur` and retracing from its place (avl_tree.h:191-199, 224-233). */
    method UnhookRetrace(cur: Ref, cut: Ref, ghost P: Path, ghost R: Tree) returns (ghost w: Tree)
      requires Focused(nodes, head, P, R) && R.Node? && R.right.Leaf? && cut == R.ref && !P.Top? && Null !in nodes
      requires P.ref == cur <==> P.LeftOf?
      requires Shrunk(P, R.left) && Ordered(Plug(P, R)) && Increasing(Entries(Plug(P, R.left)))
      modifies this`nodes, this`head
      ensures Focused(nodes, head, Top, w) && Balanced(w) && Rewired(old(nodes), nodes)
      ensures Entries(w) == Entries(Plug(P, R.left)) && Refs(w) == Refs(Plug(P, R.left))
    {
      RootCell(nodes, head, P, R);
      ChildSide(P, R);
      ghost var n0 := nodes;
      var up := Unhook(cur, cut, P, R);
      ghost var n1 := nodes;
      w := DeleteRetrace(cut, up, P, R.left);
      RewiredTwice(n0, n1, nodes);
    }

    /**
     * Unhooking the predecessor `cut` (avl_tree.h:191-199): its parent, `cur`
     * itself when `cut` is `cur`'s left child, takes `cut`'s left child, which
     * takes `cut`'s parent.
     */
    method Unhook(cur: Ref, cut: Ref, ghost P: Path, ghost R: Tree) returns (up: Ref)
      requires Focused(nodes, head, P, R) && R.Node? && R.right.Leaf? && cut == R.ref && !P.Top? && Null !in nodes
      requires P.ref == cur <==> P.LeftOf?
      modifies this`nodes
      ensures Focused(nodes, head, P, R.left) && up == P.ref
      ensures Rewired(old(nodes), nodes) && cut in nodes && nodes[cut] == old(nodes[cut])
    {
      ghost var n0 := nodes;
      RootCell(nodes, head, P, R);
      FrameCell(nodes, head, P, R);
      assert SpliceChild(R) == R.left;
      assert LinkedTree(nodes, R.left, cut) && Unique(R.left) && cut !in Refs(R.left);
      NullFree(R.left);
      up := nodes[cut].parent;
      var x := nodes[cut].left;
      if up == cur {
        nodes := nodes[cur := nodes[cur].(left := x)];
      } else {
        nodes := nodes[up := nodes[up].(right := x)];
      }
      if x != Null {
        nodes := nodes[x := nodes[x].(parent := up)];
      }
      Bypassed(n0, nodes, head, head, P, R);
    }

    /**
     * The end of DeleteNode for a node with two children (avl_tree.h:249-259):
     * the node found, holding `e`, takes the key and value `c` of the
     * predecessor `cut`, whose record is released.
     */
    method DeleteMoveUp(cur: Ref, cut: Ref, ghost w: Tree, ghost a: seq<Entry>, ghost e: Entry, ghost b: seq<Entry>, ghost c: Entry)
      requires Null !in nodes && Bounded(nodes, lastAddress) && Focused(nodes, head, Top, w) && Balanced(w)
      requires Entries(w) == a + [e] + b && Increasing(a + [e] + b) && Increasing(a + [c] + [e] + b)
      requires cur in Refs(w) && cur in nodes && cut in nodes && cut !in Refs(w) && nodes[cur].key == e.key
      requires nodes[cut].key == c.key && nodes[cut].value == c.value
      requires size == Size(w) + 1
      modifies this
      ensures Valid() && Mapping() == MapOf(a + [c] + [e] + b) - {e.key} && size == old(size) - 1
    {
      ghost var q, s := Locate(nodes, head, Top, w, cur);
      RootCell(nodes, head, q, s);
      RootEntry(q, s);
      SamePlace(a, e, b, Before(q) + Entries(s.left), Entry(s.key, s.value), Entries(s.right) + After(q));
      Unslot(a + [c], e, b);
      ghost var s2 := s.(key := c.key, value := c.value);
      Relabel(nodes, head, q, s, c.key, c.value);
      RootEntry(q, s2);
      RelabelBalanced(q, s, c.key, c.value);
      PlugSameRefs(q, s2, s);
      nodes := nodes[cur := nodes[cur].(key := nodes[cut].key, value := nodes[cut].value)];
      Whole(nodes, head, q, s2);
      SizeEntries(w);
      SizeEntries(Plug(q, s2));
      Release(cut, Plug(q, s2));
    }

    /** The last steps of DeleteNode (avl_tree.h:257-259): `size` drops by one and the record of `cut` is released. */
    method Release(cut: Ref, ghost w: Tree)
      requires Null !in nodes && Bounded(nodes, lastAddress) && Focused(nodes, head, Top, w) && IsAVL(w)
      requires cut in nodes && cut !in Refs(w) && size == Size(w) + 1
      modifies this
      ensures Valid() && tree == w && size == old(size) - 1
    {
      Forget(nodes, head, Top, w, cut);
      Released(nodes, cut, lastAddress);
      size := size - 1;
      nodes := nodes - {cut};
      tree := w;
    }

    /**
     * The in-order predecessor of a node with two children (avl_tree.h:186-189):
     * the last node down the right spine `q` of its left subtree.
     */
    method Predecessor(cur: Ref, ghost p: Path, ghost d: Tree) returns (cut: Ref, ghost q: Path, ghost R: Tree)
      requires Focused(nodes, head, p, d) && d.Node? && d.left.Node? && cur == d.ref
      ensures Focused(nodes, head, Graft(q, LeftOf(d.ref, d.tag, d.key, d.value, d.right, p)), R)
      ensures RightSpine(q) && Plug(q, R) == d.left && R.Node? && R.right.Leaf? && cut == R.ref && cut != cur
    {
      ghost var F := LeftOf(d.ref, d.tag, d.key, d.value, d.right, p);
      RootCell(nodes, head, p, d);
      DescendLeft(nodes, head, p, d);
      cut := nodes[cur].left;
      q, R := Top, d.left;
      RootCell(nodes, head, F, R);
      while nodes[cut].right != Null
        invariant Focused(nodes, head, Graft(q, F), R) && RightSpine(q) && Plug(q, R) == d.left
        invariant R.Node? && cut == R.ref && cut in nodes && nodes[cut].right == RootRef(R.right)
        decreases Size(R)
      {
        DescendRight(nodes, head, Graft(q, F), R);
        cut := nodes[cut].right;
        q, R := RightOf(R.left, R.ref, R.tag, R.key, R.value, q), R.right;
        RootCell(nodes, head, Graft(q, F), R);
      }
      RootCell(nodes, head, Graft(q, F), R);
      PlugRefs(q, R);
      assert cut in Refs(d.left) && Unique(d);
    }

    /**
     * The retrace of DeleteNode (avl_tree.h:233-248), from the subtree `t0`
     * below `prev0` that lost a level; `child0` is the node whose key tells
     * the side. Each ancestor's bf moves away from the lower side, R_Balance
     * or L_Balance runs on 2 or -2, and the walk stops at bf 1 or -1 or above
     * the head.
     */
    method DeleteRetrace(child0: Ref, prev0: Ref, ghost p0: Path, ghost t0: Tree) returns (ghost w: Tree)
      requires Sinking(nodes, head, child0, prev0, p0, t0, Entries(Plug(p0, t0)), Refs(Plug(p0, t0)), nodes)
      modifies this`nodes, this`head
      ensures Focused(nodes, head, Top, w) && Balanced(w)
      ensures Entries(w) == Entries(Plug(p0, t0)) && Refs(w) == Refs(Plug(p0, t0))
      ensures Rewired(old(nodes), nodes)
    {
      ghost var E, A := Entries(Plug(p0, t0)), Refs(Plug(p0, t0));
      var child, prev := child0, prev0;
      ghost var p, t := p0, t0;
      while prev != Null
        invariant Sinking(nodes, head, child, prev, p, t, E, A, old(nodes))
        decreases Depth(p)
      {
        ghost var n1 := nodes;
        var x;
        x, p, t := Sink(child, prev, p, t);
        RewiredTwice(old(nodes), n1, nodes);
        if nodes[x].tag == 1 || nodes[x].tag == -1 {
          PlugBalanced(p, t);
          Whole(nodes, head, p, t);
          return Plug(p, t);
        }
        child, prev := x, nodes[x].parent;
      }
      w := t;
    }

    /** One step of DeleteNode's retrace (avl_tree.h:235-247), at the parent `prev` of `child`. */
    method Sink(child: Ref, prev: Ref, ghost p: Path, ghost t: Tree) returns (x: Ref, ghost q: Path, ghost r: Tree)
      requires prev != Null && Sinking(nodes, head, child, prev, p, t, Entries(Plug(p, t)), Refs(Plug(p, t)), nodes)
      modifies this`nodes, this`head
      ensures q == p.up && Rewired(old(nodes), nodes) && x in nodes && Focused(nodes, head, q, r)
      ensures Entries(Plug(q, r)) == Entries(Plug(p, t)) && Refs(Plug(q, r)) == Refs(Plug(p, t)) && Depth(q) < Depth(p)
      ensures nodes[x].tag == 1 || nodes[x].tag == -1 ==> Balanced(r) && PathBalanced(q, Height(r))
      ensures nodes[x].tag != 1 && nodes[x].tag != -1 ==>
                Sinking(nodes, head, x, nodes[x].parent, q, r, Entries(Plug(p, t)), Refs(Plug(p, t)), nodes)
    {
      ShrinkStep(p, t);
      ghost var u := Tilted(p, t, false);
      x := Retilt(prev, nodes[child].key, false, p, t);
      q, r := p.up, Rebalanced(u);
      TiltedKeeps(p, t, false);
      RebalancedKeeps(u);
      PlugSameEntries(q, r, u);
      PlugSameRefs(q, r, u);
      RootCell(nodes, head, q, r);
      if !q.Top? {
        ChildSide(q, r);
      }
    }
  
    /**
     * Clear (avl_tree.h:275-282), the recursive postorder walk the
     * destructor runs from `avl_head`: frees the subtree `t` below `r`,
     * counting `size` down once per node. `avl_head` is left as it was.
     */
    method Clear(r: Ref, ghost t: Tree, ghost parent: Ref)
      requires Unique(t) && LinkedTree(nodes, t, parent) && r == RootRef(t)
      modifies this`nodes, this`size
      ensures nodes == old(nodes) - Refs(t) && size == old(size) - Size(t)
      decreases t
    {
      if r != Null {
        assert Unique(t.left) && Unique(t.right);
        Clear(nodes[r].left, t.left, r);
        TreeFrame(old(nodes), nodes, t.right, r);
        Clear(nodes[r].right, t.right, r);
        nodes := nodes - {r};
        size := size - 1;
      } else {
        assert t.Leaf?;
      }
    }
  }
}
