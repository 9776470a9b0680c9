/**
 * The red-black tree of rbtree.h: an ordered key-value map whose nodes carry
 * a colour, sharing one BLACK sentinel `nil_` for every missing child.
 *
 * The nodes live in the arena of module BinaryTrees; `nil_` is the record
 * at `Null`, whose colour is BLACK and whose parent field `Delete` borrows.
 * A ghost tree mirrors the records, and the red-black rules are stated on
 * it: in-order keys increase, no RED node has a RED child, every path from
 * a node down to `nil_` meets as many BLACK nodes, and the root is BLACK.
 */
module RBTree {

  import opened BinaryTrees

  /** enum Color (rbtree.h:45-48). */
  const RED: int := 0
  const BLACK: int := 1

  /** The colour of a subtree's root; `nil_` is BLACK. */
  function Color(t: Tree): int
  {
    if t.Leaf? then BLACK else t.tag
  }

  /** 1 for a BLACK node, 0 for a RED one. */
  function Blackness(c: int): nat
  {
    if c == BLACK then 1 else 0
  }

  /** The number of BLACK nodes on the leftmost way down, `nil_` not counted. */
  function BH(t: Tree): nat
  {
    if t.Leaf? then 0 else BH(t.left) + Blackness(t.tag)
  }

  /** Every way down from a node meets as many BLACK nodes. */
  ghost predicate Balanced(t: Tree)
  {
    t.Node? ==> BH(t.left) == BH(t.right) && Balanced(t.left) && Balanced(t.right)
  }

  /** Every node is RED or BLACK, and no RED node has a RED child. */
  ghost predicate RedOk(t: Tree)
  {
    t.Node? ==>
      (t.tag == RED || t.tag == BLACK)
      && (t.tag == RED ==> Color(t.left) == BLACK && Color(t.right) == BLACK)
      && RedOk(t.left) && RedOk(t.right)
  }

  /** The red-black tree rules. */
  ghost predicate IsRB(t: Tree)
  {
    Ordered(t) && RedOk(t) && Balanced(t) && Color(t) == BLACK
  }

  function Paint(t: Tree, c: int): Tree
    requires t.Node?
  {
    t.(tag := c)
  }

  /** The colour of the whole tree's root, seen from a subtree below it. */
  function TopColor(p: Path): int
    requires !p.Top?
  {
    if p.up.Top? then p.tag else TopColor(p.up)
  }

  lemma {:induction false} PlugColor(p: Path, t: Tree)
    requires !p.Top?
    ensures Color(Plug(p, t)) == TopColor(p)
    decreases p
  {
    if !p.up.Top? {
      PlugColor(p.up, Parent(p, t));
    }
  }

  // ---------------------------------------------------------------------------
  // The rules split along a path

  /** The subtrees hanging off the ancestors are balanced and match a subtree of black height `h` at `p`. */
  ghost predicate PathBalanced(p: Path, h: nat)
    decreases p
  {
    !p.Top? ==> Balanced(Sibling(p)) && BH(Sibling(p)) == h && PathBalanced(p.up, h + Blackness(p.tag))
  }

  /** The ancestors and the subtrees hanging off them keep the red rule around a subtree of colour `c` at `p`. */
  ghost predicate PathRed(p: Path, c: int)
    decreases p
  {
    !p.Top? ==>
      (p.tag == RED || p.tag == BLACK) && RedOk(Sibling(p))
      && (p.tag == RED ==> c == BLACK && Color(Sibling(p)) == BLACK)
      && PathRed(p.up, p.tag)
  }

  lemma {:induction false} PlugBalanced(p: Path, t: Tree)
    ensures Balanced(Plug(p, t)) <== Balanced(t) && PathBalanced(p, BH(t))
    ensures Balanced(Plug(p, t)) ==> Balanced(t) && PathBalanced(p, BH(t))
    decreases p
  {
    if !p.Top? {
      PlugBalanced(p.up, Parent(p, t));
    }
  }

  lemma {:induction false} PlugRed(p: Path, t: Tree)
    ensures RedOk(Plug(p, t)) <== RedOk(t) && PathRed(p, Color(t))
    ensures RedOk(Plug(p, t)) ==> RedOk(t) && PathRed(p, Color(t))
    decreases p
  {
    if !p.Top? {
      PlugRed(p.up, Parent(p, t));
    }
  }

  /** The red rule above a BLACK subtree is the weakest. */
  lemma PathRedBlack(p: Path, c: int)
    requires PathRed(p, c)
    ensures PathRed(p, BLACK)
  {
  }

  // ---------------------------------------------------------------------------
  // Insert's fix-up (rbtree.h:122-179)

  /**
   * The loop invariant of Insert's fix-up, the walk standing at `x` (the root
   * of `t`): `x` is RED, its subtree and everything around it keep the rules,
   * except that `x`'s parent may be RED too; and the root is BLACK unless it
   * is `x`.
   */
  ghost predicate InsertFixing(p: Path, t: Tree)
  {
    t.Node? && t.tag == RED && RedOk(t) && Balanced(t)
    && PathBalanced(p, BH(t)) && PathRed(p, BLACK)
    && (p.Top? || TopColor(p) == BLACK)
  }

  /** A new RED node hung at an empty subtree of a red-black tree starts the fix-up. */
  lemma InsertStart(p: Path, t: Tree)
    requires IsRB(Plug(p, Leaf)) && !p.Top? && t.Node? && t.tag == RED && t.left.Leaf? && t.right.Leaf?
    ensures InsertFixing(p, t)
  {
    PlugBalanced(p, Leaf);
    PlugRed(p, Leaf);
    PlugColor(p, Leaf);
  }

  /** A parent that is not RED ends the fix-up with the rules kept, but perhaps a RED root. */
  lemma InsertDone(p: Path, t: Tree)
    requires InsertFixing(p, t) && (p.Top? || p.tag != RED)
    ensures RedOk(Plug(p, t)) && Balanced(Plug(p, t))
  {
    PlugBalanced(p, t);
    PlugRed(p, t);
  }

  /** A RED parent has a grandparent, which is BLACK. */
  lemma InsertGrandparent(p: Path, t: Tree)
    requires InsertFixing(p, t) && !p.Top? && p.tag == RED
    ensures !p.up.Top? && p.up.tag == BLACK
    ensures Color(Sibling(p.up)) == RED || Color(Sibling(p.up)) == BLACK
  {
    assert PathRed(p.up, RED);
  }

  /** The three subtrees case 1 repaints: parent BLACK, uncle BLACK, grandparent RED. */
  function Case1Parent(p: Path, t: Tree): Tree
    requires !p.Top?
  {
    Paint(Parent(p, t), BLACK)
  }

  function Case1Uncle(p: Path): Tree
    requires !p.Top? && !p.up.Top? && Sibling(p.up).Node?
  {
    Paint(Sibling(p.up), BLACK)
  }

  function Case1Grandparent(p: Path, t: Tree): Tree
    requires !p.Top? && !p.up.Top? && Sibling(p.up).Node?
  {
    Paint(Parent(SiblingPath(p.up, Case1Parent(p, t)), Case1Uncle(p)), RED)
  }

  /** Case 1 (rbtree.h:124-132): a RED uncle; the walk moves to the grandparent, two levels up. */
  lemma InsertCase1(p: Path, t: Tree)
    requires InsertFixing(p, t) && !p.Top? && p.tag == RED && !p.up.Top? && Color(Sibling(p.up)) == RED
    ensures InsertFixing(p.up.up, Case1Grandparent(p, t))
    ensures Entries(Plug(p.up.up, Case1Grandparent(p, t))) == Entries(Plug(p, t))
    ensures Size(Plug(p.up.up, Case1Grandparent(p, t))) == Size(Plug(p, t))
    ensures Depth(p.up.up) < Depth(p)
  {
    var h := BH(t);
    var u := p.up;
    assert PathBalanced(u, h) && PathRed(u, RED);
    var P1 := Case1Parent(p, t);
    assert RedOk(P1) && Balanced(P1) && BH(P1) == h + 1;
    var U := Sibling(u);
    var U1 := Case1Uncle(p);
    assert RedOk(U1) && Balanced(U1) && BH(U1) == h + 1 by {
      assert BH(U) == h && BH(U) == BH(U.left);
    }
    var g := Case1Grandparent(p, t);
    assert g.left == P1 || g.left == U1;
    assert RedOk(g) && Balanced(g) && BH(g) == h + 1;
    assert PathBalanced(u.up, h + 1) && PathRed(u.up, BLACK);
    assert Entries(g) == Entries(Parent(u, Parent(p, t)));
    PlugSameEntries(u.up, g, Parent(u, Parent(p, t)));
    if !u.up.Top? {
      assert TopColor(p) == TopColor(u) == TopColor(u.up);
    }
  }

  /** The subtree at the grandparent's child, once case 2 has rotated `x` above its parent. */
  function Case3Child(p: Path, t: Tree): Tree
    requires !p.Top? && t.Node?
  {
    var q := Parent(p, t);
    if p.up.LeftOf? && p.RightOf? then RotateLeft(q)
    else if p.up.RightOf? && p.LeftOf? then RotateRight(q)
    else q
  }

  /** The grandparent's subtree after case 3's repainting, before its rotation. */
  function Case3Grandparent(p: Path, t: Tree): Tree
    requires !p.Top? && t.Node? && !p.up.Top?
  {
    Paint(Parent(p.up, Paint(Case3Child(p, t), BLACK)), RED)
  }

  /** The grandparent's subtree once case 3 has rotated it. */
  function Case3Result(p: Path, t: Tree): Tree
    requires !p.Top? && t.Node? && !p.up.Top?
  {
    var g := Case3Grandparent(p, t);
    if p.up.LeftOf? then (if g.left.Node? then RotateRight(g) else g)
    else (if g.right.Node? then RotateLeft(g) else g)
  }

  /** Cases 2 and 3 on the left: the grandparent's new subtree keeps the rules and is BLACK. */
  lemma InsertCase3Left(p: Path, t: Tree)
    requires InsertFixing(p, t) && !p.Top? && p.tag == RED && p.up.LeftOf? && Color(Sibling(p.up)) == BLACK
    ensures Case3Child(p, t).Node? && Case3Child(p, t).left.Node? && Case3Grandparent(p, t).left.Node?
    ensures var r := Case3Result(p, t);
      RedOk(r) && Balanced(r) && BH(r) == BH(t) + 1 && Color(r) == BLACK
      && Entries(r) == Entries(Parent(p.up, Parent(p, t)))
  {
    var h := BH(t);
    var u := p.up;
    assert PathBalanced(u, h) && PathRed(u, RED);
    var S, U := Sibling(p), Sibling(u);
    assert Color(S) == BLACK && RedOk(S) && Balanced(S) && BH(S) == h;
    assert Color(U) == BLACK && RedOk(U) && Balanced(U) && BH(U) == h;
    assert BH(t.left) == h && BH(t.right) == h;
    var q := Parent(p, t);
    var Q := Case3Child(p, t);
    if p.RightOf? {
      RotateLeftEntries(q);
    }
    assert Color(Q.left) == RED && RedOk(Q.left) && Balanced(Q.left) && BH(Q.left) == h;
    assert Color(Q.right) == BLACK && RedOk(Q.right) && Balanced(Q.right) && BH(Q.right) == h;
    var g := Case3Grandparent(p, t);
    var r := Case3Result(p, t);
    RotateRightEntries(g);
    assert r.right == Node(Q.right, u.ref, RED, u.key, u.value, U);
  }

  /** Cases 2 and 3 on the right, the mirror image. */
  lemma InsertCase3Right(p: Path, t: Tree)
    requires InsertFixing(p, t) && !p.Top? && p.tag == RED && p.up.RightOf? && Color(Sibling(p.up)) == BLACK
    ensures Case3Child(p, t).Node? && Case3Child(p, t).right.Node? && Case3Grandparent(p, t).right.Node?
    ensures var r := Case3Result(p, t);
      RedOk(r) && Balanced(r) && BH(r) == BH(t) + 1 && Color(r) == BLACK
      && Entries(r) == Entries(Parent(p.up, Parent(p, t)))
  {
    var h := BH(t);
    var u := p.up;
    assert PathBalanced(u, h) && PathRed(u, RED);
    var S, U := Sibling(p), Sibling(u);
    assert Color(S) == BLACK && RedOk(S) && Balanced(S) && BH(S) == h;
    assert Color(U) == BLACK && RedOk(U) && Balanced(U) && BH(U) == h;
    assert BH(t.left) == h && BH(t.right) == h;
    var q := Parent(p, t);
    var Q := Case3Child(p, t);
    if p.LeftOf? {
      RotateRightEntries(q);
    }
    assert Color(Q.right) == RED && RedOk(Q.right) && Balanced(Q.right) && BH(Q.right) == h;
    assert Color(Q.left) == BLACK && RedOk(Q.left) && Balanced(Q.left) && BH(Q.left) == h;
    var g := Case3Grandparent(p, t);
    var r := Case3Result(p, t);
    RotateLeftEntries(g);
    assert r.left == Node(U, u.ref, RED, u.key, u.value, Q.left);
  }

  /**
   * Cases 2 and 3 (rbtree.h:134-176): a BLACK uncle; one or two rotations and
   * two repaintings leave every rule kept but perhaps the root's colour.
   */
  lemma InsertCase3(p: Path, t: Tree)
    requires InsertFixing(p, t) && !p.Top? && p.tag == RED && !p.up.Top? && Color(Sibling(p.up)) == BLACK
    ensures Case3Child(p, t).Node?
    ensures p.up.LeftOf? ==> Case3Child(p, t).left.Node? && Case3Grandparent(p, t).left.Node?
    ensures p.up.RightOf? ==> Case3Child(p, t).right.Node? && Case3Grandparent(p, t).right.Node?
    ensures RedOk(Plug(p.up.up, Case3Result(p, t))) && Balanced(Plug(p.up.up, Case3Result(p, t)))
    ensures Entries(Plug(p.up.up, Case3Result(p, t))) == Entries(Plug(p, t))
    ensures Size(Plug(p.up.up, Case3Result(p, t))) == Size(Plug(p, t))
  {
    var u := p.up;
    assert PathBalanced(u, BH(t)) && PathRed(u, RED);
    assert u.tag == BLACK && PathBalanced(u.up, BH(t) + 1) && PathRed(u.up, BLACK);
    if u.LeftOf? {
      InsertCase3Left(p, t);
    } else {
      InsertCase3Right(p, t);
    }
    var r := Case3Result(p, t);
    PlugSameEntries(u.up, r, Parent(u, Parent(p, t)));
    PlugBalanced(u.up, r);
    PlugRed(u.up, r);
  }

  // ---------------------------------------------------------------------------
  // Delete's fix-up (rbtree.h:354-416)

  /** Every node is RED or BLACK, and the red rule holds below the root. */
  ghost predicate RedOkBelow(t: Tree)
  {
    t.Node? ==> (t.tag == RED || t.tag == BLACK) && RedOk(t.left) && RedOk(t.right)
  }

  /**
   * The loop invariant of DeleteFixUp, the walk standing at `x` (the root of
   * `t`, perhaps the sentinel): `x` carries one BLACK more than its colour
   * shows, which every way down through it lacks; the rules hold everywhere
   * else, except that `x` itself may be RED under a RED parent; and the root
   * is BLACK unless it is `x`.
   */
  ghost predicate DeleteFixing(p: Path, t: Tree)
  {
    RedOkBelow(t) && Balanced(t)
    && PathBalanced(p, BH(t) + 1) && PathRed(p, BLACK)
    && (p.Top? || TopColor(p) == BLACK)
  }

  /**
   * DeleteFixUp's progress: 0 when `x` is RED or the root, 1 when its parent
   * is RED and its brother BLACK, and otherwise twice its depth plus 3 when
   * the brother is RED and plus 2 when not.
   */
  function DeleteMeasure(p: Path, t: Tree): nat
  {
    if p.Top? || Color(t) == RED then 0
    else if Color(Sibling(p)) == RED then 2 * Depth(p) + 3
    else if p.tag == RED then 1
    else 2 * Depth(p) + 2
  }

  /** Removing a node with an empty side from a red-black tree starts the fix-up, or needs none when it was RED. */
  lemma DeleteStart(p: Path, r: Tree)
    requires r.Node? && (r.left.Leaf? || r.right.Leaf?)
    requires RedOk(Plug(p, r)) && Balanced(Plug(p, r)) && Color(Plug(p, r)) == BLACK
    ensures r.tag == BLACK ==> DeleteFixing(p, SpliceChild(r))
    ensures r.tag != BLACK ==> SpliceChild(r).Leaf? && !p.Top?
    ensures r.tag != BLACK ==> RedOk(Plug(p, Leaf)) && Balanced(Plug(p, Leaf)) && Color(Plug(p, Leaf)) == BLACK
  {
    PlugBalanced(p, r);
    PlugRed(p, r);
    if !p.Top? {
      PlugColor(p, r);
      PlugColor(p, Leaf);
    }
    var x := SpliceChild(r);
    assert BH(x) == BH(r.left) == BH(r.right);
    if r.tag != BLACK {
      assert x.Node? ==> BH(x) >= 1;
      PlugBalanced(p, Leaf);
      PlugRed(p, Leaf);
    }
  }

  /** A RED `x`, or `x` at the root, ends the fix-up: painting it BLACK restores every rule. */
  lemma DeleteDone(p: Path, t: Tree)
    requires DeleteFixing(p, t) && (p.Top? || Color(t) == RED)
    ensures var u := if t.Node? then Paint(t, BLACK) else t;
      RedOk(Plug(p, u)) && Balanced(Plug(p, u)) && Color(Plug(p, u)) == BLACK
      && Entries(Plug(p, u)) == Entries(Plug(p, t)) && Size(Plug(p, u)) == Size(Plug(p, t))
  {
    var u := if t.Node? then Paint(t, BLACK) else t;
    PlugSameEntries(p, u, t);
    PlugBalanced(p, u);
    PlugRed(p, u);
    if !p.Top? {
      PlugColor(p, u);
    }
  }

  /** While `x` is BLACK and not the root, its brother is a node. */
  lemma DeleteBrother(p: Path, t: Tree)
    requires DeleteFixing(p, t) && !p.Top?
    ensures Sibling(p).Node?
  {
  }

  /** The path to `x` after case 1 has rotated its RED brother above its parent. */
  function Case1Path(p: Path): Path
    requires !p.Top? && Sibling(p).Node?
  {
    var b := Sibling(p);
    if p.LeftOf? then LeftOf(p.ref, RED, p.key, p.value, b.left, LeftOf(b.ref, BLACK, b.key, b.value, b.right, p.up))
    else RightOf(b.right, p.ref, RED, p.key, p.value, RightOf(b.left, b.ref, BLACK, b.key, b.value, p.up))
  }

  /** What the invariant says about a BLACK `x`'s brother and parent. */
  lemma DeleteFamily(p: Path, t: Tree)
    requires DeleteFixing(p, t) && !p.Top?
    ensures var b, h := Sibling(p), BH(t);
      b.Node? && RedOk(b) && Balanced(b) && BH(b) == h + 1
      && BH(b.left) + Blackness(b.tag) == h + 1 && BH(b.right) + Blackness(b.tag) == h + 1
      && RedOk(b.left) && RedOk(b.right) && Balanced(b.left) && Balanced(b.right)
      && (b.tag == RED ==> Color(b.left) == BLACK && Color(b.right) == BLACK && p.tag == BLACK)
      && (p.tag == RED || p.tag == BLACK)
      && PathBalanced(p.up, h + 1 + Blackness(p.tag)) && PathRed(p.up, p.tag)
      && (!p.up.Top? ==> TopColor(p.up) == BLACK)
  {
    if !p.up.Top? {
      assert TopColor(p) == TopColor(p.up);
    }
  }

  /** Case 1 on the left (rbtree.h:359-363). */
  lemma DeleteCase1Left(p: Path, t: Tree)
    requires DeleteFixing(p, t) && p.LeftOf? && Color(t) == BLACK && Color(Sibling(p)) == RED
    ensures Sibling(p).left.Node? && Sibling(p).right.Node?
    ensures DeleteFixing(Case1Path(p), t)
  {
    DeleteFamily(p, t);
    var b, h := Sibling(p), BH(t);
    var q := Case1Path(p);
    assert q.up == LeftOf(b.ref, BLACK, b.key, b.value, b.right, p.up);
    assert PathBalanced(q.up, h + 1) && PathRed(q.up, RED);
    assert q == LeftOf(p.ref, RED, p.key, p.value, b.left, q.up);
    assert PathBalanced(q, h + 1) && PathRed(q, BLACK);
    if !p.up.Top? {
      assert TopColor(q) == TopColor(q.up) == TopColor(p.up);
    }
  }

  /** Case 1 on the right (rbtree.h:388-391). */
  lemma DeleteCase1Right(p: Path, t: Tree)
    requires DeleteFixing(p, t) && p.RightOf? && Color(t) == BLACK && Color(Sibling(p)) == RED
    ensures Sibling(p).left.Node? && Sibling(p).right.Node?
    ensures DeleteFixing(Case1Path(p), t)
  {
    DeleteFamily(p, t);
    var b, h := Sibling(p), BH(t);
    var q := Case1Path(p);
    assert q.up == RightOf(b.left, b.ref, BLACK, b.key, b.value, p.up);
    assert PathBalanced(q.up, h + 1) && PathRed(q.up, RED);
    assert q == RightOf(b.right, p.ref, RED, p.key, p.value, q.up);
    assert PathBalanced(q, h + 1) && PathRed(q, BLACK);
    if !p.up.Top? {
      assert TopColor(q) == TopColor(q.up) == TopColor(p.up);
    }
  }

  /** Case 1's rotation keeps the in-order walk. */
  lemma Case1Entries(p: Path, t: Tree)
    requires !p.Top? && Sibling(p).Node?
    ensures Entries(Plug(Case1Path(p), t)) == Entries(Plug(p, t)) && Size(Plug(Case1Path(p), t)) == Size(Plug(p, t))
  {
    var b, q := Sibling(p), Case1Path(p);
    var g := Parent(q.up, Parent(q, t));
    var T, P, L, B, R := Entries(t), [Entry(p.key, p.value)], Entries(b.left), [Entry(b.key, b.value)], Entries(b.right);
    if p.LeftOf? {
      assert Entries(g) == (T + P + L) + B + R;
      assert Entries(Parent(p, t)) == T + P + (L + B + R);
    } else {
      assert Entries(g) == L + B + (R + P + T);
      assert Entries(Parent(p, t)) == (L + B + R) + P + T;
    }
    assert Entries(g) == Entries(Parent(p, t));
    PlugSameEntries(p.up, g, Parent(p, t));
  }

  /** Case 1 (rbtree.h:359-363, 388-391): a RED brother; `x` gets a BLACK brother and a RED parent. */
  lemma DeleteCase1(p: Path, t: Tree)
    requires DeleteFixing(p, t) && !p.Top? && Color(t) == BLACK && Color(Sibling(p)) == RED
    ensures Sibling(p).left.Node? && Sibling(p).right.Node?
    ensures DeleteFixing(Case1Path(p), t)
    ensures Entries(Plug(Case1Path(p), t)) == Entries(Plug(p, t)) && Size(Plug(Case1Path(p), t)) == Size(Plug(p, t))
    ensures DeleteMeasure(Case1Path(p), t) < DeleteMeasure(p, t)
  {
    if p.LeftOf? {
      DeleteCase1Left(p, t);
    } else {
      DeleteCase1Right(p, t);
    }
    Case1Entries(p, t);
  }

  /** The parent's subtree once case 2 has painted the brother RED. */
  function Case2Tree(p: Path, t: Tree): Tree
    requires !p.Top? && Sibling(p).Node?
  {
    Parent(SiblingPath(p, t), Paint(Sibling(p), RED))
  }

  /** Case 2 (rbtree.h:365-369, 393-397): a BLACK brother with BLACK children; the extra BLACK moves up to the parent. */
  lemma DeleteCase2(p: Path, t: Tree)
    requires DeleteFixing(p, t) && !p.Top? && Color(t) == BLACK && Sibling(p).Node? && Sibling(p).tag == BLACK
    requires Color(Sibling(p).left) == BLACK && Color(Sibling(p).right) == BLACK
    ensures DeleteFixing(p.up, Case2Tree(p, t))
    ensures Entries(Plug(p.up, Case2Tree(p, t))) == Entries(Plug(p, t)) && Size(Plug(p.up, Case2Tree(p, t))) == Size(Plug(p, t))
    ensures DeleteMeasure(p.up, Case2Tree(p, t)) < DeleteMeasure(p, t)
  {
    DeleteFamily(p, t);
    var b, h := Sibling(p), BH(t);
    var c := Case2Tree(p, t);
    var b2 := Paint(b, RED);
    assert RedOk(b2) && Balanced(b2) && BH(b2) == h;
    assert RedOk(t) && Balanced(t);
    if p.LeftOf? {
      assert c == Node(t, p.ref, p.tag, p.key, p.value, b2);
    } else {
      assert c == Node(b2, p.ref, p.tag, p.key, p.value, t);
    }
    assert RedOkBelow(c) && Balanced(c) && BH(c) == h + Blackness(p.tag);
    assert Entries(c) == Entries(Parent(p, t));
    PlugSameEntries(p.up, c, Parent(p, t));
    PathRedBlack(p.up, p.tag);
  }

  /** The brother after case 3 has rotated its RED near child above it. */
  function Case3Brother(p: Path): Tree
    requires !p.Top? && Sibling(p).Node?
    requires p.LeftOf? ==> Sibling(p).left.Node?
    requires p.RightOf? ==> Sibling(p).right.Node?
  {
    var b := Sibling(p);
    if p.LeftOf? then RotateRight(Paint(b.(left := Paint(b.left, BLACK)), RED))
    else RotateLeft(Paint(b.(right := Paint(b.right, BLACK)), RED))
  }

  /** Whether case 3 applies: the brother's child on `x`'s side is RED. */
  ghost predicate NearRed(p: Path)
    requires !p.Top? && Sibling(p).Node?
  {
    if p.LeftOf? then Color(Sibling(p).left) == RED else Color(Sibling(p).right) == RED
  }

  /** The brother case 4 works with. */
  function Case4Brother(p: Path): Tree
    requires !p.Top? && Sibling(p).Node?
  {
    var b := Sibling(p);
    if p.LeftOf? && Color(b.left) == RED then Case3Brother(p)
    else if p.RightOf? && Color(b.right) == RED then Case3Brother(p)
    else b
  }

  /** The parent's subtree after case 4's three repaintings, before its rotation. */
  function Case4Tree(p: Path, t: Tree): Tree
    requires !p.Top? && Sibling(p).Node? && Case4Brother(p).Node?
  {
    var b := Case4Brother(p);
    if p.LeftOf? then
      Node(t, p.ref, BLACK, p.key, p.value, Node(b.left, b.ref, p.tag, b.key, b.value, if b.right.Node? then Paint(b.right, BLACK) else b.right))
    else
      Node(Node(if b.left.Node? then Paint(b.left, BLACK) else b.left, b.ref, p.tag, b.key, b.value, b.right), p.ref, BLACK, p.key, p.value, t)
  }

  /** The parent's subtree once case 4 has rotated it. */
  function Case4Result(p: Path, t: Tree): Tree
    requires !p.Top? && Sibling(p).Node? && Case4Brother(p).Node?
  {
    var g := Case4Tree(p, t);
    if p.LeftOf? then (if g.right.Node? then RotateLeft(g) else g)
    else (if g.left.Node? then RotateRight(g) else g)
  }

  /** Cases 3 and 4 keep the in-order walk. */
  lemma Case4Entries(p: Path, t: Tree)
    requires !p.Top? && Sibling(p).Node?
    ensures Case4Brother(p).Node? && Entries(Case4Brother(p)) == Entries(Sibling(p))
    ensures Entries(Case4Result(p, t)) == Entries(Parent(p, t))
  {
    var b, b4 := Sibling(p), Case4Brother(p);
    if p.LeftOf? && Color(b.left) == RED {
      var b2 := Paint(b.(left := Paint(b.left, BLACK)), RED);
      assert Entries(b2) == Entries(b);
      RotateRightEntries(b2);
    } else if p.RightOf? && Color(b.right) == RED {
      var b2 := Paint(b.(right := Paint(b.right, BLACK)), RED);
      assert Entries(b2) == Entries(b);
      RotateLeftEntries(b2);
    }
    var g := Case4Tree(p, t);
    var T, P := Entries(t), [Entry(p.key, p.value)];
    if p.LeftOf? {
      assert Entries(g.right) == Entries(b4);
      assert Entries(g) == T + P + Entries(b);
      if g.right.Node? {
        RotateLeftEntries(g);
      }
    } else {
      assert Entries(g.left) == Entries(b4);
      assert Entries(g) == Entries(b) + P + T;
      if g.left.Node? {
        RotateRightEntries(g);
      }
    }
  }

  /** Cases 3 and 4 on the left (rbtree.h:371-384): the parent's new subtree has the BLACK it lacked. */
  lemma DeleteCase34Left(p: Path, t: Tree)
    requires DeleteFixing(p, t) && p.LeftOf? && Color(t) == BLACK && Sibling(p).Node? && Sibling(p).tag == BLACK
    requires !(Color(Sibling(p).left) == BLACK && Color(Sibling(p).right) == BLACK)
    ensures Color(Sibling(p).left) == RED ==> Sibling(p).left.Node?
    ensures Case4Brother(p).Node? && Case4Brother(p).right.Node? && Case4Tree(p, t).right.Node?
    ensures var r := Case4Result(p, t);
      RedOk(r) && Balanced(r) && BH(r) == BH(t) + 1 + Blackness(p.tag) && Color(r) == p.tag
      && Entries(r) == Entries(Parent(p, t))
  {
    DeleteFamily(p, t);
    var b, h := Sibling(p), BH(t);
    var b4 := Case4Brother(p);
    if Color(b.left) == RED {
      var bl := b.left;
      assert RedOk(bl) && Balanced(bl) && BH(bl) == h;
      assert BH(bl.left) == h && BH(bl.right) == h && Color(bl.left) == BLACK && Color(bl.right) == BLACK;
      assert b4 == Node(bl.left, bl.ref, BLACK, bl.key, bl.value, Node(bl.right, b.ref, RED, b.key, b.value, b.right));
    }
    assert b4.tag == BLACK && RedOk(b4.left) && BH(b4.left) == h && Balanced(b4.left);
    assert b4.right.Node? && RedOkBelow(b4.right) && Balanced(b4.right) && BH(b4.right) == h && b4.right.tag == RED;
    var g := Case4Tree(p, t);
    var r := Case4Result(p, t);
    Case4Entries(p, t);
    assert r.left == Node(t, p.ref, BLACK, p.key, p.value, b4.left);
  }

  /** Cases 3 and 4 on the right (rbtree.h:399-412), the mirror image. */
  lemma DeleteCase34Right(p: Path, t: Tree)
    requires DeleteFixing(p, t) && p.RightOf? && Color(t) == BLACK && Sibling(p).Node? && Sibling(p).tag == BLACK
    requires !(Color(Sibling(p).left) == BLACK && Color(Sibling(p).right) == BLACK)
    ensures Color(Sibling(p).right) == RED ==> Sibling(p).right.Node?
    ensures Case4Brother(p).Node? && Case4Brother(p).left.Node? && Case4Tree(p, t).left.Node?
    ensures var r := Case4Result(p, t);
      RedOk(r) && Balanced(r) && BH(r) == BH(t) + 1 + Blackness(p.tag) && Color(r) == p.tag
      && Entries(r) == Entries(Parent(p, t))
  {
    DeleteFamily(p, t);
    var b, h := Sibling(p), BH(t);
    var b4 := Case4Brother(p);
    if Color(b.right) == RED {
      var br := b.right;
      assert RedOk(br) && Balanced(br) && BH(br) == h;
      assert BH(br.left) == h && BH(br.right) == h && Color(br.left) == BLACK && Color(br.right) == BLACK;
      assert b4 == Node(Node(b.left, b.ref, RED, b.key, b.value, br.left), br.ref, BLACK, br.key, br.value, br.right);
    }
    assert b4.tag == BLACK && RedOk(b4.right) && BH(b4.right) == h && Balanced(b4.right);
    assert b4.left.Node? && RedOkBelow(b4.left) && Balanced(b4.left) && BH(b4.left) == h && b4.left.tag == RED;
    var g := Case4Tree(p, t);
    var r := Case4Result(p, t);
    Case4Entries(p, t);
    assert r.right == Node(b4.right, p.ref, BLACK, p.key, p.value, t);
  }

  /** Cases 3 and 4: one or two rotations leave a tree that keeps every rule but perhaps the root's colour. */
  lemma DeleteCase34(p: Path, t: Tree)
    requires DeleteFixing(p, t) && !p.Top? && Color(t) == BLACK && Sibling(p).Node? && Sibling(p).tag == BLACK
    requires !(Color(Sibling(p).left) == BLACK && Color(Sibling(p).right) == BLACK)
    ensures p.LeftOf? && Color(Sibling(p).left) == RED ==> Sibling(p).left.Node?
    ensures p.RightOf? && Color(Sibling(p).right) == RED ==> Sibling(p).right.Node?
    ensures p.LeftOf? ==> Case4Brother(p).Node? && Case4Brother(p).right.Node? && Case4Tree(p, t).right.Node?
    ensures p.RightOf? ==> Case4Brother(p).Node? && Case4Brother(p).left.Node? && Case4Tree(p, t).left.Node?
    ensures DeleteFixing(Top, Plug(p.up, Case4Result(p, t)))
    ensures Entries(Plug(p.up, Case4Result(p, t))) == Entries(Plug(p, t))
    ensures Size(Plug(p.up, Case4Result(p, t))) == Size(Plug(p, t))
  {
    assert PathBalanced(p.up, BH(t) + 1 + Blackness(p.tag)) && PathRed(p.up, p.tag);
    if p.LeftOf? {
      DeleteCase34Left(p, t);
    } else {
      DeleteCase34Right(p, t);
    }
    var r := Case4Result(p, t);
    PlugSameEntries(p.up, r, Parent(p, t));
    PlugBalanced(p.up, r);
    PlugRed(p.up, r);
  }

  /** Painting the root BLACK keeps the red rule and the balance. */
  lemma PaintRoot(t: Tree)
    requires t.Node? && RedOk(t) && Balanced(t)
    ensures RedOk(Paint(t, BLACK)) && Balanced(Paint(t, BLACK)) && Entries(Paint(t, BLACK)) == Entries(t)
  {
  }

  /** Case 1's three repaintings, written in the records, hold the grandparent's new subtree. */
  lemma RecolorCells(n: Arena, root: Ref, p: Path, t: Tree)
    requires Focused(n, root, p, t) && t.Node? && !p.Top? && !p.up.Top? && Sibling(p.up).Node?
    ensures p.ref in n && Sibling(p.up).ref in n && p.up.ref in n
    ensures var n1 := n[p.ref := n[p.ref].(tag := BLACK)];
      var n2 := n1[Sibling(p.up).ref := n1[Sibling(p.up).ref].(tag := BLACK)];
      var n3 := n2[p.up.ref := n2[p.up.ref].(tag := RED)];
      Focused(n3, root, p.up.up, Case1Grandparent(p, t)) && SameKeys(n3, n) && (Null in n ==> n3[Null] == n[Null])
  {
    var u := p.up;
    Ascend(n, root, p, t);
    RootCell(n, root, u, Parent(p, t));
    Retag(n, root, u, Parent(p, t), BLACK);
    var n1 := n[p.ref := n[p.ref].(tag := BLACK)];
    var P1 := Case1Parent(p, t);
    ToSibling(n1, root, u, P1);
    RootCell(n1, root, SiblingPath(u, P1), Sibling(u));
    Retag(n1, root, SiblingPath(u, P1), Sibling(u), BLACK);
    var n2 := n1[Sibling(u).ref := n1[Sibling(u).ref].(tag := BLACK)];
    Ascend(n2, root, SiblingPath(u, P1), Case1Uncle(p));
    var G := Parent(SiblingPath(u, P1), Case1Uncle(p));
    RootCell(n2, root, u.up, G);
    Retag(n2, root, u.up, G, RED);
  }

  /** The loop test of Insert's fix-up: the parent of `x` (the sentinel at the root) is RED. */
  lemma ParentColor(n: Arena, root: Ref, p: Path, t: Tree)
    requires Focused(n, root, p, t) && t.Node? && Null in n && n[Null].tag == BLACK
    ensures FrameRef(p) in n && (n[FrameRef(p)].tag == RED <==> !p.Top? && p.tag == RED)
  {
    if !p.Top? {
      FrameCell(n, root, p, t);
    }
  }

  /** What Insert's fix-up reads off the records about the parent, the grandparent and the uncle (rbtree.h:123, 134, 147, 168). */
  lemma UncleCell(n: Arena, root: Ref, p: Path, t: Tree)
    requires Focused(n, root, p, t) && t.Node? && !p.Top? && !p.up.Top? && Null in n && n[Null].tag == BLACK
    ensures p.ref in n && n[p.ref].parent == p.up.ref && p.up.ref in n
    ensures (n[p.up.ref].left == p.ref) == p.up.LeftOf?
    ensures (n[p.ref].right == t.ref) == p.RightOf? && (n[p.ref].left == t.ref) == p.LeftOf?
    ensures var uncle := if n[p.up.ref].left == p.ref then n[p.up.ref].right else n[p.up.ref].left;
      uncle == RootRef(Sibling(p.up)) && uncle in n && (n[uncle].tag == RED <==> Color(Sibling(p.up)) == RED)
  {
    FrameCell(n, root, p, t);
    Ascend(n, root, p, t);
    FrameCell(n, root, p.up, Parent(p, t));
    ToSibling(n, root, p.up, Parent(p, t));
    if Sibling(p.up).Node? {
      RootCell(n, root, SiblingPath(p.up, Parent(p, t)), Sibling(p.up));
    }
  }

  /** Case 3's two repaintings (rbtree.h:153-154, 173-174): the parent of `x` BLACK, the grandparent RED. */
  lemma Case3Cells(n: Arena, root: Ref, p: Path, t: Tree)
    requires !p.Top? && t.Node? && !p.up.Top? && Focused(n, root, p.up, Case3Child(p, t))
    ensures var Q := Case3Child(p, t);
      Q.ref in n && p.up.ref in n && Q.ref != Null && p.up.ref != Null && n[Q.ref].parent == p.up.ref
    ensures var Q := Case3Child(p, t);
      var n2 := n[Q.ref := n[Q.ref].(tag := BLACK)][p.up.ref := n[Q.ref := n[Q.ref].(tag := BLACK)][p.up.ref].(tag := RED)];
      Focused(n2, root, p.up.up, Case3Grandparent(p, t)) && SameKeys(n2, n) && (Null in n ==> n2[Null] == n[Null])
  {
    var u, Q := p.up, Case3Child(p, t);
    RootCell(n, root, u, Q);
    Retag(n, root, u, Q, BLACK);
    var n1 := n[Q.ref := n[Q.ref].(tag := BLACK)];
    Ascend(n1, root, u, Paint(Q, BLACK));
    Retag(n1, root, u.up, Parent(u, Paint(Q, BLACK)), RED);
  }

  // ---------------------------------------------------------------------------
  // Delete, in the records

  /** The fix-up's repaintings and rotations keep the addresses the tree uses: case 1. */
  lemma Case1Refs(p: Path, t: Tree)
    requires !p.Top? && Sibling(p).Node?
    ensures Refs(Plug(Case1Path(p), t)) == Refs(Plug(p, t))
  {
    var q := Case1Path(p);
    var g := Parent(q.up, Parent(q, t));
    var b := Sibling(p);
    if p.LeftOf? {
      assert Refs(g) == (Refs(t) + {p.ref} + Refs(b.left)) + {b.ref} + Refs(b.right);
    } else {
      assert Refs(g) == Refs(b.left) + {b.ref} + (Refs(b.right) + {p.ref} + Refs(t));
    }
    assert Refs(Parent(p, t)) == Refs(g);
    PlugSameRefs(p.up, g, Parent(p, t));
  }

  /** Case 2 keeps the addresses the tree uses. */
  lemma Case2Refs(p: Path, t: Tree)
    requires !p.Top? && Sibling(p).Node?
    ensures Refs(Plug(p.up, Case2Tree(p, t))) == Refs(Plug(p, t))
  {
    assert Refs(Case2Tree(p, t)) == Refs(Parent(p, t));
    PlugSameRefs(p.up, Case2Tree(p, t), Parent(p, t));
  }

  /** Cases 3 and 4 keep the addresses the tree uses. */
  lemma Case4Refs(p: Path, t: Tree)
    requires !p.Top? && Sibling(p).Node?
    ensures Case4Brother(p).Node? && Refs(Plug(p.up, Case4Result(p, t))) == Refs(Plug(p, t))
  {
    Case4Entries(p, t);
    var b, b4 := Sibling(p), Case4Brother(p);
    assert Refs(b4) == Refs(b);
    var g := Case4Tree(p, t);
    if p.LeftOf? {
      assert Refs(g.right) == Refs(b4);
      assert Refs(g) == Refs(t) + {p.ref} + Refs(b);
      if g.right.Node? {
        RotateLeftRefs(g);
      }
    } else {
      assert Refs(g.left) == Refs(b4);
      assert Refs(g) == Refs(b) + {p.ref} + Refs(t);
      if g.left.Node? {
        RotateRightRefs(g);
      }
    }
    assert Refs(Case4Result(p, t)) == Refs(g) == Refs(Parent(p, t));
    PlugSameRefs(p.up, Case4Result(p, t), Parent(p, t));
  }

  /** Moving a key and value into the ancestor at the top of `top` changes no colour. */
  lemma {:induction false} RekeyColors(q: Path, top: Path, k: int, v: int, h: nat, c: int)
    requires !top.Top?
    ensures !Graft(q, top).Top? && !Graft(q, Rekey(top, k, v)).Top?
    ensures PathBalanced(Graft(q, Rekey(top, k, v)), h) == PathBalanced(Graft(q, top), h)
    ensures PathRed(Graft(q, Rekey(top, k, v)), c) == PathRed(Graft(q, top), c)
    ensures TopColor(Graft(q, Rekey(top, k, v))) == TopColor(Graft(q, top))
    decreases q
  {
    if !q.Top? {
      RekeyColors(q.up, top, k, v, h + Blackness(q.tag), q.tag);
    }
  }

  /**
   * What removing the node `d` holding a key leaves, before any repainting.
   * The node cut out is `R`: `d` itself when it has an empty side (`same`),
   * otherwise its in-order predecessor, the last node down the right spine
   * `q` of its left subtree, whose key and value move into `d`. Its child
   * takes its place: the keys stay in order, `d`'s key leaves the map, and
   * either the fix-up's invariant holds there (a BLACK node went) or every
   * rule holds (a RED one went).
   */
  lemma DeletePlan(p: Path, d: Tree, q: Path, R: Tree, same: bool)
    requires IsRB(Plug(p, d)) && d.Node?
    requires same ==> q == Top && R == d && (d.left.Leaf? || d.right.Leaf?)
    requires !same ==> d.left.Node? && RightSpine(q) && Plug(q, R) == d.left && R.Node? && R.right.Leaf?
    ensures R.Node? && (R.left.Leaf? || R.right.Leaf?)
    ensures var P2 := if same then p else Graft(q, Rekey(LeftOf(d.ref, d.tag, d.key, d.value, d.right, p), R.key, R.value));
      var X := SpliceChild(R);
      Ordered(Plug(P2, X)) && Contents(Plug(P2, X)) == Contents(Plug(p, d)) - {d.key}
      && Size(Plug(P2, X)) + 1 == Size(Plug(p, d))
      && (R.tag == BLACK ==> DeleteFixing(P2, X))
      && (R.tag != BLACK ==> RedOk(Plug(P2, X)) && Balanced(Plug(P2, X)) && Color(Plug(P2, X)) == BLACK)
  {
    if same {
      DeleteSelfPlan(p, d);
    } else {
      var F := LeftOf(d.ref, d.tag, d.key, d.value, d.right, p);
      PredecessorPlanKeys(p, d, q, R);
      PredecessorPlanColours(q, F, R);
    }
  }

  /** DeletePlan when the node found is cut out itself. */
  lemma DeleteSelfPlan(p: Path, d: Tree)
    requires IsRB(Plug(p, d)) && d.Node? && (d.left.Leaf? || d.right.Leaf?)
    ensures var X := SpliceChild(d);
      Ordered(Plug(p, X)) && Contents(Plug(p, X)) == Contents(Plug(p, d)) - {d.key}
      && Size(Plug(p, X)) + 1 == Size(Plug(p, d))
      && (d.tag == BLACK ==> DeleteFixing(p, X))
      && (d.tag != BLACK ==> RedOk(Plug(p, X)) && Balanced(Plug(p, X)) && Color(Plug(p, X)) == BLACK)
  {
    var X := SpliceChild(d);
    SpliceEntries(p, d);
    Unslot(Before(p) + Entries(d.left), Entry(d.key, d.value), Entries(d.right) + After(p));
    SizeEntries(Plug(p, d));
    SizeEntries(Plug(p, X));
    DeleteStart(p, d);
  }

  /** DeletePlan when the predecessor is cut out: the keys. */
  lemma PredecessorPlanKeys(p: Path, d: Tree, q: Path, R: Tree)
    requires IsRB(Plug(p, d)) && d.Node?
    requires d.left.Node? && RightSpine(q) && Plug(q, R) == d.left && R.Node? && R.right.Leaf?
    ensures var P2 := Graft(q, Rekey(LeftOf(d.ref, d.tag, d.key, d.value, d.right, p), R.key, R.value));
      var X := SpliceChild(R);
      Ordered(Plug(P2, X)) && Contents(Plug(P2, X)) == Contents(Plug(p, d)) - {d.key}
      && Size(Plug(P2, X)) + 1 == Size(Plug(p, d))
  {
    var X := SpliceChild(R);
    var F := LeftOf(d.ref, d.tag, d.key, d.value, d.right, p);
    var P2 := Graft(q, Rekey(F, R.key, R.value));
    assert X == R.left;
    PredecessorEntries(p, d, q, R);
    var x := Before(p) + Before(q) + Entries(R.left) + [Entry(R.key, R.value)];
    Unslot(x, Entry(d.key, d.value), Entries(d.right) + After(p));
    SizeEntries(Plug(p, d));
    SizeEntries(Plug(P2, X));
  }

  /** DeletePlan when the predecessor is cut out: the colours. */
  lemma PredecessorPlanColours(q: Path, F: Path, R: Tree)
    requires !F.Top? && IsRB(Plug(F, Plug(q, R))) && RightSpine(q) && R.Node? && R.right.Leaf?
    ensures var P2 := Graft(q, Rekey(F, R.key, R.value));
      var X := SpliceChild(R);
      (R.tag == BLACK ==> DeleteFixing(P2, X))
      && (R.tag != BLACK ==> RedOk(Plug(P2, X)) && Balanced(Plug(P2, X)) && Color(Plug(P2, X)) == BLACK)
  {
    var X := SpliceChild(R);
    var P, P2 := Graft(q, F), Graft(q, Rekey(F, R.key, R.value));
    assert X == R.left;
    PlugGraft(q, F, R);
    DeleteStart(P, R);
    RekeyColors(q, F, R.key, R.value, BH(X) + 1, BLACK);
    if R.tag != BLACK {
      PlugRed(P, Leaf);
      PlugBalanced(P, Leaf);
      PlugColor(P, Leaf);
      RekeyColors(q, F, R.key, R.value, BH(X), Color(X));
      PlugRed(P2, Leaf);
      PlugBalanced(P2, Leaf);
      PlugColor(P2, Leaf);
    }
  }

  /** What Delete's fix-up reads at `x`: its record (perhaps the sentinel's), its colour, and whether it is the root. */
  lemma XCell(n: Arena, root: Ref, p: Path, t: Tree)
    requires Focused(n, root, p, t) && Null in n && n[Null].tag == BLACK
    ensures RootRef(t) in n && n[RootRef(t)].tag == Color(t) && (RootRef(t) == root <==> p.Top?)
  {
    NullFreePath(p);
    if t.Node? {
      RootCell(n, root, p, t);
    }
    if !p.Top? {
      RootAbove(n, root, p, RootRef(t));
    }
  }

  /** What Delete's fix-up reads about the parent and the brother of `x` (rbtree.h:357-358, 365-366, 372, 387, 393-394, 400). */
  lemma BrotherCell(n: Arena, root: Ref, p: Path, t: Tree)
    requires Focused(n, root, p, t) && !p.Top? && Sibling(p).Node? && Null in n && n[Null].tag == BLACK
    requires t.Leaf? ==> n[Null].parent == FrameRef(p)
    ensures RootRef(t) in n && n[RootRef(t)].parent == p.ref && p.ref in n && p.ref != Null
    ensures (RootRef(t) == n[p.ref].left) == p.LeftOf?
    ensures var b := Sibling(p);
      b.ref == (if p.LeftOf? then n[p.ref].right else n[p.ref].left) && b.ref in n && b.ref != Null && n[b.ref].tag == b.tag
      && n[b.ref].left == RootRef(b.left) && n[b.ref].right == RootRef(b.right)
      && RootRef(b.left) in n && n[RootRef(b.left)].tag == Color(b.left)
      && RootRef(b.right) in n && n[RootRef(b.right)].tag == Color(b.right)
  {
    FrameCell(n, root, p, t);
    XCell(n, root, p, t);
    if t.Node? {
      RootCell(n, root, p, t);
    }
    NephewCell(n, root, p, t);
  }

  /** What the records say about the brother of `x` and its children. */
  lemma NephewCell(n: Arena, root: Ref, p: Path, t: Tree)
    requires Focused(n, root, p, t) && !p.Top? && Sibling(p).Node? && Null in n && n[Null].tag == BLACK
    ensures var b := Sibling(p);
      b.ref in n && b.ref != Null && n[b.ref].tag == b.tag
      && n[b.ref].left == RootRef(b.left) && n[b.ref].right == RootRef(b.right)
      && RootRef(b.left) in n && n[RootRef(b.left)].tag == Color(b.left)
      && RootRef(b.right) in n && n[RootRef(b.right)].tag == Color(b.right)
  {
    var sp, b := SiblingPath(p, t), Sibling(p);
    ToSibling(n, root, p, t);
    RootCell(n, root, sp, b);
    DescendLeft(n, root, sp, b);
    XCell(n, root, LeftOf(b.ref, b.tag, b.key, b.value, b.right, sp), b.left);
    DescendRight(n, root, sp, b);
    XCell(n, root, RightOf(b.left, b.ref, b.tag, b.key, b.value, sp), b.right);
  }

  /** The parent's subtree after case 1's repaintings, before its rotation: the parent RED, the brother BLACK. */
  function Case1Start(p: Path, t: Tree): Tree
    requires !p.Top? && Sibling(p).Node?
  {
    if p.LeftOf? then Node(t, p.ref, RED, p.key, p.value, Paint(p.right, BLACK))
    else Node(Paint(p.left, BLACK), p.ref, RED, p.key, p.value, t)
  }

  /** Case 1's two repaintings (rbtree.h:360-361, 389-390), written in the records. */
  lemma DeleteCase1Cells(n: Arena, root: Ref, p: Path, t: Tree)
    requires Focused(n, root, p, t) && !p.Top? && Sibling(p).Node?
    ensures p.ref in n && Sibling(p).ref in n
    ensures var n1 := n[p.ref := n[p.ref].(tag := RED)];
      var n2 := n1[Sibling(p).ref := n1[Sibling(p).ref].(tag := BLACK)];
      Focused(n2, root, p.up, Case1Start(p, t)) && SameKeys(n2, n) && (Null in n ==> n2[Null] == n[Null])
  {
    Ascend(n, root, p, t);
    RootCell(n, root, p.up, Parent(p, t));
    Retag(n, root, p.up, Parent(p, t), RED);
    var n1 := n[p.ref := n[p.ref].(tag := RED)];
    var P1 := Parent(p, t).(tag := RED);
    if p.LeftOf? {
      var sp := RightOf(t, p.ref, RED, p.key, p.value, p.up);
      DescendRight(n1, root, p.up, P1);
      Retag(n1, root, sp, p.right, BLACK);
      var n2 := n1[p.right.ref := n1[p.right.ref].(tag := BLACK)];
      Ascend(n2, root, sp, Paint(p.right, BLACK));
    } else {
      var sp := LeftOf(p.ref, RED, p.key, p.value, t, p.up);
      DescendLeft(n1, root, p.up, P1);
      Retag(n1, root, sp, p.left, BLACK);
      var n2 := n1[p.left.ref := n1[p.left.ref].(tag := BLACK)];
      Ascend(n2, root, sp, Paint(p.left, BLACK));
    }
  }

  /** After case 1's rotation the walk stands at `x` again, below its parent, now below its old brother. */
  lemma Case1Descend(n: Arena, root: Ref, p: Path, t: Tree)
    requires !p.Top? && Sibling(p).Node?
    requires Focused(n, root, p.up, if p.LeftOf? then RotateLeft(Case1Start(p, t)) else RotateRight(Case1Start(p, t)))
    ensures Focused(n, root, Case1Path(p), t)
  {
    var b := Sibling(p);
    if p.LeftOf? {
      var g := RotateLeft(Case1Start(p, t));
      DescendLeft(n, root, p.up, g);
      DescendLeft(n, root, LeftOf(b.ref, BLACK, b.key, b.value, b.right, p.up), g.left);
    } else {
      var g := RotateRight(Case1Start(p, t));
      DescendRight(n, root, p.up, g);
      DescendRight(n, root, RightOf(b.left, b.ref, BLACK, b.key, b.value, p.up), g.right);
    }
  }

  /** Case 2's repainting (rbtree.h:368, 396), written in the records: the walk moves up to the parent. */
  lemma DeleteCase2Cells(n: Arena, root: Ref, p: Path, t: Tree)
    requires Focused(n, root, p, t) && !p.Top? && Sibling(p).Node?
    ensures Sibling(p).ref in n && RootRef(Case2Tree(p, t)) == p.ref
    ensures var n2 := n[Sibling(p).ref := n[Sibling(p).ref].(tag := RED)];
      Focused(n2, root, p.up, Case2Tree(p, t)) && SameKeys(n2, n) && (Null in n ==> n2[Null] == n[Null])
  {
    var sp := SiblingPath(p, t);
    ToSibling(n, root, p, t);
    Retag(n, root, sp, Sibling(p), RED);
    var n2 := n[Sibling(p).ref := n[Sibling(p).ref].(tag := RED)];
    Ascend(n2, root, sp, Paint(Sibling(p), RED));
  }

  /** The brother after case 3's repaintings, before its rotation: its near child BLACK, itself RED. */
  function Case3Start(p: Path): Tree
    requires !p.Top? && Sibling(p).Node?
    requires p.LeftOf? ==> Sibling(p).left.Node?
    requires p.RightOf? ==> Sibling(p).right.Node?
  {
    var b := Sibling(p);
    if p.LeftOf? then Paint(b.(left := Paint(b.left, BLACK)), RED)
    else Paint(b.(right := Paint(b.right, BLACK)), RED)
  }

  /** Case 3's two repaintings (rbtree.h:373-374, 401-402), written in the records. */
  lemma DeleteCase3Cells(n: Arena, root: Ref, p: Path, t: Tree)
    requires Focused(n, root, p, t) && !p.Top? && Sibling(p).Node?
    requires p.LeftOf? ==> Sibling(p).left.Node?
    requires p.RightOf? ==> Sibling(p).right.Node?
    ensures var b := Sibling(p);
      var c := if p.LeftOf? then b.left.ref else b.right.ref;
      c in n && b.ref in n && c != b.ref
    ensures var b := Sibling(p);
      var c := if p.LeftOf? then b.left.ref else b.right.ref;
      var n1 := n[c := n[c].(tag := BLACK)];
      var n2 := n1[b.ref := n1[b.ref].(tag := RED)];
      Focused(n2, root, SiblingPath(p, t), Case3Start(p)) && SameKeys(n2, n) && (Null in n ==> n2[Null] == n[Null])
  {
    var sp, b := SiblingPath(p, t), Sibling(p);
    ToSibling(n, root, p, t);
    RootCell(n, root, sp, b);
    if p.LeftOf? {
      var cp := LeftOf(b.ref, b.tag, b.key, b.value, b.right, sp);
      DescendLeft(n, root, sp, b);
      Retag(n, root, cp, b.left, BLACK);
      var n1 := n[b.left.ref := n[b.left.ref].(tag := BLACK)];
      Ascend(n1, root, cp, Paint(b.left, BLACK));
      Retag(n1, root, sp, b.(left := Paint(b.left, BLACK)), RED);
    } else {
      var cp := RightOf(b.left, b.ref, b.tag, b.key, b.value, sp);
      DescendRight(n, root, sp, b);
      Retag(n, root, cp, b.right, BLACK);
      var n1 := n[b.right.ref := n[b.right.ref].(tag := BLACK)];
      Ascend(n1, root, cp, Paint(b.right, BLACK));
      Retag(n1, root, sp, b.(right := Paint(b.right, BLACK)), RED);
    }
  }

  /** Case 4's three repaintings (rbtree.h:379-381, 407-409), written in the records. */
  lemma DeleteCase4Cells(n: Arena, root: Ref, p: Path, t: Tree)
    requires !p.Top? && Sibling(p).Node? && Case4Brother(p).Node? && Focused(n, root, SiblingPath(p, t), Case4Brother(p))
    requires p.LeftOf? ==> Case4Brother(p).right.Node?
    requires p.RightOf? ==> Case4Brother(p).left.Node?
    ensures var b := Case4Brother(p);
      b.ref in n && p.ref in n && b.ref != p.ref && n[p.ref].tag == p.tag
      && n[b.ref].left == RootRef(b.left) && n[b.ref].right == RootRef(b.right)
    ensures var b := Case4Brother(p).ref;
      var n1 := n[b := n[b].(tag := n[p.ref].tag)];
      var n2 := n1[p.ref := n1[p.ref].(tag := BLACK)];
      var c := if p.LeftOf? then n2[b].right else n2[b].left;
      c in n2
      && var n3 := n2[c := n2[c].(tag := BLACK)];
      Focused(n3, root, p.up, Case4Tree(p, t)) && SameKeys(n3, n) && (Null in n ==> n3[Null] == n[Null])
  {
    var sp, B := SiblingPath(p, t), Case4Brother(p);
    RootCell(n, root, sp, B);
    FrameCell(n, root, sp, B);
    Retag(n, root, sp, B, p.tag);
    var n1 := n[B.ref := n[B.ref].(tag := n[p.ref].tag)];
    var B1 := B.(tag := p.tag);
    Ascend(n1, root, sp, B1);
    var G := Parent(sp, B1);
    Retag(n1, root, p.up, G, BLACK);
    var n2 := n1[p.ref := n1[p.ref].(tag := BLACK)];
    var G2 := G.(tag := BLACK);
    if p.LeftOf? {
      var sp2 := RightOf(t, p.ref, BLACK, p.key, p.value, p.up);
      var cp := RightOf(B.left, B.ref, p.tag, B.key, B.value, sp2);
      DescendRight(n2, root, p.up, G2);
      DescendRight(n2, root, sp2, B1);
      RootCell(n2, root, cp, B.right);
      Retag(n2, root, cp, B.right, BLACK);
      var n3 := n2[B.right.ref := n2[B.right.ref].(tag := BLACK)];
      Ascend(n3, root, cp, Paint(B.right, BLACK));
      Ascend(n3, root, sp2, Parent(cp, Paint(B.right, BLACK)));
    } else {
      var sp2 := LeftOf(p.ref, BLACK, p.key, p.value, t, p.up);
      var cp := LeftOf(B.ref, p.tag, B.key, B.value, B.right, sp2);
      DescendLeft(n2, root, p.up, G2);
      DescendLeft(n2, root, sp2, B1);
      RootCell(n2, root, cp, B.left);
      Retag(n2, root, cp, B.left, BLACK);
      var n3 := n2[B.left.ref := n2[B.left.ref].(tag := BLACK)];
      Ascend(n3, root, cp, Paint(B.left, BLACK));
      Ascend(n3, root, sp2, Parent(cp, Paint(B.left, BLACK)));
    }
  }

  /** Rewriting records keeps every address in use at most `last`. */
  lemma InsertSettled(n: Arena, n2: Arena, last: int)
    requires SameKeys(n2, n) && Bounded(n, last)
    ensures Bounded(n2, last)
  {
  }

  /** Insert into the empty tree: the new record, painted BLACK, is the whole tree. */
  lemma PlantRoot(n: Arena, root: Ref, x: Ref, k: int, v: int)
    requires Null in n && n[Null].tag == BLACK && Focused(n, root, Top, Leaf) && x !in n && x != Null
    ensures var n2 := n[x := Cell(Null, Null, Null, RED, k, v)];
            Holds(n2[x := n2[x].(tag := BLACK)], x, 1, Node(Leaf, x, BLACK, k, v, Leaf))
    ensures Contents(Node(Leaf, x, BLACK, k, v, Leaf)) == Contents(Leaf)[k := v]
  {
    var n2 := n[x := Cell(Null, Null, Null, RED, k, v)];
    var n3 := n2[x := n2[x].(tag := BLACK)];
    var t := Node(Leaf, x, BLACK, k, v, Leaf);
    assert n3[x] == Cell(Null, Null, Null, BLACK, k, v);
    assert Entries(t) == [Entry(k, v)];
    assert Ordered(t) && RedOk(t) && Balanced(t);
    assert LinkedTree(n3, t, Null);
    assert Focused(n3, x, Top, t);
  }

  /** The records hold the red-black tree `t` of `size` nodes below `root`, and the sentinel is BLACK. */
  ghost predicate Holds(n: Arena, root: Ref, size: nat, t: Tree)
  {
    Null in n && n[Null].tag == BLACK && Focused(n, root, Top, t) && IsRB(t) && size == Size(t)
  }

  /** After a fix-up the records hold a red-black tree with the entries of `u`. */
  lemma Rebuilt(n: Arena, root: Ref, size: nat, u: Tree, w: Tree)
    requires Null in n && n[Null].tag == BLACK && Focused(n, root, Top, w)
    requires RedOk(w) && Balanced(w) && Color(w) == BLACK
    requires Entries(w) == Entries(u) && Ordered(u) && size == Size(w)
    ensures Holds(n, root, size, w) && Contents(w) == Contents(u)
  {
  }

  // ---------------------------------------------------------------------------
  // Clear, a postorder walk of the records

  /**
   * Where Clear's walk stands at a node: just arrived from its parent, back
   * from its left subtree, back from its right subtree, or past it with the
   * whole subtree freed.
   */
  datatype Visit = Arrived | LeftDone | RightDone | Gone

  /** The subtrees a postorder walk finishes before it reaches the subtree below `p`. */
  function Done(p: Path): set<Ref>
  {
    match p
    case Top => {}
    case LeftOf(_, _, _, _, _, up) => Done(up)
    case RightOf(lt, _, _, _, _, up) => Done(up) + Refs(lt)
  }

  /** The number of nodes in `Done(p)`. */
  function DoneSize(p: Path): nat
  {
    match p
    case Top => 0
    case LeftOf(_, _, _, _, _, up) => DoneSize(up)
    case RightOf(lt, _, _, _, _, up) => DoneSize(up) + Size(lt)
  }

  /** The nodes the walk has freed when it stands at `t` below `p`. */
  function Freed(p: Path, t: Tree, v: Visit): set<Ref>
    requires v == LeftDone || v == RightDone ==> t.Node?
  {
    Done(p) + match v
      case Arrived => {}
      case LeftDone => Refs(t.left)
      case RightDone => Refs(t.left) + Refs(t.right)
      case Gone => Refs(t)
  }

  /** How many nodes the walk has freed when it stands at `t` below `p`. */
  function FreedCount(p: Path, t: Tree, v: Visit): nat
    requires v == LeftDone || v == RightDone ==> t.Node?
  {
    DoneSize(p) + match v
      case Arrived => 0
      case LeftDone => Size(t.left)
      case RightDone => Size(t.left) + Size(t.right)
      case Gone => Size(t)
  }

  /** The nodes in the subtrees the walk has still to enter once it leaves the subtree below `p`. */
  function Pending(p: Path): nat
  {
    match p
    case Top => 0
    case LeftOf(_, _, _, _, rt, up) => Size(rt) + Pending(up)
    case RightOf(_, _, _, _, _, up) => Pending(up)
  }

  /**
   * The passes of Clear's loop still to come: each pass either enters a
   * node or frees one, so every node not yet entered costs two and every
   * node entered but not freed (the ancestors and `t`) costs one.
   */
  function Moves(p: Path, t: Tree, v: Visit): nat
    requires v == LeftDone || v == RightDone ==> t.Node?
  {
    match v
    case Arrived => 2 * (Pending(p) + (if t.Leaf? then 0 else Size(t) - 1)) + Depth(p) + 1
    case LeftDone => 2 * (Pending(p) + Size(t.right)) + Depth(p) + 1
    case RightDone => 2 * Pending(p) + Depth(p) + 1
    case Gone => 0
  }

  /** What a postorder walk has finished lies among the addresses off the path. */
  lemma {:induction false} DoneRefs(p: Path)
    ensures Done(p) <= PathRefs(p)
  {
    if !p.Top? {
      DoneRefs(p.up);
    }
  }

  /** What a postorder walk has finished, and the subtree it stands at, are part of the whole tree. */
  lemma {:induction false} DoneSizeBound(p: Path, t: Tree)
    ensures DoneSize(p) + Size(t) <= Size(Plug(p, t))
  {
    if !p.Top? {
      DoneSizeBound(p.up, Parent(p, t));
    }
  }

  /**
   * What Clear's loop keeps: the walk stands at `t` below `p` in the tree
   * `T0` the records `n0` held, `curr` is `t`'s node (the sentinel once the
   * walk is past the root), `prev` and `next` say how it got there, and
   * the records `n` and the count `size` lack exactly the nodes the walk
   * has finished.
   */
  ghost predicate Walk(n: Arena, size: nat, curr: Ref, prev: Ref, next: Ref, p: Path, t: Tree, v: Visit,
                       T0: Tree, n0: Arena, r0: Ref, s0: nat)
  {
    Focused(n0, r0, p, t) && Plug(p, t) == T0 && Size(T0) <= s0
    && (v == Gone <==> curr == Null) && (v == Gone ==> p.Top?)
    && (v != Gone ==> t.Node? && curr == t.ref)
    && (v == Arrived ==> prev == FrameRef(p))
    && (v == LeftDone ==> t.left.Node? && prev == t.left.ref && next == curr)
    && (v == RightDone ==> t.right.Node? && prev == t.right.ref && next == curr)
    && n == n0 - Freed(p, t, v) && size + FreedCount(p, t, v) == s0
  }

  /** The record of the node the walk stands at is still there, as `n0` had it. */
  lemma WalkCell(n: Arena, size: nat, curr: Ref, prev: Ref, next: Ref, p: Path, t: Tree, v: Visit,
                 T0: Tree, n0: Arena, r0: Ref, s0: nat)
    requires Walk(n, size, curr, prev, next, p, t, v, T0, n0, r0, s0) && curr != Null
    ensures t.Node? && curr in n && n[curr] == n0[curr]
    ensures n[curr].parent == FrameRef(p) && n[curr].left == RootRef(t.left) && n[curr].right == RootRef(t.right)
    ensures (RootRef(t.left) == Null <==> t.left.Leaf?) && (RootRef(t.right) == Null <==> t.right.Leaf?)
    ensures FrameRef(p) != curr && FrameRef(p) !in Refs(t) && RootRef(t.left) != curr && RootRef(t.right) != curr
    ensures t.left.Node? && t.right.Node? ==> t.left.ref != t.right.ref
    ensures v == Arrived || v == LeftDone || v == RightDone
  {
    RootCell(n0, r0, p, t);
    DoneRefs(p);
    NullFree(t);
    assert Unique(t) && Unique(t.left) && Unique(t.right);
    assert t.left.Node? ==> t.left.ref in Refs(t.left);
    assert t.right.Node? ==> t.right.ref in Refs(t.right);
    if !p.Top? {
      FrameCell(n0, r0, p, t);
    }
  }

  /** Down to the left child, from a node just arrived at. */
  lemma WalkLeft(n: Arena, size: nat, curr: Ref, prev: Ref, next: Ref, p: Path, t: Tree, v: Visit,
                 T0: Tree, n0: Arena, r0: Ref, s0: nat)
    requires Walk(n, size, curr, prev, next, p, t, v, T0, n0, r0, s0) && v == Arrived && t.Node? && t.left.Node?
    ensures var q := LeftOf(t.ref, t.tag, t.key, t.value, t.right, p);
      Walk(n, size, t.left.ref, curr, t.left.ref, q, t.left, Arrived, T0, n0, r0, s0)
      && Moves(q, t.left, Arrived) < Moves(p, t, v)
  {
    DescendLeft(n0, r0, p, t);
  }

  /** Down to the right child, once the left subtree is freed. */
  lemma WalkRight(n: Arena, size: nat, curr: Ref, prev: Ref, next: Ref, p: Path, t: Tree, v: Visit,
                  T0: Tree, n0: Arena, r0: Ref, s0: nat)
    requires Walk(n, size, curr, prev, next, p, t, v, T0, n0, r0, s0) && t.Node? && t.right.Node?
    requires v == LeftDone || (v == Arrived && t.left.Leaf?)
    ensures var q := RightOf(t.left, t.ref, t.tag, t.key, t.value, p);
      Walk(n, size, t.right.ref, curr, t.right.ref, q, t.right, Arrived, T0, n0, r0, s0)
      && Moves(q, t.right, Arrived) < Moves(p, t, v)
  {
    DescendRight(n0, r0, p, t);
  }

  /** Both subtrees freed: `curr` is freed, `size_` drops, and the walk climbs to the parent. */
  lemma WalkUp(n: Arena, size: nat, curr: Ref, prev: Ref, next: Ref, p: Path, t: Tree, v: Visit,
               T0: Tree, n0: Arena, r0: Ref, s0: nat) returns (p2: Path, t2: Tree, v2: Visit)
    requires Walk(n, size, curr, prev, next, p, t, v, T0, n0, r0, s0) && t.Node?
    requires v == RightDone || ((v == LeftDone || (v == Arrived && t.left.Leaf?)) && t.right.Leaf?)
    ensures size >= 1
    ensures Walk(n - {curr}, size - 1, FrameRef(p), curr, FrameRef(p), p2, t2, v2, T0, n0, r0, s0)
    ensures Moves(p2, t2, v2) < Moves(p, t, v)
  {
    DoneSizeBound(p, t);
    assert Freed(p, t, Gone) == Freed(p, t, v) + {curr};
    assert n - {curr} == n0 - Freed(p, t, Gone);
    if p.Top? {
      p2, t2, v2 := p, t, Gone;
    } else {
      Climb(p, t);
      Ascend(n0, r0, p, t);
      p2, t2, v2 := p.up, Parent(p, t), if p.LeftOf? then LeftDone else RightDone;
    }
  }

  /** Leaving a subtree whose nodes are all freed: the walk is back at the parent, done with that side. */
  lemma Climb(p: Path, t: Tree)
    requires !p.Top? && t.Node?
    ensures var v := if p.LeftOf? then LeftDone else RightDone;
      Freed(p.up, Parent(p, t), v) == Freed(p, t, Gone)
      && FreedCount(p.up, Parent(p, t), v) == FreedCount(p, t, Gone)
      && Moves(p.up, Parent(p, t), v) < Moves(p, t, RightDone)
  {
  }

  /**
   * Clear (rbtree.h:245-272) as written frees every node but leaves
   * `root_` at the first node it freed: when the tree had a node, `root_`
   * names no record afterwards and the records hold no tree from it.
   */
  lemma ClearDangles(n: Arena, root: Ref, t: Tree)
    requires Holds(n, root, Size(t), t) && t.Node?
    ensures root !in n - Refs(t)
    ensures forall u :: !Holds(n - Refs(t), root, 0, u)
  {
    assert root == t.ref;
    forall u ensures !Holds(n - Refs(t), root, 0, u) {
    }
  }

  // ---------------------------------------------------------------------------
  // The tree object

  /**
   * class RBTree (rbtree.h:14-447). `nodes` is the memory handed out by the
   * allocator, `root` is `root_` and `size` is `size_`; `hasAllocator` and
   * `hasNil` say whether `allocator_` and `nil_` are set, and `lastAddress`
   * is the highest address handed out so far, so that a new node gets an
   * address no record uses. `tree` is the ghost tree the records hold.
   */
  class RBTree {
    var nodes: Arena
    var root: Ref
    var size: nat
    var hasAllocator: bool
    var hasNil: bool
    var lastAddress: nat
    ghost var tree: Tree

    /** What holds from construction on: addresses in use are at most `lastAddress`, and `nil_` has its record once set. */
    ghost predicate Sane()
      reads this
    {
      Bounded(nodes, lastAddress)
      && (hasNil ==> Null in nodes && hasAllocator)
    }

    /** An initialised tree: the records hold a red-black tree of `size` nodes below `root`, and `nil_` is BLACK. */
    ghost predicate Valid()
      reads this
    {
      Sane() && hasNil && Holds(nodes, root, size, tree)
    }

    /** The key-value map the tree holds. */
    ghost function Mapping(): map<int, int>
      reads this
    {
      Contents(tree)
    }

    /** RBTree() (rbtree.h:21-26): no allocator, no sentinel, no nodes. */
    constructor ()
      ensures Sane() && !hasAllocator && !hasNil && root == Null && size == 0 && tree == Leaf
    {
      nodes := map[];
      root := Null;
      size := 0;
      hasAllocator := false;
      hasNil := false;
      lastAddress := 0;
      tree := Leaf;
    }

    /**
     * Init (rbtree.h:65-84): creates the allocator and the sentinel when they
     * are missing; `allocatorOk`, `poolOk` and `nilOk` say whether creating
     * the allocator, its pre-allocation and the sentinel's allocation
     * succeed. On success the tree is empty, but `size_` keeps its value.
     */
    method Init(allocatorOk: bool, poolOk: bool, nilOk: bool) returns (r: int)
      requires Sane()
      modifies this
      ensures Sane() && size == old(size) && lastAddress == old(lastAddress)
      ensures hasAllocator == (old(hasAllocator) || allocatorOk)
      ensures r == -1 <==> !old(hasAllocator) && !(allocatorOk && poolOk)
      ensures r == -2 <==> (old(hasAllocator) || (allocatorOk && poolOk)) && !old(hasNil) && !nilOk
      ensures r == 0 || r == -1 || r == -2
      ensures r != 0 ==> hasNil == old(hasNil) && nodes == old(nodes) && root == old(root) && tree == old(tree)
      ensures r == 0 ==> root == Null && tree == Leaf && (Valid() <==> size == 0)
    {
      if !hasAllocator {
        if !allocatorOk {
          return -1;
        }
        hasAllocator := true;
        if !poolOk {
          return -1;
        }
      }
      if !hasNil {
        if !nilOk {
          return -2;
        }
        hasNil := true;
        nodes := nodes[Null := Cell(Null, Null, Null, BLACK, 0, 0)];
      }
      nodes := nodes[Null := nodes[Null].(tag := BLACK)];
      root := Null;
      tree := Leaf;
      r := 0;
    }

    /** The writes of LeftRotate (rbtree.h:299-320): `x`'s right child `pivot` takes `x`'s parent, `x` becomes its left child and takes its old left child. */
    method LeftRotateWrites(x: Ref) returns (pivot: Ref)
      requires x in nodes && x != Null && nodes[x].right in nodes && nodes[x].right !in {x, Null}
      requires var xp := nodes[x].parent; xp != Null ==> xp in nodes && xp !in {x, nodes[x].right}
      requires var b := nodes[nodes[x].right].left; b != Null ==> b in nodes && b !in {x, nodes[x].right, nodes[x].parent}
      modifies this`nodes, this`root
      ensures pivot == old(nodes)[x].right
      ensures var n := old(nodes); var xp, b := n[x].parent, n[pivot].left;
        (forall r :: r in nodes <==> r in n)
        && nodes[x] == n[x].(right := b, parent := pivot)
        && nodes[pivot] == n[pivot].(parent := xp, left := x)
        && (b != Null ==> nodes[b] == n[b].(parent := x))
        && (xp != Null ==> root == old(root))
        && (xp != Null ==> nodes[xp] == if n[xp].left == x then n[xp].(left := pivot) else n[xp].(right := pivot))
        && (xp == Null ==> root == pivot)
        && Unchanged(n, nodes, {x, pivot} + (if b != Null then {b} else {}) + (if xp != Null then {xp} else {}))
    {
      var m := nodes;
      pivot := m[x].right;
      var xp := m[x].parent;
      m := m[pivot := m[pivot].(parent := xp)];
      if xp != Null {
        if m[xp].left == x {
          m := m[xp := m[xp].(left := pivot)];
        } else {
          m := m[xp := m[xp].(right := pivot)];
        }
      } else {
        root := pivot;
      }
      m := m[x := m[x].(right := m[pivot].left)];
      if m[pivot].left != Null {
        m := m[m[pivot].left := m[m[pivot].left].(parent := x)];
      }
      m := m[x := m[x].(parent := pivot)];
      m := m[pivot := m[pivot].(left := x)];
      nodes := m;
    }

    /**
     * LeftRotate (rbtree.h:299-320): `x`'s right child takes its place,
     * `x` becoming its left child. The sentinel's record is never written.
     */
    method LeftRotate(x: Ref, ghost p: Path, ghost t: Tree)
      requires Focused(nodes, root, p, t) && t.Node? && t.right.Node? && x == t.ref
      modifies this`nodes, this`root
      ensures Focused(nodes, root, p, RotateLeft(t))
      ensures SameKeys(nodes, old(nodes))
      ensures Null in old(nodes) ==> nodes[Null] == old(nodes[Null])
    {
      ghost var n0 := nodes;
      RootCell(nodes, root, p, t);
      DescendRight(nodes, root, p, t);
      RootCell(nodes, root, RightOf(t.left, t.ref, t.tag, t.key, t.value, p), t.right);
      NullFreePath(p);
      NullFree(t);
      if !p.Top? {
        FrameCell(nodes, root, p, t);
      }
      ghost var b := t.right.left;
      if b.Node? {
        DescendLeft(nodes, root, RightOf(t.left, t.ref, t.tag, t.key, t.value, p), t.right);
        RootCell(nodes, root, LeftOf(t.right.ref, t.right.tag, t.right.key, t.right.value, t.right.right, RightOf(t.left, t.ref, t.tag, t.key, t.value, p)), b);
      }
      var pivot := LeftRotateWrites(x);
      ghost var y, bt := t.right.ref, t.right.left;
      ghost var out := {x, y} + (if bt.Node? then {bt.ref} else {}) + FrameRefs(p);
      assert Unchanged(n0, nodes, out);
      assert Relinked(n0, nodes, old(root), root, p, x, y);
      assert nodes[x] == Cell(y, RootRef(t.left), RootRef(bt), t.tag, t.key, t.value);
      assert nodes[y] == Cell(FrameRef(p), x, RootRef(t.right.right), t.right.tag, t.right.key, t.right.value);
      RotatedLeft(n0, nodes, old(root), root, p, t);
    }

    /** The writes of RightRotate (rbtree.h:330-351), the mirror image of LeftRotateWrites. */
    method RightRotateWrites(x: Ref) returns (pivot: Ref)
      requires x in nodes && x != Null && nodes[x].left in nodes && nodes[x].left !in {x, Null}
      requires var xp := nodes[x].parent; xp != Null ==> xp in nodes && xp !in {x, nodes[x].left}
      requires var b := nodes[nodes[x].left].right; b != Null ==> b in nodes && b !in {x, nodes[x].left, nodes[x].parent}
      modifies this`nodes, this`root
      ensures pivot == old(nodes)[x].left
      ensures var n := old(nodes); var xp, b := n[x].parent, n[pivot].right;
        (forall r :: r in nodes <==> r in n)
        && nodes[x] == n[x].(left := b, parent := pivot)
        && nodes[pivot] == n[pivot].(parent := xp, right := x)
        && (b != Null ==> nodes[b] == n[b].(parent := x))
        && (xp != Null ==> root == old(root))
        && (xp != Null ==> nodes[xp] == if n[xp].left == x then n[xp].(left := pivot) else n[xp].(right := pivot))
        && (xp == Null ==> root == pivot)
        && Unchanged(n, nodes, {x, pivot} + (if b != Null then {b} else {}) + (if xp != Null then {xp} else {}))
    {
      var m := nodes;
      pivot := m[x].left;
      var xp := m[x].parent;
      m := m[pivot := m[pivot].(parent := xp)];
      if xp != Null {
        if m[xp].left == x {
          m := m[xp := m[xp].(left := pivot)];
        } else {
          m := m[xp := m[xp].(right := pivot)];
        }
      } else {
        root := pivot;
      }
      m := m[x := m[x].(left := m[pivot].right)];
      if m[pivot].right != Null {
        m := m[m[pivot].right := m[m[pivot].right].(parent := x)];
      }
      m := m[x := m[x].(parent := pivot)];
      m := m[pivot := m[pivot].(right := x)];
      nodes := m;
    }

    /** RightRotate (rbtree.h:330-351), the mirror image of LeftRotate. */
    method RightRotate(x: Ref, ghost p: Path, ghost t: Tree)
      requires Focused(nodes, root, p, t) && t.Node? && t.left.Node? && x == t.ref
      modifies this`nodes, this`root
      ensures Focused(nodes, root, p, RotateRight(t))
      ensures SameKeys(nodes, old(nodes))
      ensures Null in old(nodes) ==> nodes[Null] == old(nodes[Null])
    {
      ghost var n0 := nodes;
      RootCell(nodes, root, p, t);
      DescendLeft(nodes, root, p, t);
      RootCell(nodes, root, LeftOf(t.ref, t.tag, t.key, t.value, t.right, p), t.left);
      NullFreePath(p);
      NullFree(t);
      if !p.Top? {
        FrameCell(nodes, root, p, t);
      }
      ghost var b := t.left.right;
      if b.Node? {
        DescendRight(nodes, root, LeftOf(t.ref, t.tag, t.key, t.value, t.right, p), t.left);
        RootCell(nodes, root, RightOf(t.left.left, t.left.ref, t.left.tag, t.left.key, t.left.value, LeftOf(t.ref, t.tag, t.key, t.value, t.right, p)), b);
      }
      var pivot := RightRotateWrites(x);
      ghost var y, bt := t.left.ref, t.left.right;
      ghost var out := {x, y} + (if bt.Node? then {bt.ref} else {}) + FrameRefs(p);
      assert Unchanged(n0, nodes, out);
      assert Relinked(n0, nodes, old(root), root, p, x, y);
      assert nodes[x] == Cell(y, RootRef(bt), RootRef(t.right), t.tag, t.key, t.value);
      assert nodes[y] == Cell(FrameRef(p), RootRef(t.left.left), x, t.left.tag, t.left.key, t.left.value);
      RotatedRight(n0, nodes, old(root), root, p, t);
    }

    /**
     * Find (rbtree.h:426-438), searching from `root_`: 0 and the node when
     * `k` is present, otherwise -1 and the node the search left last (the
     * sentinel for an empty tree), under which `k` belongs.
     */
    method Find(k: int) returns (r: int, at: Ref, ghost p: Path, ghost t: Tree)
      requires Valid()
      ensures Focused(nodes, root, p, t) && Plug(p, t) == tree
      ensures r == 0 || r == -1
      ensures r == 0 <==> k in Mapping()
      ensures r == 0 ==> t.Node? && t.key == k && at == t.ref && Mapping()[k] == t.value
      ensures r == -1 ==> t.Leaf? && at == FrameRef(p) && Between(p, k)
    {
      var cur := root;
      at := Null;
      p, t := Top, tree;
      while cur != Null
        invariant Focused(nodes, root, p, t) && Plug(p, t) == tree && Between(p, k)
        invariant cur == RootRef(t) && at == FrameRef(p)
        decreases Size(t)
      {
        RootCell(nodes, root, p, t);
        at := cur;
        if nodes[cur].key == k {
          Found(p, t);
          return 0, at, p, t;
        } else if nodes[cur].key > k {
          BetweenLeft(p, t, k);
          DescendLeft(nodes, root, p, t);
          cur := nodes[cur].left;
          p, t := LeftOf(t.ref, t.tag, t.key, t.value, t.right, p), t.left;
        } else {
          BetweenRight(p, t, k);
          DescendRight(nodes, root, p, t);
          cur := nodes[cur].right;
          p, t := RightOf(t.left, t.ref, t.tag, t.key, t.value, p), t.right;
        }
      }
      NotFound(p, k);
      r := -1;
    }

    /** Search (rbtree.h:188-195): 0 and the key's value when present, else -1 with `value` left as it was. */
    method Search(k: int, value: int) returns (r: int, v: int)
      requires Valid()
      ensures r == 0 <==> k in Mapping()
      ensures r == 0 || r == -1
      ensures r == 0 ==> v == Mapping()[k]
      ensures r == -1 ==> v == value
    {
      var at: Ref;
      ghost var p: Path, t: Tree;
      r, at, p, t := Find(k);
      if r < 0 {
        return -1, value;
      }
      RootCell(nodes, root, p, t);
      v := nodes[at].value;
    }
  
    /**
     * Insert (rbtree.h:92-181). A key already present leaves the tree as it
     * is and gives 0. Otherwise a RED node with the key and the value is hung
     * where the search ended, or becomes the BLACK root of an empty tree;
     * the fix-up restores the rules and the root is painted BLACK. -2 when
     * the allocator has no node to give (`allocOk` false).
     */
    method Insert(k: int, v: int, allocOk: bool) returns (r: int)
      requires Valid()
      modifies this
      ensures Valid()
      ensures r == 0 || r == -2
      ensures r == -2 <==> k !in old(Mapping()) && !allocOk
      ensures k in old(Mapping()) || !allocOk ==> unchanged(this)
      ensures k !in old(Mapping()) && allocOk ==> Mapping() == old(Mapping())[k := v] && size == old(size) + 1
    {
      var f, parent;
      ghost var p: Path, t: Tree;
      f, parent, p, t := Find(k);
      if f == 0 {
        return 0;
      }
      if !allocOk {
        return -2;
      }
      if parent == Null {
        InsertRoot(k, v, p);
      } else {
        InsertNew(k, v, parent, p);
      }
      r := 0;
    }

    /** Insert into the empty tree (rbtree.h:97-113): the new node, painted BLACK, becomes the root. */
    method InsertRoot(k: int, v: int, ghost p: Path)
      requires Valid() && Focused(nodes, root, p, Leaf) && Plug(p, Leaf) == tree && FrameRef(p) == Null
      modifies this
      ensures Valid() && Mapping() == old(Mapping())[k := v] && size == old(size) + 1
    {
      var x := lastAddress + 1;
      NullFreePath(p);
      Fresh(nodes, lastAddress, Cell(Null, Null, Null, RED, k, v));
      PlantRoot(nodes, root, x, k, v);
      var n := nodes[x := Cell(Null, Null, Null, RED, k, v)];
      nodes, root, lastAddress, size := n[x := n[x].(tag := BLACK)], x, x, size + 1;
      tree := Node(Leaf, x, BLACK, k, v, Leaf);
    }

    /**
     * Insert after a search for `k` has failed at `parent`, a node (rbtree.h:97-180):
     * the new node, its link under `parent`, the fix-up.
     */
    method InsertNew(k: int, v: int, parent: Ref, ghost p: Path)
      requires Valid() && Focused(nodes, root, p, Leaf) && Plug(p, Leaf) == tree && Between(p, k) && parent == FrameRef(p)
      requires parent != Null
      modifies this
      ensures Valid() && Mapping() == old(Mapping())[k := v] && size == old(size) + 1
    {
      ghost var nt := Node(Leaf, lastAddress + 1, RED, k, v, Leaf);
      InsertedAtLeaf(p, nt);
      InsertStart(p, nt);
      var x := Hang(k, v, parent, p);
      ghost var n := nodes;
      size := size + 1;
      ghost var w := InsertFixUp(x, parent, p, nt);
      InsertSettled(n, nodes, x);
      Rebuilt(nodes, root, size, Plug(p, nt), w);
      tree := w;
    }

    /** The new RED record at the next free address, linked under `parent` on the side of `k` (rbtree.h:97-121). */
    method Hang(k: int, v: int, parent: Ref, ghost p: Path) returns (x: Ref)
      requires Focused(nodes, root, p, Leaf) && Between(p, k) && parent == FrameRef(p) && parent != Null
      requires Bounded(nodes, lastAddress) && Null in nodes
      modifies this`nodes, this`lastAddress
      ensures x == old(lastAddress) + 1 && lastAddress == x && Bounded(nodes, lastAddress)
      ensures Focused(nodes, root, p, Node(Leaf, x, RED, k, v, Leaf))
      ensures Null in nodes && nodes[Null] == old(nodes[Null])
    {
      x := lastAddress + 1;
      ghost var nt := Node(Leaf, x, RED, k, v, Leaf);
      FocusedKeys(nodes, root, p, Leaf);
      NullFreePath(p);
      Fresh(nodes, lastAddress, Cell(parent, Null, Null, RED, k, v));
      var n := nodes[x := Cell(parent, Null, Null, RED, k, v)];
      FrameCell(nodes, root, p, Leaf);
      SideOf(p, k);
      if k > n[parent].key {
        n := n[parent := n[parent].(right := x)];
      } else {
        n := n[parent := n[parent].(left := x)];
      }
      Attached(nodes, n, root, p, nt);
      nodes, lastAddress := n, x;
    }

    /**
     * The fix-up of Insert (rbtree.h:122-179), from the new node `x0` and
     * its parent: while the parent is RED, case 1 moves the problem two
     * levels up and cases 2 and 3 end it; then the root is painted BLACK.
     */
    method InsertFixUp(x0: Ref, parent0: Ref, ghost p0: Path, ghost t0: Tree) returns (ghost w: Tree)
      requires Focused(nodes, root, p0, t0) && InsertFixing(p0, t0) && x0 == t0.ref && parent0 == FrameRef(p0)
      requires Null in nodes && nodes[Null].tag == BLACK
      modifies this`nodes, this`root
      ensures Focused(nodes, root, Top, w) && RedOk(w) && Balanced(w) && Color(w) == BLACK
      ensures Entries(w) == Entries(Plug(p0, t0)) && Size(w) == Size(Plug(p0, t0))
      ensures SameKeys(nodes, old(nodes)) && nodes[Null] == old(nodes[Null])
      ensures hasAllocator == old(hasAllocator) && hasNil == old(hasNil) && lastAddress == old(lastAddress) && size == old(size)
    {
      var x, parent := x0, parent0;
      ghost var p, t := p0, t0;
      ghost var fixed := false;
      ParentColor(nodes, root, p, t);
      while nodes[parent].tag == RED
        invariant Focused(nodes, root, p, t) && InsertFixing(p, t) && x == t.ref && parent == FrameRef(p)
        invariant Null in nodes && nodes[Null] == old(nodes[Null]) && SameKeys(nodes, old(nodes))
        invariant parent in nodes && (nodes[parent].tag == RED <==> !p.Top? && p.tag == RED)
        invariant Entries(Plug(p, t)) == Entries(Plug(p0, t0)) && Size(Plug(p, t)) == Size(Plug(p0, t0))
        invariant !fixed
        decreases Depth(p)
      {
        InsertGrandparent(p, t);
        UncleCell(nodes, root, p, t);
        var uncle := if nodes[nodes[parent].parent].left == parent then nodes[nodes[parent].parent].right
                     else nodes[nodes[parent].parent].left;
        if nodes[uncle].tag == RED {
          x, parent, p, t := InsertRedUncle(parent, uncle, p, t);
        } else {
          InsertCase3(p, t);
          w := InsertRotate(x, parent, p, t);
          fixed := true;
          break;
        }
      }
      if !fixed {
        InsertDone(p, t);
        PlugNode(p, t);
        Whole(nodes, root, p, t);
        w := Plug(p, t);
      }
      w := PaintRootBlack(w);
    }

    /** The last line of Insert's fix-up (rbtree.h:179): the root turns BLACK. */
    method PaintRootBlack(ghost w0: Tree) returns (ghost w: Tree)
      requires Focused(nodes, root, Top, w0) && w0.Node? && RedOk(w0) && Balanced(w0)
      modifies this`nodes
      ensures Focused(nodes, root, Top, w) && RedOk(w) && Balanced(w) && Color(w) == BLACK
      ensures Entries(w) == Entries(w0) && Size(w) == Size(w0)
      ensures SameKeys(nodes, old(nodes)) && (Null in old(nodes) ==> nodes[Null] == old(nodes[Null]))
    {
      RootCell(nodes, root, Top, w0);
      Retag(nodes, root, Top, w0, BLACK);
      nodes := nodes[root := nodes[root].(tag := BLACK)];
      PaintRoot(w0);
      w := Paint(w0, BLACK);
    }

    /** Case 1 of Insert's fix-up as one pass of its loop: the problem moves up to the grandparent. */
    method InsertRedUncle(parent0: Ref, uncle: Ref, ghost p0: Path, ghost t0: Tree)
      returns (x: Ref, parent: Ref, ghost p: Path, ghost t: Tree)
      requires Focused(nodes, root, p0, t0) && InsertFixing(p0, t0) && t0.Node? && parent0 == FrameRef(p0)
      requires !p0.Top? && p0.tag == RED && !p0.up.Top? && Sibling(p0.up).Node? && Color(Sibling(p0.up)) == RED
      requires uncle == Sibling(p0.up).ref && parent0 in nodes && nodes[parent0].parent == p0.up.ref
      requires Null in nodes && nodes[Null].tag == BLACK
      modifies this`nodes
      ensures Focused(nodes, root, p, t) && InsertFixing(p, t) && x == t.ref && parent == FrameRef(p)
      ensures SameKeys(nodes, old(nodes)) && nodes[Null] == old(nodes[Null])
      ensures parent in nodes && (nodes[parent].tag == RED <==> !p.Top? && p.tag == RED)
      ensures Entries(Plug(p, t)) == Entries(Plug(p0, t0)) && Size(Plug(p, t)) == Size(Plug(p0, t0))
      ensures Depth(p) < Depth(p0)
    {
      InsertCase1(p0, t0);
      x := nodes[parent0].parent;
      InsertRecolor(parent0, uncle, x, p0, t0);
      p, t := p0.up.up, Case1Grandparent(p0, t0);
      RootCell(nodes, root, p, t);
      parent := nodes[x].parent;
      ParentColor(nodes, root, p, t);
    }

    /** Case 1 of Insert's fix-up (rbtree.h:124-132): a RED uncle; parent and uncle turn BLACK, the grandparent RED. */
    method InsertRecolor(parent: Ref, uncle: Ref, grandparent: Ref, ghost p: Path, ghost t: Tree)
      requires Focused(nodes, root, p, t) && t.Node? && !p.Top? && !p.up.Top? && Sibling(p.up).Node?
      requires parent == p.ref && grandparent == p.up.ref && uncle == Sibling(p.up).ref
      modifies this`nodes
      ensures Focused(nodes, root, p.up.up, Case1Grandparent(p, t))
      ensures SameKeys(nodes, old(nodes)) && (Null in old(nodes) ==> nodes[Null] == old(nodes[Null]))
    {
      RecolorCells(nodes, root, p, t);
      nodes := nodes[parent := nodes[parent].(tag := BLACK)];
      nodes := nodes[uncle := nodes[uncle].(tag := BLACK)];
      nodes := nodes[grandparent := nodes[grandparent].(tag := RED)];
    }

    /**
     * Case 2 of Insert's fix-up (rbtree.h:134-145, 157-168): when `x` is the
     * inner child of its parent, a rotation at the parent makes the parent
     * the outer child of `x`; `x` is then the node whose parent case 3 paints.
     */
    method Straighten(x0: Ref, parent: Ref, ghost p: Path, ghost t: Tree) returns (x: Ref, onLeft: bool)
      requires Focused(nodes, root, p, t) && t.Node? && !p.Top? && !p.up.Top? && x0 == t.ref && parent == p.ref
      requires Null in nodes && nodes[Null].tag == BLACK
      requires Case3Child(p, t).Node?
      requires p.up.LeftOf? ==> Case3Child(p, t).left.Node?
      requires p.up.RightOf? ==> Case3Child(p, t).right.Node?
      modifies this`nodes, this`root
      ensures Focused(nodes, root, p.up, Case3Child(p, t)) && onLeft == p.up.LeftOf?
      ensures x in nodes && nodes[x].parent == Case3Child(p, t).ref && x != Case3Child(p, t).ref
      ensures SameKeys(nodes, old(nodes)) && nodes[Null] == old(nodes[Null])
    {
      UncleCell(nodes, root, p, t);
      Ascend(nodes, root, p, t);
      x := x0;
      ghost var u, Q := p.up, Case3Child(p, t);
      onLeft := parent == nodes[nodes[parent].parent].left;
      if onLeft {
        if x == nodes[parent].right {
          LeftRotate(parent, u, Parent(p, t));
          x := parent;
        }
        DescendLeft(nodes, root, u, Q);
        RootCell(nodes, root, LeftOf(Q.ref, Q.tag, Q.key, Q.value, Q.right, u), Q.left);
      } else {
        if x == nodes[parent].left {
          RightRotate(parent, u, Parent(p, t));
          x := parent;
        }
        DescendRight(nodes, root, u, Q);
        RootCell(nodes, root, RightOf(Q.left, Q.ref, Q.tag, Q.key, Q.value, u), Q.right);
      }
    }

    /**
     * Case 3 of Insert's fix-up (rbtree.h:146-153, 169-176): the parent of
     * `x` turns BLACK, the grandparent RED, and a rotation at the
     * grandparent lifts the parent above it.
     */
    method Case3Turn(x: Ref, onLeft: bool, ghost p: Path, ghost t: Tree)
      requires t.Node? && !p.Top? && !p.up.Top? && Focused(nodes, root, p.up, Case3Child(p, t)) && onLeft == p.up.LeftOf?
      requires Case3Child(p, t).Node?
      requires p.up.LeftOf? ==> Case3Child(p, t).left.Node?
      requires p.up.RightOf? ==> Case3Child(p, t).right.Node?
      requires x in nodes && nodes[x].parent == Case3Child(p, t).ref && x != Case3Child(p, t).ref
      requires Null in nodes && nodes[Null].tag == BLACK
      modifies this`nodes, this`root
      ensures Focused(nodes, root, p.up.up, Case3Result(p, t))
      ensures SameKeys(nodes, old(nodes)) && nodes[Null] == old(nodes[Null])
    {
      ghost var u := p.up;
      Case3Cells(nodes, root, p, t);
      nodes := nodes[nodes[x].parent := nodes[nodes[x].parent].(tag := BLACK)];
      var g := nodes[nodes[x].parent].parent;
      nodes := nodes[g := nodes[g].(tag := RED)];
      if onLeft {
        RightRotate(g, u.up, Case3Grandparent(p, t));
      } else {
        LeftRotate(g, u.up, Case3Grandparent(p, t));
      }
    }

    /**
     * Cases 2 and 3 of Insert's fix-up (rbtree.h:134-176): a BLACK uncle. A
     * rotation at the parent when `x` is its inner child, then the parent
     * of `x` turns BLACK, the grandparent RED, and a rotation at the
     * grandparent.
     */
    method InsertRotate(x0: Ref, parent: Ref, ghost p: Path, ghost t: Tree) returns (ghost w: Tree)
      requires Focused(nodes, root, p, t) && InsertFixing(p, t) && !p.Top? && p.tag == RED && !p.up.Top?
      requires Color(Sibling(p.up)) == BLACK && x0 == t.ref && parent == p.ref
      requires Null in nodes && nodes[Null].tag == BLACK
      modifies this`nodes, this`root
      ensures w == Plug(p.up.up, Case3Result(p, t)) && Focused(nodes, root, Top, w) && w.Node?
      ensures SameKeys(nodes, old(nodes)) && nodes[Null] == old(nodes[Null])
    {
      InsertCase3(p, t);
      ghost var u := p.up;
      var x, onLeft := Straighten(x0, parent, p, t);
      Case3Turn(x, onLeft, p, t);
      Whole(nodes, root, u.up, Case3Result(p, t));
      PlugNode(u.up, Case3Result(p, t));
      w := Plug(u.up, Case3Result(p, t));
    }

    /**
     * Delete (rbtree.h:201-241): -1 when the key is absent, the tree
     * unchanged; otherwise 0, the key gone from the map and one node fewer.
     */
    method Delete(k: int) returns (r: int)
      requires Valid()
      modifies this
      ensures Valid()
      ensures r == 0 || r == -1
      ensures r == 0 <==> k in old(Mapping())
      ensures r == -1 ==> unchanged(this)
      ensures r == 0 ==> Mapping() == old(Mapping()) - {k} && size == old(size) - 1
    {
      var f, del;
      ghost var p: Path, d: Tree;
      f, del, p, d := Find(k);
      if f < 0 {
        return -1;
      }
      DeleteNode(del, p, d);
      r := 0;
    }

    /**
     * Delete once the node `del` holding the key is found (rbtree.h:206-240).
     * A node with two children gives up its in-order predecessor instead,
     * whose key and value move into it. The node cut out is replaced by its
     * only child (perhaps the sentinel).
     */
    method DeleteNode(del: Ref, ghost p: Path, ghost d: Tree)
      requires Valid() && Focused(nodes, root, p, d) && Plug(p, d) == tree && d.Node? && del == d.ref
      modifies this
      ensures Valid() && Mapping() == old(Mapping()) - {d.key} && size == old(size) - 1
    {
      RootCell(nodes, root, p, d);
      if nodes[del].left != Null && nodes[del].right != Null {
        var cut, q, R := Predecessor(del, p, d);
        DeletePredecessor(del, cut, p, d, q, R);
      } else {
        DeleteSelf(del, p, d);
      }
    }

    /** Delete when the node found has an empty side: it is the one cut out. */
    method DeleteSelf(del: Ref, ghost p: Path, ghost d: Tree)
      requires Valid() && Focused(nodes, root, p, d) && Plug(p, d) == tree && d.Node? && del == d.ref
      requires d.left.Leaf? || d.right.Leaf?
      modifies this
      ensures Valid() && Mapping() == old(Mapping()) - {d.key} && size == old(size) - 1
    {
      DeletePlan(p, d, Top, d, true);
      ghost var X := SpliceChild(d);
      RootCell(nodes, root, p, d);
      FocusedKeys(nodes, root, p, d);
      NullFreePath(p);
      var x := Splice(del, p, d);
      assert Unique(d);
      PlugRefs(p, X);
      DeleteFinish(del, x, p, X, d.tag);
    }

    /**
     * Delete when the node found has two children: its predecessor `cut`,
     * at the end of the right spine `q` of its left subtree, is cut out and
     * its key and value move into the node found.
     */
    method DeletePredecessor(del: Ref, cut: Ref, ghost p: Path, ghost d: Tree, ghost q: Path, ghost R: Tree)
      requires Valid() && Plug(p, d) == tree && d.Node? && del == d.ref && d.left.Node?
      requires Focused(nodes, root, Graft(q, LeftOf(d.ref, d.tag, d.key, d.value, d.right, p)), R)
      requires RightSpine(q) && Plug(q, R) == d.left && R.Node? && R.right.Leaf? && cut == R.ref && cut != del
      modifies this
      ensures Valid() && Mapping() == old(Mapping()) - {d.key} && size == old(size) - 1
    {
      ghost var F := LeftOf(d.ref, d.tag, d.key, d.value, d.right, p);
      DeletePlan(p, d, q, R, false);
      var x := SpliceAndCopy(del, cut, q, F, R);
      DeleteFinish(cut, x, Graft(q, Rekey(F, R.key, R.value)), SpliceChild(R), R.tag);
    }

    /** The predecessor `cut` is spliced out and its key and value copied into `del` (rbtree.h:213-234). */
    method SpliceAndCopy(del: Ref, cut: Ref, ghost q: Path, ghost F: Path, ghost R: Tree) returns (x: Ref)
      requires Focused(nodes, root, Graft(q, F), R) && !F.Top? && del == F.ref && F.LeftOf?
      requires RightSpine(q) && R.Node? && R.right.Leaf? && cut == R.ref && cut != del && Null in nodes
      modifies this`nodes, this`root
      ensures SameKeys(nodes, old(nodes)) && Null in nodes && nodes[Null].tag == old(nodes[Null].tag)
      ensures var P2, X := Graft(q, Rekey(F, R.key, R.value)), SpliceChild(R);
        Focused(nodes, root, P2, X) && x == RootRef(X) && (X.Leaf? ==> nodes[Null].parent == FrameRef(P2))
        && cut in nodes && cut != Null && nodes[cut].tag == R.tag && cut !in Refs(Plug(P2, X))
    {
      ghost var P := Graft(q, F);
      ghost var P2 := Graft(q, Rekey(F, R.key, R.value));
      ghost var X := SpliceChild(R);
      RootCell(nodes, root, P, R);
      FocusedKeys(nodes, root, P, R);
      NullFreePath(P);
      GraftRefs(q, F);
      x := Splice(cut, P, R);
      CopyUp(del, cut, q, F, X);
      RekeyShape(q, F, R.key, R.value);
      assert Unique(R);
      PlugRefs(P2, X);
    }

    /**
     * The node found by Delete takes the key and value of its predecessor
     * `cut` (rbtree.h:231-234); `q` is the walk from it down to where `cut`
     * was and `F` the walk above it.
     */
    method CopyUp(del: Ref, cut: Ref, ghost q: Path, ghost F: Path, ghost X: Tree)
      requires !F.Top? && del == F.ref && del in nodes && cut in nodes && cut != del
      requires Focused(nodes, root, Graft(q, F), X)
      modifies this`nodes
      ensures Focused(nodes, root, Graft(q, Rekey(F, old(nodes[cut].key), old(nodes[cut].value))), X)
      ensures FrameRef(Graft(q, Rekey(F, old(nodes[cut].key), old(nodes[cut].value)))) == FrameRef(Graft(q, F))
      ensures SameKeys(nodes, old(nodes)) && nodes[cut] == old(nodes[cut])
      ensures Null in old(nodes) && Null != del ==> Null in nodes && nodes[Null] == old(nodes[Null])
    {
      RekeyShape(q, F, nodes[cut].key, nodes[cut].value);
      RekeyFocused(nodes, root, q, F, X, nodes[cut].key, nodes[cut].value);
      nodes := nodes[del := nodes[del].(key := nodes[cut].key, value := nodes[cut].value)];
    }

    /**
     * The end of Delete (rbtree.h:235-239): the fix-up from `x` when the
     * node cut out was BLACK, then its record is released and `size_`
     * drops by one.
     */
    method DeleteFinish(cut: Ref, x: Ref, ghost P: Path, ghost X: Tree, ghost tag: int)
      requires Sane() && hasNil && nodes[Null].tag == BLACK && Focused(nodes, root, P, X) && x == RootRef(X)
      requires X.Leaf? ==> nodes[Null].parent == FrameRef(P)
      requires cut in nodes && cut != Null && nodes[cut].tag == tag && cut !in Refs(Plug(P, X))
      requires Ordered(Plug(P, X)) && size == Size(Plug(P, X)) + 1
      requires tag == BLACK ==> DeleteFixing(P, X)
      requires tag != BLACK ==> RedOk(Plug(P, X)) && Balanced(Plug(P, X)) && Color(Plug(P, X)) == BLACK
      modifies this
      ensures Valid() && Mapping() == Contents(Plug(P, X)) && size == old(size) - 1
    {
      ghost var w: Tree;
      if nodes[cut].tag == BLACK {
        w := DeleteFixUp(x, P, X);
      } else {
        Whole(nodes, root, P, X);
        w := Plug(P, X);
      }
      Forget(nodes, root, Top, w, cut);
      Released(nodes, cut, lastAddress);
      nodes := nodes - {cut};
      size := size - 1;
      Rebuilt(nodes, root, size, Plug(P, X), w);
      tree := w;
    }

    /**
     * The in-order predecessor of a node with two children (rbtree.h:207-211):
     * the last node down the right spine `q` of its left subtree.
     */
    method Predecessor(del: Ref, ghost p: Path, ghost d: Tree) returns (cut: Ref, ghost q: Path, ghost R: Tree)
      requires Focused(nodes, root, p, d) && d.Node? && d.left.Node? && del == d.ref
      ensures Focused(nodes, root, Graft(q, LeftOf(d.ref, d.tag, d.key, d.value, d.right, p)), R)
      ensures RightSpine(q) && Plug(q, R) == d.left && R.Node? && R.right.Leaf? && cut == R.ref && cut != del
    {
      ghost var F := LeftOf(d.ref, d.tag, d.key, d.value, d.right, p);
      RootCell(nodes, root, p, d);
      DescendLeft(nodes, root, p, d);
      cut := nodes[del].left;
      q, R := Top, d.left;
      RootCell(nodes, root, F, R);
      while nodes[cut].right != Null
        invariant Focused(nodes, root, Graft(q, F), R) && RightSpine(q) && Plug(q, R) == d.left
        invariant R.Node? && cut == R.ref && cut in nodes && nodes[cut].right == RootRef(R.right)
        decreases Size(R)
      {
        DescendRight(nodes, root, Graft(q, F), R);
        cut := nodes[cut].right;
        q, R := RightOf(R.left, R.ref, R.tag, R.key, R.value, q), R.right;
        RootCell(nodes, root, Graft(q, F), R);
      }
      RootCell(nodes, root, Graft(q, F), R);
      PlugRefs(q, R);
      assert cut in Refs(d.left) && Unique(d);
    }

    /**
     * The splice of Delete (rbtree.h:213-230): the only child of `cut`
     * (perhaps the sentinel, whose parent field is then written) takes its
     * parent, and the parent, or `root_`, takes the child.
     */
    method Splice(cut: Ref, ghost P: Path, ghost R: Tree) returns (x: Ref)
      requires Focused(nodes, root, P, R) && R.Node? && cut == R.ref && (R.left.Leaf? || R.right.Leaf?) && Null in nodes
      modifies this`nodes, this`root
      ensures Focused(nodes, root, P, SpliceChild(R)) && x == RootRef(SpliceChild(R))
      ensures SameKeys(nodes, old(nodes)) && cut in nodes && nodes[cut] == old(nodes[cut])
      ensures Null in nodes && nodes[Null].tag == old(nodes[Null].tag)
      ensures SpliceChild(R).Leaf? ==> nodes[Null].parent == FrameRef(P)
    {
      ghost var n0 := nodes;
      RootCell(nodes, root, P, R);
      NullFreePath(P);
      if !P.Top? {
        FrameCell(nodes, root, P, R);
      }
      if R.left.Node? {
        RootCell(nodes, root, LeftOf(R.ref, R.tag, R.key, R.value, R.right, P), R.left);
      } else if R.right.Node? {
        RootCell(nodes, root, RightOf(R.left, R.ref, R.tag, R.key, R.value, P), R.right);
      }
      if nodes[cut].left != Null {
        x := nodes[cut].left;
      } else {
        x := nodes[cut].right;
      }
      nodes := nodes[x := nodes[x].(parent := nodes[cut].parent)];
      ghost var n1 := nodes;
      var xp := nodes[cut].parent;
      if xp == Null {
        root := x;
      } else if cut == nodes[xp].left {
        nodes := nodes[xp := nodes[xp].(left := x)];
      } else {
        nodes := nodes[xp := nodes[xp].(right := x)];
      }
      assert SameKeys(nodes, n0);
      Spliced(n0, n1, nodes, old(root), root, P, R);
    }

    /**
     * DeleteFixUp (rbtree.h:354-416). `x0` took the place of a removed BLACK
     * node and carries its extra BLACK; when `x0` is the sentinel, the
     * sentinel's parent field says where it stands. While `x` is BLACK and
     * not the root: case 1 (a RED brother) rotates a BLACK brother into
     * place, case 2 (a BLACK brother with BLACK children) moves the extra
     * BLACK up to the parent, cases 3 and 4 end the walk with one or two
     * rotations. Then `x` is painted BLACK. The source's two mirror-image
     * halves are one loop here, `onLeft` telling which side `x` is on.
     */
    method DeleteFixUp(x0: Ref, ghost p0: Path, ghost t0: Tree) returns (ghost w: Tree)
      requires Focused(nodes, root, p0, t0) && DeleteFixing(p0, t0) && x0 == RootRef(t0)
      requires Null in nodes && nodes[Null].tag == BLACK && (t0.Leaf? ==> nodes[Null].parent == FrameRef(p0))
      modifies this`nodes, this`root
      ensures Focused(nodes, root, Top, w) && RedOk(w) && Balanced(w) && Color(w) == BLACK
      ensures Entries(w) == Entries(Plug(p0, t0)) && Size(w) == Size(Plug(p0, t0)) && Refs(w) == Refs(Plug(p0, t0))
      ensures SameKeys(nodes, old(nodes)) && Null in nodes && nodes[Null].tag == BLACK
    {
      var x := x0;
      ghost var p, t := p0, t0;
      ghost var E, S, A, z, n0 := Entries(Plug(p0, t0)), Size(Plug(p0, t0)), Refs(Plug(p0, t0)), nodes[Null], nodes;
      XCell(nodes, root, p, t);
      while x != root && nodes[x].tag == BLACK
        invariant Fixing(x, p, t, E, S, A, z, n0)
        decreases DeleteMeasure(p, t)
      {
        x, p, t := DeleteStep(x, p, t, E, S, A, z, n0);
      }
      w := DeleteRepaint(x, p, t, E, S, A, z, n0);
    }

    /** The end of Delete's fix-up (rbtree.h:415): `x`, the root or a RED node, is painted BLACK. */
    method DeleteRepaint(x: Ref, ghost p: Path, ghost t: Tree, ghost E: seq<Entry>, ghost S: nat, ghost A: set<Ref>, ghost z: Cell, ghost n0: Arena)
      returns (ghost w: Tree)
      requires Fixing(x, p, t, E, S, A, z, n0) && z.tag == BLACK && !(x != root && nodes[x].tag == BLACK)
      modifies this`nodes
      ensures Focused(nodes, root, Top, w) && RedOk(w) && Balanced(w) && Color(w) == BLACK
      ensures Entries(w) == E && Size(w) == S && Refs(w) == A
      ensures SameKeys(nodes, n0) && Null in nodes && nodes[Null].tag == BLACK
    {
      ghost var u := if t.Node? then Paint(t, BLACK) else t;
      DeleteDone(p, t);
      PlugSameRefs(p, u, t);
      if t.Node? {
        Retag(nodes, root, p, t, BLACK);
      } else {
        SentinelWrite(nodes, root, p, t, nodes[Null].(tag := BLACK));
      }
      nodes := nodes[x := nodes[x].(tag := BLACK)];
      Whole(nodes, root, p, u);
      w := Plug(p, u);
    }

    /**
     * What a pass of Delete's fix-up keeps: the walk stands at `x`, whose
     * subtree `t` lacks one BLACK node, the sentinel record is as it was
     * (but for its parent field when `x` is the sentinel), and the whole
     * tree has the same entries, size and addresses as at the start.
     */
    ghost predicate Fixing(x: Ref, p: Path, t: Tree, E: seq<Entry>, S: nat, A: set<Ref>, z: Cell, n0: Arena)
      reads this
    {
      Focused(nodes, root, p, t) && DeleteFixing(p, t) && x == RootRef(t)
      && Null in nodes && nodes[Null] == z && SameKeys(nodes, n0)
      && (t.Leaf? ==> nodes[Null].parent == FrameRef(p))
      && x in nodes && nodes[x].tag == Color(t) && (x == root <==> p.Top?)
      && Entries(Plug(p, t)) == E && Size(Plug(p, t)) == S && Refs(Plug(p, t)) == A
    }

    /** One pass of Delete's fix-up loop (rbtree.h:356-413): case 1, case 2, or cases 3 and 4. */
    method DeleteStep(x0: Ref, ghost p0: Path, ghost t0: Tree, ghost E: seq<Entry>, ghost S: nat, ghost A: set<Ref>, ghost z: Cell, ghost n0: Arena)
      returns (x: Ref, ghost p: Path, ghost t: Tree)
      requires Fixing(x0, p0, t0, E, S, A, z, n0) && x0 != root && nodes[x0].tag == BLACK && z.tag == BLACK
      modifies this`nodes, this`root
      ensures Fixing(x, p, t, E, S, A, z, n0) && DeleteMeasure(p, t) < DeleteMeasure(p0, t0)
    {
      DeleteBrother(p0, t0);
      BrotherCell(nodes, root, p0, t0);
      var xp := nodes[x0].parent;
      var onLeft := x0 == nodes[xp].left;
      var brother := if onLeft then nodes[xp].right else nodes[xp].left;
      if nodes[brother].tag == RED {
        x, p, t := DeleteRedBrother(x0, xp, brother, onLeft, p0, t0, E, S, A, z, n0);
      } else if nodes[nodes[brother].left].tag == BLACK && nodes[nodes[brother].right].tag == BLACK {
        x, p, t := DeleteBlackNephews(xp, brother, p0, t0, E, S, A, z, n0);
      } else {
        x, p, t := DeleteRedNephew(xp, brother, onLeft, p0, t0, E, S, A, z, n0);
      }
    }

    /** Case 1 of Delete's fix-up, as one pass of the loop: `x` stays, one level deeper. */
    method DeleteRedBrother(x0: Ref, xp: Ref, brother: Ref, onLeft: bool, ghost p0: Path, ghost t0: Tree,
                            ghost E: seq<Entry>, ghost S: nat, ghost A: set<Ref>, ghost z: Cell, ghost n0: Arena)
      returns (x: Ref, ghost p: Path, ghost t: Tree)
      requires Fixing(x0, p0, t0, E, S, A, z, n0) && !p0.Top? && Color(t0) == BLACK && z.tag == BLACK
      requires Sibling(p0).Node? && Color(Sibling(p0)) == RED
      requires xp == p0.ref && brother == Sibling(p0).ref && onLeft == p0.LeftOf?
      modifies this`nodes, this`root
      ensures Fixing(x, p, t, E, S, A, z, n0) && DeleteMeasure(p, t) < DeleteMeasure(p0, t0)
    {
      DeleteCase1(p0, t0);
      Case1Refs(p0, t0);
      DeleteCase1Step(xp, brother, onLeft, p0, t0);
      x, p, t := x0, Case1Path(p0), t0;
      XCell(nodes, root, p, t);
    }

    /** Case 2 of Delete's fix-up, as one pass of the loop: `x` moves up to its parent. */
    method DeleteBlackNephews(xp: Ref, brother: Ref, ghost p0: Path, ghost t0: Tree,
                              ghost E: seq<Entry>, ghost S: nat, ghost A: set<Ref>, ghost z: Cell, ghost n0: Arena)
      returns (x: Ref, ghost p: Path, ghost t: Tree)
      requires Fixing(RootRef(t0), p0, t0, E, S, A, z, n0) && !p0.Top? && Color(t0) == BLACK && z.tag == BLACK
      requires Sibling(p0).Node? && Sibling(p0).tag == BLACK
      requires Color(Sibling(p0).left) == BLACK && Color(Sibling(p0).right) == BLACK
      requires xp == p0.ref && brother == Sibling(p0).ref
      modifies this`nodes
      ensures Fixing(x, p, t, E, S, A, z, n0) && DeleteMeasure(p, t) < DeleteMeasure(p0, t0)
    {
      DeleteCase2(p0, t0);
      Case2Refs(p0, t0);
      DeleteCase2Step(brother, p0, t0);
      x, p, t := xp, p0.up, Case2Tree(p0, t0);
      XCell(nodes, root, p, t);
    }

    /** Cases 3 and 4 of Delete's fix-up, as the last pass of the loop: `x` becomes the root. */
    method DeleteRedNephew(xp: Ref, brother: Ref, onLeft: bool, ghost p0: Path, ghost t0: Tree,
                           ghost E: seq<Entry>, ghost S: nat, ghost A: set<Ref>, ghost z: Cell, ghost n0: Arena)
      returns (x: Ref, ghost p: Path, ghost t: Tree)
      requires Fixing(RootRef(t0), p0, t0, E, S, A, z, n0) && !p0.Top? && Color(t0) == BLACK && z.tag == BLACK
      requires Sibling(p0).Node? && Sibling(p0).tag == BLACK
      requires !(Color(Sibling(p0).left) == BLACK && Color(Sibling(p0).right) == BLACK)
      requires xp == p0.ref && brother == Sibling(p0).ref && onLeft == p0.LeftOf?
      modifies this`nodes, this`root
      ensures Fixing(x, p, t, E, S, A, z, n0) && DeleteMeasure(p, t) < DeleteMeasure(p0, t0)
    {
      DeleteCase34(p0, t0);
      Case4Refs(p0, t0);
      DeleteCase34Step(xp, brother, onLeft, p0, t0);
      Whole(nodes, root, p0.up, Case4Result(p0, t0));
      PlugNode(p0.up, Case4Result(p0, t0));
      x, p, t := root, Top, Plug(p0.up, Case4Result(p0, t0));
      XCell(nodes, root, p, t);
    }

    /** Case 1 of Delete's fix-up (rbtree.h:359-363, 388-391): the parent turns RED, the RED brother BLACK, and a rotation at the parent gives `x` a BLACK brother. */
    method DeleteCase1Step(xp: Ref, brother: Ref, onLeft: bool, ghost p: Path, ghost t: Tree)
      requires Focused(nodes, root, p, t) && !p.Top? && Sibling(p).Node?
      requires xp == p.ref && brother == Sibling(p).ref && onLeft == p.LeftOf?
      modifies this`nodes, this`root
      ensures Focused(nodes, root, Case1Path(p), t)
      ensures SameKeys(nodes, old(nodes)) && (Null in old(nodes) ==> nodes[Null] == old(nodes[Null]))
    {
      DeleteCase1Cells(nodes, root, p, t);
      nodes := nodes[xp := nodes[xp].(tag := RED)];
      nodes := nodes[brother := nodes[brother].(tag := BLACK)];
      if onLeft {
        LeftRotate(xp, p.up, Case1Start(p, t));
      } else {
        RightRotate(xp, p.up, Case1Start(p, t));
      }
      Case1Descend(nodes, root, p, t);
    }

    /** Case 2 of Delete's fix-up (rbtree.h:365-369, 393-397): the BLACK brother, whose children are BLACK, turns RED. */
    method DeleteCase2Step(brother: Ref, ghost p: Path, ghost t: Tree)
      requires Focused(nodes, root, p, t) && !p.Top? && Sibling(p).Node? && brother == Sibling(p).ref
      modifies this`nodes
      ensures Focused(nodes, root, p.up, Case2Tree(p, t)) && RootRef(Case2Tree(p, t)) == p.ref
      ensures SameKeys(nodes, old(nodes)) && (Null in old(nodes) ==> nodes[Null] == old(nodes[Null]))
    {
      DeleteCase2Cells(nodes, root, p, t);
      nodes := nodes[brother := nodes[brother].(tag := RED)];
    }

    /**
     * Cases 3 and 4 of Delete's fix-up (rbtree.h:371-384, 399-412): a BLACK
     * brother with a RED child. Case 3 first when the brother's near child
     * is the RED one; case 4 ends the walk.
     */
    method DeleteCase34Step(xp: Ref, brother0: Ref, onLeft: bool, ghost p: Path, ghost t: Tree)
      requires Focused(nodes, root, p, t) && DeleteFixing(p, t) && !p.Top? && Color(t) == BLACK
      requires Sibling(p).Node? && Sibling(p).tag == BLACK && !(Color(Sibling(p).left) == BLACK && Color(Sibling(p).right) == BLACK)
      requires xp == p.ref && brother0 == Sibling(p).ref && onLeft == p.LeftOf?
      requires Null in nodes && nodes[Null].tag == BLACK
      modifies this`nodes, this`root
      ensures Case4Brother(p).Node? && Focused(nodes, root, p.up, Case4Result(p, t))
      ensures SameKeys(nodes, old(nodes)) && nodes[Null] == old(nodes[Null])
    {
      DeleteCase34(p, t);
      NephewCell(nodes, root, p, t);
      ToSibling(nodes, root, p, t);
      var brother := brother0;
      var near := if onLeft then nodes[brother].left else nodes[brother].right;
      if nodes[near].tag == RED {
        brother := DeleteCase3Step(xp, brother, onLeft, p, t);
      }
      DeleteCase4Step(xp, brother, onLeft, p, t);
    }

    /**
     * Case 3 of Delete's fix-up (rbtree.h:372-377, 400-405): the brother's
     * near child turns BLACK, the brother RED, and a rotation at the brother
     * lifts the near child into its place.
     */
    method DeleteCase3Step(xp: Ref, brother: Ref, onLeft: bool, ghost p: Path, ghost t: Tree) returns (b: Ref)
      requires !p.Top? && Sibling(p).Node? && Focused(nodes, root, SiblingPath(p, t), Sibling(p))
      requires onLeft == p.LeftOf? && xp == p.ref && brother == Sibling(p).ref
      requires p.LeftOf? ==> Color(Sibling(p).left) == RED && Sibling(p).left.Node?
      requires p.RightOf? ==> Color(Sibling(p).right) == RED && Sibling(p).right.Node?
      modifies this`nodes, this`root
      ensures Case4Brother(p).Node? && Focused(nodes, root, SiblingPath(p, t), Case4Brother(p)) && b == Case4Brother(p).ref
      ensures SameKeys(nodes, old(nodes)) && (Null in old(nodes) ==> nodes[Null] == old(nodes[Null]))
    {
      ghost var sp := SiblingPath(p, t);
      DeleteCase3Cells(nodes, root, p, t);
      if onLeft {
        nodes := nodes[nodes[brother].left := nodes[nodes[brother].left].(tag := BLACK)];
        nodes := nodes[brother := nodes[brother].(tag := RED)];
        RightRotate(brother, sp, Case3Start(p));
        FrameCell(nodes, root, sp, Case4Brother(p));
        b := nodes[xp].right;
      } else {
        nodes := nodes[nodes[brother].right := nodes[nodes[brother].right].(tag := BLACK)];
        nodes := nodes[brother := nodes[brother].(tag := RED)];
        LeftRotate(brother, sp, Case3Start(p));
        FrameCell(nodes, root, sp, Case4Brother(p));
        b := nodes[xp].left;
      }
    }

    /**
     * Case 4 of Delete's fix-up (rbtree.h:378-383, 406-411): the brother
     * takes the parent's colour, the parent and the brother's far child turn
     * BLACK, and a rotation at the parent ends the walk.
     */
    method DeleteCase4Step(xp: Ref, brother: Ref, onLeft: bool, ghost p: Path, ghost t: Tree)
      requires !p.Top? && Sibling(p).Node? && Case4Brother(p).Node? && Focused(nodes, root, SiblingPath(p, t), Case4Brother(p))
      requires p.LeftOf? ==> Case4Brother(p).right.Node? && Case4Tree(p, t).right.Node?
      requires p.RightOf? ==> Case4Brother(p).left.Node? && Case4Tree(p, t).left.Node?
      requires onLeft == p.LeftOf? && xp == p.ref && brother == Case4Brother(p).ref
      modifies this`nodes, this`root
      ensures Focused(nodes, root, p.up, Case4Result(p, t))
      ensures SameKeys(nodes, old(nodes)) && (Null in old(nodes) ==> nodes[Null] == old(nodes[Null]))
    {
      DeleteCase4Cells(nodes, root, p, t);
      nodes := nodes[brother := nodes[brother].(tag := nodes[xp].tag)];
      nodes := nodes[xp := nodes[xp].(tag := BLACK)];
      if onLeft {
        nodes := nodes[nodes[brother].right := nodes[nodes[brother].right].(tag := BLACK)];
        LeftRotate(xp, p.up, Case4Tree(p, t));
      } else {
        nodes := nodes[nodes[brother].left := nodes[nodes[brother].left].(tag := BLACK)];
        RightRotate(xp, p.up, Case4Tree(p, t));
      }
    }

    /**
     * Clear (rbtree.h:245-272), as written: a walk with `prev`, `curr` and
     * `next` that frees each node after both its subtrees, decrementing
     * `size_` each time. It does not reset `root_`; see ClearDangles.
     */
    method Clear()
      requires Focused(nodes, root, Top, tree) && Size(tree) <= size
      modifies this`nodes, this`size
      ensures nodes == old(nodes) - Refs(tree) && size == old(size) - Size(tree)
    {
      var prev, next, curr := Null, Null, root;
      ghost var p, t, v := Top, tree, if root == Null then Gone else Arrived;
      ghost var T0, n0, r0, s0 := tree, nodes, root, size;
      assert Unique(tree);
      assert nodes == n0 - Freed(p, t, v);
      while curr != Null
        invariant Walk(nodes, size, curr, prev, next, p, t, v, T0, n0, r0, s0)
        decreases Moves(p, t, v)
      {
        curr, prev, next, p, t, v := ClearStep(curr, prev, next, p, t, v, T0, n0, r0, s0);
      }
    }

    /** One pass of Clear's loop (rbtree.h:253-268): down to a child, or free `curr` and back up to its parent. */
    method ClearStep(curr0: Ref, prev0: Ref, next0: Ref, ghost p0: Path, ghost t0: Tree, ghost v0: Visit,
                     ghost T0: Tree, ghost n0: Arena, ghost r0: Ref, ghost s0: nat)
      returns (curr: Ref, prev: Ref, next: Ref, ghost p: Path, ghost t: Tree, ghost v: Visit)
      requires Walk(nodes, size, curr0, prev0, next0, p0, t0, v0, T0, n0, r0, s0) && curr0 != Null
      modifies this`nodes, this`size
      ensures Walk(nodes, size, curr, prev, next, p, t, v, T0, n0, r0, s0) && Moves(p, t, v) < Moves(p0, t0, v0)
    {
      curr, prev, next, p, t, v := curr0, prev0, next0, p0, t0, v0;
      WalkCell(nodes, size, curr, prev, next, p, t, v, T0, n0, r0, s0);
      ghost var move := 0;
      if prev == nodes[curr].parent {
        prev := curr;
        next := nodes[curr].left;
        move := 1;
      }
      if next == Null || prev == nodes[curr].left {
        prev := curr;
        next := nodes[curr].right;
        move := 2;
      }
      if next == Null || prev == nodes[curr].right {
        prev := curr;
        next := nodes[curr].parent;
        p, t, v := WalkUp(nodes, size, curr0, prev0, next0, p0, t0, v0, T0, n0, r0, s0);
        nodes := nodes - {curr};
        size := size - 1;
      } else if move == 1 {
        WalkLeft(nodes, size, curr0, prev0, next0, p0, t0, v0, T0, n0, r0, s0);
        p, t, v := LeftOf(t.ref, t.tag, t.key, t.value, t.right, p), t.left, Arrived;
      } else {
        WalkRight(nodes, size, curr0, prev0, next0, p0, t0, v0, T0, n0, r0, s0);
        p, t, v := RightOf(t.left, t.ref, t.tag, t.key, t.value, p), t.right, Arrived;
      }
      curr := next;
    }

    /**
     * Clear with `root_` reset to `nil_` after the walk, as an empty tree
     * needs: a tree that held a map holds the empty map afterwards.
     */
    method ClearAndReset()
      requires Focused(nodes, root, Top, tree) && Size(tree) <= size
      modifies this`nodes, this`size, this`root, this`tree
      ensures nodes == old(nodes) - Refs(old(tree)) && size == old(size) - Size(old(tree))
      ensures root == Null && tree == Leaf
      ensures old(Valid()) ==> Valid() && Mapping() == map[] && size == 0
    {
      NullFree(tree);
      Clear();
      root := Null;
      tree := Leaf;
    }

    /**
     * DeleteAll (rbtree.h:275-282), the recursive postorder walk Clear
     * once used: frees the subtree `t` below `r`.
     */
    method DeleteAll(r: Ref, ghost t: Tree, ghost parent: Ref)
      requires Unique(t) && LinkedTree(nodes, t, parent) && r == RootRef(t) && Size(t) <= size
      modifies this`nodes, this`size
      ensures nodes == old(nodes) - Refs(t) && size == old(size) - Size(t)
      decreases t
    {
      if r != Null {
        assert Unique(t.left) && Unique(t.right);
        DeleteAll(nodes[r].left, t.left, r);
        TreeFrame(old(nodes), nodes, t.right, r);
        DeleteAll(nodes[r].right, t.right, r);
        nodes := nodes - {r};
        size := size - 1;
      } else {
        assert t.Leaf?;
      }
    }
  }
}
