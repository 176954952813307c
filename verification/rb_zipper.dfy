/**
 * Parent links as a zipper. A node reference of the source (a node together with
 * its `p` chain up to the root) is a `Zipper`: the subtree rooted at the node and
 * the path of frames from its parent up to the root. Re-rooting after a rotation
 * and the parent/child back-references are then structural.
 */
module RbZipper {
  import opened RbCore

  /** One step from a subtree up to its parent: the parent's colour, key and other child. */
  datatype Frame =
    | InLeft(color: Color, key: int, sibling: Tree)    // the subtree is the parent's left child
    | InRight(color: Color, sibling: Tree, key: int)   // the subtree is the parent's right child

  /** The ancestors of a position, its parent first and the root last. */
  type Path = seq<Frame>

  datatype Zipper = Zip(focus: Tree, path: Path)

  function Attach(f: Frame, t: Tree): (r: Tree)
    ensures r.Node? && r.color == f.color && r.key == f.key
  {
    match f
    case InLeft(c, k, s) => Node(c, t, k, s)
    case InRight(c, s, k) => Node(c, s, k, t)
  }

  /** The whole tree, rebuilt from a subtree and the path above it. */
  function Plug(t: Tree, p: Path): Tree
    decreases |p|
  {
    if p == [] then t else Plug(Attach(p[0], t), p[1..])
  }

  function TreeOf(z: Zipper): Tree {
    Plug(z.focus, z.path)
  }

  /** The keys that come before the position in in-order order. */
  function Before(p: Path): seq<int>
    decreases |p|
  {
    if p == [] then []
    else Before(p[1..]) + (if p[0].InRight? then Keys(p[0].sibling) + [p[0].key] else [])
  }

  /** The keys that come after the position in in-order order. */
  function After(p: Path): seq<int>
    decreases |p|
  {
    if p == [] then []
    else (if p[0].InLeft? then [p[0].key] + Keys(p[0].sibling) else []) + After(p[1..])
  }

  lemma {:induction false} PlugKeys(t: Tree, p: Path)
    ensures Keys(Plug(t, p)) == Before(p) + Keys(t) + After(p)
    decreases |p|
  {
    if p != [] {
      var f := p[0];
      var x := if f.InRight? then Keys(f.sibling) + [f.key] else [];
      var y := if f.InLeft? then [f.key] + Keys(f.sibling) else [];
      PlugKeys(Attach(f, t), p[1..]);
      assert Keys(Attach(f, t)) == x + Keys(t) + y;
      assert Before(p) == Before(p[1..]) + x && After(p) == y + After(p[1..]);
      Regroup(Before(p[1..]), x, Keys(t), y, After(p[1..]));
    }
  }

  lemma Regroup(b: seq<int>, x: seq<int>, m: seq<int>, y: seq<int>, a: seq<int>)
    ensures b + (x + m + y) + a == (b + x) + m + (y + a)
  {
  }

  lemma {:induction false} PlugAppend(t: Tree, a: Path, b: Path)
    ensures Plug(t, a + b) == Plug(Plug(t, a), b)
    decreases |a|
  {
    if a != [] {
      assert (a + b)[1..] == a[1..] + b;
      PlugAppend(Attach(a[0], t), a[1..], b);
    } else {
      assert a + b == b;
    }
  }

  lemma {:induction false} BeforeAppend(a: Path, b: Path)
    ensures Before(a + b) == Before(b) + Before(a)
    ensures After(a + b) == After(a) + After(b)
    decreases |a|
  {
    if a != [] {
      assert (a + b)[1..] == a[1..] + b;
      BeforeAppend(a[1..], b);
    } else {
      assert a + b == b;
    }
  }

  /** The keys around a position reached through a left turn below path `b`. */
  lemma BeforeAfterLeftTurn(a: Path, c: Color, k: int, s: Tree, b: Path)
    ensures Before(a + [InLeft(c, k, s)] + b) == Before(b) + Before(a)
    ensures After(a + [InLeft(c, k, s)] + b) == After(a) + ([k] + Keys(s) + After(b))
  {
    var f := InLeft(c, k, s);
    var g := [f] + b;
    assert g[0] == f && g[1..] == b;
    assert Before(g) == Before(b);
    assert After(g) == [k] + Keys(s) + After(b);
    assert a + [f] + b == a + g;
    BeforeAppend(a, g);
  }

  /** The 0-based in-order rank of the node a zipper refers to. */
  function Rank(z: Zipper): nat
    requires z.focus.Node?
  {
    |Before(z.path)| + |Keys(z.focus.left)|
  }

  /** Subtrees with the same keys give the same keys once plugged into the same path. */
  lemma PlugSameKeys(a: Tree, b: Tree, p: Path)
    requires Keys(a) == Keys(b)
    ensures Keys(Plug(a, p)) == Keys(Plug(b, p))
  {
    PlugKeys(a, p);
    PlugKeys(b, p);
  }

  lemma MiddleIndex(a: seq<int>, k: int, b: seq<int>)
    ensures |a| < |a + [k] + b| && (a + [k] + b)[|a|] == k
  {
  }

  /** The node a zipper refers to holds the key at its rank. */
  lemma KeyAtRank(z: Zipper)
    requires z.focus.Node?
    ensures Rank(z) < |Keys(TreeOf(z))|
    ensures Keys(TreeOf(z))[Rank(z)] == z.focus.key
  {
    PlugSplit(z.focus, z.path);
    MiddleIndex(Before(z.path) + Keys(z.focus.left), z.focus.key, Keys(z.focus.right) + After(z.path));
  }

  /** The keys of the whole tree around a node: before it, its own key, after it. */
  lemma PlugSplit(n: Tree, p: Path)
    requires n.Node?
    ensures Keys(Plug(n, p)) == (Before(p) + Keys(n.left)) + [n.key] + (Keys(n.right) + After(p))
  {
    PlugKeys(n, p);
  }

  // ---------------------------------------------------------------------
  // Red-black properties along a path

  /** Black height of the parent given that of the child below it. */
  function Above(f: Frame, h: nat): nat {
    h + (if f.color == Black then 1 else 0)
  }

  /** The sibling is a red-black subtree of black height `h`, black under a red parent. */
  predicate Fits(f: Frame, h: nat) {
    && Rb(f.sibling)
    && BH(f.sibling) == h
    && (f.color == Red ==> ColorOf(f.sibling) == Black)
  }

  /**
   * Plugging a red-black subtree of black height `h` and root colour `c` into the
   * path gives a subtree satisfying Rb at every ancestor.
   */
  predicate PathRb(p: Path, h: nat, c: Color)
    decreases |p|
  {
    p == [] ||
    (Fits(p[0], h) && (p[0].color == Red ==> c == Black) && PathRb(p[1..], Above(p[0], h), p[0].color))
  }

  /** PathRb, except that the parent may be red above a red subtree. */
  predicate PathRbLoose(p: Path, h: nat) {
    p == [] || (Fits(p[0], h) && PathRb(p[1..], Above(p[0], h), p[0].color))
  }

  /** The colour of the root of Plug(t, p). */
  function RootColor(t: Tree, p: Path): Color {
    if p == [] then ColorOf(t) else p[|p| - 1].color
  }

  lemma {:induction false} RootColorPlug(t: Tree, p: Path)
    ensures ColorOf(Plug(t, p)) == RootColor(t, p)
    decreases |p|
  {
    if p != [] {
      RootColorPlug(Attach(p[0], t), p[1..]);
    }
  }

  lemma {:induction false} RbPlug(t: Tree, p: Path)
    requires Rb(t) && PathRb(p, BH(t), ColorOf(t))
    ensures Rb(Plug(t, p))
    decreases |p|
  {
    if p != [] {
      RbPlug(Attach(p[0], t), p[1..]);
    }
  }

  lemma {:induction false} PlugRb(t: Tree, p: Path)
    requires Rb(Plug(t, p))
    ensures Rb(t) && PathRb(p, BH(t), ColorOf(t))
    decreases |p|
  {
    if p != [] {
      PlugRb(Attach(p[0], t), p[1..]);
    }
  }

  lemma PathRbUnderBlack(p: Path, h: nat, c: Color)
    requires PathRb(p, h, c)
    ensures PathRb(p, h, Black)
  {
  }
}

/** Key facts about removing the node a zipper focuses on, kept apart from
    the zipper definitions so that their bodies stay out of these proofs. */
module ZipperSplit {
  import opened SortedSeq
  import opened RbCore
  import opened RbZipper

  /** Dropping the node at a zipper's rank leaves the keys on either side of it. */
  lemma PlugWithout(n: Tree, p: Path)
    requires n.Node?
    ensures |Before(p)| + |Keys(n.left)| < |Keys(Plug(n, p))|
    ensures Before(p) + Keys(n.left) + Keys(n.right) + After(p) == Without(Keys(Plug(n, p)), |Before(p)| + |Keys(n.left)|)
  {
    PlugSplit(n, p);
    WithoutBetween(Before(p), Keys(n.left), n.key, Keys(n.right), After(p));
  }
}
