/**
 * Red-black trees as immutable values (Median/main2.py `rbnode`/`rbtree`,
 * Median/main.py `RBNode`/`RBLeaf`). `Nil` stands for the shared black
 * sentinel of main2.py and for the per-position `RBLeaf` objects of main.py;
 * parent links are not stored (see RbZipper).
 */
module RbCore {
  import opened SortedSeq

  datatype Color = Red | Black

  datatype Tree = Nil | Node(color: Color, left: Tree, key: int, right: Tree)

  /** The colour a node reports; the sentinel is always black. */
  function ColorOf(t: Tree): Color {
    if t.Nil? then Black else t.color
  }

  /** The keys in in-order order. */
  function Keys(t: Tree): seq<int> {
    match t
    case Nil => []
    case Node(_, l, k, r) => Keys(l) + [k] + Keys(r)
  }

  /** Black nodes on every path from the root of `t` down to a sentinel (sentinel excluded). */
  function BH(t: Tree): nat {
    match t
    case Nil => 0
    case Node(c, l, _, _) => BH(l) + (if c == Black then 1 else 0)
  }

  /**
   * Properties 4 and 5 of a red-black tree in every subtree: a red node has black
   * children, and both children of a node have the same black height. The root
   * may be of either colour.
   */
  predicate Rb(t: Tree) {
    match t
    case Nil => true
    case Node(c, l, _, r) =>
      && Rb(l) && Rb(r)
      && BH(l) == BH(r)
      && (c == Red ==> ColorOf(l) == Black && ColorOf(r) == Black)
  }

  /** All red-black properties, the black root included. */
  predicate IsRedBlack(t: Tree) {
    Rb(t) && ColorOf(t) == Black
  }

  function Blacken(t: Tree): (r: Tree)
    ensures ColorOf(r) == Black && Keys(r) == Keys(t)
    ensures Rb(t) ==> Rb(r)
    ensures t.Node? ==> BH(r) == BH(t.left) + 1
  {
    if t.Nil? then Nil else t.(color := Black)
  }

  function Redden(t: Tree): Tree {
    if t.Nil? then Nil else t.(color := Red)
  }

  function LeftOf(t: Tree): Tree {
    if t.Nil? then Nil else t.left
  }

  function RightOf(t: Tree): Tree {
    if t.Nil? then Nil else t.right
  }

  /**
   * `_left_rotate` (main2.py) / `__rotate_left` (main.py) on the subtree rooted at
   * the rotated node: its right child `y` takes its place, it becomes `y`'s left
   * child and adopts `y`'s former left subtree. Each node keeps its colour.
   */
  function RotateLeft(t: Tree): (r: Tree)
    requires t.Node? && t.right.Node?
    ensures r.Node? && r.left.Node?
    ensures Keys(r) == Keys(t)
    ensures r.key == t.right.key && r.left.key == t.key
  {
    var Node(cx, a, x, Node(cy, b, y, g)) := t;
    Node(cy, Node(cx, a, x, b), y, g)
  }

  /** `_right_rotate` / `__rotate_right`: the mirror image of RotateLeft. */
  function RotateRight(t: Tree): (r: Tree)
    requires t.Node? && t.left.Node?
    ensures r.Node? && r.right.Node?
    ensures Keys(r) == Keys(t)
    ensures r.key == t.left.key && r.right.key == t.key
  {
    var Node(cy, Node(cx, a, x, b), y, g) := t;
    Node(cx, a, x, Node(cy, b, y, g))
  }

  /** The two rotations undo each other. */
  lemma RotationsInverse(t: Tree)
    ensures t.Node? && t.right.Node? ==> RotateRight(RotateLeft(t)) == t
    ensures t.Node? && t.left.Node? ==> RotateLeft(RotateRight(t)) == t
  {
  }

  /** In a tree with sorted keys, both subtrees are sorted and the node's key separates them. */
  lemma SortedNode(t: Tree)
    requires t.Node? && Sorted(Keys(t))
    ensures Sorted(Keys(t.left)) && Sorted(Keys(t.right))
    ensures forall y :: y in Keys(t.left) ==> y <= t.key
    ensures forall y :: y in Keys(t.right) ==> t.key <= y
  {
    SortedSplit(Keys(t.left), t.key, Keys(t.right));
  }
}
