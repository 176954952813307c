/**
 * Read-only navigation in the CLRS tree (Median/main2.py `search`, `minimum`,
 * `maximum`, `successor`, `predecessor`). Results are zippers, so they carry the
 * parent chain a node reference has in the source.
 */
module ClrsNav {
  import opened Outcomes
  import opened SortedSeq
  import opened RbCore
  import opened RbZipper

  /** `search` from the subtree `x` whose ancestors are `p`. */
  function SearchIn(x: Tree, k: int, p: Path): (r: Option<Zipper>)
    ensures r.Some? ==> r.value.focus.Node? && r.value.focus.key == k
    ensures r.Some? ==> TreeOf(r.value) == Plug(x, p)
    ensures Sorted(Keys(x)) ==> (r.None? <==> k !in Keys(x))
  {
    match x
    case Nil => None
    case Node(c, l, y, rt) =>
      if k == y then Some(Zip(x, p))
      else if k < y then
        assert ([InLeft(c, y, rt)] + p)[1..] == p;
        if Sorted(Keys(x)) then SortedNode(x); SearchIn(l, k, [InLeft(c, y, rt)] + p)
        else SearchIn(l, k, [InLeft(c, y, rt)] + p)
      else
        assert ([InRight(c, l, y)] + p)[1..] == p;
        if Sorted(Keys(x)) then SortedNode(x); SearchIn(rt, k, [InRight(c, l, y)] + p)
        else SearchIn(rt, k, [InRight(c, l, y)] + p)
  }

  /** `search(key)`: the sentinel (here `None`) exactly when no node holds the key. */
  function Search(t: Tree, k: int): (r: Option<Zipper>)
    ensures r.Some? ==> r.value.focus.Node? && r.value.focus.key == k && TreeOf(r.value) == t
    ensures Sorted(Keys(t)) ==> (r.None? <==> k !in Keys(t))
  {
    SearchIn(t, k, [])
  }

  /** `minimum(x)`: the leftmost node of the subtree at `z`, which comes first in it. */
  function Minimum(z: Zipper): (r: Zipper)
    requires z.focus.Node?
    ensures r.focus.Node? && r.focus.left == Nil
    ensures TreeOf(r) == TreeOf(z)
    ensures Rank(r) == |Before(z.path)|
    ensures r.focus.key == Keys(z.focus)[0]
    decreases z.focus
  {
    var Node(c, l, k, rt) := z.focus;
    if l == Nil then z
    else
      assert ([InLeft(c, k, rt)] + z.path)[1..] == z.path;
      Minimum(Zip(l, [InLeft(c, k, rt)] + z.path))
  }

  /** `maximum(x)`: the rightmost node of the subtree at `z`, which comes last in it. */
  function Maximum(z: Zipper): (r: Zipper)
    requires z.focus.Node?
    ensures r.focus.Node? && r.focus.right == Nil
    ensures TreeOf(r) == TreeOf(z)
    ensures Rank(r) == |Before(z.path)| + |Keys(z.focus)| - 1
    ensures r.focus.key == Keys(z.focus)[|Keys(z.focus)| - 1]
    decreases z.focus
  {
    var Node(c, l, k, rt) := z.focus;
    if rt == Nil then z
    else
      assert ([InRight(c, l, k)] + z.path)[1..] == z.path;
      Maximum(Zip(rt, [InRight(c, l, k)] + z.path))
  }

  /**
   * The climbing loop of `successor`: go up while the current subtree is a right
   * child; the parent of the first left child is the answer.
   */
  function ClimbToLeftChild(t: Tree, p: Path): (r: Option<Zipper>)
    requires t.Node?
    ensures r.None? <==> After(p) == []
    ensures r.Some? ==> r.value.focus.Node? && TreeOf(r.value) == Plug(t, p)
    ensures r.Some? ==> Rank(r.value) == |Before(p)| + |Keys(t)|
    decreases |p|
  {
    if p == [] then None
    else if p[0].InLeft? then Some(Zip(Attach(p[0], t), p[1..]))
    else ClimbToLeftChild(Attach(p[0], t), p[1..])
  }

  /** The mirror-image climb of `predecessor`. */
  function ClimbToRightChild(t: Tree, p: Path): (r: Option<Zipper>)
    requires t.Node?
    ensures r.None? <==> Before(p) == []
    ensures r.Some? ==> r.value.focus.Node? && TreeOf(r.value) == Plug(t, p)
    ensures r.Some? ==> Rank(r.value) + 1 == |Before(p)|
    decreases |p|
  {
    if p == [] then None
    else if p[0].InRight? then Some(Zip(Attach(p[0], t), p[1..]))
    else ClimbToRightChild(Attach(p[0], t), p[1..])
  }

  /** `successor(x)`: the next node in in-order order, `None` after the last one. */
  function Successor(z: Zipper): (r: Option<Zipper>)
    requires z.focus.Node?
    ensures r.None? <==> Rank(z) == |Keys(TreeOf(z))| - 1
    ensures r.Some? ==> r.value.focus.Node? && TreeOf(r.value) == TreeOf(z)
    ensures r.Some? ==> Rank(r.value) == Rank(z) + 1
  {
    var Node(c, l, k, rt) := z.focus;
    PlugKeys(z.focus, z.path);
    if rt.Node? then
      var down := Zip(rt, [InRight(c, l, k)] + z.path);
      assert ([InRight(c, l, k)] + z.path)[1..] == z.path;
      Some(Minimum(down))
    else ClimbToLeftChild(z.focus, z.path)
  }

  /** `predecessor(x)`: the previous node in in-order order, `None` before the first one. */
  function Predecessor(z: Zipper): (r: Option<Zipper>)
    requires z.focus.Node?
    ensures r.None? <==> Rank(z) == 0
    ensures r.Some? ==> r.value.focus.Node? && TreeOf(r.value) == TreeOf(z)
    ensures r.Some? ==> Rank(r.value) + 1 == Rank(z)
  {
    var Node(c, l, k, rt) := z.focus;
    if l.Node? then
      var down := Zip(l, [InLeft(c, k, rt)] + z.path);
      assert ([InLeft(c, k, rt)] + z.path)[1..] == z.path;
      Some(Maximum(down))
    else ClimbToRightChild(z.focus, z.path)
  }

  /** The node at in-order rank `i`: how the model names a node the source holds a reference to. */
  function Locate(t: Tree, i: nat, p: Path): (r: Zipper)
    requires i < |Keys(t)|
    ensures r.focus.Node? && TreeOf(r) == Plug(t, p)
    ensures Rank(r) == |Before(p)| + i
  {
    var Node(c, l, k, rt) := t;
    if i < |Keys(l)| then
      assert ([InLeft(c, k, rt)] + p)[1..] == p;
      Locate(l, i, [InLeft(c, k, rt)] + p)
    else if i == |Keys(l)| then Zip(t, p)
    else
      assert ([InRight(c, l, k)] + p)[1..] == p;
      Locate(rt, i - |Keys(l)| - 1, [InRight(c, l, k)] + p)
  }
}
