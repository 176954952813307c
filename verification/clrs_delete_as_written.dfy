/**
 * The deletion fixup of Median/main2.py exactly as written. Three lines differ
 * from the algorithm their comments describe:
 *   - case 2 assigns `n.p.red = True` through a read-only property, which raises
 *     `AttributeError`;
 *   - cases 3 and 5 test whether the sibling's children are real nodes
 *     (`not tmp.left`) where their colour is meant.
 * The corrected cases are ClrsDelete.DeleteCase1..DeleteCase6. Like ClrsDelete,
 * `x` is the subtree in the removed node's place and `p` its ancestors.
 */
module ClrsDeleteAsWritten {
  import opened Outcomes
  import opened RbCore
  import opened RbZipper
  import ClrsNav
  import ClrsDelete

  function Case1AsWritten(x: Tree, p: Path): Result<Tree>
    decreases |p|, 2
  {
    if p == [] then Ok(x) else Case2AsWritten(x, p)
  }

  /** A red sibling: the property assignment raises before anything changes. */
  function Case2AsWritten(x: Tree, p: Path): Result<Tree>
    requires p != []
    decreases |p|, 1
  {
    if ColorOf(p[0].sibling) == Red then Err(AttributeError) else Case3AsWritten(x, p)
  }

  /** Case 3 fires only when the sibling has no real children. */
  function Case3AsWritten(x: Tree, p: Path): Result<Tree>
    requires p != []
    decreases |p|, 0
  {
    var f := p[0];
    var s := f.sibling;
    if f.color == Black && ColorOf(s) == Black && LeftOf(s).Nil? && RightOf(s).Nil? then
      Case1AsWritten(Attach(f.(sibling := Redden(s)), x), p[1..])
    else Case4AsWritten(x, p)
  }

  /** Case 4 tests colours; on a sentinel sibling `tmp.left.red` reads a field of `None`. */
  function Case4AsWritten(x: Tree, p: Path): Result<Tree>
    requires p != []
  {
    var f := p[0];
    var s := f.sibling;
    if f.color == Red && s.Nil? then Err(AttributeError)
    else if f.color == Red && ColorOf(s) == Black && ColorOf(LeftOf(s)) == Black && ColorOf(RightOf(s)) == Black then
      Ok(Plug(Attach(f.(color := Black, sibling := Redden(s)), x), p[1..]))
    else Case5AsWritten(x, p)
  }

  /** Case 5 fires when the near child is a real node and the far child is the sentinel. */
  function Case5AsWritten(x: Tree, p: Path): Result<Tree>
    requires p != []
  {
    var f := p[0];
    var s := f.sibling;
    if f.InLeft? && ColorOf(s) == Black && LeftOf(s).Node? && RightOf(s).Nil? then
      Case6AsWritten(x, [f.(sibling := RotateRight(Node(Red, Blacken(s.left), s.key, s.right)))] + p[1..])
    else if f.InRight? && ColorOf(s) == Black && RightOf(s).Node? && LeftOf(s).Nil? then
      Case6AsWritten(x, [f.(sibling := RotateLeft(Node(Red, s.left, s.key, Blacken(s.right))))] + p[1..])
    else Case6AsWritten(x, p)
  }

  /** Case 6 asserts that the far child is red. */
  function Case6AsWritten(x: Tree, p: Path): Result<Tree>
    requires p != []
  {
    var f := p[0];
    var s := f.sibling;
    if s.Nil? then Err(AttributeError)     // `tmp.right.red` on the sentinel, whose children are `None`
    else if f.InLeft? then
      if ColorOf(s.right) != Red then Err(AssertionError)
      else Ok(Plug(RotateLeft(Node(Black, x, f.key, s.(color := f.color, right := Blacken(s.right)))), p[1..]))
    else
      if ColorOf(s.left) != Red then Err(AssertionError)
      else Ok(Plug(RotateRight(Node(Black, s.(color := f.color, left := Blacken(s.left)), f.key, x)), p[1..]))
  }

  function RemoveNodeAsWritten(n: Tree, p: Path): Result<Tree>
    requires n.Node?
  {
    var child := if n.right == Nil then n.left else n.right;
    if n.color == Red then Ok(Blacken(Plug(child, p)))
    else match Case1AsWritten(child, p)
      case Err(e) => Err(e)
      case Ok(t) => Ok(Blacken(t))
  }

  function DeleteNodeAsWritten(z: Zipper): Result<Tree>
    requires z.focus.Node?
  {
    var Node(c, l, k, r) := z.focus;
    if l != Nil && r != Nil then
      var m := ClrsNav.Maximum(Zip(l, []));
      RemoveNodeAsWritten(m.focus, m.path + [InLeft(c, m.focus.key, r)] + z.path)
    else RemoveNodeAsWritten(z.focus, z.path)
  }

  /** Black 2 over black 1 and red 4 (with black 3 and 5): valid, and deleting 1 meets a red sibling. */
  function RedSiblingTree(): (t: Tree)
    ensures IsRedBlack(t) && Keys(t) == [1, 2, 3, 4, 5]
  {
    Node(Black, Node(Black, Nil, 1, Nil), 2, Node(Red, Node(Black, Nil, 3, Nil), 4, Node(Black, Nil, 5, Nil)))
  }

  /** As written, deleting 1 raises `AttributeError`; the corrected deletion keeps a red-black tree. */
  lemma DeleteRedSiblingRaises()
    ensures ClrsNav.Locate(RedSiblingTree(), 0, []).focus.key == 1
    ensures DeleteNodeAsWritten(ClrsNav.Locate(RedSiblingTree(), 0, [])) == Err(AttributeError)
    ensures IsRedBlack(ClrsDelete.DeleteNode(ClrsNav.Locate(RedSiblingTree(), 0, [])))
  {
    var t := RedSiblingTree();
    var z := ClrsNav.Locate(t, 0, []);
    assert z == Zip(t.left, [InLeft(Black, 2, t.right)]);
    ClrsDelete.DeleteRedBlack(z);
  }

  /** The perfect all-black tree on 1..7. */
  function PerfectTree(): (t: Tree)
    ensures IsRedBlack(t) && Keys(t) == [1, 2, 3, 4, 5, 6, 7]
  {
    Node(Black,
      Node(Black, Node(Black, Nil, 1, Nil), 2, Node(Black, Nil, 3, Nil)),
      4,
      Node(Black, Node(Black, Nil, 5, Nil), 6, Node(Black, Nil, 7, Nil)))
  }

  /**
   * As written, deleting 1 recolours 3, moves up, and at 4 finds the sibling 6
   * with two real black children: case 3 does not fire and case 6's assertion
   * fails. The corrected deletion keeps a red-black tree.
   */
  lemma DeletePerfectFails()
    ensures ClrsNav.Locate(PerfectTree(), 0, []).focus.key == 1
    ensures DeleteNodeAsWritten(ClrsNav.Locate(PerfectTree(), 0, [])) == Err(AssertionError)
    ensures IsRedBlack(ClrsDelete.DeleteNode(ClrsNav.Locate(PerfectTree(), 0, [])))
  {
    var t := PerfectTree();
    var z := ClrsNav.Locate(t, 0, []);
    var p := [InLeft(Black, 2, t.left.right), InLeft(Black, 4, t.right)];
    assert ClrsNav.Locate(t, 0, []) == ClrsNav.Locate(t.left, 0, [p[1]]);
    assert ClrsNav.Locate(t.left, 0, [p[1]]) == ClrsNav.Locate(t.left.left, 0, p);
    assert z == Zip(t.left.left, p);
    var x' := Node(Black, Nil, 2, Node(Red, Nil, 3, Nil));
    assert Case3AsWritten(Nil, p) == Case1AsWritten(x', p[1..]);
    assert Case6AsWritten(x', p[1..]) == Err(AssertionError);
    ClrsDelete.DeleteRedBlack(z);
  }
}
