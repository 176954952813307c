/**
 * The second red-black tree of the repository (Median/main.py `RBTree`), which
 * follows the case numbering of the Wikipedia article: insertion that refuses
 * a value already present, `find`, removal with a shortcut for a red child,
 * the in-order walk and `verify`. Its recolourings and rotations are shown to
 * agree with the CLRS tree (ClrsInsert, ClrsDelete) on red-black trees.
 */
module WikiTree {
  import opened Outcomes
  import opened SortedSeq
  import opened RbCore
  import opened RbZipper
  import opened ZipperSplit
  import ClrsNav
  import ClrsInsert
  import ClrsDelete

  // ---------------------------------------------------------------------
  // Relatives of a node

  /** The frame a subtree's sibling sees: same parent, the subtree `t` on the other side. */
  function Flip(f: Frame, t: Tree): (g: Frame)
    ensures Attach(g, f.sibling) == Attach(f, t)
    ensures g.sibling == t
  {
    match f
    case InLeft(c, k, s) => InRight(c, t, k)
    case InRight(c, s, k) => InLeft(c, k, t)
  }

  /** The `parent` link: the node one level up, `None` at the root. */
  function Parent(z: Zipper): (r: Option<Zipper>)
    ensures r.Some? <==> z.path != []
    ensures r.Some? ==> r.value.focus.Node? && TreeOf(r.value) == TreeOf(z) && |r.value.path| + 1 == |z.path|
  {
    if z.path == [] then None else Some(Zip(Attach(z.path[0], z.focus), z.path[1..]))
  }

  /** `sibling()`: the parent's other child, `None` at the root. */
  function Sibling(z: Zipper): (r: Option<Zipper>)
    ensures r.Some? <==> z.path != []
    ensures r.Some? ==> TreeOf(r.value) == TreeOf(z) && Parent(r.value) == Parent(z)
  {
    if z.path == [] then None
    else
      var q := [Flip(z.path[0], z.focus)] + z.path[1..];
      assert q[1..] == z.path[1..];
      Some(Zip(z.path[0].sibling, q))
  }

  /** `grandparent()`: the parent's parent, `None` when there is none. */
  function Grandparent(z: Zipper): (r: Option<Zipper>)
    ensures r.Some? <==> |z.path| >= 2
    ensures r.Some? ==> r.value.focus.Node? && TreeOf(r.value) == TreeOf(z) && |r.value.path| + 2 == |z.path|
  {
    match Parent(z)
    case None => None
    case Some(q) => Parent(q)
  }

  /** `uncle()`: the parent's sibling, a child of the grandparent; `None` without a grandparent. */
  function Uncle(z: Zipper): (r: Option<Zipper>)
    ensures r.Some? <==> |z.path| >= 2
    ensures r.Some? ==> TreeOf(r.value) == TreeOf(z) && Parent(r.value) == Grandparent(z)
  {
    match Parent(z)
    case None => None
    case Some(q) => Sibling(q)
  }

  /** Each node is its sibling's sibling. */
  lemma SiblingTwice(z: Zipper)
    requires z.path != []
    ensures Sibling(Sibling(z).value) == Some(z)
  {
    var q := [Flip(z.path[0], z.focus)] + z.path[1..];
    assert q[0] == Flip(z.path[0], z.focus) && q[1..] == z.path[1..];
    assert Flip(q[0], z.path[0].sibling) == z.path[0];
    assert [z.path[0]] + z.path[1..] == z.path;
  }

  // ---------------------------------------------------------------------
  // insert

  /**
   * The descent loop of `insert`: smaller values go left, larger ones right, and
   * meeting an equal value raises `ValueError` before anything is linked. The
   * result is the path from the leaf the new node replaces up to the root.
   */
  function Descent(t: Tree, k: int): (r: Result<Path>)
    ensures r.Err? ==> r.error == ValueError
  {
    match t
    case Nil => Ok([])
    case Node(c, l, x, rt) =>
      if k < x then
        var d := Descent(l, k);
        if d.Err? then d else Ok(d.value + [InLeft(c, x, rt)])
      else if k > x then
        var d := Descent(rt, k);
        if d.Err? then d else Ok(d.value + [InRight(c, l, x)])
      else Err(ValueError)
  }

  /**
   * The descent fails only on a value that is present, and otherwise takes the
   * path of the CLRS descent; in a search tree it fails exactly on a present value.
   */
  lemma {:induction false} DescentAgrees(t: Tree, k: int)
    ensures Descent(t, k).Ok? ==> Descent(t, k).value == ClrsInsert.Descend(t, k)
    ensures Descent(t, k).Err? ==> k in Keys(t)
    ensures Sorted(Keys(t)) ==> (Descent(t, k).Err? <==> k in Keys(t))
  {
    match t
    case Nil =>
    case Node(c, l, x, rt) =>
      DescentAgrees(l, k);
      DescentAgrees(rt, k);
      if Sorted(Keys(t)) {
        SortedNode(t);
      }
  }

  /**
   * The rebalancing loop of `insert`, one iteration per call: `z` is the subtree
   * at the current red node and `p` its ancestors. The recolouring of case 3 and
   * the rotations of cases 4 and 5 are those of the CLRS loop.
   */
  function Rebalance(z: Tree, p: Path): (r: Result<Tree>)
    requires z.Node?
    ensures r.Err? ==> r.error == AttributeError
    decreases |p|
  {
    // case 1: the root turns black
    if p == [] then Ok(Blacken(z))
    // case 2: a black parent
    else if p[0].color == Black then Ok(Plug(z, p))
    // a red parent at the root has no sibling: `uncle()` returns None and `u.red` raises
    else if |p| == 1 then Err(AttributeError)
    // case 3: red uncle; recolour and continue from the grandparent
    else if ColorOf(p[1].sibling) == Red then Rebalance(ClrsInsert.Case1(z, p[0], p[1]), p[2..])
    // cases 4 and 5: black uncle; rotations at the parent and the grandparent
    else Ok(Plug(ClrsInsert.Case23(z, p[0], p[1]), p[2..]))
  }

  /** `insert(RBNode(k))`: the new node is the black root of an empty tree, and red otherwise. */
  function Insert(t: Tree, k: int): (r: Result<Tree>)
    ensures r.Err? ==> r.error == ValueError || r.error == AttributeError
    ensures Sorted(Keys(t)) && k in Keys(t) ==> r == Err(ValueError)
  {
    DescentAgrees(t, k);
    if t == Nil then Ok(Node(Black, Nil, k, Nil))
    else
      var d := Descent(t, k);
      if d.Err? then Err(d.error) else Rebalance(Node(Red, Nil, k, Nil), d.value)
  }

  /** Cases 4 and 5 always leave a black node on top. */
  lemma Case23Black(z: Tree, par: Frame, g: Frame)
    requires z.Node?
    ensures ColorOf(ClrsInsert.Case23(z, par, g)) == Black
  {
  }

  /**
   * Under a black root the loop never raises and builds the tree the CLRS loop
   * builds, root painting included.
   */
  lemma {:induction false} RebalanceAgrees(z: Tree, p: Path)
    requires z.Node?
    requires p != [] ==> p[|p| - 1].color == Black
    ensures Rebalance(z, p) == Ok(Blacken(ClrsInsert.InsertFixup(z, p)))
    decreases |p|
  {
    if p == [] {
    } else if p[0].color == Black {
      RootColorPlug(z, p);
    } else if |p| == 1 {
    } else {
      assert p[2..] != [] ==> p[2..][|p[2..]| - 1] == p[|p| - 1];
      if ColorOf(p[1].sibling) == Red {
        RebalanceAgrees(ClrsInsert.Case1(z, p[0], p[1]), p[2..]);
      } else {
        Case23Black(z, p[0], p[1]);
        RootColorPlug(ClrsInsert.Case23(z, p[0], p[1]), p[2..]);
      }
    }
  }

  /**
   * On a search tree with a black root, `insert` refuses a present value with
   * `ValueError` and otherwise builds exactly the tree the CLRS insertion builds.
   */
  lemma InsertAgrees(t: Tree, k: int)
    requires ColorOf(t) == Black && Sorted(Keys(t))
    ensures Insert(t, k) == if k in Keys(t) then Err(ValueError) else Ok(ClrsInsert.Insert(t, k))
  {
    if t != Nil && k !in Keys(t) {
      var d := ClrsInsert.Descend(t, k);
      DescentAgrees(t, k);
      ClrsInsert.DescendFacts(t, k);
      RootColorPlug(Nil, d);
      RebalanceAgrees(Node(Red, Nil, k, Nil), d);
    }
  }

  /** Inserting a new value into a red-black search tree adds exactly it, in order, and keeps the tree red-black. */
  lemma InsertCorrect(t: Tree, k: int)
    requires IsRedBlack(t) && Sorted(Keys(t)) && k !in Keys(t)
    ensures Insert(t, k).Ok?
    ensures IsRedBlack(Insert(t, k).value)
    ensures ClrsInsert.InsertRank(t, k) <= |Keys(t)|
    ensures Keys(Insert(t, k).value) == InsertAt(Keys(t), ClrsInsert.InsertRank(t, k), k)
    ensures Sorted(Keys(Insert(t, k).value))
  {
    InsertAgrees(t, k);
    ClrsInsert.InsertKeys(t, k);
    ClrsInsert.InsertRedBlack(t, k);
  }

  // ---------------------------------------------------------------------
  // find

  /** The loop of `find` from the subtree `x` below `p`: right for larger values, left otherwise. */
  function FindIn(x: Tree, k: int, p: Path): (r: Option<Zipper>)
    ensures r.Some? ==> r.value.focus.Node? && r.value.focus.key == k && TreeOf(r.value) == Plug(x, p)
  {
    match x
    case Nil => None
    case Node(c, l, y, rt) =>
      if y == k then Some(Zip(x, p))
      else if k > y then
        assert ([InRight(c, l, y)] + p)[1..] == p;
        FindIn(rt, k, [InRight(c, l, y)] + p)
      else
        assert ([InLeft(c, y, rt)] + p)[1..] == p;
        FindIn(l, k, [InLeft(c, y, rt)] + p)
  }

  /** `find` takes the same steps as the CLRS `search`. */
  lemma {:induction false} FindIsSearch(x: Tree, k: int, p: Path)
    ensures FindIn(x, k, p) == ClrsNav.SearchIn(x, k, p)
  {
    match x
    case Nil =>
    case Node(c, l, y, rt) =>
      if k > y {
        FindIsSearch(rt, k, [InRight(c, l, y)] + p);
      } else if k < y {
        FindIsSearch(l, k, [InLeft(c, y, rt)] + p);
      }
  }

  /** `find(val)`: the node holding the value, `None` exactly when a search tree has none. */
  function Find(t: Tree, k: int): (r: Option<Zipper>)
    ensures r.Some? ==> r.value.focus.Node? && r.value.focus.key == k && TreeOf(r.value) == t
    ensures Sorted(Keys(t)) ==> (r.None? <==> k !in Keys(t))
  {
    FindIsSearch(t, k, []);
    FindIn(t, k, [])
  }

  // ---------------------------------------------------------------------
  // remove

  /**
   * `__replace(node, child)` moves the child into the node's place and hands it
   * the node's children, which are leaves once the child itself was cut out.
   */
  function Moved(child: Tree): (r: Tree)
    ensures ColorOf(r) == ColorOf(child)
    ensures r.Node? ==> r.left == Nil && r.right == Nil && child.Node? && r.key == child.key
  {
    if child.Nil? then Nil else Node(child.color, Nil, child.key, Nil)
  }

  /**
   * The fixup loop of `remove`, from the top of an iteration: `x` has lost one
   * black node on each of its paths and `p` are its ancestors. Case 1 stops at
   * the root; case 2 turns a red sibling into the grandparent.
   */
  function RemoveLoop(x: Tree, p: Path): (r: Result<Tree>)
    ensures r.Err? ==> r.error == AttributeError
    decreases |p|, 1
  {
    if p == [] then Ok(x)
    else if ColorOf(p[0].sibling) == Red then Settle(x, ClrsDelete.RedSiblingPath(p))
    else Settle(x, p)
  }

  /**
   * Cases 3 to 6 of `remove`. The tests read the sibling's children, so a leaf
   * sibling raises `AttributeError`. Case 5 tests only the far child, since
   * cases 3 and 4 have already ruled out two black children.
   */
  function Settle(x: Tree, p: Path): (r: Result<Tree>)
    requires p != []
    ensures r.Err? ==> r.error == AttributeError
    decreases |p| - (if p[0].color == Red then 1 else 0), 0
  {
    var f := p[0];
    var s := f.sibling;
    if s.Nil? then Err(AttributeError)
    // case 3: black parent, sibling's children black; repeat from the parent
    else if f.color == Black && ColorOf(s.left) == Black && ColorOf(s.right) == Black then
      RemoveLoop(Attach(f.(sibling := Redden(s)), x), p[1..])
    // case 4: red parent, sibling's children black; swap the colours and stop
    else if f.color == Red && ColorOf(s.left) == Black && ColorOf(s.right) == Black then
      Ok(Plug(Attach(f.(color := Black, sibling := Redden(s)), x), p[1..]))
    else
      // case 5: move the sibling's red child to its far side
      var s' :=
        if f.InRight? && ColorOf(s.left) == Black then RotateLeft(Node(Red, s.left, s.key, Blacken(s.right)))
        else if f.InLeft? && ColorOf(s.right) == Black then RotateRight(Node(Red, Blacken(s.left), s.key, s.right))
        else s;
      // case 6: rotate at the parent
      Ok(Plug(
           if f.InLeft? then RotateLeft(Node(Black, x, f.key, s'.(color := f.color, right := Blacken(s'.right))))
           else RotateRight(Node(Black, s'.(color := f.color, left := Blacken(s'.left)), f.key, x)),
           p[1..]))
  }

  /**
   * Taking out a node with at most one non-leaf child (the left one preferred):
   * a red node needs nothing more, a red child turns black, and otherwise the loop runs.
   */
  function Unlink(n: Tree, p: Path): (r: Result<Tree>)
    requires n.Node?
    ensures r.Err? ==> r.error == AttributeError
  {
    var child := Moved(if n.left != Nil then n.left else n.right);
    if n.color == Red then Ok(Plug(child, p))
    else if ColorOf(child) == Red then Ok(Plug(Blacken(child), p))
    else RemoveLoop(child, p)
  }

  /**
   * `remove(node)`: a node with two non-leaf children takes the value of the
   * rightmost node of its left subtree (`__max_left`), and that node is taken out.
   */
  function Remove(z: Zipper): (r: Result<Tree>)
    requires z.focus.Node?
    ensures r.Err? ==> r.error == AttributeError
  {
    var Node(c, l, k, rt) := z.focus;
    if l != Nil && rt != Nil then
      var m := ClrsNav.Maximum(Zip(l, []));
      Unlink(m.focus, m.path + [InLeft(c, m.focus.key, rt)] + z.path)
    else Unlink(z.focus, z.path)
  }

  /** The loop agrees with the CLRS fixup while the fixup's invariant holds. */
  lemma {:induction false} LoopAgrees(x: Tree, p: Path)
    requires ClrsDelete.DelInv(x, p)
    ensures RemoveLoop(x, p) == Ok(ClrsDelete.DeleteCase1(x, p))
    decreases |p|, 1
  {
    if p != [] {
      if ColorOf(p[0].sibling) == Red {
        ClrsDelete.Case2Inv(x, p);
        SettleAgrees(x, ClrsDelete.RedSiblingPath(p));
      } else {
        SettleAgrees(x, p);
      }
    }
  }

  lemma {:induction false} SettleAgrees(x: Tree, p: Path)
    requires p != [] && ClrsDelete.DelInv(x, p) && ColorOf(p[0].sibling) == Black
    ensures Settle(x, p) == Ok(ClrsDelete.DeleteCase3(x, p))
    decreases |p| - (if p[0].color == Red then 1 else 0), 0
  {
    var f := p[0];
    var s := f.sibling;
    assert Fits(f, BH(x) + 1) && s.Node?;
    if f.color == Black && ColorOf(s.left) == Black && ColorOf(s.right) == Black {
      ClrsDelete.Case3Inv(x, p);
      LoopAgrees(Attach(f.(sibling := Redden(s)), x), p[1..]);
    } else if f.color == Red && ColorOf(s.left) == Black && ColorOf(s.right) == Black {
    } else {
      assert ColorOf(s.left) == Red || ColorOf(s.right) == Red;
      assert ClrsDelete.DeleteCase3(x, p) == ClrsDelete.DeleteCase5(x, p);
      var s' :=
        if f.InRight? && ColorOf(s.left) == Black then RotateLeft(Node(Red, s.left, s.key, Blacken(s.right)))
        else if f.InLeft? && ColorOf(s.right) == Black then RotateRight(Node(Red, Blacken(s.left), s.key, s.right))
        else s;
      var p' := [f.(sibling := s')] + p[1..];
      assert p'[0] == f.(sibling := s') && p'[1..] == p[1..];
      if s' == s {
        assert ClrsDelete.DeleteCase5(x, p) == ClrsDelete.DeleteCase6(x, p);
      } else {
        assert ClrsDelete.DeleteCase5(x, p) == ClrsDelete.DeleteCase6(x, p');
      }
    }
  }

  /** In a red-black tree the child of a node with a leaf child has only leaves below it. */
  lemma MovedChild(n: Tree)
    requires n.Node? && Rb(n) && (n.left == Nil || n.right == Nil)
    ensures Moved(if n.left != Nil then n.left else n.right) == (if n.right == Nil then n.left else n.right)
  {
    var child := if n.right == Nil then n.left else n.right;
    assert BH(child) == 0;
    if child.Node? {
      assert child.color == Red;
      assert BH(child.left) == 0 && BH(child.right) == 0;
      assert ColorOf(child.left) == Black && ColorOf(child.right) == Black;
    }
  }

  /** A red node is unlinked by moving its child up; nothing else changes. */
  lemma UnlinkRed(n: Tree, p: Path, child: Tree)
    requires n.Node? && n.color == Red && Rb(n) && child == Moved(if n.left != Nil then n.left else n.right)
    requires Rb(child) && BH(child) == BH(n.left) && PathRb(p, BH(n), Red) && RootColor(n, p) == Black
    ensures Unlink(n, p) == Ok(Plug(child, p))
    ensures IsRedBlack(Plug(child, p))
    ensures Keys(Unlink(n, p).value) == Keys(Plug(child, p))
  {
    assert p != [];
    PathRbUnderBlack(p, BH(n), Red);
    RbPlug(child, p);
    RootColorPlug(child, p);
  }

  /** A black node with a red child: the child turns black and takes its place. */
  lemma UnlinkRedChild(n: Tree, p: Path, child: Tree)
    requires n.Node? && n.color == Black && child == Moved(if n.left != Nil then n.left else n.right)
    requires child.Node? && child.color == Red && Rb(child) && BH(child) == BH(n.left)
    requires PathRb(p, BH(n), Black) && RootColor(n, p) == Black
    ensures Unlink(n, p) == Ok(Plug(Blacken(child), p))
    ensures IsRedBlack(Plug(Blacken(child), p))
    ensures Keys(Unlink(n, p).value) == Keys(Plug(child, p))
  {
    PlugSameKeys(Blacken(child), child, p);
    var b := Blacken(child);
    assert Rb(b) && BH(b) == BH(n);
    RbPlug(b, p);
    RootColorPlug(b, p);
  }

  /** A black node with a black (leaf) child: the loop restores the black heights. */
  lemma UnlinkBlack(n: Tree, p: Path, child: Tree)
    requires n.Node? && n.color == Black && child == Moved(if n.left != Nil then n.left else n.right)
    requires ColorOf(child) == Black && Rb(child) && BH(child) == BH(n.left) && BH(child) == BH(n.right)
    requires PathRb(p, BH(n), Black) && RootColor(n, p) == Black
    ensures Unlink(n, p) == Ok(ClrsDelete.DeleteCase1(child, p))
    ensures IsRedBlack(ClrsDelete.DeleteCase1(child, p))
    ensures Keys(Unlink(n, p).value) == Keys(Plug(child, p))
  {
    ClrsDelete.Case1Keys(child, p);
    assert ClrsDelete.DelInv(child, p);
    LoopAgrees(child, p);
    ClrsDelete.Case1Rb(child, p);
    ClrsDelete.Case1Root(child, p);
  }

  /**
   * Taking out a node with at most one real child from a red-black tree never
   * raises, keeps it red-black and drops exactly the node's key.
   */
  lemma UnlinkCorrect(n: Tree, p: Path)
    requires n.Node? && (n.left == Nil || n.right == Nil)
    requires Rb(Plug(n, p)) && RootColor(n, p) == Black
    ensures Unlink(n, p).Ok?
    ensures IsRedBlack(Unlink(n, p).value)
    ensures Keys(Unlink(n, p).value) == Before(p) + Keys(n.left) + Keys(n.right) + After(p)
  {
    PlugRb(n, p);
    MovedChild(n);
    var child := if n.right == Nil then n.left else n.right;
    assert Rb(child) && BH(child) == BH(n.left) && BH(child) == BH(n.right);
    if n.color == Red {
      UnlinkRed(n, p, child);
    } else if ColorOf(child) == Red {
      UnlinkRedChild(n, p, child);
    } else {
      UnlinkBlack(n, p, child);
    }
    ClrsDelete.SpliceChildKeys(n, p, child);
  }

  /** The two-children case: the predecessor's node is the one taken out. */
  lemma RemoveTwoCorrect(z: Zipper)
    requires z.focus.Node? && z.focus.left != Nil && z.focus.right != Nil && IsRedBlack(TreeOf(z))
    ensures Remove(z).Ok? && IsRedBlack(Remove(z).value)
    ensures Keys(Remove(z).value) == Keys(ClrsDelete.DeleteNode(z))
  {
    var Node(c, l, k, r) := z.focus;
    var m := ClrsNav.Maximum(Zip(l, []));
    var f := InLeft(c, m.focus.key, r);
    var q := m.path + [f] + z.path;
    var n' := Node(c, l, m.focus.key, r);
    PlugAppend(m.focus, m.path, [f]);
    PlugAppend(m.focus, m.path + [f], z.path);
    assert Plug(m.focus, m.path + [f]) == n';
    assert Plug(m.focus, q) == Plug(n', z.path);
    ClrsDelete.RekeyRb(c, l, k, m.focus.key, r, z.path);
    RootColorPlug(m.focus, q);
    RootColorPlug(n', z.path);
    RootColorPlug(z.focus, z.path);
    UnlinkCorrect(m.focus, q);
    ClrsDelete.SpliceKeys(m.focus, q);
    assert ClrsDelete.DeleteNode(z) == ClrsDelete.RemoveNode(m.focus, q);
  }

  /**
   * `remove` on a red-black tree never raises, keeps it red-black, and drops
   * exactly the key at the node's in-order rank.
   */
  lemma RemoveCorrect(z: Zipper)
    requires z.focus.Node? && IsRedBlack(TreeOf(z))
    ensures Remove(z).Ok?
    ensures IsRedBlack(Remove(z).value)
    ensures Rank(z) < |Keys(TreeOf(z))|
    ensures Keys(Remove(z).value) == Without(Keys(TreeOf(z)), Rank(z))
  {
    if z.focus.left != Nil && z.focus.right != Nil {
      RemoveTwoCorrect(z);
      ClrsDelete.DeleteKeys(z);
    } else {
      RootColorPlug(z.focus, z.path);
      UnlinkCorrect(z.focus, z.path);
      PlugWithout(z.focus, z.path);
    }
  }

  // ---------------------------------------------------------------------
  // The in-order walk and verify

  /** What `verify` reads from one item of the walk. */
  datatype Visit =
    | LeafVisit(count: nat)                               // a leaf: 1 plus the black nodes above it
    | NodeVisit(color: Color, key: int, redChild: bool)   // a node, and whether a child of it is red

  /**
   * `__inorder`: every leaf and every node, in in-order order, leaves and nodes
   * alternating; `above` counts the black nodes above `t`.
   */
  function Inorder(t: Tree, above: nat): (vs: seq<Visit>)
    ensures |vs| == 2 * |Keys(t)| + 1
    ensures vs[0].LeafVisit?
  {
    match t
    case Nil => [LeafVisit(above + 1)]
    case Node(c, l, k, r) =>
      var a := above + (if c == Black then 1 else 0);
      Inorder(l, a) + [NodeVisit(c, k, ColorOf(l) == Red || ColorOf(r) == Red)] + Inorder(r, a)
  }

  /** The values of the nodes of a walk, in order. */
  function NodeKeys(vs: seq<Visit>): seq<int> {
    if vs == [] then []
    else (if vs[0].NodeVisit? then [vs[0].key] else []) + NodeKeys(vs[1..])
  }

  lemma {:induction false} NodeKeysAppend(a: seq<Visit>, b: seq<Visit>)
    ensures NodeKeys(a + b) == NodeKeys(a) + NodeKeys(b)
    decreases |a|
  {
    if a == [] {
      assert a + b == b;
    } else {
      var ab := a + b;
      assert ab[0] == a[0] && ab[1..] == a[1..] + b;
      NodeKeysAppend(a[1..], b);
      assert NodeKeys(ab) == (if a[0].NodeVisit? then [a[0].key] else []) + NodeKeys(a[1..] + b);
      assert NodeKeys(a) == (if a[0].NodeVisit? then [a[0].key] else []) + NodeKeys(a[1..]);
    }
  }

  /** Iterating over the tree (`__iter__`) yields the values in in-order order. */
  lemma {:induction false} InorderKeys(t: Tree, above: nat)
    ensures NodeKeys(Inorder(t, above)) == Keys(t)
  {
    match t
    case Nil =>
      assert NodeKeys([LeafVisit(above + 1)]) == [] + NodeKeys([]);
    case Node(c, l, k, r) =>
      var a := above + (if c == Black then 1 else 0);
      var v := NodeVisit(c, k, ColorOf(l) == Red || ColorOf(r) == Red);
      var vl, vr := Inorder(l, a), Inorder(r, a);
      assert Inorder(t, above) == vl + [v] + vr;
      InorderKeys(l, a);
      InorderKeys(r, a);
      NodeKeysAppend(vl + [v], vr);
      NodeKeysAppend(vl, [v]);
      assert [v][1..] == [];
      assert NodeKeys([v]) == [k];
  }

  /**
   * The loop of `verify` over the walk. `bcount` is the black count of the first
   * leaf once one has been seen; `result` turns false on a red node with a red
   * child or a leaf with another black count.
   */
  function CheckWalk(vs: seq<Visit>, bcount: Option<nat>, result: bool): bool {
    if vs == [] then result
    else
      match vs[0]
      case NodeVisit(c, _, redChild) => CheckWalk(vs[1..], bcount, result && !(c == Red && redChild))
      case LeafVisit(n) =>
        if bcount.None? then CheckWalk(vs[1..], Some(n), result)
        else CheckWalk(vs[1..], bcount, result && n == bcount.value)
  }

  /** `verify()`: the root is not red and the walk passes every check. */
  function Verify(t: Tree): bool {
    CheckWalk(Inorder(t, 0), None, ColorOf(t) != Red)
  }

  /** One item of the walk passes its checks against the black count `n`. */
  predicate VisitOk(v: Visit, n: nat) {
    match v
    case LeafVisit(k) => k == n
    case NodeVisit(c, _, redChild) => !(c == Red && redChild)
  }

  predicate AllOk(vs: seq<Visit>, n: nat) {
    forall i :: 0 <= i < |vs| ==> VisitOk(vs[i], n)
  }

  lemma AllOkAppend(a: seq<Visit>, b: seq<Visit>, n: nat)
    ensures AllOk(a + b, n) <==> AllOk(a, n) && AllOk(b, n)
  {
    if AllOk(a + b, n) {
      forall i | 0 <= i < |a|
        ensures VisitOk(a[i], n)
      {
        assert (a + b)[i] == a[i];
      }
      forall i | 0 <= i < |b|
        ensures VisitOk(b[i], n)
      {
        assert (a + b)[|a| + i] == b[i];
      }
    }
    if AllOk(a, n) && AllOk(b, n) {
      forall i | 0 <= i < |a + b|
        ensures VisitOk((a + b)[i], n)
      {
        if i < |a| {
          assert (a + b)[i] == a[i];
        } else {
          assert (a + b)[i] == b[i - |a|];
        }
      }
    }
  }

  /** Once a black count is fixed, the loop checks every item against it. */
  lemma {:induction false} CheckWalkFixed(vs: seq<Visit>, n: nat, result: bool)
    ensures CheckWalk(vs, Some(n), result) == (result && AllOk(vs, n))
    decreases |vs|
  {
    if vs != [] {
      CheckWalkFixed(vs[1..], n, result && VisitOk(vs[0], n));
      assert vs == [vs[0]] + vs[1..];
      AllOkAppend([vs[0]], vs[1..], n);
    }
  }

  /**
   * The walk of a subtree passes against `n` exactly when the subtree satisfies
   * the red and black-height properties and `n` is the black count of its leaves.
   */
  lemma {:induction false} InorderOk(t: Tree, above: nat, n: nat)
    ensures AllOk(Inorder(t, above), n) <==> Rb(t) && n == above + BH(t) + 1
  {
    match t
    case Nil =>
      assert Inorder(t, above)[0] == LeafVisit(above + 1);
    case Node(c, l, k, r) =>
      var a := above + (if c == Black then 1 else 0);
      var v := NodeVisit(c, k, ColorOf(l) == Red || ColorOf(r) == Red);
      InorderOk(l, a, n);
      InorderOk(r, a, n);
      AllOkAppend(Inorder(l, a) + [v], Inorder(r, a), n);
      AllOkAppend(Inorder(l, a), [v], n);
      assert [v][0] == v;
  }

  /** `verify` accepts exactly the red-black trees. */
  lemma VerifyCorrect(t: Tree)
    ensures Verify(t) <==> IsRedBlack(t)
  {
    var vs := Inorder(t, 0);
    var n := vs[0].count;
    var r := ColorOf(t) != Red;
    assert CheckWalk(vs, None, r) == CheckWalk(vs[1..], Some(n), r);
    CheckWalkFixed(vs[1..], n, r);
    assert vs == [vs[0]] + vs[1..];
    AllOkAppend([vs[0]], vs[1..], n);
    assert AllOk([vs[0]], n);
    InorderOk(t, 0, n);
    InorderOk(t, 0, BH(t) + 1);
  }
}
