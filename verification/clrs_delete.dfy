/**
 * Deletion from the CLRS tree (Median/main2.py `delete_node`, `_replaceNode`,
 * `_deleteCase1`..`_deleteCase6`, `_sibling`), with the colour tests the cases
 * describe (see README, Findings). `x` is the subtree that took the removed
 * node's place and `p` its ancestors; every path through `x` is one black node
 * short.
 */
module ClrsDelete {
  import opened SortedSeq
  import opened RbCore
  import opened RbZipper
  import opened ZipperSplit
  import opened Outcomes
  import ClrsNav

  /** Case 1: at the root the shortage is shared by every path, so nothing is violated. */
  function DeleteCase1(x: Tree, p: Path): Tree
    decreases |p|, 3
  {
    if p == [] then x else DeleteCase2(x, p)
  }

  /**
   * Case 2: a red sibling trades colours with the parent and a rotation at the
   * parent makes it the grandparent; `x` then has a black sibling.
   */
  function DeleteCase2(x: Tree, p: Path): Tree
    requires p != []
    decreases |p|, 2
  {
    if ColorOf(p[0].sibling) == Red then DeleteCase3(x, RedSiblingPath(p)) else DeleteCase3(x, p)
  }

  /**
   * The path after case 2's recolouring and rotation at the parent: the old
   * parent, now red, is the new parent, with the sibling's near child as the
   * new sibling; the old sibling, now black, is above it.
   */
  function RedSiblingPath(p: Path): (p': Path)
    requires p != [] && p[0].sibling.Node?
    ensures |p'| == |p| + 1 && p'[0].color == Red && p'[1].color == Black && p'[2..] == p[1..]
  {
    var f := p[0];
    var s := f.sibling;
    if f.InLeft? then [InLeft(Red, f.key, s.left), InLeft(Black, s.key, s.right)] + p[1..]
    else [InRight(Red, s.right, f.key), InRight(Black, s.left, s.key)] + p[1..]
  }

  /**
   * Case 3: parent, sibling and the sibling's children all black: the sibling
   * turns red and the parent's subtree is now one black short; repeat from it.
   */
  function DeleteCase3(x: Tree, p: Path): Tree
    requires p != []
    decreases |p| - (if p[0].color == Red then 1 else 0), 1
  {
    var f := p[0];
    var s := f.sibling;
    if f.color == Black && ColorOf(s) == Black && ColorOf(LeftOf(s)) == Black && ColorOf(RightOf(s)) == Black then
      DeleteCase1(Attach(f.(sibling := Redden(s)), x), p[1..])
    else DeleteCase4(x, p)
  }

  /** Case 4: red parent, black sibling with black children: swap the two colours. */
  function DeleteCase4(x: Tree, p: Path): Tree
    requires p != []
  {
    var f := p[0];
    var s := f.sibling;
    if f.color == Red && ColorOf(s) == Black && ColorOf(LeftOf(s)) == Black && ColorOf(RightOf(s)) == Black then
      Plug(Attach(f.(color := Black, sibling := Redden(s)), x), p[1..])
    else DeleteCase5(x, p)
  }

  /**
   * Case 5: black sibling whose near child is red and far child black: a rotation
   * at the sibling moves the red child to the far side.
   */
  function DeleteCase5(x: Tree, p: Path): Tree
    requires p != []
  {
    var f := p[0];
    var s := f.sibling;
    if f.InLeft? && ColorOf(s) == Black && ColorOf(LeftOf(s)) == Red && ColorOf(RightOf(s)) == Black then
      DeleteCase6(x, [f.(sibling := RotateRight(Node(Red, Blacken(s.left), s.key, s.right)))] + p[1..])
    else if f.InRight? && ColorOf(s) == Black && ColorOf(RightOf(s)) == Red && ColorOf(LeftOf(s)) == Black then
      DeleteCase6(x, [f.(sibling := RotateLeft(Node(Red, s.left, s.key, Blacken(s.right))))] + p[1..])
    else DeleteCase6(x, p)
  }

  /**
   * Case 6: black sibling with a red far child: the sibling takes the parent's
   * colour, parent and far child turn black, and a rotation at the parent ends it.
   */
  function DeleteCase6(x: Tree, p: Path): Tree
    requires p != []
  {
    var f := p[0];
    var s := f.sibling;
    // A sentinel sibling would make the source fail its assertion; a red-black tree never has one here.
    if s.Nil? then Plug(Attach(f, x), p[1..])
    else if f.InLeft? then
      Plug(RotateLeft(Node(Black, x, f.key, s.(color := f.color, right := Blacken(s.right)))), p[1..])
    else
      Plug(RotateRight(Node(Black, s.(color := f.color, left := Blacken(s.left)), f.key, x)), p[1..])
  }

  /**
   * Unlinking a node with at most one real child (`_replaceNode(n, child)`); a
   * black node is fixed up from its child's slot, and the root is painted black.
   */
  function RemoveNode(n: Tree, p: Path): Tree
    requires n.Node?
  {
    var child := if n.right == Nil then n.left else n.right;
    Blacken(if n.color == Black then DeleteCase1(child, p) else Plug(child, p))
  }

  /**
   * `delete_node(n)`: a node with two real children takes its in-order
   * predecessor's key, and the predecessor node is the one removed.
   */
  function DeleteNode(z: Zipper): Tree
    requires z.focus.Node?
  {
    var Node(c, l, k, r) := z.focus;
    if l != Nil && r != Nil then
      var m := ClrsNav.Maximum(Zip(l, []));
      RemoveNode(m.focus, m.path + [InLeft(c, m.focus.key, r)] + z.path)
    else RemoveNode(z.focus, z.path)
  }

  // ---------------------------------------------------------------------
  // In-order keys

  lemma PlugTwoFrames(x: Tree, a: Frame, b: Frame, p: Path)
    ensures Plug(x, [a, b] + p) == Plug(Attach(b, Attach(a, x)), p)
  {
    assert ([a, b] + p)[1..] == [b] + p;
    assert ([b] + p)[1..] == p;
  }

  lemma PlugOneFrame(x: Tree, a: Frame, p: Path)
    ensures Plug(x, [a] + p) == Plug(Attach(a, x), p)
  {
    assert ([a] + p)[1..] == p;
  }

  /** The fixup cases recolour and rotate, never adding or dropping a key. */
  lemma {:induction false} Case1Keys(x: Tree, p: Path)
    ensures Keys(DeleteCase1(x, p)) == Keys(Plug(x, p))
    decreases |p|, 3
  {
    if p != [] {
      Case2Keys(x, p);
    }
  }

  lemma {:induction false} Case2Keys(x: Tree, p: Path)
    requires p != []
    ensures Keys(DeleteCase2(x, p)) == Keys(Plug(x, p))
    decreases |p|, 2
  {
    if ColorOf(p[0].sibling) == Red {
      RedSiblingKeys(x, p);
      Case3Keys(x, RedSiblingPath(p));
    } else {
      Case3Keys(x, p);
    }
  }

  /** The rotation of case 2 keeps the in-order keys. */
  lemma RedSiblingKeys(x: Tree, p: Path)
    requires p != [] && p[0].sibling.Node?
    ensures Keys(Plug(x, RedSiblingPath(p))) == Keys(Plug(x, p))
  {
    var f := p[0];
    var s := f.sibling;
    var a := if f.InLeft? then InLeft(Red, f.key, s.left) else InRight(Red, s.right, f.key);
    var b := if f.InLeft? then InLeft(Black, s.key, s.right) else InRight(Black, s.left, s.key);
    assert RedSiblingPath(p) == [a, b] + p[1..];
    PlugTwoFrames(x, a, b, p[1..]);
    PlugOneFrame(x, f, p[1..]);
    assert p == [f] + p[1..];
    PlugSameKeys(Attach(b, Attach(a, x)), Attach(f, x), p[1..]);
  }

  lemma {:induction false} Case3Keys(x: Tree, p: Path)
    requires p != []
    ensures Keys(DeleteCase3(x, p)) == Keys(Plug(x, p))
    decreases |p| - (if p[0].color == Red then 1 else 0), 1
  {
    var f := p[0];
    var s := f.sibling;
    if f.color == Black && ColorOf(s) == Black && ColorOf(LeftOf(s)) == Black && ColorOf(RightOf(s)) == Black {
      var x' := Attach(f.(sibling := Redden(s)), x);
      Case1Keys(x', p[1..]);
      PlugSameKeys(x', Attach(f, x), p[1..]);
    } else {
      Case4Keys(x, p);
    }
  }

  lemma Case4Keys(x: Tree, p: Path)
    requires p != []
    ensures Keys(DeleteCase4(x, p)) == Keys(Plug(x, p))
  {
    var f := p[0];
    var s := f.sibling;
    PlugSameKeys(Attach(f.(color := Black, sibling := Redden(s)), x), Attach(f, x), p[1..]);
    Case5Keys(x, p);
  }

  lemma Case5Keys(x: Tree, p: Path)
    requires p != []
    ensures Keys(DeleteCase5(x, p)) == Keys(Plug(x, p))
  {
    var f := p[0];
    var s := f.sibling;
    if f.InLeft? && ColorOf(s) == Black && ColorOf(LeftOf(s)) == Red && ColorOf(RightOf(s)) == Black {
      var f' := f.(sibling := RotateRight(Node(Red, Blacken(s.left), s.key, s.right)));
      Case6Keys(x, [f'] + p[1..]);
      PlugOneFrame(x, f', p[1..]);
      PlugSameKeys(Attach(f', x), Attach(f, x), p[1..]);
    } else if f.InRight? && ColorOf(s) == Black && ColorOf(RightOf(s)) == Red && ColorOf(LeftOf(s)) == Black {
      var f' := f.(sibling := RotateLeft(Node(Red, s.left, s.key, Blacken(s.right))));
      Case6Keys(x, [f'] + p[1..]);
      PlugOneFrame(x, f', p[1..]);
      PlugSameKeys(Attach(f', x), Attach(f, x), p[1..]);
    } else {
      Case6Keys(x, p);
    }
  }

  lemma Case6Keys(x: Tree, p: Path)
    requires p != []
    ensures Keys(DeleteCase6(x, p)) == Keys(Plug(x, p))
  {
    var f := p[0];
    var s := f.sibling;
    if s.Nil? {
    } else if f.InLeft? {
      PlugSameKeys(RotateLeft(Node(Black, x, f.key, s.(color := f.color, right := Blacken(s.right)))), Attach(f, x), p[1..]);
    } else {
      PlugSameKeys(RotateRight(Node(Black, s.(color := f.color, left := Blacken(s.left)), f.key, x)), Attach(f, x), p[1..]);
    }
  }

  lemma SpliceKeys(n: Tree, p: Path)
    requires n.Node? && (n.left == Nil || n.right == Nil)
    ensures Keys(RemoveNode(n, p)) == Before(p) + Keys(n.left) + Keys(n.right) + After(p)
  {
    var child := if n.right == Nil then n.left else n.right;
    SpliceChildKeys(n, p, child);
    if n.color == Black {
      assert RemoveNode(n, p) == Blacken(DeleteCase1(child, p));
      Case1Keys(child, p);
    } else {
      assert RemoveNode(n, p) == Blacken(Plug(child, p));
    }
  }

  /** The keys of a tree whose node `n` was replaced by its only child. */
  lemma SpliceChildKeys(n: Tree, p: Path, child: Tree)
    requires n.Node? && child == (if n.right == Nil then n.left else n.right)
    requires n.left == Nil || n.right == Nil
    ensures Keys(Plug(child, p)) == Before(p) + Keys(n.left) + Keys(n.right) + After(p)
  {
    PlugKeys(child, p);
    assert Keys(child) == Keys(n.left) + Keys(n.right);
  }

  lemma RemoveNodeKeys(n: Tree, p: Path)
    requires n.Node? && (n.left == Nil || n.right == Nil)
    ensures Rank(Zip(n, p)) < |Keys(Plug(n, p))|
    ensures Keys(RemoveNode(n, p)) == Without(Keys(Plug(n, p)), Rank(Zip(n, p)))
  {
    SpliceKeys(n, p);
    PlugWithout(n, p);
  }

  /** The in-order predecessor found by `maximum` on the left subtree comes last in it. */
  lemma MaximumKeys(l: Tree)
    requires l.Node?
    ensures var m := ClrsNav.Maximum(Zip(l, []));
      Keys(l) == Before(m.path) + Keys(m.focus.left) + [m.focus.key]
  {
    var m := ClrsNav.Maximum(Zip(l, []));
    PlugKeys(m.focus, m.path);
    assert |After(m.path)| == 0;
  }

  /** The sequence algebra of replacing a two-child node by its predecessor. */
  lemma PredecessorSplice(bp: seq<int>, bm: seq<int>, ml: seq<int>, mk: int, rk: seq<int>, ap: seq<int>, l: seq<int>)
    requires l == bm + ml + [mk]
    ensures (bp + bm) + ml + [] + ([mk] + rk + ap) == bp + l + rk + ap
  {
  }

  /** Splicing out the predecessor instead of a two-child node leaves the same keys. */
  lemma DeleteTwoKeys(z: Zipper)
    requires z.focus.Node? && z.focus.left != Nil && z.focus.right != Nil
    ensures Keys(DeleteNode(z)) == Before(z.path) + Keys(z.focus.left) + Keys(z.focus.right) + After(z.path)
  {
    var Node(c, l, k, r) := z.focus;
    var m := ClrsNav.Maximum(Zip(l, []));
    var q := m.path + [InLeft(c, m.focus.key, r)] + z.path;
    var lk := Keys(m.focus.left);
    assert Keys(DeleteNode(z)) == Before(q) + lk + [] + After(q) by {
      assert DeleteNode(z) == RemoveNode(m.focus, q);
      SpliceKeys(m.focus, q);
    }
    assert Before(q) == Before(z.path) + Before(m.path) by {
      BeforeAfterLeftTurn(m.path, c, m.focus.key, r, z.path);
    }
    assert After(q) == [m.focus.key] + Keys(r) + After(z.path) by {
      BeforeAfterLeftTurn(m.path, c, m.focus.key, r, z.path);
      PlugKeys(m.focus, m.path);
      assert After(m.path) == [];
    }
    assert Keys(l) == Before(m.path) + lk + [m.focus.key] by {
      MaximumKeys(l);
    }
    PredecessorSplice(Before(z.path), Before(m.path), lk, m.focus.key, Keys(r), After(z.path), Keys(l));
  }

  /** `delete_node` removes exactly the key at the node's in-order rank. */
  lemma DeleteKeys(z: Zipper)
    requires z.focus.Node?
    ensures Rank(z) < |Keys(TreeOf(z))|
    ensures Keys(DeleteNode(z)) == Without(Keys(TreeOf(z)), Rank(z))
  {
    PlugWithout(z.focus, z.path);
    if z.focus.left != Nil && z.focus.right != Nil {
      DeleteTwoKeys(z);
    } else {
      SpliceKeys(z.focus, z.path);
    }
  }

  // ---------------------------------------------------------------------
  // Node objects

  /**
   * The node object `delete_node` unlinks, named by its in-order rank before
   * the deletion: with two real children it is the predecessor, whose key the
   * node takes over (main2.py:277-280); otherwise it is the node itself.
   */
  function UnlinkedRank(z: Zipper): nat
    requires z.focus.Node?
  {
    if z.focus.left != Nil && z.focus.right != Nil then Rank(z) - 1 else Rank(z)
  }

  /** The key node object `o` (its rank before the deletion) holds after `delete_node`. */
  function KeyAfter(z: Zipper, o: nat): int
    requires z.focus.Node? && o < |Keys(TreeOf(z))|
  {
    if o == Rank(z) && o != UnlinkedRank(z) then Keys(TreeOf(z))[o - 1] else Keys(TreeOf(z))[o]
  }

  /**
   * Recolouring and rotating keep the in-order order of the node objects, so
   * after `delete_node` the in-order keys are those held by every object but
   * the unlinked one, in their old order.
   */
  lemma DeleteObjects(z: Zipper)
    requires z.focus.Node?
    ensures UnlinkedRank(z) < |Keys(TreeOf(z))|
    ensures |Keys(DeleteNode(z))| + 1 == |Keys(TreeOf(z))|
    ensures forall i :: 0 <= i < |Keys(DeleteNode(z))| ==>
              Keys(DeleteNode(z))[i] == KeyAfter(z, if i < UnlinkedRank(z) then i else i + 1)
  {
    DeleteKeys(z);
    WithoutIndex(Keys(TreeOf(z)), Rank(z));
  }

  // ---------------------------------------------------------------------
  // The colour of the root

  /** No fixup case paints the root red, whatever the state of the tree. */
  lemma {:induction false} Case1Root(x: Tree, p: Path)
    requires RootColor(x, p) == Black
    ensures ColorOf(DeleteCase1(x, p)) == Black
    decreases |p|, 3
  {
    if p != [] {
      if ColorOf(p[0].sibling) == Red {
        var p' := RedSiblingPath(p);
        assert p'[|p'| - 1] == if |p| == 1 then p'[1] else p[|p| - 1] by {
          if |p| > 1 {
            assert p'[|p'| - 1] == p'[2..][|p| - 2] == p[1..][|p| - 2];
          }
        }
        Case3Root(x, p');
      } else {
        Case3Root(x, p);
      }
    }
  }

  lemma {:induction false} Case3Root(x: Tree, p: Path)
    requires p != [] && RootColor(x, p) == Black
    ensures ColorOf(DeleteCase3(x, p)) == Black
    decreases |p| - (if p[0].color == Red then 1 else 0), 1
  {
    var f := p[0];
    var s := f.sibling;
    if f.color == Black && ColorOf(s) == Black && ColorOf(LeftOf(s)) == Black && ColorOf(RightOf(s)) == Black {
      var x' := Attach(f.(sibling := Redden(s)), x);
      assert RootColor(x', p[1..]) == Black by {
        if |p| > 1 {
          assert p[1..][|p| - 2] == p[|p| - 1];
        }
      }
      Case1Root(x', p[1..]);
    } else {
      Case4Root(x, p);
    }
  }

  lemma Case4Root(x: Tree, p: Path)
    requires p != [] && RootColor(x, p) == Black
    ensures ColorOf(DeleteCase4(x, p)) == Black
  {
    var f := p[0];
    var s := f.sibling;
    assert |p| > 1 ==> p[1..][|p| - 2] == p[|p| - 1];
    if f.color == Red && ColorOf(s) == Black && ColorOf(LeftOf(s)) == Black && ColorOf(RightOf(s)) == Black {
      RootColorPlug(Attach(f.(color := Black, sibling := Redden(s)), x), p[1..]);
    } else {
      var f' :=
        if f.InLeft? && ColorOf(s) == Black && ColorOf(LeftOf(s)) == Red && ColorOf(RightOf(s)) == Black then
          f.(sibling := RotateRight(Node(Red, Blacken(s.left), s.key, s.right)))
        else if f.InRight? && ColorOf(s) == Black && ColorOf(RightOf(s)) == Red && ColorOf(LeftOf(s)) == Black then
          f.(sibling := RotateLeft(Node(Red, s.left, s.key, Blacken(s.right))))
        else f;
      var p' := [f'] + p[1..];
      assert DeleteCase5(x, p) == DeleteCase6(x, p');
      assert p'[1..] == p[1..];
      Case6Root(x, p');
    }
  }

  lemma Case6Root(x: Tree, p: Path)
    requires p != [] && RootColor(x, p) == Black
    ensures ColorOf(DeleteCase6(x, p)) == Black
  {
    var f := p[0];
    var s := f.sibling;
    assert |p| > 1 ==> p[1..][|p| - 2] == p[|p| - 1];
    var t :=
      if s.Nil? then Attach(f, x)
      else if f.InLeft? then RotateLeft(Node(Black, x, f.key, s.(color := f.color, right := Blacken(s.right))))
      else RotateRight(Node(Black, s.(color := f.color, left := Blacken(s.left)), f.key, x));
    assert ColorOf(t) == f.color;
    RootColorPlug(t, p[1..]);
  }

  // ---------------------------------------------------------------------
  // Red-black properties

  /**
   * The fixup's invariant: `x` is a red-black subtree one black node short of
   * its sibling, and the path above it is red-black except that `x` may be red
   * under a red parent.
   */
  predicate DelInv(x: Tree, p: Path) {
    Rb(x) && PathRbLoose(p, BH(x) + 1)
  }

  /** Painting a black node with black children red takes one black level off its paths. */
  lemma ReddenBlack(s: Tree)
    requires s.Node? && s.color == Black && Rb(s)
    requires ColorOf(s.left) == Black && ColorOf(s.right) == Black
    ensures Rb(Redden(s)) && ColorOf(Redden(s)) == Red && BH(Redden(s)) + 1 == BH(s)
  {
    assert Redden(s) == Node(Red, s.left, s.key, s.right);
  }

  lemma {:induction false} Case1Rb(x: Tree, p: Path)
    requires DelInv(x, p)
    ensures Rb(DeleteCase1(x, p))
    decreases |p|, 3
  {
    if p != [] {
      Case2Rb(x, p);
    }
  }

  /** Case 2 keeps the invariant and leaves `x` a black sibling. */
  lemma Case2Inv(x: Tree, p: Path)
    requires p != [] && DelInv(x, p) && ColorOf(p[0].sibling) == Red
    ensures p[0].sibling.Node?
    ensures DelInv(x, RedSiblingPath(p)) && ColorOf(RedSiblingPath(p)[0].sibling) == Black
  {
    var f := p[0];
    var h := BH(x) + 1;
    var p' := RedSiblingPath(p);
    assert Fits(f, h) && f.color == Black;
    assert p'[1..][1..] == p[1..];
    assert PathRb(p'[1..], h, Red);
  }

  /** Case 3 moves the shortage up: the parent's recoloured subtree is one black short. */
  lemma Case3Inv(x: Tree, p: Path)
    requires p != [] && DelInv(x, p) && p[0].color == Black
    requires ColorOf(p[0].sibling) == Black && ColorOf(LeftOf(p[0].sibling)) == Black && ColorOf(RightOf(p[0].sibling)) == Black
    ensures DelInv(Attach(p[0].(sibling := Redden(p[0].sibling)), x), p[1..])
  {
    var f := p[0];
    var s := f.sibling;
    var h := BH(x) + 1;
    assert Fits(f, h) && s.Node? && BH(s.left) == BH(x) && BH(s.right) == BH(x);
    var x' := Attach(f.(sibling := Redden(s)), x);
    ReddenBlack(s);
    assert x' == Node(Black, x, f.key, Redden(s)) || x' == Node(Black, Redden(s), f.key, x);
  }

  lemma {:induction false} Case2Rb(x: Tree, p: Path)
    requires p != [] && DelInv(x, p)
    ensures Rb(DeleteCase2(x, p))
    decreases |p|, 2
  {
    if ColorOf(p[0].sibling) == Red {
      Case2Inv(x, p);
      Case3Rb(x, RedSiblingPath(p));
    } else {
      Case3Rb(x, p);
    }
  }

  lemma {:induction false} Case3Rb(x: Tree, p: Path)
    requires p != [] && DelInv(x, p) && ColorOf(p[0].sibling) == Black
    ensures Rb(DeleteCase3(x, p))
    decreases |p| - (if p[0].color == Red then 1 else 0), 1
  {
    var f := p[0];
    var s := f.sibling;
    if f.color == Black && ColorOf(LeftOf(s)) == Black && ColorOf(RightOf(s)) == Black {
      Case3Inv(x, p);
      Case1Rb(Attach(f.(sibling := Redden(s)), x), p[1..]);
    } else {
      Case4Rb(x, p);
    }
  }

  lemma Case4Rb(x: Tree, p: Path)
    requires p != [] && DelInv(x, p) && ColorOf(p[0].sibling) == Black
    requires !(p[0].color == Black && ColorOf(LeftOf(p[0].sibling)) == Black && ColorOf(RightOf(p[0].sibling)) == Black)
    ensures Rb(DeleteCase4(x, p))
  {
    var f := p[0];
    var s := f.sibling;
    var h := BH(x) + 1;
    assert Fits(f, h) && s.Node? && BH(s.left) == BH(x) && BH(s.right) == BH(x);
    if f.color == Red && ColorOf(LeftOf(s)) == Black && ColorOf(RightOf(s)) == Black {
      var t := Attach(f.(color := Black, sibling := Redden(s)), x);
      ReddenBlack(s);
      assert t == Node(Black, x, f.key, Redden(s)) || t == Node(Black, Redden(s), f.key, x);
      PathRbUnderBlack(p[1..], h, Red);
      RbPlug(t, p[1..]);
    } else {
      Case5Rb(x, p);
    }
  }

  lemma Case5Rb(x: Tree, p: Path)
    requires p != [] && DelInv(x, p) && ColorOf(p[0].sibling) == Black
    requires ColorOf(LeftOf(p[0].sibling)) == Red || ColorOf(RightOf(p[0].sibling)) == Red
    ensures Rb(DeleteCase5(x, p))
  {
    var f := p[0];
    var s := f.sibling;
    var h := BH(x) + 1;
    assert Fits(f, h) && s.Node? && BH(s.left) == BH(x) && BH(s.right) == BH(x);
    if f.InLeft? && ColorOf(LeftOf(s)) == Red && ColorOf(RightOf(s)) == Black {
      var Node(_, Node(_, a, lk, b), sk, sr) := s;
      var s' := RotateRight(Node(Red, Blacken(s.left), s.key, s.right));
      assert s' == Node(Black, a, lk, Node(Red, b, sk, sr));
      assert Rb(s.left) && s.left == Node(Red, a, lk, b);
      assert Rb(a) && Rb(b) && Rb(sr) && BH(a) == BH(x) && BH(b) == BH(x) && ColorOf(b) == Black;
      assert Rb(Node(Red, b, sk, sr));
      assert Rb(s') && BH(s') == h;
      var p' := [f.(sibling := s')] + p[1..];
      assert p'[1..] == p[1..];
      assert Fits(p'[0], h);
      assert DelInv(x, p');
      Case6Rb(x, p');
    } else if f.InRight? && ColorOf(RightOf(s)) == Red && ColorOf(LeftOf(s)) == Black {
      var Node(_, sl, sk, Node(_, a, rk, b)) := s;
      var s' := RotateLeft(Node(Red, s.left, s.key, Blacken(s.right)));
      assert s' == Node(Black, Node(Red, sl, sk, a), rk, b);
      assert Rb(s.right) && s.right == Node(Red, a, rk, b);
      assert Rb(a) && Rb(b) && Rb(sl) && BH(a) == BH(x) && BH(b) == BH(x) && ColorOf(a) == Black;
      assert Rb(Node(Red, sl, sk, a));
      assert Rb(s') && BH(s') == h;
      var p' := [f.(sibling := s')] + p[1..];
      assert p'[1..] == p[1..];
      assert Fits(p'[0], h);
      assert DelInv(x, p');
      Case6Rb(x, p');
    } else {
      Case6Rb(x, p);
    }
  }

  lemma Case6Rb(x: Tree, p: Path)
    requires p != [] && DelInv(x, p) && ColorOf(p[0].sibling) == Black
    requires ColorOf(if p[0].InLeft? then RightOf(p[0].sibling) else LeftOf(p[0].sibling)) == Red
    ensures Rb(DeleteCase6(x, p))
  {
    var f := p[0];
    var h := BH(x) + 1;
    assert Fits(f, h) && f.sibling.Node?;
    var Node(_, sl, sk, sr) := f.sibling;
    assert BH(sl) == BH(x) && BH(sr) == BH(x);
    var t :=
      if f.InLeft? then Node(f.color, Node(Black, x, f.key, sl), sk, Blacken(sr))
      else Node(f.color, Blacken(sl), sk, Node(Black, sr, f.key, x));
    assert DeleteCase6(x, p) == Plug(t, p[1..]);
    assert Rb(sl) && Rb(sr) && Rb(Blacken(sl)) && Rb(Blacken(sr));
    if f.InLeft? {
      assert BH(Blacken(sr)) == h && Rb(Node(Black, x, f.key, sl));
    } else {
      assert BH(Blacken(sl)) == h && Rb(Node(Black, sr, f.key, x));
    }
    assert Rb(t) && BH(t) == Above(f, h);
    RbPlug(t, p[1..]);
  }

  /** Unlinking a node with at most one real child from a red-black tree leaves a red-black tree. */
  lemma RemoveNodeRb(n: Tree, p: Path)
    requires n.Node? && (n.left == Nil || n.right == Nil) && Rb(Plug(n, p))
    ensures IsRedBlack(RemoveNode(n, p))
  {
    PlugRb(n, p);
    var child := if n.right == Nil then n.left else n.right;
    assert Rb(child) && BH(child) == BH(n.left) && BH(child) == BH(n.right);
    if n.color == Black {
      assert DelInv(child, p);
      Case1Rb(child, p);
    } else {
      PathRbUnderBlack(p, BH(n), Red);
      RbPlug(child, p);
    }
  }

  /** Rb depends on the shape and colours only, not on the key stored at a node. */
  lemma RekeyRb(c: Color, l: Tree, k: int, k': int, r: Tree, p: Path)
    requires Rb(Plug(Node(c, l, k, r), p))
    ensures Rb(Plug(Node(c, l, k', r), p))
  {
    PlugRb(Node(c, l, k, r), p);
    RbPlug(Node(c, l, k', r), p);
  }

  /** `delete_node` keeps a red-black tree red-black, with a black root. */
  lemma DeleteRedBlack(z: Zipper)
    requires z.focus.Node? && Rb(TreeOf(z))
    ensures IsRedBlack(DeleteNode(z))
  {
    var Node(c, l, k, r) := z.focus;
    if l != Nil && r != Nil {
      var m := ClrsNav.Maximum(Zip(l, []));
      var f := InLeft(c, m.focus.key, r);
      PlugAppend(m.focus, m.path, [f]);
      PlugAppend(m.focus, m.path + [f], z.path);
      assert Plug(m.focus, m.path + [f]) == Node(c, l, m.focus.key, r);
      RekeyRb(c, l, k, m.focus.key, r, z.path);
      RemoveNodeRb(m.focus, m.path + [f] + z.path);
    } else {
      RemoveNodeRb(z.focus, z.path);
    }
  }

  /** `delete_key`: `None` (the source's `False`) when the search finds no node with the key. */
  function DeleteKey(t: Tree, k: int): (r: Option<Tree>)
    ensures Sorted(Keys(t)) ==> (r.None? <==> k !in Keys(t))
  {
    match ClrsNav.Search(t, k)
    case None => None
    case Some(z) => Some(DeleteNode(z))
  }

  /** Deleting a present key from a red-black search tree removes one copy of it and nothing else. */
  lemma DeleteKeyCorrect(t: Tree, k: int)
    requires IsRedBlack(t) && Sorted(Keys(t)) && k in Keys(t)
    ensures DeleteKey(t, k).Some?
    ensures IsRedBlack(DeleteKey(t, k).value)
    ensures Sorted(Keys(DeleteKey(t, k).value))
    ensures multiset(Keys(DeleteKey(t, k).value)) == multiset(Keys(t)) - multiset{k}
  {
    var z := ClrsNav.Search(t, k).value;
    DeleteKeys(z);
    DeleteRedBlack(z);
    KeyAtRank(z);
    WithoutSorted(Keys(t), Rank(z));
    WithoutMultiset(Keys(t), Rank(z));
  }
}
