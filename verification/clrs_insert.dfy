/** Insertion into the CLRS red-black tree (Median/main2.py `insert_node`, `_insert_fixup`). */
module ClrsInsert {
  import opened SortedSeq
  import opened RbCore
  import opened RbZipper

  /**
   * The descent of `insert_node`: smaller keys go left, equal and larger keys go
   * right. The result is the path from the sentinel slot the new node takes up to
   * the root.
   */
  function Descend(t: Tree, k: int): Path {
    match t
    case Nil => []
    case Node(c, l, x, r) =>
      if k < x then Descend(l, k) + [InLeft(c, x, r)] else Descend(r, k) + [InRight(c, l, x)]
  }

  /** In-order position of a newly inserted key. */
  function InsertRank(t: Tree, k: int): nat {
    |Before(Descend(t, k))|
  }

  /**
   * `_insert_fixup`, one loop iteration per call: `z` is the subtree rooted at the
   * current (red) node, `p` its ancestors. The loop runs while `z`'s parent is red.
   */
  function InsertFixup(z: Tree, p: Path): Tree
    requires z.Node?
    decreases |p|
  {
    if p == [] || p[0].color == Black then Plug(z, p)
    // A red parent without a grandparent is a red root, which a red-black tree never has.
    else if |p| == 1 then Plug(z, p)
    else
      var par := p[0];
      var g := p[1];
      var u := g.sibling;  // the uncle
      if ColorOf(u) == Red then
        // case 1: parent and uncle turn black, the grandparent red; continue from it
        InsertFixup(Case1(z, par, g), p[2..])
      else
        // cases 2 and 3: rotations at the parent and the grandparent end the loop
        Plug(Case23(z, par, g), p[2..])
  }

  /** `insert_node` followed by `_insert_fixup`, which ends by painting the root black. */
  function Insert(t: Tree, k: int): Tree {
    Blacken(InsertFixup(Node(Red, Nil, k, Nil), Descend(t, k)))
  }

  // ---------------------------------------------------------------------

  lemma {:induction false} DescendFacts(t: Tree, k: int)
    ensures Plug(Nil, Descend(t, k)) == t
    ensures Sorted(Keys(t)) ==>
              (forall y :: y in Before(Descend(t, k)) ==> y <= k) &&
              (forall y :: y in After(Descend(t, k)) ==> k < y)
  {
    match t
    case Nil =>
    case Node(c, l, x, r) =>
      var f := if k < x then InLeft(c, x, r) else InRight(c, l, x);
      var sub := if k < x then l else r;
      DescendFacts(sub, k);
      PlugAppend(Nil, Descend(sub, k), [f]);
      BeforeAppend(Descend(sub, k), [f]);
      if Sorted(Keys(t)) {
        SortedNode(t);
      }
  }

  lemma PlugTwo(z: Tree, p: Path)
    requires |p| >= 2
    ensures Plug(z, p) == Plug(Attach(p[1], Attach(p[0], z)), p[2..])
  {
    assert p[1..][1..] == p[2..];
  }

  /** Recolouring and rotating during the fixup keep the in-order keys. */
  lemma {:induction false} InsertFixupKeys(z: Tree, p: Path)
    requires z.Node?
    ensures Keys(InsertFixup(z, p)) == Keys(Plug(z, p))
    decreases |p|
  {
    if p == [] || p[0].color == Black || |p| == 1 {
    } else {
      PlugTwo(z, p);
      var par := p[0];
      var g := p[1];
      var u := g.sibling;
      var orig := Attach(g, Attach(par, z));
      if ColorOf(u) == Red {
        var z' := Case1(z, par, g);
        InsertFixupKeys(z', p[2..]);
        PlugSameKeys(z', orig, p[2..]);
      } else {
        var top' := Case23(z, par, g);
        assert Keys(top') == Keys(orig);
        PlugSameKeys(top', orig, p[2..]);
      }
    }
  }

  /** The loop invariant of `_insert_fixup`: at most one red-red edge, above `z`. */
  predicate FixupInv(z: Tree, p: Path) {
    && z.Node? && z.color == Red && Rb(z)
    && PathRbLoose(p, BH(z))
    && (p != [] ==> p[|p| - 1].color == Black)
  }

  lemma {:induction false} InsertFixupRb(z: Tree, p: Path)
    requires FixupInv(z, p)
    ensures Rb(InsertFixup(z, p))
    decreases |p|
  {
    var h := BH(z);
    if p == [] {
    } else if p[0].color == Black {
      RbPlug(z, p);
    } else if |p| == 1 {
    } else {
      var par := p[0];
      var g := p[1];
      var u := g.sibling;
      assert Fits(par, h);
      assert PathRb(p[1..], h, Red);
      assert Fits(g, h) && g.color == Black;
      assert PathRb(p[2..], h + 1, Black) by { assert p[1..][1..] == p[2..]; }
      if ColorOf(u) == Red {
        var z' := Case1(z, par, g);
        Case1Rb(z, par, g);
        assert PathRbLoose(p[2..], h + 1);
        assert p[2..] != [] ==> p[2..][|p[2..]| - 1] == p[|p| - 1];
        InsertFixupRb(z', p[2..]);
      } else {
        var top' := Case23(z, par, g);
        Case23Rb(z, par, g);
        RbPlug(top', p[2..]);
      }
    }
  }

  /** Cases 2 and 3 of `_insert_fixup` on the grandparent's subtree. */
  function Case23(z: Tree, par: Frame, g: Frame): (r: Tree)
    requires z.Node?
  {
    var pz := Attach(par, z);
    var y :=
      if g.InLeft? && par.InRight? then RotateLeft(pz)
      else if g.InRight? && par.InLeft? then RotateRight(pz)
      else pz;
    var top := Attach(g.(color := Red), Blacken(y));
    if g.InLeft? then RotateRight(top) else RotateLeft(top)
  }

  /** Cases 2 and 3 leave a black subtree of the grandparent's black height with no red-red edge. */
  lemma Case23Rb(z: Tree, par: Frame, g: Frame)
    requires z.Node? && z.color == Red && Rb(z)
    requires par.color == Red && Fits(par, BH(z))
    requires g.color == Black && Fits(g, BH(z)) && ColorOf(g.sibling) == Black
    ensures var r := Case23(z, par, g); Rb(r) && BH(r) == BH(z) + 1 && ColorOf(r) == Black
  {
    var Node(_, b, zk, c) := z;
    var u := g.sibling;
    var a := par.sibling;
    assert ColorOf(a) == Black && ColorOf(b) == Black && ColorOf(c) == Black;
    match g {
      case InLeft(_, gk, _) =>
        match par {
          case InRight(_, _, pk) =>
            assert Case23(z, par, g) == Node(Black, Node(Red, a, pk, b), zk, Node(Red, c, gk, u));
          case InLeft(_, pk, _) =>
            assert Case23(z, par, g) == Node(Black, z, pk, Node(Red, a, gk, u));
        }
      case InRight(_, _, gk) =>
        match par {
          case InLeft(_, pk, _) =>
            assert Case23(z, par, g) == Node(Black, Node(Red, u, gk, b), zk, Node(Red, c, pk, a));
          case InRight(_, _, pk) =>
            assert Case23(z, par, g) == Node(Black, Node(Red, u, gk, a), pk, z);
        }
    }
  }

  /** Case 1 of `_insert_fixup`: the grandparent's recoloured subtree. */
  function Case1(z: Tree, par: Frame, g: Frame): Tree {
    Attach(g.(color := Red, sibling := Blacken(g.sibling)), Attach(par.(color := Black), z))
  }

  /** Case 1 turns the grandparent into a red root of a red-black subtree one black level higher. */
  lemma Case1Rb(z: Tree, par: Frame, g: Frame)
    requires z.Node? && z.color == Red && Rb(z)
    requires par.color == Red && Fits(par, BH(z))
    requires Fits(g, BH(z)) && ColorOf(g.sibling) == Red
    ensures var r := Case1(z, par, g); r.Node? && r.color == Red && Rb(r) && BH(r) == BH(z) + 1
  {
    var u := g.sibling;
    assert Rb(Blacken(u)) && BH(Blacken(u)) == BH(z) + 1 && ColorOf(u.left) == Black;
    var q := Attach(par.(color := Black), z);
    assert Rb(q) && BH(q) == BH(z) + 1;
  }

  /** The descent splits the keys where the new one goes. */
  lemma DescendSplit(t: Tree, k: int)
    ensures Keys(t) == Before(Descend(t, k)) + After(Descend(t, k))
  {
    var d := Descend(t, k);
    DescendFacts(t, k);
    PlugKeys(Nil, d);
    assert Before(d) + [] + After(d) == Before(d) + After(d);
  }

  /** The new key lands between the keys before and after the descent's slot. */
  lemma InsertSplit(t: Tree, k: int)
    ensures Keys(Insert(t, k)) == Before(Descend(t, k)) + [k] + After(Descend(t, k))
  {
    var d := Descend(t, k);
    var z := Node(Red, Nil, k, Nil);
    PlugKeys(z, d);
    InsertFixupKeys(z, d);
    assert Keys(Insert(t, k)) == Keys(InsertFixup(z, d));
  }

  lemma SplitInsert(s: seq<int>, a: seq<int>, b: seq<int>, k: int)
    requires s == a + b
    requires forall y :: y in a ==> y <= k
    requires forall y :: y in b ==> k < y
    ensures a + [k] + b == InsertAt(s, |a|, k)
    ensures forall j :: 0 <= j < |a| ==> s[j] <= k
    ensures forall j :: |a| <= j < |s| ==> k < s[j]
  {
    assert s[..|a|] == a && s[|a|..] == b;
    forall j | 0 <= j < |a|
      ensures s[j] <= k
    {
      assert s[j] == a[j] && a[j] in a;
    }
    forall j | |a| <= j < |s|
      ensures k < s[j]
    {
      assert s[j] == b[j - |a|] && b[j - |a|] in b;
    }
  }

  /**
   * `insert_node` adds exactly one occurrence of `k`, after every key `<= k` and
   * before every key `> k`; the keys stay sorted.
   */
  lemma InsertKeys(t: Tree, k: int)
    requires Sorted(Keys(t))
    ensures InsertRank(t, k) <= |Keys(t)|
    ensures Keys(Insert(t, k)) == InsertAt(Keys(t), InsertRank(t, k), k)
    ensures forall j :: 0 <= j < InsertRank(t, k) ==> Keys(t)[j] <= k
    ensures forall j :: InsertRank(t, k) <= j < |Keys(t)| ==> k < Keys(t)[j]
    ensures Sorted(Keys(Insert(t, k)))
  {
    var d := Descend(t, k);
    DescendFacts(t, k);
    DescendSplit(t, k);
    InsertSplit(t, k);
    SplitInsert(Keys(t), Before(d), After(d), k);
    InsertSorted(Keys(t), |Before(d)|, k);
  }

  /** Insertion keeps every red-black property. */
  lemma InsertRedBlack(t: Tree, k: int)
    requires IsRedBlack(t)
    ensures IsRedBlack(Insert(t, k))
  {
    var d := Descend(t, k);
    var z := Node(Red, Nil, k, Nil);
    DescendFacts(t, k);
    PlugRb(Nil, d);
    RootColorPlug(Nil, d);
    assert FixupInv(z, d);
    InsertFixupRb(z, d);
  }
}
