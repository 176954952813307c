/**
 * `check_invariants` of the CLRS tree (Median/main2.py), as written and corrected.
 * Parent links are structural in this model, so the source's parent-pointer tests
 * always pass and are not repeated here.
 */
module ClrsCheck {
  import opened RbCore

  /** The pair `is_red_black_node` returns: a black count and a verdict. */
  datatype Checked = Checked(blacks: nat, ok: bool)

  /**
   * What the as-written check does test: every node has two real children or
   * none, a red node has two real children, and those children are black.
   * Black counts play no part.
   */
  predicate FullRedOk(t: Tree) {
    match t
    case Nil => true
    case Node(c, l, _, rt) =>
      && (l.Nil? <==> rt.Nil?)
      && (c == Red ==> l.Node? && ColorOf(l) == Black && ColorOf(rt) == Black)
      && FullRedOk(l) && FullRedOk(rt)
  }

  /**
   * `is_red_black_node` as written. The sentinel is falsy (its `__nonzero__`
   * tests the key against `None`), so `node.left` and `node.right` test whether a
   * child is a real node; the black count is never incremented, so the
   * comparison of the two counts never fails and only the shape and the red
   * rule are checked.
   */
  function NodeCheckAsWritten(t: Tree): (r: Checked)
    ensures r.blacks == 0
    ensures r.ok <==> FullRedOk(t)
  {
    match t
    case Nil => Checked(0, true)
    case Node(c, l, _, rt) =>
      if (l.Node? && rt.Nil?) || (rt.Node? && l.Nil?) then Checked(0, false)     // one real child
      else if l.Nil? && rt.Nil? && c == Red then Checked(0, false)                 // "leaves are black"
      else if c == Red && l.Node? && rt.Node? && (l.color == Red || rt.color == Red) then Checked(0, false)
      else if l.Node? && rt.Node? then
        var left := NodeCheckAsWritten(l);
        if !left.ok then Checked(0, false)
        else
          var right := NodeCheckAsWritten(rt);
          if !right.ok then Checked(0, false)
          else Checked(left.blacks, left.blacks == right.blacks)   // both counts are 0
      else Checked(0, true)
  }

  /** `check_invariants` as written: the root check and a black root. */
  predicate CheckInvariantsAsWritten(t: Tree) {
    NodeCheckAsWritten(t).ok && ColorOf(t) == Black
  }

  /** A black root with one red child: a valid red-black tree the check rejects. */
  lemma AsWrittenRejectsValid()
    ensures IsRedBlack(Node(Black, Nil, 1, Node(Red, Nil, 2, Nil)))
    ensures !CheckInvariantsAsWritten(Node(Black, Nil, 1, Node(Red, Nil, 2, Nil)))
  {
  }

  /** The tree after inserting 1, 2, 3: two red leaves, which the check rejects. */
  lemma AsWrittenRejectsRedLeaves()
    ensures IsRedBlack(Node(Black, Node(Red, Nil, 1, Nil), 2, Node(Red, Nil, 3, Nil)))
    ensures !CheckInvariantsAsWritten(Node(Black, Node(Red, Nil, 1, Nil), 2, Node(Red, Nil, 3, Nil)))
  {
  }

  /** All black, with paths of two and of one black node: unbalanced, yet accepted. */
  lemma AsWrittenAcceptsUnbalanced()
    ensures var t := Node(Black, Node(Black, Node(Black, Nil, 1, Nil), 2, Node(Black, Nil, 3, Nil)), 4, Node(Black, Nil, 5, Nil));
      !IsRedBlack(t) && CheckInvariantsAsWritten(t)
  {
  }

  /**
   * `is_red_black_node` as intended: count the black nodes on every path, reject
   * a red node with a red child and unequal counts below a node.
   */
  function NodeCheck(t: Tree): (r: Checked)
    ensures r.ok <==> Rb(t)
    ensures r.ok ==> r.blacks == BH(t)
  {
    match t
    case Nil => Checked(0, true)
    case Node(c, l, _, rt) =>
      var left := NodeCheck(l);
      var right := NodeCheck(rt);
      var redOk := c == Red ==> ColorOf(l) == Black && ColorOf(rt) == Black;
      Checked(left.blacks + (if c == Black then 1 else 0), left.ok && right.ok && left.blacks == right.blacks && redOk)
  }

  /** `check_invariants` as intended holds exactly for red-black trees. */
  function CheckInvariants(t: Tree): (ok: bool)
    ensures ok <==> IsRedBlack(t)
  {
    NodeCheck(t).ok && ColorOf(t) == Black
  }
}
