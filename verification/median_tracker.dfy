/**
 * The running median over the CLRS tree (Median/main2.py `add`, `remove`,
 * `median`). The tracker keeps the tree, its size, a `center` and the current
 * median `m`. The center is held as a 0-based in-order rank; the source holds a
 * node and moves it with `successor`/`predecessor`, which step the rank by one
 * (ClrsNav.Successor, ClrsNav.Predecessor).
 */
module MedianTracker {
  import opened Outcomes
  import opened SortedSeq
  import opened RbCore
  import opened RbZipper
  import ClrsNav
  import ClrsInsert
  import ClrsDelete
  import BisectMedian

  datatype Tracker = Tracker(tree: Tree, size: nat, center: nat, m: real)

  /**
   * The tracker's invariant: a red-black search tree holding `size` keys, and
   * when it is not empty the center is the lower middle (1-based rank
   * ceil(size/2)) and `m` is the median of the keys.
   */
  predicate Valid(tr: Tracker) {
    && IsRedBlack(tr.tree)
    && Sorted(Keys(tr.tree))
    && |Keys(tr.tree)| == tr.size
    && (tr.size > 0 ==> tr.center == (tr.size - 1) / 2 && tr.m == BisectMedian.MedianValue(Keys(tr.tree)))
  }

  /** The module-level start state: an empty tree, no center, `m = -1`. */
  function Empty(): (r: Tracker)
    ensures Valid(r) && r.size == 0 && Keys(r.tree) == []
  {
    Tracker(Nil, 0, 0, -1.0)
  }

  // ---------------------------------------------------------------------
  // How the middle moves, on the in-order key sequences before (`a`) and after (`b`)

  /** A center rank with the median that goes with it. */
  datatype Middle = Middle(center: nat, m: real)

  /**
   * The center update of `add(e)`: the center stays or steps by one, and `m` is
   * the center's key or its mean with the successor's, after parity.
   */
  function AddStep(a: seq<int>, b: seq<int>, c: nat, e: int): Middle
    requires |a| > 0 && |b| == |a| + 1 && c == (|a| - 1) / 2
  {
    var s := |b|;
    if e >= a[c] then                    // the new key lands right of the center
      if s % 2 == 0 then Middle(c, (a[c] + b[c + 1]) as real / 2.0)
      else Middle(c + 1, b[c + 1] as real)
    else                                 // the new key lands left of the center
      if s % 2 == 0 then Middle(c, (b[c] + a[c]) as real / 2.0)
      else Middle(c + 1, a[c] as real)
  }

  /**
   * After inserting `e` at position `i` (after every element `<= e`), the
   * step of `add` yields the lower middle of the new keys and their median.
   */
  lemma AddMoves(a: seq<int>, i: nat, e: int)
    requires Sorted(a) && |a| > 0 && i <= |a|
    requires forall j :: 0 <= j < i ==> a[j] <= e
    requires forall j :: i <= j < |a| ==> e < a[j]
    ensures var b := InsertAt(a, i, e);
      AddStep(a, b, (|a| - 1) / 2, e) == Middle((|b| - 1) / 2, BisectMedian.MedianValue(b))
  {
    var c := (|a| - 1) / 2;
    assert i <= c ==> e < a[c];
    assert c < i ==> a[c] <= e;
  }

  /**
   * The center update of `remove(e)` for a key other than the center's: the
   * center stays or steps by one, and `m` follows it, after parity.
   */
  function RemoveStep(a: seq<int>, b: seq<int>, c: nat, e: int): Middle
    requires |a| > 1 && |b| == |a| - 1 && c == (|a| - 1) / 2
  {
    var s := |b|;
    if e > a[c] then                     // the removed key was right of the center
      if s % 2 == 0 then Middle(c - 1, (b[c - 1] + a[c]) as real / 2.0)
      else Middle(c, a[c] as real)
    else                                 // the removed key was left of the center
      if s % 2 == 0 then Middle(c - 1, (a[c] + b[c]) as real / 2.0)
      else Middle(c, b[c] as real)
  }

  /**
   * After taking out position `i`, which holds a key other than the center's,
   * the step of `remove` yields the lower middle of the remaining keys and their median.
   */
  lemma RemoveMoves(a: seq<int>, i: nat)
    requires Sorted(a) && |a| > 1 && i < |a| && a[i] != a[(|a| - 1) / 2]
    ensures var b := Without(a, i);
      RemoveStep(a, b, (|a| - 1) / 2, a[i]) == Middle((|b| - 1) / 2, BisectMedian.MedianValue(b))
  {
    var c := (|a| - 1) / 2;
    assert a[i] > a[c] ==> i > c;
    assert a[i] < a[c] ==> i < c;
    WithoutIndex(a, i);
  }

  /** The center after removing the center itself: its predecessor when the size becomes even, else its successor. */
  function CenterRank(c: nat, s: nat): nat {
    if s % 2 == 0 && c > 0 then c - 1 else c
  }

  // ---------------------------------------------------------------------
  // Operations

  /**
   * `add(e)`: insert, then move the center at most one step. A key `>= center.key`
   * lands after the center (ClrsInsert.InsertKeys puts it after every key `<=` it).
   */
  function Add(tr: Tracker, e: int): (r: Tracker)
    requires Valid(tr)
    ensures Valid(r) && r.size == tr.size + 1
    ensures multiset(Keys(r.tree)) == multiset(Keys(tr.tree)) + multiset{e}
  {
    var t := ClrsInsert.Insert(tr.tree, e);
    var i := ClrsInsert.InsertRank(tr.tree, e);
    ClrsInsert.InsertKeys(tr.tree, e);
    ClrsInsert.InsertRedBlack(tr.tree, e);
    var a, b := Keys(tr.tree), Keys(t);
    InsertAtMultiset(a, i, e);
    var s := tr.size + 1;
    if s == 1 then
      Tracker(t, s, 0, b[0] as real)
    else
      AddMoves(a, i, e);
      var step := AddStep(a, b, tr.center, e);
      Tracker(t, s, step.center, step.m)
  }

  /**
   * The center branch of `remove`: the center node is deleted and the center
   * moves to its predecessor or successor; `m` is left as it was.
   */
  function DropCenter(tr: Tracker): (r: Tracker)
    requires Valid(tr) && tr.size > 0
    ensures r.size == tr.size - 1 && r.m == tr.m
    ensures IsRedBlack(r.tree) && Sorted(Keys(r.tree)) && |Keys(r.tree)| == r.size
    ensures Keys(r.tree) == Without(Keys(tr.tree), tr.center)
    ensures r.size > 0 ==> r.center == (r.size - 1) / 2
  {
    var z := ClrsNav.Locate(tr.tree, tr.center, []);
    assert Plug(tr.tree, []) == tr.tree && Before([]) == [];
    assert TreeOf(z) == tr.tree && Rank(z) == tr.center;
    ClrsDelete.DeleteKeys(z);
    ClrsDelete.DeleteRedBlack(z);
    var t := ClrsDelete.DeleteNode(z);
    assert Keys(t) == Without(Keys(tr.tree), tr.center);
    WithoutSorted(Keys(tr.tree), tr.center);
    Tracker(t, tr.size - 1, CenterRank(tr.center, tr.size - 1), tr.m)
  }

  /**
   * The other branch of `remove`: the node `search` found is deleted and the
   * center moves at most one step.
   */
  function DropOther(tr: Tracker, z: Zipper): (r: Tracker)
    requires Valid(tr) && tr.size > 0
    requires z.focus.Node? && TreeOf(z) == tr.tree && z.focus.key != Keys(tr.tree)[tr.center]
    ensures Valid(r) && r.size == tr.size - 1
    ensures multiset(Keys(r.tree)) == multiset(Keys(tr.tree)) - multiset{z.focus.key}
  {
    var a := Keys(tr.tree);
    var t := ClrsDelete.DeleteNode(z);
    ClrsDelete.DeleteKeys(z);
    ClrsDelete.DeleteRedBlack(z);
    KeyAtRank(z);
    WithoutSorted(a, Rank(z));
    WithoutMultiset(a, Rank(z));
    RemoveMoves(a, Rank(z));
    var step := RemoveStep(a, Keys(t), tr.center, z.focus.key);
    Tracker(t, tr.size - 1, step.center, step.m)
  }

  /**
   * `remove(e)` with main2.py's branches: `ValueError` on an empty tracker or a
   * missing key; when `e` is the center's key the center itself is removed and
   * `m` is not updated. It deletes with the corrected ClrsDelete.DeleteNode and
   * keeps the center as a rank, so neither the deletion's failures nor an
   * unlinked center (README, Findings) arise here.
   */
  function RemoveKeepingM(tr: Tracker, e: int): (r: Result<Tracker>)
    requires Valid(tr)
    ensures r.Err? <==> tr.size == 0 || e !in Keys(tr.tree)
    ensures r.Err? ==> r.error == ValueError
    ensures r.Ok? ==> r.value.size == tr.size - 1 && Sorted(Keys(r.value.tree))
    ensures r.Ok? ==> multiset(Keys(r.value.tree)) == multiset(Keys(tr.tree)) - multiset{e}
  {
    if tr.size == 0 then Err(ValueError)
    else if e == Keys(tr.tree)[tr.center] then
      WithoutMultiset(Keys(tr.tree), tr.center);
      Ok(DropCenter(tr))
    else
      match ClrsNav.Search(tr.tree, e)
      case None => Err(ValueError)
      case Some(z) => Ok(DropOther(tr, z))
  }

  /** The update the center branch omits: `m` from the new center, as the other branches compute it. */
  function Refresh(r: Tracker): (r': Tracker)
    requires IsRedBlack(r.tree) && Sorted(Keys(r.tree)) && |Keys(r.tree)| == r.size
    requires r.size > 0 ==> r.center == (r.size - 1) / 2
    ensures Valid(r') && r'.tree == r.tree && r'.size == r.size
  {
    if r.size == 0 then r
    else
      var b, c := Keys(r.tree), r.center;
      if r.size % 2 == 0 then r.(m := (b[c] + b[c + 1]) as real / 2.0)
      else r.(m := b[c] as real)
  }

  /** `remove(e)` with the center branch also updating `m`. */
  function Remove(tr: Tracker, e: int): (r: Result<Tracker>)
    requires Valid(tr)
    ensures r.Err? <==> tr.size == 0 || e !in Keys(tr.tree)
    ensures r.Err? ==> r.error == ValueError
    ensures r.Ok? ==> Valid(r.value) && r.value.size == tr.size - 1
    ensures r.Ok? ==> multiset(Keys(r.value.tree)) == multiset(Keys(tr.tree)) - multiset{e}
  {
    if tr.size == 0 then Err(ValueError)
    else if e == Keys(tr.tree)[tr.center] then
      WithoutMultiset(Keys(tr.tree), tr.center);
      Ok(Refresh(DropCenter(tr)))
    else
      match ClrsNav.Search(tr.tree, e)
      case None => Err(ValueError)
      case Some(z) => Ok(DropOther(tr, z))
  }

  /** `median()`: `ValueError` on an empty tracker, otherwise `m` as it is shown. */
  function Median(tr: Tracker): (r: Result<BisectMedian.Shown>)
    ensures r.Err? <==> tr.size == 0
    ensures r.Err? ==> r.error == ValueError
  {
    if tr.size == 0 then Err(ValueError) else Ok(BisectMedian.Render(tr.m))
  }

  // ---------------------------------------------------------------------
  // Agreement with the sorted-list median

  /**
   * The tracker's `add` test `e >= center.key` says exactly on which side of the
   * center the new key lands, duplicates of the center's key included.
   */
  lemma AddSide(tr: Tracker, e: int)
    requires Valid(tr) && tr.size > 0
    ensures e >= Keys(tr.tree)[tr.center] <==> ClrsInsert.InsertRank(tr.tree, e) > tr.center
  {
    ClrsInsert.InsertKeys(tr.tree, e);
  }

  /** After `add`, the tree holds the list `add` of the sorted-list version builds, and `m` is its median. */
  lemma AddAgrees(tr: Tracker, e: int)
    requires Valid(tr)
    ensures Keys(Add(tr, e).tree) == BisectMedian.Add(Keys(tr.tree), e)
    ensures BisectMedian.Median(Keys(Add(tr, e).tree)) == Ok(Add(tr, e).m)
  {
    SortedUnique(Keys(Add(tr, e).tree), BisectMedian.Add(Keys(tr.tree), e));
  }

  /** `remove` fails exactly when the list version does, and otherwise leaves the same list and its median. */
  lemma RemoveAgrees(tr: Tracker, e: int)
    requires Valid(tr)
    ensures Remove(tr, e).Err? <==> BisectMedian.Remove(Keys(tr.tree), e).Err?
    ensures Remove(tr, e).Ok? ==> Keys(Remove(tr, e).value.tree) == BisectMedian.Remove(Keys(tr.tree), e).value
    ensures Remove(tr, e).Ok? && Remove(tr, e).value.size > 0 ==>
              BisectMedian.Median(Keys(Remove(tr, e).value.tree)) == Ok(Remove(tr, e).value.m)
  {
    var r := Remove(tr, e);
    var l := BisectMedian.Remove(Keys(tr.tree), e);
    if r.Ok? {
      SortedUnique(Keys(r.value.tree), l.value);
    }
  }

  /** `median()` prints what the sorted-list `median()` prints for the same keys. */
  lemma MedianAgrees(tr: Tracker)
    requires Valid(tr)
    ensures Median(tr).Err? <==> BisectMedian.Median(Keys(tr.tree)).Err?
    ensures Median(tr).Ok? ==> Median(tr).value == BisectMedian.Render(BisectMedian.Median(Keys(tr.tree)).value)
  {
  }

  // ---------------------------------------------------------------------
  // The stale median of the center branch

  /** The tracker after `add(1)`, `add(2)`, `add(4)`: center 2, `m = 2`. */
  function ThreeKeys(): (r: Tracker)
    ensures Valid(r) && Keys(r.tree) == [1, 2, 4] && r.center == 1 && r.m == 2.0
  {
    Tracker(Node(Black, Node(Red, Nil, 1, Nil), 2, Node(Red, Nil, 4, Nil)), 3, 1, 2.0)
  }

  lemma WithoutOfThree(s: seq<int>)
    requires |s| == 3
    ensures Without(s, 1) == [s[0], s[2]]
  {
    WithoutIndex(s, 1);
  }

  /** With main2.py's center branch, removing the center's own key drops exactly that key and leaves `m` as it was. */
  lemma RemoveCenterKeepsM(tr: Tracker)
    requires Valid(tr) && tr.size > 0
    ensures RemoveKeepingM(tr, Keys(tr.tree)[tr.center]).Ok?
    ensures RemoveKeepingM(tr, Keys(tr.tree)[tr.center]).value.m == tr.m
    ensures Keys(RemoveKeepingM(tr, Keys(tr.tree)[tr.center]).value.tree) == Without(Keys(tr.tree), tr.center)
  {
    assert RemoveKeepingM(tr, Keys(tr.tree)[tr.center]) == Ok(DropCenter(tr));
  }

  /**
   * With main2.py's center branch, `remove(2)` on a tracker holding 1, 2 and 4 (such as ThreeKeys)
   * deletes the center and keeps `m = 2`, while the median of the remaining keys
   * 1 and 4 is 2.5.
   */
  lemma RemoveCenterStale(tr: Tracker)
    requires Valid(tr) && Keys(tr.tree) == [1, 2, 4]
    ensures tr.m == 2.0
    ensures RemoveKeepingM(tr, 2).Ok?
    ensures RemoveKeepingM(tr, 2).value.m == 2.0
    ensures Keys(RemoveKeepingM(tr, 2).value.tree) == [1, 4]
    ensures !Valid(RemoveKeepingM(tr, 2).value)
  {
    assert tr.center == 1 && Keys(tr.tree)[tr.center] == 2;
    RemoveCenterKeepsM(tr);
    WithoutOfThree(Keys(tr.tree));
    assert BisectMedian.MedianValue([1, 4]) == 2.5;
  }

  // ---------------------------------------------------------------------
  // The unlinked center

  /**
   * The center branch of `remove` installs `predecessor(center)` when the size
   * becomes even (main2.py:564-565). When the center has two real children that
   * predecessor is the very node object `delete_node` unlinks, and its key
   * lives on in the old center object: the source's center leaves the tree.
   */
  lemma CenterUnlinked(tr: Tracker)
    requires Valid(tr) && tr.size > 0 && (tr.size - 1) % 2 == 0
    requires ClrsNav.Locate(tr.tree, tr.center, []).focus.left != Nil
    requires ClrsNav.Locate(tr.tree, tr.center, []).focus.right != Nil
    ensures var z := ClrsNav.Locate(tr.tree, tr.center, []);
      && ClrsNav.Predecessor(z).Some?
      && Rank(ClrsNav.Predecessor(z).value) == ClrsDelete.UnlinkedRank(z)
      && Rank(z) == tr.center
      && ClrsDelete.KeyAfter(z, tr.center) == ClrsNav.Predecessor(z).value.focus.key
  {
    var z := ClrsNav.Locate(tr.tree, tr.center, []);
    assert Plug(tr.tree, []) == tr.tree && Before([]) == [];
    var q := ClrsNav.Predecessor(z).value;
    KeyAtRank(q);
  }

  /**
   * After `add(1)`, `add(2)`, `add(4)` (ThreeKeys), `remove(2)` leaves the
   * source's center on the unlinked node that held 1.
   */
  lemma ThreeKeysUnlinksCenter()
    ensures var tr := ThreeKeys(); var z := ClrsNav.Locate(tr.tree, tr.center, []);
      && z.focus.left != Nil && z.focus.right != Nil && (tr.size - 1) % 2 == 0
      && ClrsNav.Predecessor(z).Some? && ClrsNav.Predecessor(z).value.focus.key == 1
      && Rank(ClrsNav.Predecessor(z).value) == ClrsDelete.UnlinkedRank(z)
  {
    CenterUnlinked(ThreeKeys());
  }
}
