/**
 * The naive running median over a Python list kept sorted with `bisect`
 * (Median/main1.py). It is the reference the red-black tracker is checked against.
 */
module BisectMedian {
  import opened SortedSeq
  import opened Outcomes

  /**
   * `bisect_left` restricted to the window `lo..hi`: the window halves until it is
   * empty, keeping everything left of it `< x` and everything right of it `>= x`.
   */
  function BisectLeftIn(a: seq<int>, x: int, lo: nat, hi: nat): (i: nat)
    requires Sorted(a) && lo <= hi <= |a|
    requires forall j :: 0 <= j < lo ==> a[j] < x
    requires forall j :: hi <= j < |a| ==> x <= a[j]
    ensures lo <= i <= hi
    ensures forall j :: 0 <= j < i ==> a[j] < x
    ensures forall j :: i <= j < |a| ==> x <= a[j]
    decreases hi - lo
  {
    if lo == hi then lo
    else
      var mid := (lo + hi) / 2;
      if a[mid] < x then BisectLeftIn(a, x, mid + 1, hi) else BisectLeftIn(a, x, lo, mid)
  }

  /** `bisect_left(a, x)`: the first index whose element is not below `x`. */
  function BisectLeft(a: seq<int>, x: int): (i: nat)
    requires Sorted(a)
    ensures i <= |a|
    ensures forall j :: 0 <= j < i ==> a[j] < x
    ensures forall j :: i <= j < |a| ==> x <= a[j]
  {
    BisectLeftIn(a, x, 0, |a|)
  }

  /** `index`: the leftmost position holding `x`, or `ValueError` when there is none. */
  function Index(a: seq<int>, x: int): (r: Result<nat>)
    requires Sorted(a)
    ensures r.Ok? <==> x in a
    ensures r.Err? ==> r.error == ValueError
    ensures r.Ok? ==> r.value < |a| && a[r.value] == x
    ensures r.Ok? ==> forall j :: 0 <= j < r.value ==> a[j] != x
  {
    var i := BisectLeft(a, x);
    if i != |a| && a[i] == x then Ok(i) else Err(ValueError)
  }

  /** `add`: the list grows by exactly `e` and stays sorted. */
  function Add(a: seq<int>, e: int): (r: seq<int>)
    requires Sorted(a)
    ensures Sorted(r)
    ensures multiset(r) == multiset(a) + multiset{e}
  {
    if |a| == 0 then [e]
    else
      var i := BisectLeft(a, e);
      InsertSorted(a, i, e);
      InsertAtMultiset(a, i, e);
      InsertAt(a, i, e)
  }

  /** The first position holding `e`, as `list.remove` scans for it. */
  function FirstIndex(a: seq<int>, e: int): (i: nat)
    requires e in a
    ensures i < |a| && a[i] == e
    ensures forall j :: 0 <= j < i ==> a[j] != e
  {
    if a[0] == e then 0 else 1 + FirstIndex(a[1..], e)
  }

  /** `remove` (`list.remove`): drop one occurrence of `e`, or `ValueError` when absent. */
  function Remove(a: seq<int>, e: int): (r: Result<seq<int>>)
    ensures r.Err? <==> e !in a
    ensures r.Err? ==> r.error == ValueError
    ensures r.Ok? ==> multiset(r.value) == multiset(a) - multiset{e}
    ensures r.Ok? && Sorted(a) ==> Sorted(r.value)
  {
    if e in a then
      var i := FirstIndex(a, e);
      WithoutMultiset(a, i);
      if Sorted(a) then WithoutSorted(a, i); Ok(Without(a, i))
      else Ok(Without(a, i))
    else Err(ValueError)
  }

  /** The arithmetic of `median`, exact instead of floating point. */
  function MedianValue(a: seq<int>): real
    requires |a| > 0
  {
    var l := |a|;
    if l % 2 == 0 then (a[l / 2] + a[l / 2 - 1]) as real / 2.0 else a[l / 2] as real
  }

  /** `median`: `ValueError` on an empty list. */
  function Median(a: seq<int>): (r: Result<real>)
    ensures r.Err? <==> |a| == 0
    ensures r.Err? ==> r.error == ValueError
    ensures r.Ok? ==> r.value == MedianValue(a)
  {
    if |a| == 0 then Err(ValueError) else Ok(MedianValue(a))
  }

  /**
   * The median of a sorted list splits it in halves: the lower half (middle
   * included) lies at or below it, the upper half at or above it, and it lies
   * between the two middle elements.
   */
  lemma MedianSplits(a: seq<int>)
    requires Sorted(a) && |a| > 0
    ensures forall j :: 0 <= j <= (|a| - 1) / 2 ==> a[j] as real <= MedianValue(a)
    ensures forall j :: |a| / 2 <= j < |a| ==> MedianValue(a) <= a[j] as real
    ensures a[(|a| - 1) / 2] as real <= MedianValue(a) <= a[|a| / 2] as real
  {
  }

  /** How `median` shows a value: as an integer when it has no fractional part. */
  datatype Shown = Whole(n: int) | Fraction(v: real)

  function Render(m: real): (r: Shown)
    ensures r.Whole? ==> r.n as real == m
    ensures r.Fraction? ==> r.v == m && r.v.Floor as real != m
  {
    if m.Floor as real == m then Whole(m.Floor) else Fraction(m)
  }

  /** A median of integers is either whole or exactly half-way between two integers. */
  lemma RenderMedian(a: seq<int>)
    requires |a| > 0
    ensures Render(MedianValue(a)).Fraction? ==>
              MedianValue(a) == MedianValue(a).Floor as real + 0.5
  {
    var l := |a|;
    if l % 2 == 0 {
      var s := a[l / 2] + a[l / 2 - 1];
      var k := if s % 2 == 0 then s / 2 else (s - 1) / 2;
      assert s == 2 * k || s == 2 * k + 1;
      if s == 2 * k {
        assert MedianValue(a) == k as real;
      } else {
        assert MedianValue(a) == k as real + 0.5;
        assert MedianValue(a).Floor == k;
      }
    }
  }
}
