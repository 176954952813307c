/** Non-decreasing integer sequences: the abstract view of every structure in the model. */
module SortedSeq {

  predicate Sorted(s: seq<int>) {
    forall i, j :: 0 <= i < j < |s| ==> s[i] <= s[j]
  }

  /** `s` with the element at index `i` taken out. */
  function Without(s: seq<int>, i: nat): (r: seq<int>)
    requires i < |s|
    ensures |r| == |s| - 1
  {
    s[..i] + s[i + 1..]
  }

  /** Taking an element out removes exactly one occurrence of it. */
  lemma WithoutMultiset(s: seq<int>, i: nat)
    requires i < |s|
    ensures multiset(Without(s, i)) == multiset(s) - multiset{s[i]}
  {
    assert s == s[..i] + [s[i]] + s[i + 1..];
  }

  /** Elements before `i` keep their index; those after it move down by one. */
  lemma WithoutIndex(s: seq<int>, i: nat)
    requires i < |s|
    ensures forall j :: 0 <= j < i ==> Without(s, i)[j] == s[j]
    ensures forall j :: i <= j < |s| - 1 ==> Without(s, i)[j] == s[j + 1]
  {
  }

  /** `s` with `x` placed in front of index `i`. */
  function InsertAt(s: seq<int>, i: nat, x: int): (r: seq<int>)
    requires i <= |s|
    ensures |r| == |s| + 1
    ensures r[i] == x
    ensures forall j :: 0 <= j < i ==> r[j] == s[j]
    ensures forall j :: i < j < |r| ==> r[j] == s[j - 1]
  {
    assert s == s[..i] + s[i..];
    s[..i] + [x] + s[i..]
  }

  /** Placing an element adds exactly one occurrence of it. */
  lemma InsertAtMultiset(s: seq<int>, i: nat, x: int)
    requires i <= |s|
    ensures multiset(InsertAt(s, i, x)) == multiset(s) + multiset{x}
  {
    assert s == s[..i] + s[i..];
  }

  lemma WithoutSorted(s: seq<int>, i: nat)
    requires i < |s| && Sorted(s)
    ensures Sorted(Without(s, i))
  {
    var r := Without(s, i);
    assert forall j :: 0 <= j < |r| ==> r[j] == if j < i then s[j] else s[j + 1];
  }

  lemma InsertSorted(s: seq<int>, i: nat, x: int)
    requires i <= |s| && Sorted(s)
    requires forall j :: 0 <= j < i ==> s[j] <= x
    requires forall j :: i <= j < |s| ==> x <= s[j]
    ensures Sorted(InsertAt(s, i, x))
  {
  }

  /** A sorted sequence split around one element: both sides sorted, and the element between them. */
  lemma SortedSplit(a: seq<int>, k: int, b: seq<int>)
    requires Sorted(a + [k] + b)
    ensures Sorted(a) && Sorted(b)
    ensures forall y :: y in a ==> y <= k
    ensures forall y :: y in b ==> k <= y
  {
    var s := a + [k] + b;
    assert s[|a|] == k;
    forall i, j | 0 <= i < j < |a| ensures a[i] <= a[j] {
      assert s[i] == a[i] && s[j] == a[j];
    }
    forall i, j | 0 <= i < j < |b| ensures b[i] <= b[j] {
      assert s[|a| + 1 + i] == b[i] && s[|a| + 1 + j] == b[j];
    }
    forall y | y in a ensures y <= k {
      var j :| 0 <= j < |a| && a[j] == y;
      assert s[j] == y;
    }
    forall y | y in b ensures k <= y {
      var j :| 0 <= j < |b| && b[j] == y;
      assert s[|a| + 1 + j] == y;
    }
  }

  lemma SortedTail(s: seq<int>)
    requires Sorted(s) && |s| > 0
    ensures Sorted(s[1..])
  {
  }

  lemma MultisetTail(s: seq<int>)
    requires |s| > 0
    ensures multiset(s[1..]) == multiset(s) - multiset{s[0]}
  {
    assert s == [s[0]] + s[1..];
  }

  /** A multiset has exactly one sorted arrangement. */
  lemma {:induction false} SortedUnique(a: seq<int>, b: seq<int>)
    requires Sorted(a) && Sorted(b)
    requires multiset(a) == multiset(b)
    ensures a == b
  {
    assert |a| == |multiset(a)| == |multiset(b)| == |b|;
    if a != [] {
      assert a[0] in multiset(a);
      assert a[0] in b;
      assert b[0] in multiset(b);
      assert b[0] in a;
      var i :| 0 <= i < |b| && b[i] == a[0];
      var j :| 0 <= j < |a| && a[j] == b[0];
      assert b[0] <= b[i] && a[0] <= a[j];
      MultisetTail(a);
      MultisetTail(b);
      SortedTail(a);
      SortedTail(b);
      SortedUnique(a[1..], b[1..]);
    }
  }

  /** Taking out any one occurrence of a value from a sorted sequence gives the same sequence. */
  lemma RemoveAnyOccurrence(s: seq<int>, i: nat, j: nat)
    requires Sorted(s) && i < |s| && j < |s| && s[i] == s[j]
    ensures Without(s, i) == Without(s, j)
  {
    WithoutSorted(s, i);
    WithoutSorted(s, j);
    WithoutMultiset(s, i);
    WithoutMultiset(s, j);
    SortedUnique(Without(s, i), Without(s, j));
  }

  /** Where among its equals a new value is placed does not change the resulting sequence. */
  lemma InsertAnyPosition(s: seq<int>, i: nat, j: nat, x: int)
    requires i <= |s| && j <= |s|
    requires Sorted(InsertAt(s, i, x)) && Sorted(InsertAt(s, j, x))
    ensures InsertAt(s, i, x) == InsertAt(s, j, x)
  {
    InsertAtMultiset(s, i, x);
    InsertAtMultiset(s, j, x);
    SortedUnique(InsertAt(s, i, x), InsertAt(s, j, x));
  }

  lemma WithoutMiddle(a: seq<int>, k: int, b: seq<int>)
    ensures Without(a + [k] + b, |a|) == a + b
  {
    var s := a + [k] + b;
    assert s[..|a|] == a && s[|a| + 1..] == b;
  }

  /** Taking out the element between two concatenated pairs keeps all four parts. */
  lemma WithoutBetween(b: seq<int>, l: seq<int>, k: int, r: seq<int>, a: seq<int>)
    ensures |b| + |l| < |(b + l) + [k] + (r + a)|
    ensures Without((b + l) + [k] + (r + a), |b| + |l|) == b + l + r + a
  {
    WithoutMiddle(b + l, k, r + a);
    assert (b + l) + (r + a) == b + l + r + a;
  }
}
