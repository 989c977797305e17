/** The child-ordering policy of `ContentItem.AddTo` and the sort-order
    comparison of `ContentItem.CompareTo`, on plain sequences of sort orders. */
module SortOrder {
  import opened Numerics

  /** `SortOrderTreshold`: the gap between two siblings' sort orders that
      makes room for a new item. */
  const Threshold: int := 9999

  /** `siblings[i].SortOrder < siblings[i + 1].SortOrder - SortOrderTreshold`,
      with the subtraction wrapping like C#'s unchecked `int` arithmetic. */
  predicate IsGap(orders: seq<Int32>, i: int)
  {
    0 <= i < |orders| - 1 && orders[i] < Wrap32(orders[i + 1] - Threshold)
  }

  /** No index of `orders` is a gap. */
  predicate NoGap(orders: seq<Int32>)
  {
    forall i :: 0 <= i < |orders| - 1 ==> !IsGap(orders, i)
  }

  /** The highest gap index below `n`, or -1 when there is none. */
  function LastGap(orders: seq<Int32>, n: int): (g: int)
    requires 0 <= n <= |orders|
    ensures -1 <= g < n
    ensures g >= 0 ==> IsGap(orders, g)
    ensures forall j :: g < j < n ==> !IsGap(orders, j)
    decreases n
  {
    if n <= 0 then -1
    else if IsGap(orders, n - 1) then n - 1
    else LastGap(orders, n - 1)
  }

  /** Where `AddTo` inserts a new child among siblings with these sort orders:
      just after the last gap; at the front when there is no gap and the first
      sibling's order exceeds the threshold; at the end otherwise. */
  function InsertionPoint(orders: seq<Int32>): (pos: nat)
    ensures pos <= |orders|
  {
    if |orders| == 0 then 0
    else
      var g := LastGap(orders, |orders| - 1);
      if g >= 0 then g + 1
      else if orders[0] > Threshold then 0
      else |orders|
  }

  /** The three cases of the insertion rule, each stated without reference to
      the search that finds it. */
  lemma {:induction false} InsertionPointCases(orders: seq<Int32>)
    ensures var pos := InsertionPoint(orders);
      || (0 < pos < |orders| && IsGap(orders, pos - 1) &&
          forall j :: pos - 1 < j < |orders| - 1 ==> !IsGap(orders, j))
      || (pos == 0 && |orders| > 0 && NoGap(orders) && orders[0] > Threshold)
      || (pos == |orders| && NoGap(orders) && (|orders| == 0 || orders[0] <= Threshold))
  {
    if |orders| > 0 {
      var g := LastGap(orders, |orders| - 1);
      assert g < |orders| - 1;
    }
  }

  /** When the wrap cannot happen, the gap test is the plain inequality. */
  lemma GapWithoutWrap(orders: seq<Int32>, i: int)
    requires 0 <= i < |orders| - 1
    requires orders[i + 1] >= Int32Min + Threshold
    ensures IsGap(orders, i) <==> orders[i] < orders[i + 1] - Threshold
  {
  }

  /** A gap found by wrap-around: just above `int.MinValue`, everything looks small. */
  lemma WrappedGap()
    ensures IsGap([0, Int32Min], 0)
  {
    assert Wrap32(Int32Min - Threshold) == Int32Max - Threshold + 1;
  }

  /** `list.Insert(pos, x)`. */
  function InsertAt<T>(s: seq<T>, pos: nat, x: T): (r: seq<T>)
    requires pos <= |s|
    ensures |r| == |s| + 1 && r[pos] == x
    ensures forall j :: 0 <= j < pos ==> r[j] == s[j]
    ensures forall j :: pos < j < |r| ==> r[j] == s[j - 1]
  {
    assert s == s[..pos] + s[pos..];
    s[..pos] + [x] + s[pos..]
  }

  /** `list.RemoveAt(i)`: drops the item at index `i`, keeping the order of
      the others. */
  function RemoveAt<T>(s: seq<T>, i: nat): (r: seq<T>)
    requires i < |s|
    ensures |r| == |s| - 1
    ensures forall j :: 0 <= j < i ==> r[j] == s[j]
    ensures forall j :: i <= j < |r| ==> r[j] == s[j + 1]
  {
    s[..i] + s[i + 1..]
  }

  /** Removing at an index takes out that one occurrence and nothing else. */
  lemma {:induction false} RemoveAtCounts<T>(s: seq<T>, i: nat)
    requires i < |s|
    ensures multiset(RemoveAt(s, i)) == multiset(s) - multiset{s[i]}
  {
    assert s == s[..i] + [s[i]] + s[i + 1..];
  }

  /** Removing what was just inserted gives back the list it was inserted
      into. */
  lemma {:induction false} RemoveAtInserted<T>(s: seq<T>, pos: nat, x: T)
    requires pos <= |s|
    ensures RemoveAt(InsertAt(s, pos, x), pos) == s
  {
    var r := InsertAt(s, pos, x);
    assert r[..pos] == s[..pos];
    assert r[pos + 1..] == s[pos..];
    assert s == s[..pos] + s[pos..];
  }

  /** Inserting keeps the relative order of the existing items: they are
      exactly what is left once the new one is taken out. */
  lemma {:induction false} InsertKeepsOthers<T>(s: seq<T>, pos: nat, x: T)
    requires pos <= |s|
    ensures var r := InsertAt(s, pos, x);
      r[..pos] + r[pos + 1..] == s && multiset(r) == multiset(s) + multiset{x}
  {
    var r := InsertAt(s, pos, x);
    assert s == s[..pos] + s[pos..];
    assert r == s[..pos] + [x] + s[pos..];
  }

  /** Inserting adds exactly the new item to the items present. */
  lemma {:induction false} InsertAtMembers<T>(s: seq<T>, pos: nat, x: T)
    requires pos <= |s|
    ensures forall y :: y in InsertAt(s, pos, x) <==> y in s || y == x
  {
    assert s == s[..pos] + s[pos..];
    assert InsertAt(s, pos, x) == s[..pos] + [x] + s[pos..];
  }

  /** The orders of the items `perm` picks from `orders`, in `perm`'s order. */
  function Select(orders: seq<Int32>, perm: seq<nat>): (r: seq<Int32>)
    requires forall j :: 0 <= j < |perm| ==> perm[j] < |orders|
    ensures |r| == |perm| && forall j :: 0 <= j < |perm| ==> r[j] == orders[perm[j]]
  {
    if |perm| == 0 then [] else Select(orders, perm[..|perm| - 1]) + [orders[perm[|perm| - 1]]]
  }

  /** Attaching items 0, 1, ..., n-1 (whose sort orders are the first `n`
      of `orders`) one after the other to an initially childless parent
      through `AddTo`: the indices of the items in the order the parent's
      children end up in. */
  function AttachOrder(orders: seq<Int32>, n: nat): (perm: seq<nat>)
    requires n <= |orders|
    ensures |perm| == n
    ensures forall j :: 0 <= j < n ==> perm[j] < n
  {
    if n == 0 then []
    else
      var prev := AttachOrder(orders, n - 1);
      InsertAt(prev, InsertionPoint(Select(orders, prev)), n - 1)
  }

  /** Every item ends up attached exactly once. */
  lemma {:induction false} AttachOrderIsPermutation(orders: seq<Int32>, n: nat)
    requires n <= |orders|
    ensures forall i :: 0 <= i < n ==> i in AttachOrder(orders, n)
  {
    if n > 0 {
      AttachOrderIsPermutation(orders, n - 1);
      var prev := AttachOrder(orders, n - 1);
      InsertAtMembers(prev, InsertionPoint(Select(orders, prev)), n - 1);
    }
  }

  /** The identity order `0, 1, ..., n - 1`. */
  function Range(n: nat): (r: seq<nat>)
    ensures |r| == n && forall j :: 0 <= j < n ==> r[j] == j
  {
    seq(n, j => j)
  }

  /** A prefix of orders without a gap has no gap. */
  lemma NoGapPrefix(orders: seq<Int32>, m: nat)
    requires m <= |orders| && NoGap(orders)
    ensures NoGap(orders[..m])
  {
    assert forall i :: 0 <= i < m - 1 ==> (IsGap(orders[..m], i) <==> IsGap(orders, i));
  }

  /** Without a gap, and with the first order at most the threshold, the
      rule appends. */
  lemma InsertionPointAtEnd(orders: seq<Int32>)
    requires NoGap(orders) && (|orders| == 0 || orders[0] <= Threshold)
    ensures InsertionPoint(orders) == |orders|
  {
    InsertionPointCases(orders);
  }

  /** When the orders have no gap and the first is at most the threshold,
      every attached item goes to the end, so attaching keeps the order. */
  lemma {:induction false} AttachOrderKeepsOrderWithoutGaps(orders: seq<Int32>, n: nat)
    requires n <= |orders|
    requires NoGap(orders)
    requires |orders| == 0 || orders[0] <= Threshold
    ensures AttachOrder(orders, n) == Range(n)
  {
    if n > 0 {
      AttachOrderKeepsOrderWithoutGaps(orders, n - 1);
      var pre := orders[..n - 1];
      assert Select(orders, Range(n - 1)) == pre;
      NoGapPrefix(orders, n - 1);
      InsertionPointAtEnd(pre);
      assert InsertAt(Range(n - 1), n - 1, n - 1) == Range(n);
    }
  }

  /** With a gap, attaching reorders: orders 0, 20000, 30000 come out as
      0, 30000, 20000, since the third item goes into the gap after the first. */
  lemma AttachOrderWithGap(o: seq<Int32>)
    requires o == [0, 20000, 30000]
    ensures AttachOrder(o, 3) == [0, 2, 1]
  {
    assert AttachOrder(o, 1) == [0];
    assert AttachOrder(o, 2) == [0, 1] by {
      assert Select(o, [0]) == [0];
      assert InsertionPoint([0]) == 1;
    }
    assert InsertionPoint(Select(o, [0, 1])) == 1 by {
      assert Select(o, [0, 1]) == [0, 20000];
      assert IsGap([0, 20000], 0);
    }
    var r := InsertAt([0, 1], 1, 2);
    assert r[0] == 0 && r[1] == 2 && r[2] == 1;
  }

  /** `IComparable.CompareTo` as written: `SortOrder - other.SortOrder` in
      unchecked 32-bit arithmetic. */
  function CompareSortOrderAsWritten(a: Int32, b: Int32): (r: Int32)
    ensures (r - (a - b)) % 0x1_0000_0000 == 0
  {
    Wrap32(a - b)
  }

  /** The subtraction overflows: `int.MaxValue` compares below -1. */
  lemma CompareToOverflows()
    ensures Int32Max > -1 && CompareSortOrderAsWritten(Int32Max, -1) < 0
  {
    assert Wrap32(Int32Max + 1) == Int32Min;
  }

  /** The comparison the sort order calls for: its sign is the order of the
      two sort orders. */
  function CompareSortOrder(a: Int32, b: Int32): (r: int)
    ensures r < 0 <==> a < b
    ensures r == 0 <==> a == b
    ensures r > 0 <==> a > b
  {
    if a < b then -1 else if a == b then 0 else 1
  }

  /** The corrected comparison is antisymmetric, which the written one is not. */
  lemma CompareSortOrderAntisymmetric(a: Int32, b: Int32)
    ensures CompareSortOrder(a, b) == -CompareSortOrder(b, a)
  {
  }

  /** As long as the difference fits in an `int`, the written comparison has
      the right sign. */
  lemma AsWrittenAgreesWithoutOverflow(a: Int32, b: Int32)
    requires Int32Min <= a - b <= Int32Max
    ensures CompareSortOrderAsWritten(a, b) < 0 <==> CompareSortOrder(a, b) < 0
    ensures CompareSortOrderAsWritten(a, b) == 0 <==> CompareSortOrder(a, b) == 0
  {
  }
}
