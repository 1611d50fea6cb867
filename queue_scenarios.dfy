/**
 * Callers of the queue that use nothing but the operations' contracts: the
 * ordering of successive extractions, and the maximum of a built queue.
 */
module QueueScenarios {
  import opened HeapIndex
  import opened PriorityQueue

  /**
   * Two extractions in a row come out in non-increasing order, and between
   * them they remove exactly those two elements from the live heap.
   */
  method ExtractTwiceInOrder(h: HeapCapable) returns (first: int, second: int)
    requires h.Valid() && IsMaxHeap(h.a, h.heapSize) && h.heapSize >= 2
    modifies h
    ensures h.Valid() && IsMaxHeap(h.a, h.heapSize)
    ensures first >= second
    ensures h.heapSize == old(h.heapSize) - 2
    ensures h.Live() + multiset{first, second} == old(h.Live())
  {
    ghost var a0, n0 := h.a, h.heapSize;
    assert a0[..n0][0] == a0[0];
    var r1 := h.ExtractMax();
    ghost var a1, n1 := h.a, h.heapSize;
    assert a1[..n1][0] == a1[0];
    var r2 := h.ExtractMax();
    first, second := r1.value, r2.value;
    LiveBelowBound(a0, n0, second, first);
    RemoveTwo(multiset(a0[..n0]), first, second);
  }

  /** Taking out two members one after the other and adding them back restores a multiset. */
  lemma RemoveTwo(m: multiset<int>, x: int, y: int)
    requires x in m && y in m - multiset{x}
    ensures m - multiset{x} - multiset{y} + multiset{x, y} == m
  {
  }

  /** An element of the live range is at most any bound on the live slots. */
  lemma LiveBelowBound(s: seq<int>, n: nat, x: int, m: int)
    requires n <= |s| && x in multiset(s[..n])
    requires forall k :: 0 <= k < n ==> s[k] <= m
    ensures x <= m
  {
    var k :| 0 <= k < n && s[..n][k] == x;
  }

  /** A queue built from [5, 4, 7, 1, 3] has maximum 7. */
  method MaximumOfBuiltQueue() returns (m: Result<int>)
    ensures m == Ok(7)
  {
    var input := [5, 4, 7, 1, 3];
    var q := new MaxPriorityQueue(input);
    m := q.heap.Maximum();
    ghost var live := q.heap.a[..5];
    assert 7 in multiset(live);
    ghost var k :| 0 <= k < 5 && live[k] == 7;
    assert m.value in input;
  }
}
