/**
 * increase_key and heap_insert exactly as their code reads, with the inputs
 * on which they break the heap their documentation promises. The queue in
 * module PriorityQueue implements the intended behaviour instead.
 */
module AsWritten {
  import opened HeapIndex

  /**
   * The sift-up loop of increase_key with its loop condition as written:
   * `parent(index) < A[index]` compares the parent's index with the child's
   * value, the boolean result used as an index picks A[1] (true) or A[0]
   * (false), and the loop goes on while that element is non-zero.
   */
  function SiftUpAsWritten(s: seq<int>, index: nat): (r: seq<int>)
    requires index < |s|
    ensures |r| == |s|
    decreases index
  {
    if index > 0 && s[if Parent(index) < s[index] then 1 else 0] != 0 then
      var p := Parent(index);
      SiftUpAsWritten(s[index := s[p]][p := s[index]], p)
    else
      s
  }

  /** Whatever the loop condition, the sift-up loop only swaps: it permutes the list. */
  lemma {:induction false} SiftUpAsWrittenPermutes(s: seq<int>, index: nat)
    requires index < |s|
    ensures multiset(SiftUpAsWritten(s, index)) == multiset(s)
    decreases index
  {
    if index > 0 && s[if Parent(index) < s[index] then 1 else 0] != 0 {
      var p := Parent(index);
      var t := s[index := s[p]][p := s[index]];
      SwapKeepsLive(s, |s|, index, p);
      assert s[..|s|] == s && t[..|s|] == t;
      SiftUpAsWrittenPermutes(t, p);
    }
  }

  /** increase_key as written: a smaller key is ignored, a larger one is written and sifted up. */
  function IncreaseKeyAsWritten(s: seq<int>, index: nat, newValue: int): (r: seq<int>)
    requires index < |s|
    ensures |r| == |s|
    ensures newValue < s[index] ==> r == s
  {
    if newValue < s[index] then s else SiftUpAsWritten(s[index := newValue], index)
  }

  /** A larger key replaces exactly one copy of the old one in the list. */
  lemma IncreaseKeyAsWrittenReplaces(s: seq<int>, index: nat, newValue: int)
    requires index < |s| && newValue >= s[index]
    ensures multiset(IncreaseKeyAsWritten(s, index, newValue)) ==
      multiset(s) - multiset{s[index]} + multiset{newValue}
  {
    SiftUpAsWrittenPermutes(s[index := newValue], index);
  }

  /** A list together with its heap size. */
  datatype Heap = Heap(a: seq<int>, heapSize: nat)

  /**
   * heap_insert as written: the heap size grows by one, `bottom` (standing
   * for the float -infinity, so no larger than any key) is appended at the
   * physical end of the list, and the key at slot heapSize - 1 is increased
   * to `newValue`.
   */
  function HeapInsertAsWritten(h: Heap, newValue: int, bottom: int): (r: Heap)
    requires h.heapSize <= |h.a| && bottom <= newValue
    ensures r.heapSize == h.heapSize + 1 && |r.a| == |h.a| + 1
  {
    Heap(IncreaseKeyAsWritten(h.a + [bottom], h.heapSize, newValue), h.heapSize + 1)
  }

  /**
   * When the list is exactly the live heap and the new key is above the
   * placeholder, the code as written does insert the key.
   */
  lemma HeapInsertAsWrittenWhenFull(h: Heap, newValue: int, bottom: int)
    requires h.heapSize == |h.a| && bottom <= newValue
    ensures var r := HeapInsertAsWritten(h, newValue, bottom);
      multiset(r.a[..r.heapSize]) == multiset(h.a[..h.heapSize]) + multiset{newValue}
  {
    var grown := h.a + [bottom];
    var r := HeapInsertAsWritten(h, newValue, bottom);
    IncreaseKeyAsWrittenReplaces(grown, h.heapSize, newValue);
    assert r.a[..r.heapSize] == r.a && h.a[..h.heapSize] == h.a;
    assert multiset(grown) == multiset(h.a) + multiset{bottom};
  }

  /**
   * The loop condition lets a raised key climb above a larger parent:
   * raising slot 1 of the heap [5, 3] to 4 yields [4, 5].
   */
  lemma LoopConditionBreaksHeap()
    ensures IsMaxHeap([5, 3], 2)
    ensures IncreaseKeyAsWritten([5, 3], 1, 4) == [4, 5]
    ensures !IsMaxHeap([4, 5], 2)
  {
    assert DominatesChildren([5, 3], 2, 0) && DominatesChildren([5, 3], 2, 1);
    var raised := [5, 3][1 := 4];
    assert raised[0] == 5 && raised[1] == 4 && Parent(1) == 0;
    var swapped := raised[1 := raised[0]][0 := raised[1]];
    assert swapped[0] == 4 && swapped[1] == 5 && |swapped| == 2;
    assert SiftUpAsWritten(raised, 1) == SiftUpAsWritten(swapped, 0) == swapped;
    assert swapped == [4, 5];
    assert !DominatesChildren([4, 5], 2, 0);
  }

  /**
   * When the heap size is below the list length, the appended slot is not
   * the one whose key is increased: if the leftover value in slot heapSize
   * is larger than the new key, the increase is refused, the leftover
   * becomes live and the new key never enters the heap.
   */
  lemma {:induction false} InsertAsWrittenRevivesLeftover(h: Heap, newValue: int, bottom: int)
    requires h.heapSize < |h.a| && newValue < h.a[h.heapSize] && bottom <= newValue
    ensures var r := HeapInsertAsWritten(h, newValue, bottom);
      multiset(r.a[..r.heapSize]) == multiset(h.a[..h.heapSize]) + multiset{h.a[h.heapSize]}
  {
    var r := HeapInsertAsWritten(h, newValue, bottom);
    assert r.a == h.a + [bottom];
    assert r.a[..r.heapSize] == h.a[..h.heapSize] + [h.a[h.heapSize]];
  }

  /**
   * A reachable instance: extract-max on [9, 5] leaves the list [5, 5]
   * with heap size 1; inserting 3 then yields the live elements [5, 5],
   * without 3.
   */
  lemma InsertAfterExtractLosesKey()
    ensures HeapInsertAsWritten(Heap([5, 5], 1), 3, -1) == Heap([5, 5, -1], 2)
    ensures 3 !in multiset(HeapInsertAsWritten(Heap([5, 5], 1), 3, -1).a[..2])
  {
    assert IncreaseKeyAsWritten([5, 5, -1], 1, 3) == [5, 5, -1];
    assert [5, 5, -1][..2] == [5, 5];
  }
}
