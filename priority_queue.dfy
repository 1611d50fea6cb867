/**
 * A max-priority queue kept as a binary max-heap in a growable list with a
 * logical size: the heap primitives (sift-down, build), and the queue
 * operations maximum, extract-max, increase-key and insert.
 */
module PriorityQueue {
  import opened HeapIndex

  /** The two ways a queue operation can refuse its input. */
  datatype HeapError = EmptyQueue | InvalidKeyUpdate

  /** The outcome of an operation that yields a value. */
  datatype Result<T> = Ok(value: T) | Err(error: HeapError)

  /** The outcome of an operation that yields nothing. */
  datatype Outcome = Pass | Fail(error: HeapError)

  /**
   * Storage plus a logical size. The slots [0, heapSize) are the live heap;
   * the slots at or beyond `heapSize` are leftovers that no operation reads
   * as part of the heap.
   */
  class HeapCapable {
    var a: seq<int>
    var heapSize: nat

    ghost predicate Valid()
      reads this
    {
      heapSize <= |a|
    }

    /** The live elements, as a multiset. */
    ghost function Live(): multiset<int>
      reads this
      requires Valid()
    {
      multiset(a[..heapSize])
    }

    /** A heap over the whole of `lst`, not yet arranged. */
    constructor (lst: seq<int>)
      ensures Valid() && a == lst && heapSize == |lst|
    {
      a := lst;
      heapSize := |lst|;
    }

    /**
     * Sift-down: given that the subtrees below the two children of `i` are
     * max-heaps, make the subtree rooted at `i` one, touching only live
     * slots of that subtree. Only a child strictly greater than the node is
     * swapped up, so a node that already dominates its children stays put.
     */
    method MaxHeapify(i: nat)
      requires Valid()
      requires SubHeap(a, heapSize, Left(i)) && SubHeap(a, heapSize, Right(i))
      modifies this
      ensures Valid() && heapSize == old(heapSize) && |a| == old(|a|)
      ensures SubHeap(a, heapSize, i)
      ensures Live() == old(Live())
      ensures forall k :: 0 <= k < |a| && !(k < heapSize && InSubtree(i, k)) ==> a[k] == old(a[k])
      ensures i < heapSize ==> IsLargestOfFamily(old(a), heapSize, i, a[i])
      ensures DominatesChildren(old(a), heapSize, i) ==> a == old(a)
      decreases heapSize - i
    {
      var l, r := Left(i), Right(i);
      var largest := i;
      if l < heapSize && a[l] > a[i] {
        largest := l;
      }
      if r < heapSize && a[r] > a[largest] {
        largest := r;
      }
      assert i < heapSize ==> IsLargestOfFamily(a, heapSize, i, a[largest]);
      if largest != i {
        ghost var s0 := a;
        a := a[i := a[largest]][largest := a[i]];
        ghost var s1 := a;
        SwapDownKeepsGrandchildren(s0, heapSize, i, largest);
        MaxHeapify(largest);
        SiftDownFrame(s0, s1, a, heapSize, i, largest);
        SiftDownOrdered(s0, s1, a, heapSize, i, largest);
      } else {
        SubHeapFromChildren(a, heapSize, i);
      }
    }

    /**
     * Build: arrange the live range into a max-heap by sifting down every
     * internal node, from the last one (heapSize / 2 - 1) back to the root.
     */
    method BuildMaxHeap()
      requires Valid()
      modifies this
      ensures Valid() && heapSize == old(heapSize) && |a| == old(|a|)
      ensures IsMaxHeap(a, heapSize)
      ensures Live() == old(Live())
      ensures a[heapSize..] == old(a[heapSize..])
      ensures heapSize <= 1 ==> a == old(a)
    {
      forall j | heapSize / 2 <= j
        ensures SubHeap(a, heapSize, j)
      {
        LeafIsSubHeap(a, heapSize, j);
      }
      for i := heapSize / 2 downto 0
        invariant Valid() && heapSize == old(heapSize) && |a| == old(|a|)
        invariant forall j :: i <= j ==> SubHeap(a, heapSize, j)
        invariant Live() == old(Live())
        invariant a[heapSize..] == old(a[heapSize..])
        invariant heapSize <= 1 ==> a == old(a)
      {
        ghost var s0 := a;
        MaxHeapify(i);
        SameBeyond(s0, a, heapSize);
        KeptBesideSiftDown(s0, a, heapSize, i);
      }
      SubHeapAtRootIffMaxHeap(a, heapSize);
    }

    /**
     * The largest key, which a max-heap keeps in its first slot; an empty
     * queue has none.
     */
    function Maximum(): (r: Result<int>)
      reads this
      requires Valid()
      ensures r.Err? <==> heapSize == 0
      ensures r.Err? ==> r.error == EmptyQueue
      ensures r.Ok? ==> r.value in Live()
      ensures r.Ok? && IsMaxHeap(a, heapSize) ==> forall k :: 0 <= k < heapSize ==> a[k] <= r.value
    {
      if heapSize == 0 then
        Err(EmptyQueue)
      else
        HeapRootIsMax(a, heapSize);
        assert a[0] == a[..heapSize][0];
        Ok(a[0])
    }

    /**
     * Remove and return the largest key: the last live element moves to the
     * root, the live range shrinks by one, and a sift-down from the root
     * restores the heap. The vacated slot keeps its old value.
     */
    method ExtractMax() returns (r: Result<int>)
      requires Valid() && IsMaxHeap(a, heapSize)
      modifies this
      ensures Valid() && IsMaxHeap(a, heapSize) && |a| == old(|a|)
      ensures old(heapSize) == 0 ==> r == Err(EmptyQueue) && a == old(a) && heapSize == 0
      ensures old(heapSize) > 0 ==>
        && r == Ok(old(a[0]))
        && (forall k :: 0 <= k < old(heapSize) ==> old(a[k]) <= r.value)
        && heapSize == old(heapSize) - 1
        && Live() == old(Live()) - multiset{old(a[0])}
        && a[heapSize..] == old(a)[heapSize..]
    {
      if heapSize < 1 {
        return Err(EmptyQueue);
      }
      HeapRootIsMax(a, heapSize);
      ghost var s0 := a;
      var max := a[0];
      a := a[0 := a[heapSize - 1]];
      heapSize := heapSize - 1;
      MoveLastToRoot(s0, a, heapSize);
      MaxHeapify(0);
      SameBeyond(s0, a, heapSize);
      SubHeapAtRootIffMaxHeap(a, heapSize);
      r := Ok(max);
    }

    /**
     * Sift-up: with the heap intact except that the value at `i` may exceed
     * its parent's, swap it with its parent while the parent is smaller.
     */
    method SiftUp(i: nat)
      requires Valid() && i < heapSize && HeapExceptAt(a, heapSize, i)
      modifies this
      ensures Valid() && heapSize == old(heapSize) && |a| == old(|a|)
      ensures IsMaxHeap(a, heapSize)
      ensures Live() == old(Live())
      ensures a[heapSize..] == old(a[heapSize..])
    {
      var index: nat := i;
      while index > 0 && a[Parent(index)] < a[index]
        invariant Valid() && heapSize == old(heapSize) && |a| == old(|a|)
        invariant index < heapSize && HeapExceptAt(a, heapSize, index)
        invariant Live() == old(Live())
        invariant a[heapSize..] == old(a[heapSize..])
        decreases index
      {
        ghost var s0 := a;
        var p := Parent(index);
        a := a[index := a[p]][p := a[index]];
        SwapUpStep(s0, a, heapSize, index);
        index := p;
      }
      assert ParentDominates(a, heapSize);
      MaxHeapIffParentDominates(a, heapSize);
    }

    /**
     * Raise the key at live slot `index` to `newValue` and move it up to its
     * place. A smaller key is refused before anything is written.
     */
    method IncreaseKey(index: nat, newValue: int) returns (r: Outcome)
      requires Valid() && IsMaxHeap(a, heapSize) && index < heapSize
      modifies this
      ensures Valid() && heapSize == old(heapSize) && |a| == old(|a|)
      ensures a[heapSize..] == old(a[heapSize..])
      ensures newValue < old(a[index]) ==> r == Fail(InvalidKeyUpdate) && a == old(a)
      ensures newValue >= old(a[index]) ==>
        && r == Pass
        && IsMaxHeap(a, heapSize)
        && Live() == old(Live()) - multiset{old(a[index])} + multiset{newValue}
    {
      if newValue < a[index] {
        return Fail(InvalidKeyUpdate);
      }
      ghost var s0 := a;
      a := a[index := newValue];
      assert a[..heapSize] == s0[..heapSize][index := newValue];
      MaxHeapIffParentDominates(s0, heapSize);
      RaisedKeyBreaksOnlyUpward(s0, a, heapSize, index);
      SiftUp(index);
      r := Pass;
    }

    /**
     * Insert `newValue`: the live range grows by one slot (the storage grows
     * when it is full), the value is written there and moved up to its place.
     */
    method HeapInsert(newValue: int)
      requires Valid() && IsMaxHeap(a, heapSize)
      modifies this
      ensures Valid() && heapSize == old(heapSize) + 1
      ensures IsMaxHeap(a, heapSize)
      ensures Live() == old(Live()) + multiset{newValue}
      ensures |a| == if old(heapSize) == old(|a|) then old(|a|) + 1 else old(|a|)
      ensures old(heapSize) < old(|a|) ==> a[heapSize..] == old(a)[heapSize..]
    {
      ghost var s0 := a;
      if heapSize == |a| {
        a := a + [newValue];
      } else {
        a := a[heapSize := newValue];
      }
      PlaceAfterLive(s0, a, heapSize, newValue);
      heapSize := heapSize + 1;
      SiftUp(heapSize - 1);
    }
  }

  /**
   * Swapping `i` with its child `m` keeps the live multiset, and the
   * subtrees below `m`'s children, untouched by the swap, stay max-heaps:
   * the precondition of the recursive sift-down at `m`.
   */
  lemma SwapDownKeepsGrandchildren(s0: seq<int>, n: nat, i: nat, m: nat)
    requires n <= |s0| && (m == Left(i) || m == Right(i)) && m < n
    requires SubHeap(s0, n, m)
    ensures var s1 := s0[i := s0[m]][m := s0[i]];
      && multiset(s1[..n]) == multiset(s0[..n])
      && SubHeap(s1, n, Left(m)) && SubHeap(s1, n, Right(m))
  {
    var s1 := s0[i := s0[m]][m := s0[i]];
    SwapKeepsLive(s0, n, i, m);
    SubHeapOfDescendant(s0, n, m, Left(m));
    SubHeapOfDescendant(s0, n, m, Right(m));
    SubHeapUnchanged(s0, s1, n, Left(m));
    SubHeapUnchanged(s0, s1, n, Right(m));
  }

  /**
   * MaxHeapify after its recursive call changes nothing outside the subtree
   * of `i`: `s0` is the sequence on entry, `s1` after swapping `i` with its
   * child `m`, and `s2` after sifting down from `m`.
   */
  lemma SiftDownFrame(s0: seq<int>, s1: seq<int>, s2: seq<int>, n: nat, i: nat, m: nat)
    requires n <= |s0| == |s1| == |s2|
    requires (m == Left(i) || m == Right(i)) && m < n
    requires s1 == s0[i := s0[m]][m := s0[i]]
    requires forall k :: 0 <= k < |s1| && !(k < n && InSubtree(m, k)) ==> s2[k] == s1[k]
    ensures forall k :: 0 <= k < |s0| && !(k < n && InSubtree(i, k)) ==> s2[k] == s0[k]
    ensures s2[i] == s0[m]
  {
    assert InSubtree(i, m) && InSubtree(i, i);
    forall k | 0 <= k < |s0| && !(k < n && InSubtree(i, k))
      ensures s2[k] == s0[k]
    {
      if k < n && InSubtree(m, k) {
        SubtreeTransitive(i, m, k);
      }
    }
  }

  /**
   * A sift-down that swaps `i` with its child `m` and then works below `m`
   * leaves every live slot under the other child `o` as it was.
   */
  lemma UntouchedBesideChild(s0: seq<int>, s1: seq<int>, s2: seq<int>, n: nat, i: nat, m: nat, o: nat, k: nat)
    requires n <= |s0| == |s1| == |s2|
    requires (m == Left(i) && o == Right(i)) || (m == Right(i) && o == Left(i))
    requires m < n && s1 == s0[i := s0[m]][m := s0[i]]
    requires forall j :: 0 <= j < |s1| && !(j < n && InSubtree(m, j)) ==> s2[j] == s1[j]
    requires k < n && InSubtree(o, k)
    ensures s2[k] == s0[k]
  {
    ChildSubtreesDisjoint(i, m, o, k);
    assert k >= o > i;
    assert k != m;
  }

  /**
   * MaxHeapify after its recursive call leaves a max-heap at `i`: the
   * largest child's value sits at `i`, the subtree of `m` is a heap whose
   * root came from no larger a family, and the other child's subtree is
   * untouched.
   */
  lemma SiftDownOrdered(s0: seq<int>, s1: seq<int>, s2: seq<int>, n: nat, i: nat, m: nat)
    requires n <= |s0| == |s1| == |s2|
    requires (m == Left(i) || m == Right(i)) && m < n
    requires SubHeap(s0, n, Left(i)) && SubHeap(s0, n, Right(i))
    requires IsLargestOfFamily(s0, n, i, s0[m])
    requires s1 == s0[i := s0[m]][m := s0[i]]
    requires SubHeap(s2, n, m) && IsLargestOfFamily(s1, n, m, s2[m])
    requires s2[i] == s0[m]
    requires forall k :: 0 <= k < |s1| && !(k < n && InSubtree(m, k)) ==> s2[k] == s1[k]
    ensures SubHeap(s2, n, i)
  {
    var o := if m == Left(i) then Right(i) else Left(i);
    assert SubHeap(s0, n, m) && SubHeap(s0, n, o);
    assert s2[m] <= s0[m] by {
      if Left(m) < n {
        assert InSubtree(m, Parent(Left(m)));
      }
      if Right(m) < n {
        assert InSubtree(m, Parent(Right(m)));
      }
    }
    forall c | 0 < c < n && InSubtree(i, Parent(c))
      ensures s2[Parent(c)] >= s2[c]
    {
      var p := Parent(c);
      if p == i {
        if c != m {
          assert c == o;
          UntouchedBesideChild(s0, s1, s2, n, i, m, o, c);
        }
      } else {
        BelowAChild(i, p);
        if !InSubtree(m, p) {
          assert InSubtree(o, c);
          UntouchedBesideChild(s0, s1, s2, n, i, m, o, p);
          UntouchedBesideChild(s0, s1, s2, n, i, m, o, c);
        }
      }
    }
  }

  /**
   * After a sift-down at `i`, every subtree rooted beyond `i` that was a
   * max-heap still is one: it lies either inside the subtree of `i` or
   * apart from it.
   */
  lemma KeptBesideSiftDown(s0: seq<int>, s2: seq<int>, n: nat, i: nat)
    requires n <= |s0| == |s2|
    requires forall j :: i < j ==> SubHeap(s0, n, j)
    requires SubHeap(s2, n, i)
    requires forall k :: 0 <= k < |s0| && !(k < n && InSubtree(i, k)) ==> s2[k] == s0[k]
    ensures forall j :: i <= j ==> SubHeap(s2, n, j)
  {
    forall j | i < j
      ensures SubHeap(s2, n, j)
    {
      if InSubtree(i, j) {
        SubHeapOfDescendant(s2, n, i, j);
      } else {
        forall k | 0 <= k < n && InSubtree(j, k)
          ensures s2[k] == s0[k]
        {
          if InSubtree(i, k) {
            SubtreesNest(i, j, k);
          }
        }
        SubHeapUnchanged(s0, s2, n, j);
      }
    }
  }

  /** Two sequences of one length that agree from slot `n` on have the same tail. */
  lemma SameBeyond(s: seq<int>, t: seq<int>, n: nat)
    requires n <= |s| == |t|
    requires forall k :: n <= k < |s| ==> t[k] == s[k]
    ensures t[n..] == s[n..]
  {
  }

  /**
   * Moving the last live element of a max-heap of n + 1 elements to the
   * root and shrinking the live range to n removes one copy of the old root
   * from the live elements and keeps both subtrees below the root max-heaps.
   */
  lemma MoveLastToRoot(s0: seq<int>, s1: seq<int>, n: nat)
    requires n < |s0| && IsMaxHeap(s0, n + 1) && s1 == s0[0 := s0[n]]
    ensures multiset(s1[..n]) == multiset(s0[..n + 1]) - multiset{s0[0]}
    ensures SubHeap(s1, n, Left(0)) && SubHeap(s1, n, Right(0))
  {
    assert multiset(s1[..n]) == multiset(s0[..n + 1]) - multiset{s0[0]} by {
      assert s0[..n + 1] == s0[..n] + [s0[n]];
      if n > 0 {
        assert s1[..n] == s0[..n][0 := s0[n]];
      }
    }
    SubHeapAtRootIffMaxHeap(s0, n + 1);
    forall r: nat | 0 < r
      ensures SubHeap(s1, n, r)
    {
      forall c | 0 < c < n && InSubtree(r, Parent(c))
        ensures s1[Parent(c)] >= s1[c]
      {
        RootReachesAll(Parent(c));
        assert Parent(c) >= r > 0;
      }
    }
  }

  /** One swap of the sift-up loop moves the single violation one level up. */
  lemma SwapUpStep(s0: seq<int>, s1: seq<int>, n: nat, i: nat)
    requires n <= |s0| == |s1| && 0 < i < n
    requires HeapExceptAt(s0, n, i) && s0[Parent(i)] < s0[i]
    requires s1 == s0[i := s0[Parent(i)]][Parent(i) := s0[i]]
    ensures HeapExceptAt(s1, n, Parent(i))
    ensures multiset(s1[..n]) == multiset(s0[..n]) && s1[n..] == s0[n..]
  {
    var p := Parent(i);
    SwapKeepsLive(s0, n, i, p);
    forall c | 0 < c < n && c != p
      ensures s1[Parent(c)] >= s1[c]
    {
      if c == i {
      } else if Parent(c) == p {
        assert s0[p] >= s0[c];
      } else if Parent(c) == i {
        assert s0[p] >= s0[c];
      } else {
        assert c != i && Parent(c) != i && Parent(c) != p;
      }
    }
    if p > 0 {
      forall c | 0 < c < n && Parent(c) == p
        ensures s1[Parent(p)] >= s1[c]
      {
        assert s0[Parent(p)] >= s0[p];
      }
    }
  }

  /**
   * Raising the key at `i` in a max-heap leaves at most the link from `i`
   * to its parent out of order.
   */
  lemma RaisedKeyBreaksOnlyUpward(s0: seq<int>, s1: seq<int>, n: nat, i: nat)
    requires n <= |s0| == |s1| && i < n
    requires ParentDominates(s0, n)
    requires s1 == s0[i := s1[i]] && s1[i] >= s0[i]
    ensures HeapExceptAt(s1, n, i)
  {
    forall c | 0 < c < n && c != i
      ensures s1[Parent(c)] >= s1[c]
    {
      assert s0[Parent(c)] >= s0[c];
    }
    if i > 0 {
      forall c | 0 < c < n && Parent(c) == i
        ensures s1[Parent(i)] >= s1[c]
      {
        assert s0[Parent(i)] >= s0[i] >= s0[c];
      }
    }
  }

  /**
   * Writing a key into the slot just after the live range of a max-heap
   * leaves at most the link from that slot to its parent out of order, and
   * adds exactly that key to the live elements.
   */
  lemma PlaceAfterLive(s0: seq<int>, s1: seq<int>, n: nat, v: int)
    requires n <= |s0| && IsMaxHeap(s0, n)
    requires if n == |s0| then s1 == s0 + [v] else s1 == s0[n := v]
    ensures n < |s1| && HeapExceptAt(s1, n + 1, n)
    ensures multiset(s1[..n + 1]) == multiset(s0[..n]) + multiset{v}
    ensures n < |s0| ==> s1[n + 1..] == s0[n + 1..]
  {
    assert s1[..n] == s0[..n];
    assert s1[..n + 1] == s1[..n] + [v];
    MaxHeapIffParentDominates(s0, n);
    forall c | 0 < c < n + 1 && c != n
      ensures s1[Parent(c)] >= s1[c]
    {
      assert s1[c] == s1[..n][c] == s0[c];
      assert s1[Parent(c)] == s1[..n][Parent(c)] == s0[Parent(c)];
    }
  }

  /**
   * The queue object: a heap built from an initial list on construction.
   */
  class MaxPriorityQueue {
    var heap: HeapCapable

    constructor (items: seq<int>)
      ensures fresh(heap) && heap.Valid() && heap.heapSize == |items| && |heap.a| == |items|
      ensures IsMaxHeap(heap.a, heap.heapSize)
      ensures heap.Live() == multiset(items)
    {
      var h := new HeapCapable(items);
      assert h.a[..h.heapSize] == items;
      h.BuildMaxHeap();
      heap := h;
    }
  }
}
