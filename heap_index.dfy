/**
 * Index arithmetic of a 0-indexed, array-backed binary heap, the max-heap
 * property over the first `n` slots, and the facts about subtrees that the
 * sift-down and build proofs rely on.
 */
module HeapIndex {

  /** Index of the left child of node `i`. */
  function Left(i: nat): (l: nat)
    ensures Parent(l) == i
    ensures l > i
  {
    2 * i + 1
  }

  /** Index of the right child of node `i`; it sits just after the left child. */
  function Right(i: nat): (r: nat)
    ensures Parent(r) == i
    ensures r == Left(i) + 1
  {
    2 * (i + 1)
  }

  /**
   * Index of the parent of node `i`, rounding (i - 1) / 2 towards minus
   * infinity, so that the parent of the root is -1. Dafny's `/` on `int`
   * is Euclidean, which agrees with floor division for the divisor 2.
   */
  function Parent(i: int): (p: int)
    ensures i == 2 * p + 1 || i == 2 * p + 2
    ensures i > 0 ==> 0 <= p < i
    ensures i == 0 ==> p == -1
  {
    (i - 1) / 2
  }

  /** `k` is `r` itself or one of its descendants. */
  ghost predicate InSubtree(r: nat, k: nat)
    decreases k
  {
    k == r || (k > r && InSubtree(r, Parent(k)))
  }

  /** Node `i` is at least as large as each of its children that is live (below `n`). */
  ghost predicate DominatesChildren(s: seq<int>, n: nat, i: nat)
    requires n <= |s|
  {
    && (Left(i) < n ==> s[i] >= s[Left(i)])
    && (Right(i) < n ==> s[i] >= s[Right(i)])
  }

  /** The max-heap property over the live range [0, n). */
  ghost predicate IsMaxHeap(s: seq<int>, n: nat)
    requires n <= |s|
  {
    forall i :: 0 <= i < n ==> DominatesChildren(s, n, i)
  }

  /** The same property, stated from the child's side: no live node exceeds its parent. */
  ghost predicate ParentDominates(s: seq<int>, n: nat)
    requires n <= |s|
  {
    forall c :: 0 < c < n ==> s[Parent(c)] >= s[c]
  }

  /** The live part of the subtree rooted at `r` is a max-heap. */
  ghost predicate SubHeap(s: seq<int>, n: nat, r: nat)
    requires n <= |s|
  {
    forall c :: 0 < c < n && InSubtree(r, Parent(c)) ==> s[Parent(c)] >= s[c]
  }

  /**
   * `v` is the largest of `s[i]` and its live children, and is one of them:
   * the value a sift-down leaves at `i`.
   */
  ghost predicate IsLargestOfFamily(s: seq<int>, n: nat, i: nat, v: int)
    requires i < n <= |s|
  {
    && v >= s[i]
    && (Left(i) < n ==> v >= s[Left(i)])
    && (Right(i) < n ==> v >= s[Right(i)])
    && (v == s[i] || (Left(i) < n && v == s[Left(i)]) || (Right(i) < n && v == s[Right(i)]))
  }

  /**
   * Every live slot except `i` is no larger than its parent, and, when `i`
   * has a parent, that parent dominates the children of `i`: the state of a
   * heap in which only the value at `i` has grown.
   */
  ghost predicate HeapExceptAt(s: seq<int>, n: nat, i: nat)
    requires n <= |s|
  {
    && (forall c :: 0 < c < n && c != i ==> s[Parent(c)] >= s[c])
    && (i > 0 ==> forall c :: 0 < c < n && Parent(c) == i ==> s[Parent(i)] >= s[c])
  }

  /** Swapping two live slots keeps the multiset of the live range and every slot beyond it. */
  lemma SwapKeepsLive(s: seq<int>, n: nat, i: nat, j: nat)
    requires i < n && j < n && n <= |s|
    ensures multiset(s[i := s[j]][j := s[i]][..n]) == multiset(s[..n])
    ensures s[i := s[j]][j := s[i]][n..] == s[n..]
  {
    assert s[i := s[j]][j := s[i]][..n] == s[..n][i := s[j]][j := s[i]];
  }

  /** The two statements of the heap property agree. */
  lemma MaxHeapIffParentDominates(s: seq<int>, n: nat)
    requires n <= |s|
    ensures IsMaxHeap(s, n) <==> ParentDominates(s, n)
  {
    if IsMaxHeap(s, n) {
      forall c | 0 < c < n
        ensures s[Parent(c)] >= s[c]
      {
        assert DominatesChildren(s, n, Parent(c));
      }
    }
    if ParentDominates(s, n) {
      forall i | 0 <= i < n
        ensures DominatesChildren(s, n, i)
      {
        if Left(i) < n {
          assert s[Parent(Left(i))] >= s[Left(i)];
        }
        if Right(i) < n {
          assert s[Parent(Right(i))] >= s[Right(i)];
        }
      }
    }
  }

  /** Every node lies in the subtree of the root. */
  lemma {:induction false} RootReachesAll(k: nat)
    ensures InSubtree(0, k)
    decreases k
  {
    if k > 0 {
      RootReachesAll(Parent(k));
    }
  }

  /** The heap rooted at 0 is the whole heap. */
  lemma SubHeapAtRootIffMaxHeap(s: seq<int>, n: nat)
    requires n <= |s|
    ensures SubHeap(s, n, 0) <==> IsMaxHeap(s, n)
  {
    forall c | 0 < c < n
      ensures InSubtree(0, Parent(c))
    {
      RootReachesAll(Parent(c));
    }
    MaxHeapIffParentDominates(s, n);
  }

  /** A descendant of a descendant of `x` is a descendant of `x`. */
  lemma {:induction false} SubtreeTransitive(x: nat, y: nat, k: nat)
    requires InSubtree(x, y) && InSubtree(y, k)
    ensures InSubtree(x, k)
    decreases k
  {
    if k != y {
      SubtreeTransitive(x, y, Parent(k));
    }
  }

  /** Two subtrees that share a node are nested: one root lies below the other. */
  lemma {:induction false} SubtreesNest(x: nat, y: nat, k: nat)
    requires InSubtree(x, k) && InSubtree(y, k)
    ensures InSubtree(x, y) || InSubtree(y, x)
    decreases k
  {
    if k != x && k != y {
      SubtreesNest(x, y, Parent(k));
    }
  }

  /** A proper descendant of `i` lies below its left or its right child. */
  lemma {:induction false} BelowAChild(i: nat, k: nat)
    requires InSubtree(i, k) && k != i
    ensures InSubtree(Left(i), k) || InSubtree(Right(i), k)
    decreases k
  {
    var p := Parent(k);
    if p != i {
      BelowAChild(i, p);
    } else {
      assert k == Left(i) || k == Right(i);
    }
  }

  /** The subtrees of the two children `m` and `o` of `i` share no node. */
  lemma ChildSubtreesDisjoint(i: nat, m: nat, o: nat, k: nat)
    requires (m == Left(i) && o == Right(i)) || (m == Right(i) && o == Left(i))
    requires InSubtree(o, k)
    ensures !InSubtree(m, k)
  {
    assert !InSubtree(Left(i), Right(i)) by {
      assert Parent(Right(i)) == i < Left(i);
    }
    assert !InSubtree(Right(i), Left(i));
    if InSubtree(m, k) {
      SubtreesNest(m, o, k);
    }
  }

  /** A node none of whose children is live roots a (one-node) max-heap. */
  lemma LeafIsSubHeap(s: seq<int>, n: nat, r: nat)
    requires n <= |s| && Left(r) >= n
    ensures SubHeap(s, n, r)
  {
  }

  /** A node that dominates its live children, over two max-heap subtrees, roots a max-heap. */
  lemma SubHeapFromChildren(s: seq<int>, n: nat, i: nat)
    requires n <= |s| && DominatesChildren(s, n, i)
    requires SubHeap(s, n, Left(i)) && SubHeap(s, n, Right(i))
    ensures SubHeap(s, n, i)
  {
    forall c | 0 < c < n && InSubtree(i, Parent(c))
      ensures s[Parent(c)] >= s[c]
    {
      if Parent(c) != i {
        BelowAChild(i, Parent(c));
      }
    }
  }

  /** Every subtree of a max-heap subtree is a max-heap. */
  lemma SubHeapOfDescendant(s: seq<int>, n: nat, r: nat, j: nat)
    requires n <= |s| && SubHeap(s, n, r) && InSubtree(r, j)
    ensures SubHeap(s, n, j)
  {
    forall c | 0 < c < n && InSubtree(j, Parent(c))
      ensures s[Parent(c)] >= s[c]
    {
      SubtreeTransitive(r, j, Parent(c));
    }
  }

  /** A subtree whose live slots are unchanged stays a max-heap. */
  lemma SubHeapUnchanged(s: seq<int>, t: seq<int>, n: nat, r: nat)
    requires n <= |s| && n <= |t| && SubHeap(s, n, r)
    requires forall k :: 0 <= k < n && InSubtree(r, k) ==> t[k] == s[k]
    ensures SubHeap(t, n, r)
  {
    forall c | 0 < c < n && InSubtree(r, Parent(c))
      ensures t[Parent(c)] >= t[c]
    {
      assert InSubtree(r, c);
    }
  }

  /** The root of a max-heap subtree is at least every live node below it. */
  lemma {:induction false} SubHeapRootIsMax(s: seq<int>, n: nat, r: nat, k: nat)
    requires n <= |s| && SubHeap(s, n, r) && InSubtree(r, k) && k < n
    ensures s[r] >= s[k]
    decreases k
  {
    if k != r {
      SubHeapRootIsMax(s, n, r, Parent(k));
    }
  }

  /** The first slot of a non-empty max-heap holds a largest live element. */
  lemma HeapRootIsMax(s: seq<int>, n: nat)
    requires 0 < n <= |s|
    ensures IsMaxHeap(s, n) ==> forall k :: 0 <= k < n ==> s[0] >= s[k]
  {
    if IsMaxHeap(s, n) {
      SubHeapAtRootIffMaxHeap(s, n);
      forall k | 0 <= k < n
        ensures s[0] >= s[k]
      {
        RootReachesAll(k);
        SubHeapRootIsMax(s, n, 0, k);
      }
    }
  }
}
