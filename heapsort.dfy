/**
 * The two heapsorts: `heapsort`, which drains a `MaxHeap` built from a
 * copy of its input, and `heapsort_inplace`, which heapifies the caller's
 * array and repeatedly swaps the root behind a shrinking heap prefix.
 */
module HeapSort {
  import opened Orders
  import opened HeapTheory
  import opened Heaps
  import opened ArrayOps

  /** Every element of `s` from index `lo` on is at most every later one. */
  ghost predicate SortedFrom(s: seq<int>, lo: nat) {
    SortedRange(s, lo, |s|)
  }

  /** Every element of `s` up to index `i` is at most every element after it. */
  ghost predicate SplitAt(s: seq<int>, i: nat) {
    forall p, q :: 0 <= p <= i < q < |s| ==> s[p] <= s[q]
  }

  /**
   * `heapsort`: a sorted permutation of `a`, which is passed by value and so
   * left as it was. Inputs of length at most one come back as they are.
   */
  method HeapSort(a: seq<int>) returns (r: seq<int>)
    ensures Sorted(r) && multiset(r) == multiset(a)
    ensures |a| <= 1 ==> r == a
  {
    if |a| <= 1 {
      return a;
    }
    IntLessIsStrictWeak();
    var heap := new Heap.Max(IntLess);
    heap.BuildHeap(a);
    var result := Drain(heap);
    r := Reverse(result);
  }

  /**
   * The root of a max-heap prefix is the largest element of the prefix.
   */
  lemma RootIsMax(s: seq<int>, size: nat)
    requires size <= |s| && HeapFrom(IntMax, s, size, 0)
    ensures forall j :: 0 <= j < size ==> s[j] <= s[0]
  {
    IntLessIsStrictWeak();
    forall j | 0 <= j < size
      ensures s[j] <= s[0]
    {
      RootIsExtreme(IntMax, s, size, j);
    }
  }

  /**
   * Swapping the root of the heap prefix `[0, i]` with its last element
   * leaves every node of the shorter prefix `[0, i)` ordered except the root.
   */
  lemma ShrinkAfterSwap(s: seq<int>, i: nat)
    requires 0 < i < |s| && HeapFrom(IntMax, s, i + 1, 0)
    ensures HeapFrom(IntMax, s[0 := s[i]][i := s[0]], i, 1)
  {
    var t := s[0 := s[i]][i := s[0]];
    forall j: nat | 1 <= j < i
      ensures NodeOrdered(IntMax, t, i, j)
    {
      assert NodeOrdered(IntMax, s, i + 1, j);
    }
  }

  /**
   * The comparisons of one round of `_sift_down_inplace`: the index of the
   * largest of `a[index]` and its children inside the first `heapSize`
   * cells, preferring `index`, then the left child, on ties.
   */
  method Largest(a: array<int>, index: nat, heapSize: nat) returns (largest: nat)
    requires heapSize <= a.Length
    ensures largest == index || ((largest == 2 * index + 1 || largest == 2 * index + 2) && largest < heapSize)
    ensures largest != index ==> a[largest] > a[index]
    ensures forall c :: (c == 2 * index + 1 || c == 2 * index + 2) && c < heapSize && largest < a.Length ==> a[c] <= a[largest]
    ensures largest == MoreExtreme(IntMax, a[..], heapSize, index)
  {
    largest := index;
    var left := 2 * index + 1;
    var right := 2 * index + 2;

    if left < heapSize && a[left] > a[largest] {
      largest := left;
    }
    if right < heapSize && a[right] > a[largest] {
      largest := right;
    }
  }

  /**
   * `_sift_down_inplace`: swaps `a[index]` with its larger child inside the
   * first `heapSize` cells while that child is larger. It permutes those
   * cells and touches no cell outside the subtree rooted at `index` or from
   * `heapSize` on. When every node of that subtree but `index` was ordered,
   * the subtree is a max-heap afterwards; when every node after `index` was
   * ordered, every node from `index` on is ordered afterwards.
   */
  method SiftDownInPlace(a: array<int>, index: nat, heapSize: nat)
    requires heapSize <= a.Length
    modifies a
    ensures multiset(a[..heapSize]) == old(multiset(a[..heapSize]))
    ensures a[heapSize..] == old(a[heapSize..])
    ensures SameOutside(a[..], old(a[..]), index)
    ensures old(SubtreeHeapBut(IntMax, a[..], heapSize, index, index)) ==> SubtreeHeap(IntMax, a[..], heapSize, index)
    ensures old(HeapFrom(IntMax, a[..], heapSize, index + 1)) ==> HeapFrom(IntMax, a[..], heapSize, index)
  {
    IntLessIsStrictWeak();
    ghost var s0 := a[..];
    ghost var restores := SubtreeHeapBut(IntMax, s0, heapSize, index, index);
    if restores {
      SiftDownStart(IntMax, s0, heapSize, index);
    }
    ghost var start := index;
    var index := index;
    while true
      invariant InSubtree(start, index) && |a[..]| == |s0|
      invariant multiset(a[..][..heapSize]) == multiset(s0[..heapSize])
      invariant a[..][heapSize..] == s0[heapSize..]
      invariant SameOutside(a[..], s0, start)
      invariant restores ==> SiftDownInv(IntMax, a[..], heapSize, start, index)
      decreases heapSize - index
    {
      ghost var s := a[..];
      var largest := Largest(a, index, heapSize);
      SiftDownRound(IntMax, s, heapSize, start, index);
      if largest == index {
        break;
      }
      SwapInSubtree(s, s0, start, index, largest);
      SwapPermutesRange(s, 0, heapSize, index, largest);
      Swap(a, index, largest);
      index := largest;
    }
    SiftDownDone(IntMax, s0, a[..], heapSize, start);
  }

  /**
   * `heapsort_inplace`: leaves `a` sorted ascending, holding the elements
   * it held before; arrays of length at most one are left alone.
   */
  method HeapSortInPlace(a: array<int>)
    modifies a
    ensures Sorted(a[..]) && multiset(a[..]) == old(multiset(a[..]))
    ensures a.Length <= 1 ==> a[..] == old(a[..])
  {
    var n := a.Length;
    if n <= 1 {
      return;
    }

    // Build a max-heap over the whole array, last parent first.
    var i := n / 2 - 1;
    while i >= 0
      invariant -1 <= i < n
      invariant multiset(a[..]) == old(multiset(a[..]))
      invariant HeapFrom(IntMax, a[..], n, i + 1)
    {
      assert a[..n] == a[..];
      SiftDownInPlace(a, i, n);
      assert a[..n] == a[..];
      i := i - 1;
    }

    // Move the root behind the shrinking heap prefix `[0, i]`.
    i := n - 1;
    while i > 0
      invariant 0 <= i < n
      invariant multiset(a[..]) == old(multiset(a[..]))
      invariant HeapFrom(IntMax, a[..], i + 1, 0)
      invariant SortedFrom(a[..], i + 1)
      invariant SplitAt(a[..], i)
    {
      ExtractStep(a, i);
      i := i - 1;
    }
  }

  /**
   * The body of the extraction loop of `heapsort_inplace`: the root of the
   * heap prefix `[0, i]` moves to `i`, and the prefix `[0, i)` is a heap
   * again. The sorted suffix grows by one and the array stays a permutation.
   */
  method ExtractStep(a: array<int>, i: nat)
    requires 0 < i < a.Length
    requires HeapFrom(IntMax, a[..], i + 1, 0)
    requires SortedFrom(a[..], i + 1) && SplitAt(a[..], i)
    modifies a
    ensures multiset(a[..]) == old(multiset(a[..]))
    ensures HeapFrom(IntMax, a[..], i, 0)
    ensures SortedFrom(a[..], i) && SplitAt(a[..], i - 1)
  {
    ghost var s := a[..];
    Swap(a, 0, i);
    ghost var t := a[..];
    assert t == s[0 := s[i]][i := s[0]];
    ShrinkAfterSwap(s, i);
    SiftDownInPlace(a, 0, i);
    ExtractRound(s, t, a[..], i);
  }

  /**
   * One round of the extraction loop of `heapsort_inplace`, on values: `s`
   * has the heap prefix `[0, i]` and the sorted suffix; `t` swaps its root
   * to `i`; `u` permutes `t`'s first `i` cells. Then `u` is a permutation of
   * `s` whose sorted suffix starts one cell earlier.
   */
  lemma {:induction false} ExtractRound(s: seq<int>, t: seq<int>, u: seq<int>, i: nat)
    requires 0 < i < |s| && HeapFrom(IntMax, s, i + 1, 0)
    requires SortedFrom(s, i + 1) && SplitAt(s, i)
    requires t == s[0 := s[i]][i := s[0]]
    requires |u| == |t| && multiset(u[..i]) == multiset(t[..i])
    requires u[i..] == t[i..]
    ensures multiset(u) == multiset(s)
    ensures SortedFrom(u, i) && SplitAt(u, i - 1)
  {
    RootIsMax(s, i + 1);
    SwapPermutes(s, 0, i);
    assert u == u[..i] + u[i..] && t == t[..i] + t[i..];
    forall q | i <= q < |u|
      ensures forall k :: 0 <= k < i ==> u[k] <= u[q]
    {
      forall k | 0 <= k < i
        ensures t[k] <= u[q]
      {
        if q > i {
          assert k == 0 ==> t[k] == s[i];
        }
      }
      assert AllAtMost(t[..i], u[q]);
      BoundsPermute(u[..i], t[..i], u[q]);
    }
  }
}
