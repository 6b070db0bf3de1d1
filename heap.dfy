/**
 * The array-backed binary heap (`Heap`, with `MinHeap` and `MaxHeap` as
 * its two orderings). The Python list `self.heap` is the sequence field
 * `heap`; every swap reassigns it.
 */
module Heaps {
  import opened Orders
  import opened HeapTheory
  import opened ArrayOps

  class Heap<T(!new)> {
    /** `self.heap`: the implicit complete binary tree. */
    var heap: seq<T>
    /** The element comparison and `self.is_min`, fixed for the heap's lifetime. */
    const order: Order<T>

    /** The comparator is a strict weak order and the heap property holds. */
    ghost predicate Valid()
      reads this
    {
      StrictWeakOrder(order.lt) && HeapProp(order, heap)
    }

    /** `Heap(is_min)`: an empty heap. */
    constructor (lt: (T, T) -> bool, isMin: bool)
      requires StrictWeakOrder(lt)
      ensures Valid() && heap == [] && order == Order(lt, isMin)
    {
      heap := [];
      order := Order(lt, isMin);
    }

    /** `MinHeap()` */
    constructor Min(lt: (T, T) -> bool)
      requires StrictWeakOrder(lt)
      ensures Valid() && heap == [] && order == Order(lt, true)
    {
      heap := [];
      order := Order(lt, true);
    }

    /** `MaxHeap()` */
    constructor Max(lt: (T, T) -> bool)
      requires StrictWeakOrder(lt)
      ensures Valid() && heap == [] && order == Order(lt, false)
    {
      heap := [];
      order := Order(lt, false);
    }

    /**
     * `_sift_up`: swaps the element at `index` with its parent while it sits
     * above the parent. It only permutes; when every node but `index` was in
     * place, the heap property holds afterwards.
     */
    method SiftUp(index: nat)
      requires StrictWeakOrder(order.lt)
      requires index < |heap| || index == 0
      modifies this
      ensures multiset(heap) == old(multiset(heap)) && |heap| == old(|heap|)
      ensures old(SiftUpInv(order, heap, index)) ==> HeapProp(order, heap)
    {
      ghost var restores := SiftUpInv(order, heap, index);
      var index: nat := index;
      var parent := Parent(index);
      while index > 0 && order.Compare(heap[index], heap[parent])
        invariant index < |heap| || index == 0
        invariant parent == Parent(index)
        invariant multiset(heap) == old(multiset(heap)) && |heap| == old(|heap|)
        invariant restores ==> SiftUpInv(order, heap, index)
        decreases index
      {
        if restores {
          SiftUpStep(order, heap, index);
        }
        SwapPermutes(heap, index, parent);
        heap := heap[index := heap[parent]][parent := heap[index]];
        index := parent;
        parent := Parent(index);
      }
      if restores {
        SiftUpStop(order, heap, index);
      }
    }

    /**
     * `_sift_down`: swaps the element at `index` with its more extreme child
     * while that child sits above it. It only permutes, and only inside the
     * subtree rooted at `index`. When every node of that subtree but `index`
     * was ordered, the subtree is a heap afterwards; when every node after
     * `index` was ordered, every node from `index` on is ordered afterwards.
     */
    method SiftDown(index: nat)
      requires StrictWeakOrder(order.lt)
      modifies this
      ensures multiset(heap) == old(multiset(heap)) && |heap| == old(|heap|)
      ensures SameOutside(heap, old(heap), index)
      ensures old(SubtreeHeapBut(order, heap, |heap|, index, index)) ==> SubtreeHeap(order, heap, |heap|, index)
      ensures old(HeapFrom(order, heap, |heap|, index + 1)) ==> HeapFrom(order, heap, |heap|, index)
    {
      ghost var s0 := heap;
      ghost var restores := SubtreeHeapBut(order, heap, |heap|, index, index);
      var size := |heap|;
      if restores {
        SiftDownStart(order, heap, size, index);
      }
      ghost var start := index;
      var index := index;
      while true
        invariant |heap| == size && InSubtree(start, index)
        invariant multiset(heap) == multiset(s0)
        invariant SameOutside(heap, s0, start)
        invariant restores ==> SiftDownInv(order, heap, size, start, index)
        decreases size - index
      {
        var extreme := MoreExtreme(order, heap, size, index);
        ghost var s := heap;
        SiftDownRound(order, s, size, start, index);
        if extreme == index {
          break;
        }
        SwapInSubtree(s, s0, start, index, extreme);
        SwapPermutes(s, index, extreme);
        heap := heap[index := heap[extreme]][extreme := heap[index]];
        assert heap == s[index := s[extreme]][extreme := s[index]];
        index := extreme;
      }
      SiftDownDone(order, s0, heap, size, start);
    }

    /** `insert`: the new contents are the old ones plus `value`, still a heap. */
    method Insert(value: T)
      requires Valid()
      modifies this
      ensures Valid()
      ensures multiset(heap) == old(multiset(heap)) + multiset{value}
      ensures |heap| == old(|heap|) + 1
    {
      AppendStartsSiftUp(order, heap, value);
      heap := heap + [value];
      SiftUp(|heap| - 1);
    }

    /**
     * `extract`: on an empty heap raises `IndexError` and changes nothing;
     * otherwise removes and returns the old root, which no remaining
     * element sits above (the minimum of a min-heap, the maximum of a max-heap).
     */
    method Extract() returns (r: Result<T>)
      requires Valid()
      modifies this
      ensures Valid()
      ensures old(heap) == [] ==> r == Err(IndexError) && heap == old(heap)
      ensures old(heap) != [] ==>
        && r == Ok(old(heap)[0])
        && multiset(heap) == old(multiset(heap)) - multiset{r.value}
        && |heap| == old(|heap|) - 1
        && (forall x :: x in old(heap) ==> !order.Compare(x, r.value))
    {
      if |heap| == 0 {
        return Err(IndexError);
      }
      RootAboveAll(order, heap);
      if |heap| == 1 {
        r := Ok(heap[0]);
        heap := [];
        return;
      }
      var root := heap[0];
      LastToRoot(order, heap);
      var last := heap[|heap| - 1];
      heap := heap[..|heap| - 1];
      heap := heap[0 := last];
      SiftDown(0);
      r := Ok(root);
    }

    /** `peek`: the root without removing it, or `IndexError` on an empty heap. */
    function Peek(): (r: Result<T>)
      requires Valid()
      reads this
      ensures heap == [] ==> r == Err(IndexError)
      ensures heap != [] ==> r == Ok(heap[0]) && forall x :: x in heap ==> !order.Compare(x, r.value)
    {
      if |heap| == 0 then Err(IndexError)
      else
        RootAboveAll(order, heap);
        Ok(heap[0])
    }

    /**
     * `build_heap`: replaces the contents with a copy of `elements` (the source's `array`) and
     * heapifies bottom-up; the result is a heap holding exactly the
     * elements of `elements`.
     */
    method BuildHeap(elements: seq<T>)
      requires Valid()
      modifies this
      ensures Valid()
      ensures multiset(heap) == multiset(elements) && |heap| == |elements|
    {
      heap := elements;
      var i := |heap| / 2 - 1;
      while i >= 0
        invariant -1 <= i < |heap|
        invariant multiset(heap) == multiset(elements) && |heap| == |elements|
        invariant HeapFrom(order, heap, |heap|, i + 1)
      {
        SiftDown(i);
        i := i - 1;
      }
    }

    /** `size` */
    function Size(): (n: nat)
      reads this
      ensures n == |heap|
    {
      |heap|
    }

    /** `is_empty` */
    function IsEmpty(): (b: bool)
      reads this
      ensures b <==> Size() == 0
    {
      |heap| == 0
    }

    /** `is_valid_heap`: scans every parent/child pair; true exactly when the heap property holds. */
    method IsValidHeap() returns (ok: bool)
      ensures ok <==> HeapProp(order, heap)
    {
      for i := 0 to |heap|
        invariant forall j: nat :: j < i ==> NodeOrdered(order, heap, |heap|, j)
      {
        var left := LeftChild(i);
        var right := RightChild(i);
        ghost var ordered := NodeOrdered(order, heap, |heap|, i);
        if left < |heap| {
          if order.isMin && order.lt(heap[left], heap[i]) {
            assert !ordered;
            return false;
          }
          if !order.isMin && order.lt(heap[i], heap[left]) {
            assert !ordered;
            return false;
          }
        }
        if right < |heap| {
          if order.isMin && order.lt(heap[right], heap[i]) {
            assert !ordered;
            return false;
          }
          if !order.isMin && order.lt(heap[i], heap[right]) {
            assert !ordered;
            return false;
          }
        }
      }
      return true;
    }
  }

  /**
   * Extracts until the heap is empty (the drain loop of `heapsort` and of
   * the heap tests). The output holds the heap's elements, each one not
   * above the one before it: non-decreasing for a min-heap,
   * non-increasing for a max-heap.
   */
  method Drain<T(!new)>(h: Heap<T>) returns (out: seq<T>)
    requires h.Valid()
    modifies h
    ensures h.Valid() && h.heap == []
    ensures multiset(out) == old(multiset(h.heap))
    ensures forall i, j :: 0 <= i < j < |out| ==> !h.order.Compare(out[j], out[i])
  {
    out := [];
    while !h.IsEmpty()
      invariant h.Valid()
      invariant multiset(out) + multiset(h.heap) == old(multiset(h.heap))
      invariant forall i, j :: 0 <= i < j < |out| ==> !h.order.Compare(out[j], out[i])
      invariant forall i, y :: 0 <= i < |out| && y in h.heap ==> !h.order.Compare(y, out[i])
      decreases |h.heap|
    {
      ghost var before := h.heap;
      var r := h.Extract();
      assert r.value in before;
      forall y | y in h.heap
        ensures y in before
      {
        assert y in multiset(h.heap);
      }
      forall i | 0 <= i < |out|
        ensures !h.order.Compare(r.value, out[i])
      {
      }
      out := out + [r.value];
    }
  }

  /**
   * The two ways the build benchmark fills a `MinHeap` from the same list
   * (inserting each element in turn, and `build_heap`) give heaps that
   * drain to the same sequence: the list's elements in ascending order.
   */
  method BuildMatchesInserts(xs: seq<int>) returns (inserted: seq<int>, built: seq<int>)
    ensures Sorted(built) && multiset(built) == multiset(xs)
    ensures inserted == built
  {
    IntLessIsStrictWeak();
    var heap1 := new Heap.Min(IntLess);
    for i := 0 to |xs|
      invariant heap1.Valid() && fresh(heap1)
      invariant multiset(heap1.heap) == multiset(xs[..i])
    {
      heap1.Insert(xs[i]);
      assert xs[..i + 1] == xs[..i] + [xs[i]];
    }
    assert xs[..|xs|] == xs;
    inserted := Drain(heap1);

    var heap2 := new Heap.Min(IntLess);
    heap2.BuildHeap(xs);
    built := Drain(heap2);

    AscendingDrain(inserted, heap1.order);
    AscendingDrain(built, heap2.order);
    SortedUnique(inserted, built);
  }

  /** What `Drain` promises of a min-heap of integers is ascending order. */
  lemma AscendingDrain(out: seq<int>, ord: Order<int>)
    requires ord == IntMin
    requires forall i, j :: 0 <= i < j < |out| ==> !ord.Compare(out[j], out[i])
    ensures Sorted(out)
  {
  }
}
