/**
 * The implicit complete binary tree of a heap stored in a sequence, the
 * heap property, and the facts that the sift-up and sift-down loops keep.
 * A heap may live in a prefix `s[..size]` of a longer sequence (the
 * in-place heapsort shrinks `size`), so most predicates take the live size.
 */
module HeapTheory {
  import opened Orders

  /** `_parent`: Python's floor division, which agrees with Dafny's for a positive divisor. */
  function Parent(index: int): (p: int)
    ensures index > 0 ==> 0 <= p < index && (index == LeftChild(p) || index == RightChild(p))
  {
    (index - 1) / 2
  }

  /** `_left_child`: a later, odd index. */
  function LeftChild(index: int): (c: int)
    ensures index >= 0 ==> index < c && c % 2 == 1
  {
    2 * index + 1
  }

  /** `_right_child`: a later, even index. */
  function RightChild(index: int): (c: int)
    ensures index >= 0 ==> index < c && c % 2 == 0
  {
    2 * index + 2
  }

  /** Both children of a node lead back to it, and they are the only nodes that do. */
  lemma ChildrenOfParent(index: nat, c: nat)
    ensures Parent(LeftChild(index)) == index && Parent(RightChild(index)) == index
    ensures c > 0 && Parent(c) == index ==> c == LeftChild(index) || c == RightChild(index)
  {
  }

  /** No child of node `k` inside the live size sits above the value `v`. */
  ghost predicate NoChildAbove<T>(ord: Order<T>, s: seq<T>, size: nat, k: nat, v: T)
    requires size <= |s|
  {
    && (LeftChild(k) < size ==> !ord.Compare(s[LeftChild(k)], v))
    && (RightChild(k) < size ==> !ord.Compare(s[RightChild(k)], v))
  }

  /** Node `j` is not worse than either of its children. */
  ghost predicate NodeOrdered<T>(ord: Order<T>, s: seq<T>, size: nat, j: nat)
    requires j < size <= |s|
  {
    NoChildAbove(ord, s, size, j, s[j])
  }

  /** Every node from `lo` on, inside the live size, is ordered against its children. */
  ghost predicate HeapFrom<T>(ord: Order<T>, s: seq<T>, size: nat, lo: nat)
    requires size <= |s|
  {
    forall j: nat :: lo <= j < size ==> NodeOrdered(ord, s, size, j)
  }

  /** The heap property of the whole sequence, checked pair by pair as `is_valid_heap` does. */
  ghost predicate HeapProp<T>(ord: Order<T>, s: seq<T>) {
    HeapFrom(ord, s, |s|, 0)
  }

  /** The same property stated from the child's side: no node sits above its parent. */
  ghost predicate ParentsAbove<T>(ord: Order<T>, s: seq<T>, size: nat)
    requires size <= |s|
  {
    forall c: nat :: 0 < c < size ==> !ord.Compare(s[c], s[Parent(c)])
  }

  lemma {:induction false} ParentForm<T>(ord: Order<T>, s: seq<T>, size: nat)
    requires size <= |s|
    ensures HeapFrom(ord, s, size, 0) <==> ParentsAbove(ord, s, size)
  {
    if HeapFrom(ord, s, size, 0) {
      forall c: nat | 0 < c < size
        ensures !ord.Compare(s[c], s[Parent(c)])
      {
        assert NodeOrdered(ord, s, size, Parent(c));
      }
    }
    if ParentsAbove(ord, s, size) {
      forall j: nat | j < size
        ensures NodeOrdered(ord, s, size, j)
      {
        ChildrenOfParent(j, 0);
        if LeftChild(j) < size {
          assert !ord.Compare(s[LeftChild(j)], s[Parent(LeftChild(j))]);
        }
        if RightChild(j) < size {
          assert !ord.Compare(s[RightChild(j)], s[Parent(RightChild(j))]);
        }
      }
    }
  }

  /** The root of a heap is its extreme element: nothing inside the live size sits above it. */
  lemma {:induction false} RootIsExtreme<T(!new)>(ord: Order<T>, s: seq<T>, size: nat, j: nat)
    requires StrictWeakOrder(ord.lt)
    requires size <= |s| && HeapFrom(ord, s, size, 0)
    requires j < size
    ensures !ord.Compare(s[j], s[0])
    decreases j
  {
    if j > 0 {
      var p := Parent(j);
      assert NodeOrdered(ord, s, size, p);
      RootIsExtreme(ord, s, size, p);
    }
  }

  /** `RootIsExtreme` for every element of a whole-sequence heap. */
  lemma RootAboveAll<T(!new)>(ord: Order<T>, s: seq<T>)
    requires StrictWeakOrder(ord.lt)
    requires HeapProp(ord, s) && s != []
    ensures forall x :: x in s ==> !ord.Compare(x, s[0])
  {
    forall x | x in s
      ensures !ord.Compare(x, s[0])
    {
      var j :| 0 <= j < |s| && s[j] == x;
      RootIsExtreme(ord, s, |s|, j);
    }
  }

  // ---------------------------------------------------------------------
  // Sift-down: the element at `k` is moved towards the leaves of the
  // subtree rooted at `lo`.

  /** Node `j` lies in the subtree rooted at `r`: it is `r`, or its parent does. */
  ghost predicate InSubtree(r: nat, j: nat)
    decreases j
  {
    j == r || (j > r && InSubtree(r, Parent(j)))
  }

  /** A child lies in the subtree rooted at `r` exactly when it is `r` or its parent lies there. */
  lemma SubtreeChild(r: nat, j: nat, c: nat)
    requires c == LeftChild(j) || c == RightChild(j)
    ensures InSubtree(r, c) <==> c == r || InSubtree(r, j)
  {
    ChildrenOfParent(j, c);
  }

  /** Every node of the subtree rooted at `r`, inside the live size, except `k` is ordered. */
  ghost predicate SubtreeHeapBut<T>(ord: Order<T>, s: seq<T>, size: nat, r: nat, k: nat)
    requires size <= |s|
  {
    forall j: nat :: j < size && j != k && InSubtree(r, j) ==> NodeOrdered(ord, s, size, j)
  }

  /** The subtree rooted at `r`, inside the live size, is a heap. */
  ghost predicate SubtreeHeap<T>(ord: Order<T>, s: seq<T>, size: nat, r: nat)
    requires size <= |s|
  {
    forall j: nat :: j < size && InSubtree(r, j) ==> NodeOrdered(ord, s, size, j)
  }

  /**
   * What holds at the head of every round of a sift-down started at `lo`:
   * `k` lies in the subtree of `lo`, every other node of that subtree is
   * ordered, and the children of `k` are not above `k`'s parent, so that
   * `k` may be swapped with one of them.
   */
  ghost predicate SiftDownInv<T>(ord: Order<T>, s: seq<T>, size: nat, lo: nat, k: nat)
    requires size <= |s|
  {
    && InSubtree(lo, k)
    && SubtreeHeapBut(ord, s, size, lo, k)
    && (lo < k ==> Parent(k) < size && NoChildAbove(ord, s, size, k, s[Parent(k)]))
  }

  /** `s` agrees with `s0` on every index outside the subtree rooted at `r`. */
  ghost predicate SameOutside<T>(s: seq<T>, s0: seq<T>, r: nat) {
    |s| == |s0| && forall j :: 0 <= j < |s| && !InSubtree(r, j) ==> s[j] == s0[j]
  }

  /** Swapping `k` with one of its children, inside the subtree rooted at `r`, changes nothing outside it. */
  lemma SwapInSubtree<T>(s: seq<T>, s0: seq<T>, r: nat, k: nat, e: nat)
    requires SameOutside(s, s0, r) && InSubtree(r, k)
    requires (e == LeftChild(k) || e == RightChild(k)) && e < |s| && k < |s|
    ensures SameOutside(s[k := s[e]][e := s[k]], s0, r)
  {
    SubtreeChild(r, k, e);
  }

  /**
   * Once the subtree rooted at `r` is a heap, and nothing outside it moved,
   * every node from `r` on is ordered if every node after `r` was: a node
   * outside the subtree has its children outside it too.
   */
  lemma {:induction false} SubtreeKeepsSuffix<T>(ord: Order<T>, s0: seq<T>, s: seq<T>, size: nat, r: nat)
    requires size <= |s0| && SameOutside(s, s0, r)
    requires HeapFrom(ord, s0, size, r + 1) && SubtreeHeap(ord, s, size, r)
    ensures HeapFrom(ord, s, size, r)
  {
    forall j: nat | r <= j < size
      ensures NodeOrdered(ord, s, size, j)
    {
      if !InSubtree(r, j) {
        SubtreeChild(r, j, LeftChild(j));
        SubtreeChild(r, j, RightChild(j));
        assert NodeOrdered(ord, s0, size, j);
      }
    }
  }

  /**
   * The index, among `k` and its children inside the live size, of the
   * element that sits highest: the two comparisons at the head of a
   * sift-down round, the right child winning only if it is strictly above
   * the winner so far.
   */
  function MoreExtreme<T>(ord: Order<T>, s: seq<T>, size: nat, k: nat): (e: nat)
    requires size <= |s|
    ensures e == k || ((e == LeftChild(k) || e == RightChild(k)) && e < size)
  {
    var e := if LeftChild(k) < size && ord.Compare(s[LeftChild(k)], s[k]) then LeftChild(k) else k;
    if RightChild(k) < size && ord.Compare(s[RightChild(k)], s[e]) then RightChild(k) else e
  }

  /** The chosen index sits above `k` unless it is `k`, and no child of `k` sits above it. */
  lemma MoreExtremeIsAbove<T(!new)>(ord: Order<T>, s: seq<T>, size: nat, k: nat)
    requires StrictWeakOrder(ord.lt) && size <= |s|
    ensures var e := MoreExtreme(ord, s, size, k);
      && (e != k ==> ord.Compare(s[e], s[k]))
      && (e < size ==> NoChildAbove(ord, s, size, k, s[e]))
  {
  }

  /**
   * The two guarantees of a sift-down started at `r`, read off its end
   * state `s`: the subtree form carries over to the form over every node
   * from `r` on.
   */
  lemma SiftDownDone<T>(ord: Order<T>, s0: seq<T>, s: seq<T>, size: nat, r: nat)
    requires size <= |s0| && SameOutside(s, s0, r)
    requires SubtreeHeapBut(ord, s0, size, r, r) ==> SubtreeHeap(ord, s, size, r)
    ensures HeapFrom(ord, s0, size, r + 1) ==> HeapFrom(ord, s, size, r)
  {
    if HeapFrom(ord, s0, size, r + 1) {
      SuffixHasSubtree(ord, s0, size, r);
      SubtreeKeepsSuffix(ord, s0, s, size, r);
    }
  }

  /** Ordering every node after `lo` orders every node of `lo`'s subtree but `lo`. */
  lemma SuffixHasSubtree<T>(ord: Order<T>, s: seq<T>, size: nat, lo: nat)
    requires size <= |s| && HeapFrom(ord, s, size, lo + 1)
    ensures SubtreeHeapBut(ord, s, size, lo, lo)
  {
  }

  lemma SiftDownStart<T>(ord: Order<T>, s: seq<T>, size: nat, lo: nat)
    requires size <= |s| && SubtreeHeapBut(ord, s, size, lo, lo)
    ensures SiftDownInv(ord, s, size, lo, lo)
  {
  }

  lemma SiftDownStop<T>(ord: Order<T>, s: seq<T>, size: nat, lo: nat, k: nat)
    requires size <= |s| && SiftDownInv(ord, s, size, lo, k)
    requires k < size ==> NodeOrdered(ord, s, size, k)
    ensures SubtreeHeap(ord, s, size, lo)
  {
  }

  /**
   * One round of sift-down: `e` is the child of `k` that sits above `k`
   * and above its sibling; swapping the two moves the hole down to `e`.
   */
  lemma {:induction false} SiftDownStep<T(!new)>(ord: Order<T>, s: seq<T>, size: nat, lo: nat, k: nat, e: nat)
    requires StrictWeakOrder(ord.lt)
    requires size <= |s| && SiftDownInv(ord, s, size, lo, k)
    requires e == LeftChild(k) || e == RightChild(k)
    requires e < size && ord.Compare(s[e], s[k])
    requires NoChildAbove(ord, s, size, k, s[e])
    ensures SiftDownInv(ord, s[k := s[e]][e := s[k]], size, lo, e)
  {
    var t := s[k := s[e]][e := s[k]];
    forall j: nat | j < size && j != e && InSubtree(lo, j)
      ensures NodeOrdered(ord, t, size, j)
    {
      SiftDownStepNode(ord, s, size, lo, k, e, j);
    }
    SubtreeChild(lo, k, e);
    assert Parent(e) == k;
    assert NodeOrdered(ord, s, size, e);
  }

  /**
   * One whole round of a sift-down at `k`, on values: if the invariant
   * holds, then either `k` wins the comparisons and the subtree is a heap,
   * or swapping `k` with the winning child keeps the invariant at the child.
   */
  lemma SiftDownRound<T(!new)>(ord: Order<T>, s: seq<T>, size: nat, lo: nat, k: nat)
    requires StrictWeakOrder(ord.lt) && size <= |s|
    ensures var e := MoreExtreme(ord, s, size, k);
      SiftDownInv(ord, s, size, lo, k) ==>
        && (e == k ==> SubtreeHeap(ord, s, size, lo))
        && (e != k ==> SiftDownInv(ord, s[k := s[e]][e := s[k]], size, lo, e))
  {
    var e := MoreExtreme(ord, s, size, k);
    if SiftDownInv(ord, s, size, lo, k) {
      MoreExtremeIsAbove(ord, s, size, k);
      if e == k {
        SiftDownStop(ord, s, size, lo, k);
      } else {
        SiftDownStep(ord, s, size, lo, k, e);
      }
    }
  }

  /** The nodes of the subtree other than `e` after one round of sift-down, one at a time. */
  lemma SiftDownStepNode<T(!new)>(ord: Order<T>, s: seq<T>, size: nat, lo: nat, k: nat, e: nat, j: nat)
    requires StrictWeakOrder(ord.lt)
    requires size <= |s| && SiftDownInv(ord, s, size, lo, k)
    requires e == LeftChild(k) || e == RightChild(k)
    requires e < size && ord.Compare(s[e], s[k])
    requires NoChildAbove(ord, s, size, k, s[e])
    requires j < size && j != e && InSubtree(lo, j)
    ensures NodeOrdered(ord, s[k := s[e]][e := s[k]], size, j)
  {
    var t := s[k := s[e]][e := s[k]];
    if j == k {
      assert t[j] == s[e];
    } else if LeftChild(j) == k || RightChild(j) == k {
      assert j == Parent(k) && lo <= j < k;
      assert NodeOrdered(ord, s, size, j);
    } else {
      assert NodeOrdered(ord, s, size, j);
      assert t[j] == s[j];
      assert LeftChild(j) < size ==> t[LeftChild(j)] == s[LeftChild(j)];
      assert RightChild(j) < size ==> t[RightChild(j)] == s[RightChild(j)];
    }
  }

  // ---------------------------------------------------------------------
  // Sift-up: the element at `k` is moved towards the root.

  /**
   * What holds at the head of every round of a sift-up: every node except
   * `k` is below its parent, and the children of `k` are below `k`'s parent.
   */
  ghost predicate SiftUpInv<T>(ord: Order<T>, s: seq<T>, k: nat) {
    && k < |s|
    && (forall c: nat :: 0 < c < |s| && c != k ==> !ord.Compare(s[c], s[Parent(c)]))
    && (k > 0 ==> NoChildAbove(ord, s, |s|, k, s[Parent(k)]))
  }

  /** `insert` appends to a heap: only the new leaf may be out of place. */
  lemma AppendStartsSiftUp<T>(ord: Order<T>, s: seq<T>, v: T)
    requires HeapProp(ord, s)
    ensures SiftUpInv(ord, s + [v], |s|)
  {
    ParentForm(ord, s, |s|);
  }

  lemma SiftUpStop<T>(ord: Order<T>, s: seq<T>, k: nat)
    requires SiftUpInv(ord, s, k)
    requires k == 0 || !ord.Compare(s[k], s[Parent(k)])
    ensures HeapProp(ord, s)
  {
    ParentForm(ord, s, |s|);
  }

  /** One round of sift-up: `k` sits above its parent, and swapping them moves the hole up. */
  lemma {:induction false} SiftUpStep<T(!new)>(ord: Order<T>, s: seq<T>, k: nat)
    requires StrictWeakOrder(ord.lt)
    requires SiftUpInv(ord, s, k) && k > 0 && ord.Compare(s[k], s[Parent(k)])
    ensures SiftUpInv(ord, s[k := s[Parent(k)]][Parent(k) := s[k]], Parent(k))
  {
    var p := Parent(k);
    var t := s[k := s[p]][p := s[k]];
    forall c: nat | 0 < c < |t| && c != p
      ensures !ord.Compare(t[c], t[Parent(c)])
    {
      if c == k {
      } else if Parent(c) == p {
        assert !ord.Compare(s[c], s[p]);
      } else if Parent(c) == k {
        ChildrenOfParent(k, c);
      } else {
        assert t[c] == s[c] && t[Parent(c)] == s[Parent(c)];
      }
    }
    if p > 0 {
      var pp := Parent(p);
      assert !ord.Compare(s[p], s[pp]);
      ChildrenOfParent(p, k);
      forall c: nat | c == LeftChild(p) || c == RightChild(p)
        ensures c < |t| ==> !ord.Compare(t[c], t[pp])
      {
        if c < |t| && c != k {
          assert Parent(c) == p;
          assert !ord.Compare(s[c], s[p]);
        }
      }
    }
  }

  // ---------------------------------------------------------------------
  // extract: the last leaf replaces the root.

  /** After the last leaf is moved to the root, every node but the root is still ordered. */
  lemma LastToRoot<T>(ord: Order<T>, s: seq<T>)
    requires HeapProp(ord, s) && |s| >= 2
    ensures HeapFrom(ord, s[..|s| - 1][0 := s[|s| - 1]], |s| - 1, 1)
    ensures multiset(s[..|s| - 1][0 := s[|s| - 1]]) == multiset(s) - multiset{s[0]}
  {
    var n := |s|;
    var m: nat := n - 1;
    var t := s[..m][0 := s[m]];
    forall j: nat | 1 <= j < m
      ensures NodeOrdered(ord, t, m, j)
    {
      assert NodeOrdered(ord, s, n, j);
    }
    assert s == [s[0]] + s[1..m] + [s[m]];
    assert t == [s[m]] + s[1..m];
  }
}
