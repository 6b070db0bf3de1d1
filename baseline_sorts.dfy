/**
 * The two comparison sorts the benchmark times beside heapsort: the
 * Lomuto-partition quicksort over `arr[low..high]` and the top-down
 * mergesort that merges its sorted halves back into `arr`.
 */
module BaselineSorts {
  import opened Orders
  import opened ArrayOps

  // ---------------------------------------------------------------------
  // Quicksort

  /** The array `s` holds the old contents `s0` outside `[lo, hi)` and a permutation of them inside. */
  ghost predicate PermutesRange(s: seq<int>, s0: seq<int>, lo: nat, hi: nat)
    requires lo <= hi <= |s0|
  {
    && |s| == |s0|
    && multiset(s[lo..hi]) == multiset(s0[lo..hi])
    && s[..lo] == s0[..lo] && s[hi..] == s0[hi..]
  }


  /**
   * The range `[low, high]` of `s` is split at `p`: the cells in front of
   * `p` are at most `s[p]` and the cells behind it are greater.
   */
  ghost predicate PartitionedAt(s: seq<int>, low: nat, p: nat, high: nat)
    requires low <= p <= high < |s|
  {
    && (forall k :: low <= k < p ==> s[k] <= s[p])
    && (forall k :: p < k <= high ==> s[k] > s[p])
  }

  /**
   * The two blocks of the partition loop: the cells `[low, i]` are at most
   * the pivot, the cells `(i, j)` are greater, and the pivot still sits at `high`.
   */
  ghost predicate Blocks(s: seq<int>, low: nat, high: nat, i: int, j: nat, pivot: int) {
    && low <= j <= high < |s| && low - 1 <= i < j
    && s[high] == pivot
    && (forall k :: low <= k <= i ==> s[k] <= pivot)
    && (forall k :: i < k < j ==> s[k] > pivot)
  }

  /** What holds at the head of every round of the partition loop: the blocks, on a permutation of `s0`. */
  ghost predicate PartitionInv(s: seq<int>, s0: seq<int>, low: nat, high: nat, i: int, j: nat, pivot: int) {
    && low <= high < |s0|
    && PermutesRange(s, s0, low, high + 1)
    && Blocks(s, low, high, i, j, pivot)
  }

  /**
   * `partition`: with the pivot `arr[high]`, moves every element at most
   * the pivot in front of it and every larger one behind it, inside
   * `[low, high]`, and returns the pivot's final index.
   */
  method Partition(a: array<int>, low: nat, high: nat) returns (p: nat)
    requires low <= high < a.Length
    modifies a
    ensures low <= p <= high
    ensures a[p] == old(a[high])
    ensures PartitionedAt(a[..], low, p, high)
    ensures PermutesRange(a[..], old(a[..]), low, high + 1)
  {
    var pivot := a[high];
    var i: int := low - 1;
    ghost var s0 := a[..];
    var j := low;
    while j < high
      invariant PartitionInv(a[..], s0, low, high, i, j, pivot)
    {
      i := PartitionRound(a, s0, low, high, i, j, pivot);
      j := j + 1;
    }
    ghost var s := a[..];
    PartitionPlacePivot(s, s0, low, high, i, pivot);
    Swap(a, i + 1, high);
    assert a[..] == s[i + 1 := s[high]][high := s[i + 1]];
    p := i + 1;
  }

  /**
   * One round of the partition loop: when `arr[j] <= pivot`, `i` moves on
   * by one and `arr[i]` and `arr[j]` are swapped; otherwise nothing changes.
   */
  method PartitionRound(a: array<int>, ghost s0: seq<int>, low: nat, high: nat, i: int, j: nat, pivot: int) returns (i': int)
    requires PartitionInv(a[..], s0, low, high, i, j, pivot) && j < high
    modifies a
    ensures PartitionInv(a[..], s0, low, high, i', j + 1, pivot)
  {
    ghost var s := a[..];
    if a[j] <= pivot {
      PartitionTake(s, s0, low, high, i, j, pivot);
      i' := i + 1;
      Swap(a, i', j);
      assert a[..] == s[i + 1 := s[j]][j := s[i + 1]];
    } else {
      i' := i;
    }
  }

  /**
   * A round that finds `s[j]` at most the pivot swaps it with the first
   * greater cell, at `i + 1`; both blocks then end one cell further on.
   */
  lemma PartitionTake(s: seq<int>, s0: seq<int>, low: nat, high: nat, i: int, j: nat, pivot: int)
    requires PartitionInv(s, s0, low, high, i, j, pivot) && j < high && s[j] <= pivot
    ensures PartitionInv(s[i + 1 := s[j]][j := s[i + 1]], s0, low, high, i + 1, j + 1, pivot)
  {
    SwapKeepsPermutesRange(s, s0, low, high + 1, i + 1, j);
    BlocksTake(s, low, high, i, j, pivot);
  }

  /** The blocks after a round that swaps `s[j]`, at most the pivot, to `i + 1`. */
  lemma BlocksTake(s: seq<int>, low: nat, high: nat, i: int, j: nat, pivot: int)
    requires Blocks(s, low, high, i, j, pivot) && j < high && s[j] <= pivot
    ensures Blocks(s[i + 1 := s[j]][j := s[i + 1]], low, high, i + 1, j + 1, pivot)
  {
    SwapBlocks(s, low, i + 1, j, pivot);
  }

  /**
   * After the loop, swapping the pivot from `high` to `i + 1` puts every
   * smaller-or-equal cell in front of it and every greater cell behind it.
   */
  lemma PartitionPlacePivot(s: seq<int>, s0: seq<int>, low: nat, high: nat, i: int, pivot: int)
    requires PartitionInv(s, s0, low, high, i, high, pivot)
    ensures var t := s[i + 1 := s[high]][high := s[i + 1]];
      && t[i + 1] == pivot
      && PartitionedAt(t, low, i + 1, high)
      && PermutesRange(t, s0, low, high + 1)
  {
    SwapKeepsPermutesRange(s, s0, low, high + 1, i + 1, high);
    SwapBlocks(s, low, i + 1, high, pivot);
  }

  /**
   * Swapping the first cell `x` of the "greater" block `[x, y)` with the
   * cell `y` just behind it moves the block one cell on and puts `s[y]` at `x`.
   */
  lemma SwapBlocks(s: seq<int>, low: nat, x: nat, y: nat, pivot: int)
    requires low <= x <= y < |s|
    requires forall k :: low <= k < x ==> s[k] <= pivot
    requires forall k :: x <= k < y ==> s[k] > pivot
    ensures var t := s[x := s[y]][y := s[x]];
      && t[x] == s[y]
      && (forall k :: low <= k < x ==> t[k] <= pivot)
      && (forall k :: x < k <= y ==> t[k] > pivot)
  {
    var t := s[x := s[y]][y := s[x]];
    forall k | x < k <= y
      ensures t[k] > pivot
    {
      if k < y {
        assert t[k] == s[k];
      }
    }
  }

  /** Swapping two cells inside `[lo, hi)` keeps `s` a permutation of `s0` on that range. */
  lemma SwapKeepsPermutesRange(s: seq<int>, s0: seq<int>, lo: nat, hi: nat, x: nat, y: nat)
    requires lo <= x < hi && lo <= y < hi && hi <= |s0|
    requires PermutesRange(s, s0, lo, hi)
    ensures PermutesRange(s[x := s[y]][y := s[x]], s0, lo, hi)
  {
    SwapPermutesRange(s, lo, hi, x, y);
  }

  /**
   * `quicksort`: sorts `[low, high]` ascending as a permutation of what it
   * held, leaving every cell outside the range alone; a range of at most one
   * cell is left as it is. Callers start with `(0, len(arr) - 1)`, and the
   * recursive calls keep `low <= high + 1`.
   */
  method QuickSort(a: array<int>, low: int, high: int)
    requires 0 <= low <= high + 1 <= a.Length
    modifies a
    ensures SortedRange(a[..], low, high + 1)
    ensures PermutesRange(a[..], old(a[..]), low, high + 1)
    decreases high - low
  {
    if low < high {
      var pi: int := Partition(a, low, high);
      ghost var s0 := a[..];
      QuickSort(a, low, pi - 1);
      ghost var s1 := a[..];
      QuickSort(a, pi + 1, high);
      QuickSortJoin(old(a[..]), s0, s1, a[..], low, pi, high);
    }
  }

  /**
   * After the partition `s0` (of the original `s`) around `p`, sorting the
   * part in front of `p` (giving `s1`) and then the part behind it (giving
   * `s2`) sorts the whole range `[low, high]` as a permutation of `s`.
   */
  lemma QuickSortJoin(s: seq<int>, s0: seq<int>, s1: seq<int>, s2: seq<int>, low: nat, p: nat, high: nat)
    requires low <= p <= high < |s|
    requires PermutesRange(s0, s, low, high + 1) && PartitionedAt(s0, low, p, high)
    requires SortedRange(s1, low, p) && PermutesRange(s1, s0, low, p)
    requires SortedRange(s2, p + 1, high + 1) && PermutesRange(s2, s1, p + 1, high + 1)
    ensures SortedRange(s2, low, high + 1)
    ensures PermutesRange(s2, s, low, high + 1)
  {
    QuickSortLeft(s0, s1, s2, low, p, high);
    QuickSortRight(s0, s1, s2, low, p, high);
    JoinSorted(s2, low, p, high);
    JoinPermutes(s, s0, s1, s2, low, p, high);
  }

  /** Sorted cells at most `s[p]` in front of `p` and sorted cells above it behind `p` make `[low, high]` sorted. */
  lemma JoinSorted(s: seq<int>, low: nat, p: nat, high: nat)
    requires low <= p <= high < |s|
    requires SortedRange(s, low, p) && SortedRange(s, p + 1, high + 1)
    requires AllAtMost(s[low..p], s[p]) && AllAbove(s[p + 1..high + 1], s[p])
    ensures SortedRange(s, low, high + 1)
  {
    forall x, y | low <= x <= y <= high
      ensures s[x] <= s[y]
    {
      if x < p {
        assert s[x] == s[low..p][x - low];
      }
      if p < y {
        assert s[y] == s[p + 1..high + 1][y - p - 1];
      }
    }
  }

  /** The three parts of `[low, high]` of `s2` are permutations of those of `s0`, which permutes `s`. */
  lemma JoinPermutes(s: seq<int>, s0: seq<int>, s1: seq<int>, s2: seq<int>, low: nat, p: nat, high: nat)
    requires low <= p <= high < |s|
    requires PermutesRange(s0, s, low, high + 1)
    requires PermutesRange(s1, s0, low, p)
    requires PermutesRange(s2, s1, p + 1, high + 1)
    requires s2[p] == s0[p]
    requires multiset(s2[low..p]) == multiset(s0[low..p])
    requires multiset(s2[p + 1..high + 1]) == multiset(s0[p + 1..high + 1])
    ensures PermutesRange(s2, s, low, high + 1)
  {
    assert s2[low..high + 1] == s2[low..p] + [s2[p]] + s2[p + 1..high + 1];
    assert s0[low..high + 1] == s0[low..p] + [s0[p]] + s0[p + 1..high + 1];
    assert s2[..low] == s0[..low] by {
      assert s2[..low] == s2[..p + 1][..low];
      assert s1[..low] == s1[..p + 1][..low];
    }
    assert s2[high + 1..] == s0[high + 1..] by {
      assert s1[high + 1..] == s1[p..][high + 1 - p..];
      assert s0[high + 1..] == s0[p..][high + 1 - p..];
    }
  }

  /** The part in front of the pivot: sorting it keeps every cell at most the pivot, and the pivot in place. */
  lemma QuickSortLeft(s0: seq<int>, s1: seq<int>, s2: seq<int>, low: nat, p: nat, high: nat)
    requires low <= p <= high < |s0|
    requires PartitionedAt(s0, low, p, high)
    requires PermutesRange(s1, s0, low, p)
    requires PermutesRange(s2, s1, p + 1, high + 1)
    ensures s2[p] == s0[p] && s2[low..p] == s1[low..p]
    ensures multiset(s2[low..p]) == multiset(s0[low..p])
    ensures AllAtMost(s2[low..p], s0[p])
  {
    assert s2[low..p] == s2[..p + 1][low..p] && s1[low..p] == s1[..p + 1][low..p];
    assert s1[p] == s1[p..][0] && s0[p] == s0[p..][0];
    assert s2[p] == s2[..p + 1][p] && s1[p] == s1[..p + 1][p];
    assert AllAtMost(s0[low..p], s0[p]);
    BoundsPermute(s1[low..p], s0[low..p], s0[p]);
  }

  /** The part behind the pivot: sorting it keeps every cell above the pivot. */
  lemma QuickSortRight(s0: seq<int>, s1: seq<int>, s2: seq<int>, low: nat, p: nat, high: nat)
    requires low <= p <= high < |s0|
    requires PartitionedAt(s0, low, p, high)
    requires PermutesRange(s1, s0, low, p)
    requires PermutesRange(s2, s1, p + 1, high + 1)
    ensures multiset(s2[p + 1..high + 1]) == multiset(s0[p + 1..high + 1])
    ensures AllAbove(s2[p + 1..high + 1], s0[p])
  {
    assert s1[p + 1..high + 1] == s0[p + 1..high + 1] by {
      forall k | p + 1 <= k <= high
        ensures s1[k] == s0[k]
      {
        assert s1[k] == s1[p..][k - p] && s0[k] == s0[p..][k - p];
      }
    }
    assert AllAbove(s0[p + 1..high + 1], s0[p]);
    BoundsPermute(s2[p + 1..high + 1], s0[p + 1..high + 1], s0[p]);
  }

  // ---------------------------------------------------------------------
  // Mergesort

  /** `arr[lo:hi]`: a fresh copy of a range. */
  method Slice(a: array<int>, lo: nat, hi: nat) returns (b: array<int>)
    requires lo <= hi <= a.Length
    ensures fresh(b) && b[..] == a[lo..hi]
  {
    b := new int[hi - lo](k reads a => if 0 <= k < hi - lo then a[lo + k] else 0);
  }

  /**
   * The merge of `mergesort`, on values: repeatedly takes the head of `l`
   * when it is strictly smaller than the head of `r`, the head of `r`
   * otherwise, and appends whatever remains once one side is used up.
   */
  function MergeOf(l: seq<int>, r: seq<int>): (m: seq<int>)
    ensures |m| == |l| + |r|
    decreases |l| + |r|
  {
    if l == [] then r
    else if r == [] then l
    else if l[0] < r[0] then [l[0]] + MergeOf(l[1..], r)
    else [r[0]] + MergeOf(l, r[1..])
  }

  /** The merge holds exactly the elements of both inputs. */
  lemma {:induction false} MergeOfPermutes(l: seq<int>, r: seq<int>)
    ensures multiset(MergeOf(l, r)) == multiset(l) + multiset(r)
    decreases |l| + |r|
  {
    if l != [] && r != [] {
      if l[0] < r[0] {
        MergeOfLeft(l, r);
        MergeOfPermutes(l[1..], r);
        assert l == [l[0]] + l[1..];
      } else {
        MergeOfRight(l, r);
        MergeOfPermutes(l, r[1..]);
        assert r == [r[0]] + r[1..];
      }
    }
  }

  /** The merge starts with the head of one of its inputs. */
  lemma MergeOfHead(l: seq<int>, r: seq<int>)
    requires l != [] || r != []
    ensures (l != [] && MergeOf(l, r)[0] == l[0]) || (r != [] && MergeOf(l, r)[0] == r[0])
  {
  }

  /** Merging two sorted sequences gives a sorted sequence. */
  lemma {:induction false} MergeOfSorted(l: seq<int>, r: seq<int>)
    requires Sorted(l) && Sorted(r)
    ensures Sorted(MergeOf(l, r))
    decreases |l| + |r|
  {
    if l != [] && r != [] {
      if l[0] < r[0] {
        MergeOfSorted(l[1..], r);
        SortedCons(l[0], MergeOf(l[1..], r), l[1..], r);
      } else {
        MergeOfSorted(l, r[1..]);
        SortedCons(r[0], MergeOf(l, r[1..]), l, r[1..]);
      }
    }
  }

  /** Putting `x` in front of the merge of `l` and `r` keeps it sorted when `x` is at most both heads. */
  lemma SortedCons(x: int, m: seq<int>, l: seq<int>, r: seq<int>)
    requires Sorted(m) && m == MergeOf(l, r)
    requires l != [] ==> x <= l[0]
    requires r != [] ==> x <= r[0]
    ensures Sorted([x] + m)
  {
    if m != [] {
      MergeOfHead(l, r);
    }
  }

  /** The first `i + j` cells of `s` followed by the merge of what is left of both inputs is their whole merge. */
  ghost predicate Merged(s: seq<int>, l: seq<int>, r: seq<int>, i: nat, j: nat) {
    i <= |l| && j <= |r| && i + j <= |s| && s[..i + j] + MergeOf(l[i..], r[j..]) == MergeOf(l, r)
  }

  /** The merge takes the head of `l` first when it is strictly smaller than the head of `r`, or `r` is empty. */
  lemma MergeOfLeft(l: seq<int>, r: seq<int>)
    requires l != [] && (r != [] ==> l[0] < r[0])
    ensures MergeOf(l, r) == [l[0]] + MergeOf(l[1..], r)
  {
    if r == [] {
      assert l == [l[0]] + l[1..];
    }
  }

  /** The merge takes the head of `r` first when it is at most the head of `l`, or `l` is empty. */
  lemma MergeOfRight(l: seq<int>, r: seq<int>)
    requires r != [] && (l != [] ==> !(l[0] < r[0]))
    ensures MergeOf(l, r) == [r[0]] + MergeOf(l, r[1..])
  {
    if l == [] {
      assert r == [r[0]] + r[1..];
    }
  }

  /** `arr[k] = left[i]`, taken while `left[i]` is strictly smaller than `right[j]` or `right` is used up. */
  method PutLeft(a: array<int>, left: seq<int>, right: seq<int>, i: nat, j: nat, k: nat)
    requires k == i + j < a.Length && i < |left|
    requires Merged(a[..], left, right, i, j)
    requires j < |right| ==> left[i] < right[j]
    modifies a
    ensures Merged(a[..], left, right, i + 1, j)
  {
    ghost var m := a[..k];
    ghost var rest := MergeOf(left[i + 1..], right[j..]);
    assert left[i..][1..] == left[i + 1..];
    MergeOfLeft(left[i..], right[j..]);
    a[k] := left[i];
    assert a[..k + 1] == m + [left[i]];
    assert m + [left[i]] + rest == m + ([left[i]] + rest);
  }

  /** `arr[k] = right[j]`, taken while `right[j]` is at most `left[i]` or `left` is used up. */
  method PutRight(a: array<int>, left: seq<int>, right: seq<int>, i: nat, j: nat, k: nat)
    requires k == i + j < a.Length && j < |right|
    requires Merged(a[..], left, right, i, j)
    requires i < |left| ==> !(left[i] < right[j])
    modifies a
    ensures Merged(a[..], left, right, i, j + 1)
  {
    ghost var m := a[..k];
    ghost var rest := MergeOf(left[i..], right[j + 1..]);
    assert right[j..][1..] == right[j + 1..];
    MergeOfRight(left[i..], right[j..]);
    a[k] := right[j];
    assert a[..k + 1] == m + [right[j]];
    assert m + [right[j]] + rest == m + ([right[j]] + rest);
  }

  /**
   * The merge phase of `mergesort`: writes the sorted `left` and `right`
   * back into `arr` in ascending order, taking from `left` only while its
   * head is strictly smaller, then copying whichever side remains.
   */
  method Merge(a: array<int>, left: seq<int>, right: seq<int>)
    requires a.Length == |left| + |right|
    modifies a
    ensures a[..] == MergeOf(left, right)
  {
    var i, j, k := 0, 0, 0;
    while i < |left| && j < |right|
      invariant k == i + j && Merged(a[..], left, right, i, j)
      decreases |left| + |right| - k
    {
      if left[i] < right[j] {
        PutLeft(a, left, right, i, j, k);
        i := i + 1;
      } else {
        PutRight(a, left, right, i, j, k);
        j := j + 1;
      }
      k := k + 1;
    }

    while i < |left|
      invariant k == i + j && Merged(a[..], left, right, i, j)
      invariant i < |left| ==> j == |right|
      decreases |left| - i
    {
      PutLeft(a, left, right, i, j, k);
      i := i + 1;
      k := k + 1;
    }

    while j < |right|
      invariant k == i + j && Merged(a[..], left, right, i, j)
      invariant i == |left|
      decreases |right| - j
    {
      PutRight(a, left, right, i, j, k);
      j := j + 1;
      k := k + 1;
    }
    assert a[..k] == a[..] && left[i..] == [] && right[j..] == [];
  }

  /**
   * `mergesort`: leaves `arr` sorted ascending, holding the elements it
   * held before; arrays of length at most one are left alone.
   */
  method MergeSort(a: array<int>)
    modifies a
    ensures Sorted(a[..]) && multiset(a[..]) == old(multiset(a[..]))
    ensures a.Length <= 1 ==> a[..] == old(a[..])
    decreases a.Length
  {
    if a.Length > 1 {
      var mid := a.Length / 2;
      var left := Slice(a, 0, mid);
      var right := Slice(a, mid, a.Length);
      assert a[..] == left[..] + right[..];

      MergeSort(left);
      MergeSort(right);

      Merge(a, left[..], right[..]);
      MergeOfSorted(left[..], right[..]);
      MergeOfPermutes(left[..], right[..]);
    }
  }
}
