/**
 * Orderings, results and sortedness shared by the heap, the sorts and the
 * priority queues.
 */
module Orders {

  /** The only failure of the core: extracting from or peeking into an empty heap or queue. */
  datatype Error = IndexError

  /** An operation that either yields a value or raises `IndexError`. */
  datatype Result<T> = Ok(value: T) | Err(error: Error)

  /**
   * `lt` is a strict weak order: irreflexive, transitive, and "neither
   * below the other" is transitive too. The integers under `<` and tuples
   * compared lexicographically on a prefix are of this kind.
   */
  ghost predicate StrictWeakOrder<T(!new)>(lt: (T, T) -> bool) {
    && (forall a :: !lt(a, a))
    && (forall a, b, c :: lt(a, b) && lt(b, c) ==> lt(a, c))
    && (forall a, b, c :: !lt(a, b) && !lt(b, c) ==> !lt(a, c))
  }

  /**
   * The ordering of a heap: the element comparison `lt` (the source's `<`)
   * and the `is_min` flag fixed when the heap is made.
   */
  datatype Order<!T> = Order(lt: (T, T) -> bool, isMin: bool) {

    /** `a` belongs above `b`: smaller in a min-heap, larger in a max-heap. */
    predicate Compare(a: T, b: T) {
      if isMin then lt(a, b) else lt(b, a)
    }
  }

  /**
   * `_compare` over a strict weak order: nothing sits above itself, "above"
   * chains, two elements never sit above each other, and a max-heap
   * compares as a min-heap over the same `<` with the arguments swapped.
   */
  lemma CompareIsStrictWeak<T(!new)>(ord: Order<T>)
    requires StrictWeakOrder(ord.lt)
    ensures forall a :: !ord.Compare(a, a)
    ensures forall a, b, c :: ord.Compare(a, b) && ord.Compare(b, c) ==> ord.Compare(a, c)
    ensures forall a, b :: ord.Compare(a, b) ==> !ord.Compare(b, a)
    ensures forall a, b :: ord.Compare(a, b) == Order(ord.lt, !ord.isMin).Compare(b, a)
  {
  }

  /** Python's `<` on integers. */
  function IntLess(a: int, b: int): bool {
    a < b
  }

  /** The comparator of an integer `MaxHeap`, and of the in-place heapsort. */
  const IntMax: Order<int> := Order(IntLess, false)

  /** The comparator of an integer `MinHeap`. */
  const IntMin: Order<int> := Order(IntLess, true)

  lemma IntLessIsStrictWeak()
    ensures StrictWeakOrder(IntLess)
  {
  }

  /** The cells `[lo, hi)` of `s` are in ascending order. */
  ghost predicate SortedRange(s: seq<int>, lo: nat, hi: nat) {
    forall p, q :: lo <= p <= q < hi && q < |s| ==> s[p] <= s[q]
  }

  /** Ascending order, as Python's `sorted` produces it. */
  ghost predicate Sorted(s: seq<int>) {
    SortedRange(s, 0, |s|)
  }

  /** Two ascending sequences holding the same elements are the same sequence. */
  lemma {:induction false} SortedUnique(s: seq<int>, t: seq<int>)
    requires Sorted(s) && Sorted(t) && multiset(s) == multiset(t)
    ensures s == t
    decreases |s|
  {
    if s == [] {
      assert |t| == |multiset(t)| == 0;
    } else {
      assert |t| == |multiset(t)| > 0;
      var ks := SortedHead(s, t[0]);
      var kt := SortedHead(t, s[0]);
      SameTail(s, t);
      SortedTail(s);
      SortedTail(t);
      SortedUnique(s[1..], t[1..]);
      assert s == [s[0]] + s[1..] && t == [t[0]] + t[1..];
    }
  }

  /** Two sequences with the same head and the same elements have tails with the same elements. */
  lemma SameTail(s: seq<int>, t: seq<int>)
    requires s != [] && t != [] && s[0] == t[0] && multiset(s) == multiset(t)
    ensures multiset(s[1..]) == multiset(t[1..])
  {
    assert s == [s[0]] + s[1..] && t == [t[0]] + t[1..];
    assert multiset(s) == multiset{s[0]} + multiset(s[1..]);
    assert multiset(t) == multiset{t[0]} + multiset(t[1..]);
    assert multiset(s[1..]) == multiset(s) - multiset{s[0]} == multiset(t[1..]);
  }

  /** Dropping the head of an ascending sequence leaves it ascending. */
  lemma SortedTail(s: seq<int>)
    requires Sorted(s) && s != []
    ensures Sorted(s[1..])
  {
    forall p, q | 0 <= p <= q < |s| - 1
      ensures s[1..][p] <= s[1..][q]
    {
      assert s[1..][p] == s[p + 1] && s[1..][q] == s[q + 1];
    }
  }

  /** The head of an ascending sequence is at most each of its elements. */
  lemma SortedHead(s: seq<int>, x: int) returns (k: nat)
    requires Sorted(s) && x in multiset(s)
    ensures k < |s| && s[k] == x && s[0] <= x
  {
    k :| 0 <= k < |s| && s[k] == x;
  }

  /** `list.reverse()`. */
  function Reverse<T>(s: seq<T>): (r: seq<T>)
    ensures |r| == |s|
    ensures forall k :: 0 <= k < |s| ==> r[k] == s[|s| - 1 - k]
    ensures multiset(r) == multiset(s)
  {
    if s == [] then [] else
      assert s == [s[0]] + s[1..];
      Reverse(s[1..]) + [s[0]]
  }
}
