/**
 * The tuple swap `a[i], a[j] = a[j], a[i]` that every in-place step of
 * the heaps and sorts performs, and the facts about permutations it needs.
 */
module ArrayOps {

  /** `a[i], a[j] = a[j], a[i]` */
  method Swap(a: array<int>, i: nat, j: nat)
    requires i < a.Length && j < a.Length
    modifies a
    ensures a[..] == old(a[..])[i := old(a[j])][j := old(a[i])]
  {
    a[i], a[j] := a[j], a[i];
  }

  /** Swapping two cells of the range `[lo, hi)` permutes the range and leaves the cells around it alone. */
  lemma SwapPermutesRange(s: seq<int>, lo: nat, hi: nat, i: nat, j: nat)
    requires lo <= i < hi && lo <= j < hi && hi <= |s|
    ensures multiset(s[i := s[j]][j := s[i]][lo..hi]) == multiset(s[lo..hi])
    ensures s[i := s[j]][j := s[i]][..lo] == s[..lo]
    ensures s[i := s[j]][j := s[i]][hi..] == s[hi..]
  {
    var t := s[i := s[j]][j := s[i]];
    var r := s[lo..hi];
    assert t[lo..hi] == r[i - lo := r[j - lo]][j - lo := r[i - lo]];
    SwapPermutes(r, i - lo, j - lo);
  }

  /** Swapping two positions, as every round of a sift or a partition does, permutes the sequence. */
  lemma SwapPermutes<T>(s: seq<T>, i: nat, j: nat)
    requires i < |s| && j < |s|
    ensures multiset(s[i := s[j]][j := s[i]]) == multiset(s)
  {
  }

  /** Every element of `s` is at most `v`. */
  ghost predicate AllAtMost(s: seq<int>, v: int) {
    forall k :: 0 <= k < |s| ==> s[k] <= v
  }

  /** Every element of `s` is greater than `v`. */
  ghost predicate AllAbove(s: seq<int>, v: int) {
    forall k :: 0 <= k < |s| ==> s[k] > v
  }

  /** A permutation keeps every bound that holds of all its elements. */
  lemma BoundsPermute(s: seq<int>, t: seq<int>, v: int)
    requires multiset(s) == multiset(t)
    ensures AllAtMost(t, v) ==> AllAtMost(s, v)
    ensures AllAbove(t, v) ==> AllAbove(s, v)
  {
    forall k | 0 <= k < |s|
      ensures exists m :: 0 <= m < |t| && t[m] == s[k]
    {
      assert s[k] in multiset(t);
    }
  }
}
