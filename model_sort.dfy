/**
 * The in-place quicksort the object model uses to order an array of
 * children (eina_model.c, `_eina_model_array_partition` and
 * `_eina_model_array_sort`).  The comparator is modelled by a key
 * function: `compare(x, y) < 0` exactly when `key(x) < key(y)`.
 */
module ModelSort {

  /** Keys are ascending over the closed index range [lo, hi] of `s`. */
  ghost predicate SortedBetween<T>(s: seq<T>, key: T -> int, lo: int, hi: int)
  {
    forall i, j :: 0 <= lo <= i < j <= hi < |s| ==> key(s[i]) <= key(s[j])
  }

  /** Every index of `a` outside [lo, hi] keeps the value it had in `before`. */
  ghost predicate SameOutside<T>(s: seq<T>, before: seq<T>, lo: int, hi: int)
  {
    |s| == |before| && forall k :: 0 <= k < |s| && (k < lo || hi < k) ==> s[k] == before[k]
  }

  /** A multiset-preserving rearrangement of [lo, hi] keeps the segment's multiset. */
  lemma SegmentPermutation<T>(s: seq<T>, before: seq<T>, lo: nat, hi: nat)
    requires lo <= hi < |s|
    requires SameOutside(s, before, lo, hi)
    requires multiset(s) == multiset(before)
    ensures multiset(s[lo..hi + 1]) == multiset(before[lo..hi + 1])
  {
    SameEnds(s, before, lo, hi);
    ThreeParts(s, lo, hi + 1);
    ThreeParts(before, lo, hi + 1);
    Cancel(multiset(s[..lo]), multiset(s[lo..hi + 1]), multiset(before[lo..hi + 1]), multiset(s[hi + 1..]));
  }

  /** The cells outside [lo, hi] are equal, as slices. */
  lemma SameEnds<T>(s: seq<T>, before: seq<T>, lo: nat, hi: nat)
    requires lo <= hi < |s|
    requires SameOutside(s, before, lo, hi)
    ensures s[..lo] == before[..lo] && s[hi + 1..] == before[hi + 1..]
  {
  }

  /** Equal multisets with the same parts around them are equal. */
  lemma Cancel<T>(a: multiset<T>, x: multiset<T>, y: multiset<T>, b: multiset<T>)
    requires a + x + b == a + y + b
    ensures x == y
  {
    forall e {:trigger x[e]}
      ensures x[e] == y[e]
    {
      assert (a + x + b)[e] == (a + y + b)[e];
    }
  }

  /** The multiset of a sequence is that of its three parts around [i, j). */
  lemma ThreeParts<T>(s: seq<T>, i: nat, j: nat)
    requires i <= j <= |s|
    ensures multiset(s) == multiset(s[..i]) + multiset(s[i..j]) + multiset(s[j..])
  {
    assert s == s[..i] + s[i..j] + s[j..];
  }

  /** Rearranging [lo, hi] keeps every key there below `b` if it was before. */
  lemma BelowKept<T>(s: seq<T>, before: seq<T>, lo: nat, hi: nat, key: T -> int, b: int)
    requires lo <= hi < |s|
    requires SameOutside(s, before, lo, hi)
    requires multiset(s) == multiset(before)
    requires forall k :: lo <= k <= hi ==> key(before[k]) < b
    ensures forall k :: lo <= k <= hi ==> key(s[k]) < b
  {
    SegmentPermutation(s, before, lo, hi);
    forall k | lo <= k <= hi
      ensures key(s[k]) < b
    {
      assert s[k] == s[lo..hi + 1][k - lo];
      assert s[k] in multiset(before[lo..hi + 1]);
      var j :| 0 <= j < hi + 1 - lo && before[lo..hi + 1][j] == s[k];
      assert before[lo + j] == s[k];
    }
  }

  /** Rearranging [lo, hi] keeps every key there at least `b` if it was before. */
  lemma AtLeastKept<T>(s: seq<T>, before: seq<T>, lo: nat, hi: nat, key: T -> int, b: int)
    requires lo <= hi < |s|
    requires SameOutside(s, before, lo, hi)
    requires multiset(s) == multiset(before)
    requires forall k :: lo <= k <= hi ==> b <= key(before[k])
    ensures forall k :: lo <= k <= hi ==> b <= key(s[k])
  {
    SegmentPermutation(s, before, lo, hi);
    forall k | lo <= k <= hi
      ensures b <= key(s[k])
    {
      assert s[k] == s[lo..hi + 1][k - lo];
      assert s[k] in multiset(before[lo..hi + 1]);
      var j :| 0 <= j < hi + 1 - lo && before[lo..hi + 1][j] == s[k];
      assert before[lo + j] == s[k];
    }
  }

  /** Two sorted runs around a pivot that separates them make one sorted run. */
  lemma JoinedAroundPivot<T>(s: seq<T>, key: T -> int, start: nat, p: nat, last: nat)
    requires start <= p <= last < |s|
    requires SortedBetween(s, key, start, p - 1)
    requires SortedBetween(s, key, p + 1, last)
    requires forall k :: start <= k < p ==> key(s[k]) < key(s[p])
    requires forall k :: p < k <= last ==> key(s[p]) <= key(s[k])
    ensures SortedBetween(s, key, start, last)
  {
  }

  /** The three steps of one sort round together only touch [start, last]. */
  lemma Recombined<T>(s: seq<T>, leftDone: seq<T>, parted: seq<T>, before: seq<T>, start: nat, p: nat, last: nat)
    requires start <= p <= last
    requires SameOutside(parted, before, start, last)
    requires SameOutside(leftDone, parted, start, p as int - 1)
    requires SameOutside(s, leftDone, p + 1, last)
    ensures SameOutside(s, before, start, last)
  {
  }

  /** Exchanges two cells. */
  method Swap<T>(a: array<T>, i: nat, j: nat)
    requires i < a.Length && j < a.Length
    modifies a
    ensures a[i] == old(a[j]) && a[j] == old(a[i])
    ensures forall k :: 0 <= k < a.Length && k != i && k != j ==> a[k] == old(a[k])
    ensures multiset(a[..]) == multiset(old(a[..]))
  {
    var tmp := a[i];
    a[i] := a[j];
    a[j] := tmp;
  }

  /**
   * Moves the value at `pivot` to its final place `p` in [start, last]:
   * smaller keys before it, the others after it.
   */
  method Partition<T>(a: array<T>, start: nat, last: nat, pivot: nat, key: T -> int) returns (p: nat)
    requires start <= pivot <= last < a.Length
    modifies a
    ensures start <= p <= last
    ensures a[p] == old(a[pivot])
    ensures forall k :: start <= k < p ==> key(a[k]) < key(a[p])
    ensures forall k :: p < k <= last ==> key(a[p]) <= key(a[k])
    ensures SameOutside(a[..], old(a[..]), start, last)
    ensures multiset(a[..]) == multiset(old(a[..]))
  {
    var pivotValue := a[pivot];
    Swap(a, pivot, last);
    p := start;
    var itr := start;
    while itr < last
      invariant start <= p <= itr <= last
      invariant a[last] == pivotValue
      invariant forall k :: start <= k < p ==> key(a[k]) < key(pivotValue)
      invariant forall k :: p <= k < itr ==> key(pivotValue) <= key(a[k])
      invariant SameOutside(a[..], old(a[..]), start, last)
      invariant multiset(a[..]) == multiset(old(a[..]))
    {
      if key(a[itr]) < key(pivotValue) {
        Swap(a, itr, p);
        p := p + 1;
      }
      itr := itr + 1;
    }
    Swap(a, last, p);
  }

  /** Sorts [start, last] in place; a range of fewer than two cells is left alone. */
  method Sort<T>(a: array<T>, start: nat, last: nat, key: T -> int)
    requires last < a.Length
    modifies a
    ensures SortedBetween(a[..], key, start, last)
    ensures SameOutside(a[..], old(a[..]), start, last)
    ensures multiset(a[..]) == multiset(old(a[..]))
    decreases last - start, 1
  {
    if last <= start {
      return;
    }
    var pivot := start + (last - start) / 2;
    var p := Partition(a, start, last, pivot, key);
    ghost var parted := a[..];
    SortBelow(a, start, p, last, key);
    ghost var leftDone := a[..];
    SortAbove(a, start, p, last, key);
    Recombined(a[..], leftDone, parted, old(a[..]), start, p, last);
    JoinedAroundPivot(a[..], key, start, p, last);
  }

  /** The first recursive call: sorts [start, p - 1], below the pivot at `p`. */
  method SortBelow<T>(a: array<T>, start: nat, p: nat, last: nat, key: T -> int)
    requires start <= p <= last < a.Length
    requires forall k :: start <= k < p ==> key(a[k]) < key(a[p])
    modifies a
    ensures SortedBetween(a[..], key, start, p - 1)
    ensures forall k :: start <= k < p ==> key(a[k]) < key(a[p])
    ensures SameOutside(a[..], old(a[..]), start, p - 1)
    ensures multiset(a[..]) == multiset(old(a[..]))
    decreases last - start, 0
  {
    if start + 1 < p {
      ghost var before := a[..];
      Sort(a, start, p - 1, key);
      BelowKept(a[..], before, start, p - 1, key, key(a[p]));
    }
  }

  /** The second recursive call: sorts [p + 1, last], above the pivot at `p`. */
  method SortAbove<T>(a: array<T>, start: nat, p: nat, last: nat, key: T -> int)
    requires start <= p <= last < a.Length
    requires forall k :: p < k <= last ==> key(a[p]) <= key(a[k])
    modifies a
    ensures SortedBetween(a[..], key, p + 1, last)
    ensures forall k :: p < k <= last ==> key(a[p]) <= key(a[k])
    ensures SameOutside(a[..], old(a[..]), p + 1, last)
    ensures multiset(a[..]) == multiset(old(a[..]))
    decreases last - start, 0
  {
    if p + 1 < last {
      ghost var before := a[..];
      Sort(a, p + 1, last, key);
      AtLeastKept(a[..], before, p + 1, last, key, key(a[p]));
    }
  }
}
