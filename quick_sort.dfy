/** `quick_sort`: Hoare/Wirth partition sort of the index array, ordered by
    `strcmp` of the records' keys. The records themselves never move; only
    the references in the index array are permuted. The method takes the key
    of every record of the store in `keys` (`get_surname` is pure and the
    records are immutable, so `keys[a[i]]` is what
    `get_surname(a[i]->title)` yields each time it is called). */
module Sorter {
  import opened Strings
  import opened SortKey
  import opened Catalog

  /** The partition loop: the pivot is the key of the leftmost slot, taken
      once; cursor `i` moves right past keys below it, cursor `j` left past
      keys above it, and the two slots they stop at are swapped. At the end
      the slots `l..i-1` are at most the pivot, `j+1..r` at least the pivot,
      both cursors stayed within `l-1..r+1`, and both parts are strictly
      smaller than `l..r`. */
  method Partition(keys: seq<string>, a: array<nat>, l: int, r: int) returns (i: int, j: int, pivot: string)
    requires InStore(a[..], |keys|)
    requires 0 <= l < r < a.Length
    modifies a
    ensures pivot == old(keys[a[l]])
    ensures l < i <= r + 1 && l - 1 <= j < r && j < i
    ensures multiset(a[..]) == old(multiset(a[..]))
    ensures forall k :: 0 <= k < a.Length && !(l <= k <= r) ==> a[k] == old(a[k])
    ensures InStore(a[..], |keys|)
    ensures forall k :: l <= k < i ==> LessEq(keys[a[k]], pivot)
    ensures forall k :: j < k <= r ==> LessEq(pivot, keys[a[k]])
  {
    assert forall k :: 0 <= k < a.Length ==> a[k] < |keys| by {
      forall k | 0 <= k < a.Length
        ensures a[k] < |keys|
      {
        assert a[..][k] == a[k];
      }
    }
    pivot := keys[a[l]];
    LessIrreflexive(pivot);
    i, j := l, r;
    while i <= j
      invariant l <= i <= r + 1 && l - 1 <= j <= r
      invariant forall k :: 0 <= k < a.Length ==> a[k] < |keys|
      invariant i == l ==> j == r && keys[a[l]] == pivot
      invariant i > l ==> j < r
      invariant multiset(a[..]) == old(multiset(a[..]))
      invariant forall k :: 0 <= k < a.Length && !(l <= k <= r) ==> a[k] == old(a[k])
      invariant forall k :: l <= k < i ==> LessEq(keys[a[k]], pivot)
      invariant forall k :: j < k <= r ==> LessEq(pivot, keys[a[k]])
    {
      ghost var i0, j0 := i, j;
      i := ScanRight(keys, a, i, r, pivot);
      forall k | i0 <= k < i
        ensures LessEq(keys[a[k]], pivot)
      {
        LessAsymmetric(keys[a[k]], pivot);
      }
      j := ScanLeft(keys, a, l, j, pivot);
      forall k | j < k <= j0
        ensures LessEq(pivot, keys[a[k]])
      {
        LessAsymmetric(pivot, keys[a[k]]);
      }
      if i <= j {
        Swap(a, i, j);
        i := i + 1;
        j := j - 1;
      }
    }
    assert InStore(a[..], |keys|);
  }

  /** Exchanges two slots of the index array (`main.cpp:134-136`). */
  method Swap(a: array<nat>, i: int, j: int)
    requires 0 <= i < a.Length && 0 <= j < a.Length
    modifies a
    ensures a[i] == old(a[j]) && a[j] == old(a[i])
    ensures forall k :: 0 <= k < a.Length && k != i && k != j ==> a[k] == old(a[k])
    ensures multiset(a[..]) == old(multiset(a[..]))
  {
    a[i], a[j] := a[j], a[i];
  }

  /** The inner scan of the left cursor (`main.cpp:130`): cursor `i` passes
      exactly the keys below the pivot and stops at the first key that is
      not, or just past `r`. */
  method ScanRight(keys: seq<string>, a: array<nat>, i0: int, r: int, pivot: string) returns (i: int)
    requires 0 <= i0 <= r + 1 <= a.Length
    requires forall k :: 0 <= k < a.Length ==> a[k] < |keys|
    ensures i0 <= i <= r + 1
    ensures forall k :: i0 <= k < i ==> Less(keys[a[k]], pivot)
    ensures i <= r ==> !Less(keys[a[i]], pivot)
  {
    i := i0;
    while i <= r && Less(keys[a[i]], pivot)
      invariant i0 <= i <= r + 1
      invariant forall k :: i0 <= k < i ==> Less(keys[a[k]], pivot)
    {
      i := i + 1;
    }
  }

  /** The inner scan of the right cursor (`main.cpp:131`): cursor `j` passes
      exactly the keys above the pivot and stops at the first key that is
      not, or just before `l`. */
  method ScanLeft(keys: seq<string>, a: array<nat>, l: int, j0: int, pivot: string) returns (j: int)
    requires -1 <= l - 1 <= j0 < a.Length
    requires forall k :: 0 <= k < a.Length ==> a[k] < |keys|
    ensures l - 1 <= j <= j0
    ensures forall k :: j < k <= j0 ==> Less(pivot, keys[a[k]])
    ensures j >= l ==> !Less(pivot, keys[a[j]])
  {
    j := j0;
    while j >= l && Less(pivot, keys[a[j]])
      invariant l - 1 <= j <= j0
      invariant forall k :: j < k <= j0 ==> Less(pivot, keys[a[k]])
    {
      j := j - 1;
    }
  }

  /** `quick_sort(a, l, r)`: afterwards the slots `l..r` refer to records in
      non-decreasing key order, the array holds the same references as
      before, and no slot outside `l..r` has changed; when `l >= r` nothing
      changes at all. Each recursive call is on a strictly smaller range. */
  method QuickSort(keys: seq<string>, a: array<nat>, l: int, r: int)
    requires InStore(a[..], |keys|)
    requires l < r ==> 0 <= l && r < a.Length
    modifies a
    ensures l >= r ==> a[..] == old(a[..])
    ensures multiset(a[..]) == old(multiset(a[..]))
    ensures forall k :: 0 <= k < a.Length && !(l <= k <= r) ==> a[k] == old(a[k])
    ensures InStore(a[..], |keys|)
    ensures SortedBetween(keys, a[..], l, r + 1)
    decreases r - l
  {
    if l >= r {
      return;
    }
    var i, j, pivot := Partition(keys, a, l, r);
    ghost var a1 := a[..];
    if l < j {
      QuickSort(keys, a, l, j);
    }
    ghost var a2 := a[..];
    if i < r {
      QuickSort(keys, a, i, r);
    }
    ghost var a3 := a[..];
    SortedAfterRecursion(keys, a1, a2, a3, l, j, i, r, pivot);
  }

  /** The two recursive calls only rearrange the slots on their own side of
      the partition, so the bounds against the pivot survive them and the
      whole range ends up sorted. */
  lemma SortedAfterRecursion(keys: seq<string>, a1: seq<nat>, a2: seq<nat>, a3: seq<nat>,
                             l: int, j: int, i: int, r: int, pivot: string)
    requires InStore(a1, |keys|) && InStore(a2, |keys|) && InStore(a3, |keys|)
    requires |a1| == |a2| == |a3|
    requires 0 <= l && l - 1 <= j < i <= r + 1 && r < |a1|
    requires forall k :: l <= k < i ==> LessEq(keys[a1[k]], pivot)
    requires forall k :: j < k <= r ==> LessEq(pivot, keys[a1[k]])
    requires multiset(a1) == multiset(a2)
    requires forall k :: 0 <= k < |a1| && !(l <= k <= j) ==> a2[k] == a1[k]
    requires SortedBetween(keys, a2, l, j + 1)
    requires multiset(a2) == multiset(a3)
    requires forall k :: 0 <= k < |a1| && !(i <= k <= r) ==> a3[k] == a2[k]
    requires SortedBetween(keys, a3, i, r + 1)
    ensures SortedBetween(keys, a3, l, r + 1)
  {
    LeftAfterRecursion(keys, a1, a2, a3, l, j, i, r, pivot);
    RightAfterRecursion(keys, a1, a2, a3, l, j, i, r, pivot);
    SortedAroundPivot(keys, a3, l, j, i, r, pivot);
  }

  /** Sorting the left part keeps it at most the pivot and sorted, and the
      right call does not touch it. */
  lemma LeftAfterRecursion(keys: seq<string>, a1: seq<nat>, a2: seq<nat>, a3: seq<nat>,
                           l: int, j: int, i: int, r: int, pivot: string)
    requires InStore(a1, |keys|) && InStore(a2, |keys|) && InStore(a3, |keys|)
    requires |a1| == |a2| == |a3|
    requires 0 <= l && l - 1 <= j < i <= r + 1 && r < |a1|
    requires forall k :: l <= k < i ==> LessEq(keys[a1[k]], pivot)
    requires multiset(a1) == multiset(a2)
    requires forall k :: 0 <= k < |a1| && !(l <= k <= j) ==> a2[k] == a1[k]
    requires SortedBetween(keys, a2, l, j + 1)
    requires forall k :: 0 <= k < |a1| && !(i <= k <= r) ==> a3[k] == a2[k]
    ensures forall k :: l <= k < i ==> LessEq(keys[a3[k]], pivot)
    ensures SortedBetween(keys, a3, l, j + 1)
  {
    SegmentPermuted(a1, a2, l, j + 1);
    BoundsPermuted(keys, a1[l..j + 1], a2[l..j + 1], pivot);
    forall k | l <= k < i
      ensures LessEq(keys[a3[k]], pivot)
    {
      if k <= j {
        assert a2[l..j + 1][k - l] == a3[k];
      }
    }
  }

  /** Sorting the right part keeps it at least the pivot. */
  lemma RightAfterRecursion(keys: seq<string>, a1: seq<nat>, a2: seq<nat>, a3: seq<nat>,
                            l: int, j: int, i: int, r: int, pivot: string)
    requires InStore(a1, |keys|) && InStore(a2, |keys|) && InStore(a3, |keys|)
    requires |a1| == |a2| == |a3|
    requires 0 <= l && l - 1 <= j < i <= r + 1 && r < |a1|
    requires forall k :: j < k <= r ==> LessEq(pivot, keys[a1[k]])
    requires forall k :: 0 <= k < |a1| && !(l <= k <= j) ==> a2[k] == a1[k]
    requires multiset(a2) == multiset(a3)
    requires forall k :: 0 <= k < |a1| && !(i <= k <= r) ==> a3[k] == a2[k]
    ensures forall k :: j < k <= r ==> LessEq(pivot, keys[a3[k]])
  {
    SegmentPermuted(a2, a3, i, r + 1);
    assert a2[i..r + 1] == a1[i..r + 1];
    BoundsPermuted(keys, a2[i..r + 1], a3[i..r + 1], pivot);
    forall k | j < k <= r
      ensures LessEq(pivot, keys[a3[k]])
    {
      if k >= i {
        assert a3[i..r + 1][k - i] == a3[k];
      }
    }
  }

  /** A range whose two ends are sorted, whose left part is at most `pivot`
      and whose right part at least `pivot`, is sorted as a whole. */
  lemma SortedAroundPivot(keys: seq<string>, s: seq<nat>, l: int, j: int, i: int, r: int, pivot: string)
    requires InStore(s, |keys|)
    requires 0 <= l && l - 1 <= j < i <= r + 1 && r < |s|
    requires SortedBetween(keys, s, l, j + 1) && SortedBetween(keys, s, i, r + 1)
    requires forall k :: l <= k < i ==> LessEq(keys[s[k]], pivot)
    requires forall k :: j < k <= r ==> LessEq(pivot, keys[s[k]])
    ensures SortedBetween(keys, s, l, r + 1)
  {
    forall p, q | l <= p < q < r + 1
      ensures LessEq(keys[s[p]], keys[s[q]])
    {
      if j < q && p < i {
        LessEqTransitive(keys[s[p]], pivot, keys[s[q]]);
      }
    }
  }

  /** The sort the catalog runs before paging and searching:
      `quick_sort(indexes, 0, N - 1)` on the records' surname keys. */
  method SortIndex(titles: seq<string>, a: array<nat>)
    requires InStore(a[..], |titles|)
    modifies a
    ensures multiset(a[..]) == old(multiset(a[..]))
    ensures InStore(a[..], |titles|)
    ensures Ordered(Slots(SortKeys(titles), a[..]))
  {
    QuickSort(SortKeys(titles), a, 0, a.Length - 1);
    assert SortedBetween(SortKeys(titles), a[..], 0, a.Length);
  }

  /** The sort the search needs: `quick_sort` comparing the folded sort keys
      instead of the raw ones. The index array it leaves is ordered by the
      folded three-character search key as well. */
  method SortIndexFolded(titles: seq<string>, a: array<nat>)
    requires InStore(a[..], |titles|)
    modifies a
    ensures multiset(a[..]) == old(multiset(a[..]))
    ensures InStore(a[..], |titles|)
    ensures Ordered(Slots(FoldedKeys(titles), a[..]))
    ensures Ordered(Slots(SearchKeys(titles), a[..]))
  {
    QuickSort(FoldedKeys(titles), a, 0, a.Length - 1);
    assert SortedBetween(FoldedKeys(titles), a[..], 0, a.Length);
    FoldedOrderIsSearchOrder(titles, a[..]);
  }

  /** An arrangement in folded-sort-key order is in search-key order:
      truncating to three characters never reverses two keys. */
  lemma FoldedOrderIsSearchOrder(titles: seq<string>, s: seq<nat>)
    requires InStore(s, |titles|)
    requires Ordered(Slots(FoldedKeys(titles), s))
    ensures Ordered(Slots(SearchKeys(titles), s))
  {
    var fk, sk := Slots(FoldedKeys(titles), s), Slots(SearchKeys(titles), s);
    forall p, q | 0 <= p < q < |s|
      ensures LessEq(sk[p], sk[q])
    {
      SearchKeyIsFoldedPrefix(titles[s[p]]);
      SearchKeyIsFoldedPrefix(titles[s[q]]);
      TakeMonotone(fk[p], fk[q], 3);
    }
  }
}
