/** The record store and the index array over it. A record is represented
    by its title (the only field the engine reads); a record reference
    (`record*`) is an index into the store. Zero-filled records of a short
    load are simply records whose title is "". */
module Catalog {
  import opened Strings
  import opened SortKey

  /** Every reference in `s` points into a store of `n` records. */
  predicate InStore(s: seq<nat>, n: nat)
  {
    forall k :: 0 <= k < |s| ==> s[k] < n
  }

  /** The full sort key of every record of the store. */
  function SortKeys(titles: seq<string>): (keys: seq<string>)
    ensures |keys| == |titles|
    ensures forall x :: 0 <= x < |titles| ==> keys[x] == SortKeyOf(titles[x])
  {
    seq(|titles|, x requires 0 <= x < |titles| => SortKeyOf(titles[x]))
  }

  /** The folded three-character search key of every record of the store. */
  function SearchKeys(titles: seq<string>): (keys: seq<string>)
    ensures |keys| == |titles|
    ensures forall x :: 0 <= x < |titles| ==> keys[x] == SearchKeyOf(titles[x])
  {
    seq(|titles|, x requires 0 <= x < |titles| => SearchKeyOf(titles[x]))
  }

  /** The lower-cased full sort key of every record of the store (the order
      the search needs; see `Sorter.SortIndexFolded`). */
  function FoldedKeys(titles: seq<string>): (keys: seq<string>)
    ensures |keys| == |titles|
    ensures forall x :: 0 <= x < |titles| ==> keys[x] == LowerStr(SortKeyOf(titles[x]))
  {
    seq(|titles|, x requires 0 <= x < |titles| => LowerStr(SortKeyOf(titles[x])))
  }

  /** The folded three-character prefix of every key. */
  function PrefixKeys(keys: seq<string>): (r: seq<string>)
    ensures |r| == |keys|
    ensures forall x :: 0 <= x < |keys| ==> r[x] == LowerStr(Take(keys[x], 3))
  {
    seq(|keys|, x requires 0 <= x < |keys| => LowerStr(Take(keys[x], 3)))
  }

  /** A record's search key is the folded prefix of its sort key. */
  lemma SearchKeysArePrefixKeys(titles: seq<string>)
    ensures SearchKeys(titles) == PrefixKeys(SortKeys(titles))
  {
    forall x | 0 <= x < |titles|
      ensures SearchKeys(titles)[x] == PrefixKeys(SortKeys(titles))[x]
    {
      SearchKeyIsSortKeyPrefix(titles[x]);
    }
  }

  /** The key of the record each slot of the index array refers to. */
  function Slots(keys: seq<string>, s: seq<nat>): (ks: seq<string>)
    requires InStore(s, |keys|)
    ensures |ks| == |s|
    ensures forall k :: 0 <= k < |s| ==> ks[k] == keys[s[k]]
  {
    seq(|s|, k requires 0 <= k < |s| => keys[s[k]])
  }

  /** Keys in non-decreasing `strcmp` order. */
  ghost predicate Ordered(ks: seq<string>)
  {
    forall p, q :: 0 <= p < q < |ks| ==> LessEq(ks[p], ks[q])
  }

  /** The slots `lo..hi-1` of `s` refer to records in non-decreasing key
      order. */
  ghost predicate SortedBetween(keys: seq<string>, s: seq<nat>, lo: int, hi: int)
    requires InStore(s, |keys|)
  {
    forall p, q :: lo <= p < q < hi && 0 <= p && q < |s| ==> LessEq(keys[s[p]], keys[s[q]])
  }

  /** Reordering the index array keeps every reference inside the store. */
  lemma InStorePermuted(s: seq<nat>, t: seq<nat>, n: nat)
    requires InStore(s, n) && multiset(s) == multiset(t)
    ensures InStore(t, n)
  {
    forall k | 0 <= k < |t|
      ensures t[k] < n
    {
      assert t[k] in multiset(t);
      assert t[k] in multiset(s);
      var m :| 0 <= m < |s| && s[m] == t[k];
    }
  }

  /** When two arrangements agree outside `lo..hi-1` and hold the same
      references overall, they hold the same references inside that range. */
  lemma SegmentPermuted(s: seq<nat>, t: seq<nat>, lo: int, hi: int)
    requires 0 <= lo <= hi <= |s| == |t|
    requires multiset(s) == multiset(t)
    requires forall k :: 0 <= k < |s| && !(lo <= k < hi) ==> s[k] == t[k]
    ensures multiset(s[lo..hi]) == multiset(t[lo..hi])
  {
    assert s == s[..lo] + s[lo..hi] + s[hi..];
    assert t == t[..lo] + t[lo..hi] + t[hi..];
    assert s[..lo] == t[..lo];
    assert s[hi..] == t[hi..];
    var ms, mt := multiset(s[lo..hi]), multiset(t[lo..hi]);
    assert multiset(s) == multiset(s[..lo]) + ms + multiset(s[hi..]);
    assert multiset(t) == multiset(s[..lo]) + mt + multiset(s[hi..]);
    forall x
      ensures ms[x] == mt[x]
    {
      assert multiset(s)[x] == multiset(t)[x];
    }
  }

  /** Every reference of an arrangement of `s` has a key at most `pivot`
      (at least `pivot`) when every reference of `s` has. */
  lemma BoundsPermuted(keys: seq<string>, s: seq<nat>, t: seq<nat>, pivot: string)
    requires InStore(s, |keys|) && multiset(s) == multiset(t)
    ensures InStore(t, |keys|)
    ensures (forall k :: 0 <= k < |s| ==> LessEq(keys[s[k]], pivot)) ==>
              forall k :: 0 <= k < |t| ==> LessEq(keys[t[k]], pivot)
    ensures (forall k :: 0 <= k < |s| ==> LessEq(pivot, keys[s[k]])) ==>
              forall k :: 0 <= k < |t| ==> LessEq(pivot, keys[t[k]])
  {
    InStorePermuted(s, t, |keys|);
    forall k | 0 <= k < |t|
      ensures exists m :: 0 <= m < |s| && s[m] == t[k]
    {
      assert t[k] in multiset(t);
      assert t[k] in multiset(s);
    }
  }
}
