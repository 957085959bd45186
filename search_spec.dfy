/** What `binary_search` computes, as functions of the index array: a
    leftmost-match binary search on the folded three-character key, followed
    by a forward scan over the run of matching records; and what it should
    compute, the matches in index order. */
module Search {
  import opened Strings
  import opened Catalog

  /** Every reference of `s` whose record has key `key`, in index order: what
      a search for `key` should deliver. */
  function Matches(keys: seq<string>, s: seq<nat>, key: string): (m: seq<nat>)
    requires InStore(s, |keys|)
    ensures |m| <= |s|
  {
    if s == [] then []
    else (if keys[s[0]] == key then [s[0]] else []) + Matches(keys, s[1..], key)
  }

  /** A reference is among the matches exactly when it is in the index
      array and its record has key `key`. */
  lemma {:induction false} MatchesMembers(keys: seq<string>, s: seq<nat>, key: string)
    requires InStore(s, |keys|)
    ensures forall x :: x in Matches(keys, s, key) <==> x in s && keys[x] == key
  {
    if s != [] {
      MatchesMembers(keys, s[1..], key);
      assert s == [s[0]] + s[1..];
    }
  }

  /** The end of the run of slots holding `key` that starts at `from`: the
      first slot from `from` on that does not hold it, or the end. */
  function RunEnd(ks: seq<string>, key: string, from: int): (e: int)
    requires 0 <= from <= |ks|
    ensures from <= e <= |ks|
    ensures forall k :: from <= k < e ==> ks[k] == key
    ensures e == |ks| || ks[e] != key
    decreases |ks| - from
  {
    if from == |ks| || ks[from] != key then from else RunEnd(ks, key, from + 1)
  }

  /** One probe of the binary search over the slot keys `ks` between `left`
      and `right`, with the match recorded so far in `first` (-1 for none):
      the middle slot is read; a hit is recorded and the search goes on to
      its left, otherwise it goes on to the half that can hold `key`. The
      range shrinks and stays inside the old one, and the match recorded is
      `first` or a slot of the range that holds `key`. */
  function Narrow(ks: seq<string>, key: string, left: int, right: int, first: int): (n: (int, int, int))
    requires 0 <= left <= right < |ks|
    ensures left <= n.0 <= n.1 + 1 <= right + 1 && n.1 - n.0 < right - left
    ensures n.2 == first || (left <= n.2 <= right && ks[n.2] == key)
  {
    var mid := left + (right - left) / 2;
    if ks[mid] == key then (left, mid - 1, mid)
    else if Less(ks[mid], key) then (mid + 1, right, first)
    else (left, mid - 1, first)
  }

  /** The answer of the probes from `left..right` on: `first` or a slot of
      the range that holds `key`. */
  function Probe(ks: seq<string>, key: string, left: int, right: int, first: int): (f: int)
    requires 0 <= left <= right + 1 <= |ks|
    ensures f == first || (left <= f <= right && ks[f] == key)
    decreases right - left + 1
  {
    if left > right then first
    else
      var n := Narrow(ks, key, left, right, first);
      Probe(ks, key, n.0, n.1, n.2)
  }

  /** A probe that finds `key` records it and goes on to the left half. */
  lemma ProbeHit(ks: seq<string>, key: string, left: int, right: int, first: int, mid: int)
    requires 0 <= left <= right < |ks|
    requires mid == left + (right - left) / 2 && ks[mid] == key
    ensures Probe(ks, key, left, right, first) == Probe(ks, key, left, mid - 1, mid)
  {
  }

  /** A probe that reads a smaller key goes on to the right half. */
  lemma ProbeRight(ks: seq<string>, key: string, left: int, right: int, first: int, mid: int)
    requires 0 <= left <= right < |ks|
    requires mid == left + (right - left) / 2 && ks[mid] != key && Less(ks[mid], key)
    ensures Probe(ks, key, left, right, first) == Probe(ks, key, mid + 1, right, first)
  {
  }

  /** A probe that reads a greater key goes on to the left half. */
  lemma ProbeLeft(ks: seq<string>, key: string, left: int, right: int, first: int, mid: int)
    requires 0 <= left <= right < |ks|
    requires mid == left + (right - left) / 2 && ks[mid] != key && !Less(ks[mid], key)
    ensures Probe(ks, key, left, right, first) == Probe(ks, key, left, mid - 1, first)
  {
  }

  /** The probes stop once the range is empty. */
  lemma ProbeDone(ks: seq<string>, key: string, left: int, right: int, first: int)
    requires 0 <= left == right + 1 <= |ks|
    ensures Probe(ks, key, left, right, first) == first
  {
  }

  /** What `binary_search` appends to the queue: nothing when no probe
      matched, otherwise the run of matching slots from the first match. */
  function SearchResult(keys: seq<string>, s: seq<nat>, key: string): (m: seq<nat>)
    requires InStore(s, |keys|)
    ensures |m| <= |s|
  {
    RunAt(keys, s, key, Probe(Slots(keys, s), key, 0, |s| - 1, -1))
  }

  /** The slots from `f` to the end of its run, or none when `f` is -1. */
  function RunAt(keys: seq<string>, s: seq<nat>, key: string, f: int): (m: seq<nat>)
    requires InStore(s, |keys|) && -1 <= f < |s|
    ensures |m| <= |s|
  {
    if f == -1 then [] else s[f..RunEnd(Slots(keys, s), key, f)]
  }

  /** Whatever the order of the index array, the search delivers only
      records of the array whose key is `key`. */
  lemma SearchResultSound(keys: seq<string>, s: seq<nat>, key: string)
    requires InStore(s, |keys|)
    ensures forall x :: x in SearchResult(keys, s, key) ==> x in s && keys[x] == key
  {
    var ks := Slots(keys, s);
    var f := Probe(ks, key, 0, |s| - 1, -1);
    if f != -1 {
      var e := RunEnd(ks, key, f);
      assert forall k :: f <= k < e ==> s[f..e][k - f] == s[k];
    }
  }

  /** `f` is the leftmost slot holding `key`, or -1 and no slot holds it. */
  ghost predicate Leftmost(ks: seq<string>, key: string, f: int)
  {
    || (f == -1 && forall k :: 0 <= k < |ks| ==> ks[k] != key)
    || (0 <= f < |ks| && ks[f] == key && forall k :: 0 <= k < f ==> ks[k] != key)
  }

  /** The invariant of the probe loop on slot keys in order: nothing left of
      `left` holds `key`, and nothing right of `right` holds it before the
      match `first` recorded so far (or at all, when there is none). */
  ghost predicate Bracketed(ks: seq<string>, key: string, left: int, right: int, first: int)
  {
    && 0 <= left <= right + 1 <= |ks|
    && (forall k :: 0 <= k < left ==> ks[k] != key)
    && (first == -1 || (right < first < |ks| && ks[first] == key))
    && (forall k :: right < k < |ks| && (first == -1 || k < first) ==> ks[k] != key)
  }

  /** A probe that finds `key` keeps the invariant with the match recorded. */
  lemma BracketHit(ks: seq<string>, key: string, left: int, right: int, first: int, mid: int)
    requires Bracketed(ks, key, left, right, first) && left <= right
    requires mid == left + (right - left) / 2 && ks[mid] == key
    ensures Bracketed(ks, key, left, mid - 1, mid)
  {
  }

  /** On ordered keys, a probe that reads a smaller key may drop the left
      half: no slot up to `mid` holds `key`. */
  lemma BracketRight(ks: seq<string>, key: string, left: int, right: int, first: int, mid: int)
    requires Ordered(ks) && Bracketed(ks, key, left, right, first) && left <= right
    requires mid == left + (right - left) / 2 && Less(ks[mid], key)
    ensures Bracketed(ks, key, mid + 1, right, first)
  {
    LessIrreflexive(key);
    forall k | left <= k < mid
      ensures ks[k] != key
    {
      assert LessEq(ks[k], ks[mid]);
    }
  }

  /** On ordered keys, a probe that reads a greater key may drop the right
      half: no slot from `mid` on holds `key`. */
  lemma BracketLeft(ks: seq<string>, key: string, left: int, right: int, first: int, mid: int)
    requires Ordered(ks) && Bracketed(ks, key, left, right, first) && left <= right
    requires mid == left + (right - left) / 2 && ks[mid] != key && !Less(ks[mid], key)
    ensures Bracketed(ks, key, left, mid - 1, first)
  {
    LessTotal(ks[mid], key);
    forall k | mid < k <= right
      ensures ks[k] != key
    {
      assert LessEq(ks[mid], ks[k]);
    }
  }

  /** On slot keys in order, the probes answer the leftmost slot holding
      `key`, or -1 exactly when no slot holds it. */
  lemma {:induction false} ProbeLeftmost(ks: seq<string>, key: string, left: int, right: int, first: int)
    requires Ordered(ks) && Bracketed(ks, key, left, right, first)
    ensures Leftmost(ks, key, Probe(ks, key, left, right, first))
    decreases right - left + 1, 1
  {
    if left <= right {
      var mid := left + (right - left) / 2;
      if ks[mid] == key {
        LeftmostHit(ks, key, left, right, first, mid);
      } else if Less(ks[mid], key) {
        LeftmostRight(ks, key, left, right, first, mid);
      } else {
        LeftmostLeft(ks, key, left, right, first, mid);
      }
    } else {
      ProbeDone(ks, key, left, right, first);
    }
  }

  lemma {:induction false} LeftmostHit(ks: seq<string>, key: string, left: int, right: int, first: int, mid: int)
    requires Ordered(ks) && Bracketed(ks, key, left, right, first) && left <= right
    requires mid == left + (right - left) / 2 && ks[mid] == key
    ensures Leftmost(ks, key, Probe(ks, key, left, right, first))
    decreases right - left + 1, 0
  {
    ProbeHit(ks, key, left, right, first, mid);
    BracketHit(ks, key, left, right, first, mid);
    ProbeLeftmost(ks, key, left, mid - 1, mid);
  }

  lemma {:induction false} LeftmostRight(ks: seq<string>, key: string, left: int, right: int, first: int, mid: int)
    requires Ordered(ks) && Bracketed(ks, key, left, right, first) && left <= right
    requires mid == left + (right - left) / 2 && ks[mid] != key && Less(ks[mid], key)
    ensures Leftmost(ks, key, Probe(ks, key, left, right, first))
    decreases right - left + 1, 0
  {
    ProbeRight(ks, key, left, right, first, mid);
    BracketRight(ks, key, left, right, first, mid);
    ProbeLeftmost(ks, key, mid + 1, right, first);
  }

  lemma {:induction false} LeftmostLeft(ks: seq<string>, key: string, left: int, right: int, first: int, mid: int)
    requires Ordered(ks) && Bracketed(ks, key, left, right, first) && left <= right
    requires mid == left + (right - left) / 2 && ks[mid] != key && !Less(ks[mid], key)
    ensures Leftmost(ks, key, Probe(ks, key, left, right, first))
    decreases right - left + 1, 0
  {
    ProbeLeft(ks, key, left, right, first, mid);
    BracketLeft(ks, key, left, right, first, mid);
    ProbeLeftmost(ks, key, left, mid - 1, first);
  }

  /** When exactly the slots `f..e-1` hold `key`, the matches are those
      slots, in order. */
  lemma {:induction false} MatchesOfRange(keys: seq<string>, s: seq<nat>, key: string, f: int, e: int)
    requires InStore(s, |keys|)
    requires 0 <= f <= e <= |s|
    requires forall k :: 0 <= k < |s| ==> (keys[s[k]] == key <==> f <= k < e)
    ensures Matches(keys, s, key) == s[f..e]
  {
    if s != [] {
      var t := s[1..];
      assert forall k :: 0 <= k < |t| ==> t[k] == s[k + 1];
      assert keys[s[0]] == key <==> f == 0 < e;
      if f > 0 {
        MatchesOfRange(keys, t, key, f - 1, e - 1);
        assert t[f - 1..e - 1] == s[f..e];
      } else if e > 0 {
        MatchesOfRange(keys, t, key, 0, e - 1);
        assert s[0..e] == [s[0]] + t[0..e - 1];
      } else {
        MatchesOfRange(keys, t, key, 0, 0);
      }
    }
  }

  /** Search completeness and contiguity: on an index array ordered by the
      folded three-character key, the search delivers every record whose
      key matches and no other, in index order. */
  lemma SearchFindsAllMatches(keys: seq<string>, s: seq<nat>, key: string)
    requires InStore(s, |keys|)
    requires Ordered(Slots(keys, s))
    ensures SearchResult(keys, s, key) == Matches(keys, s, key)
  {
    var ks := Slots(keys, s);
    assert Bracketed(ks, key, 0, |s| - 1, -1);
    ProbeLeftmost(ks, key, 0, |s| - 1, -1);
    var f := Probe(ks, key, 0, |s| - 1, -1);
    if f == -1 {
      MatchesOfRange(keys, s, key, 0, 0);
    } else {
      var e := RunEnd(ks, key, f);
      if e < |s| {
        LessEqIff(key, ks[e]);
        assert LessEq(ks[f], ks[e]);
        forall k | e < k < |s|
          ensures ks[k] != key
        {
          assert LessEq(ks[e], ks[k]);
        }
      }
      MatchesOfRange(keys, s, key, f, e);
    }
  }
}
