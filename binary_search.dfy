/** `binary_search` itself: the probing loop over the index array and the
    forward scan that enqueues the run of matching records, each proved
    against the functions of `Search`. */
module Searcher {
  import opened Strings
  import opened SortKey
  import opened Catalog
  import opened ResultQueue
  import opened Search

  /** The leftmost-match loop of `binary_search`: `firstIndex` is the
      answer of the probes, so it is -1 or a slot whose record has key
      `key`, and on an index array in key order it is the leftmost such slot
      (`ProbeLeftmost`). `keys[x]` is the search key of record `x`. */
  method FindFirst(keys: seq<string>, a: array<nat>, key: string) returns (firstIndex: int)
    requires InStore(a[..], |keys|)
    ensures firstIndex == Probe(Slots(keys, a[..]), key, 0, a.Length - 1, -1)
    ensures firstIndex == -1 || (0 <= firstIndex < a.Length && keys[a[firstIndex]] == key)
  {
    ghost var ks := Slots(keys, a[..]);
    var left, right := 0, a.Length - 1;
    firstIndex := -1;
    ghost var target := Probe(ks, key, left, right, firstIndex);
    while left <= right
      invariant 0 <= left <= right + 1 <= a.Length
      invariant firstIndex == -1 || 0 <= firstIndex < a.Length
      invariant Probe(ks, key, left, right, firstIndex) == target
      decreases right - left
    {
      ghost var before := (left, right, firstIndex);
      left, right, firstIndex := ProbeOnce(keys, a, key, left, right, firstIndex);
      assert Probe(ks, key, before.0, before.1, before.2) == Probe(ks, key, left, right, firstIndex);
    }
    ProbeDone(ks, key, left, right, firstIndex);
    assert firstIndex != -1 ==> a[..][firstIndex] == a[firstIndex];
  }

  /** One pass of the probe loop (`main.cpp:224-240`): read the search key of
      the middle slot's record and narrow the range as `Narrow` does. */
  method ProbeOnce(keys: seq<string>, a: array<nat>, key: string, left: int, right: int, firstIndex: int)
      returns (newLeft: int, newRight: int, newFirst: int)
    requires InStore(a[..], |keys|)
    requires 0 <= left <= right < a.Length
    ensures (newLeft, newRight, newFirst) == Narrow(Slots(keys, a[..]), key, left, right, firstIndex)
  {
    var mid := left + (right - left) / 2;
    assert a[..][mid] == a[mid];
    var lowerSurname := keys[a[mid]];
    newLeft, newRight, newFirst := left, right, firstIndex;
    if lowerSurname == key {
      newFirst := mid;
      newRight := mid - 1;
    } else if Less(lowerSurname, key) {
      newLeft := mid + 1;
    } else {
      newRight := mid - 1;
    }
  }

  /** `binary_search(records, key, queue)`: appends to the queue exactly what
      the probes and the forward scan select, never writes the index array,
      and leaves the queue unchanged when no probe matches. On an index array
      ordered by the search key, what it appends is every record whose search
      key is the query's, in index order. `keys[x]` is the search key of
      record `x` (see `SearchKeys`). */
  method BinarySearch(keys: seq<string>, a: array<nat>, query: string, queue: Queue)
    requires InStore(a[..], |keys|)
    requires queue.Valid()
    modifies queue, queue.Nodes
    ensures queue.Valid() && fresh(queue.Nodes - old(queue.Nodes))
    ensures queue.Contents == old(queue.Contents) + SearchResult(keys, a[..], QueryKey(query))
  {
    ghost var s, before := a[..], queue.Contents;
    var lowerKey := QueryKey(query);
    var firstIndex := FindFirst(keys, a, lowerKey);
    ghost var result := RunAt(keys, s, lowerKey, firstIndex);
    assert result == SearchResult(keys, s, lowerKey);
    if firstIndex != -1 {
      EnqueueRun(keys, a, lowerKey, firstIndex, queue);
    }
    assert a[..] == s;
    assert queue.Contents == before + result;
  }

  /** The forward scan of `binary_search`: from the first match on, every
      slot whose record's key is `key` is enqueued, stopping at the first
      that is not or at the end of the array. */
  method EnqueueRun(keys: seq<string>, a: array<nat>, key: string, firstIndex: int, queue: Queue)
    requires InStore(a[..], |keys|)
    requires 0 <= firstIndex <= a.Length
    requires queue.Valid()
    modifies queue, queue.Nodes
    ensures queue.Valid() && fresh(queue.Nodes - old(queue.Nodes))
    ensures queue.Contents == old(queue.Contents) + a[firstIndex..RunEnd(Slots(keys, a[..]), key, firstIndex)]
  {
    ghost var s := a[..];
    ghost var ks := Slots(keys, s);
    assert forall k :: 0 <= k < a.Length ==> ks[k] == keys[a[k]];
    var index := firstIndex;
    while index < a.Length
      invariant firstIndex <= index <= a.Length
      invariant queue.Valid() && fresh(queue.Nodes - old(queue.Nodes))
      invariant queue.Contents == old(queue.Contents) + s[firstIndex..index]
      invariant RunEnd(ks, key, index) == RunEnd(ks, key, firstIndex)
    {
      var lowerSurname := keys[a[index]];
      if lowerSurname == key {
        queue.Enqueue(a[index]);
        assert s[firstIndex..index + 1] == s[firstIndex..index] + [s[index]];
        index := index + 1;
      } else {
        break;
      }
    }
  }
}
