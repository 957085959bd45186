/** The search screen: sort the index array once, run `binary_search` for
    the query into a fresh queue and hand out what it collected. */
module Screen {
  import opened Strings
  import opened SortKey
  import opened Catalog
  import opened Sorter
  import opened ResultQueue
  import opened Search
  import opened Searcher

  /** `search(indexes)` without the terminal: a fresh queue is filled by the
      search and, when it is not empty, drained in order. `found` is false
      exactly when the "not found" message would be shown. */
  method SearchScreen(keys: seq<string>, a: array<nat>, query: string) returns (found: bool, delivered: seq<nat>)
    requires InStore(a[..], |keys|)
    ensures delivered == SearchResult(keys, a[..], QueryKey(query))
    ensures found <==> delivered != []
    ensures Ordered(Slots(keys, a[..])) ==> delivered == Matches(keys, a[..], QueryKey(query))
  {
    var queue := new Queue();
    BinarySearch(keys, a, query, queue);
    if Ordered(Slots(keys, a[..])) {
      SearchFindsAllMatches(keys, a[..], QueryKey(query));
    }
    found := !queue.IsEmpty();
    if found {
      delivered := Drain(queue);
    } else {
      delivered := [];
    }
  }

  /** The search command of the main loop as written: sort the index array
      by the raw sort key, then search. The records found are what the
      probes select on that order, which need not be all matches (see
      `CaseSensitiveOrderMissesMatch`). */
  method SortAndSearch(titles: seq<string>, a: array<nat>, query: string) returns (found: bool, delivered: seq<nat>)
    requires InStore(a[..], |titles|)
    modifies a
    ensures multiset(a[..]) == old(multiset(a[..])) && InStore(a[..], |titles|)
    ensures Ordered(Slots(SortKeys(titles), a[..]))
    ensures delivered == SearchResult(SearchKeys(titles), a[..], QueryKey(query))
    ensures found <==> delivered != []
  {
    SortIndex(titles, a);
    found, delivered := SearchScreen(SearchKeys(titles), a, query);
  }

  /** The search command with the sort on the folded key: the records found
      are exactly those whose search key is the query's, in index order. */
  method SortFoldedAndSearch(titles: seq<string>, a: array<nat>, query: string) returns (found: bool, delivered: seq<nat>)
    requires InStore(a[..], |titles|)
    modifies a
    ensures multiset(a[..]) == old(multiset(a[..])) && InStore(a[..], |titles|)
    ensures delivered == Matches(SearchKeys(titles), a[..], QueryKey(query))
    ensures found <==> delivered != []
  {
    SortIndexFolded(titles, a);
    found, delivered := SearchScreen(SearchKeys(titles), a, query);
  }

  /** The folded three-character prefixes of three surnames that differ in
      case. */
  lemma FoldedPrefixes()
    ensures LowerStr(Take("Baker", 3)) == "bak"
    ensures LowerStr(Take("Smith", 3)) == "smi"
    ensures LowerStr(Take("adams", 3)) == "ada"
  {
    assert Take("Baker", 3) == "Bak" && Take("Smith", 3) == "Smi" && Take("adams", 3) == "ada";
    assert Lower('B') == 'b' && Lower('S') == 's';
    var b, s, a := LowerStr("Bak"), LowerStr("Smi"), LowerStr("ada");
    assert b[0] == 'b' && b[1] == 'a' && b[2] == 'k';
    assert s[0] == 's' && s[1] == 'm' && s[2] == 'i';
    assert a[0] == 'a' && a[1] == 'd' && a[2] == 'a';
  }

  /** The sort compares surnames with `strcmp`, where every upper-case
      letter precedes every lower-case one, while the search compares
      lower-cased prefixes. For three records with surnames Baker, Smith and
      adams (titles such as "a b Baker"), the only arrangement the sort can
      leave is Baker, Smith, adams; the probes for "ada" read "smi" and then
      "bak", turn left both times and find nothing, although record 2
      matches. */
  lemma CaseSensitiveOrderMissesMatch(titles: seq<string>, s: seq<nat>)
    requires SortKeys(titles) == ["Baker", "Smith", "adams"]
    requires InStore(s, 3) && multiset(s) == multiset([0, 1, 2])
    requires Ordered(Slots(SortKeys(titles), s))
    ensures s == [0, 1, 2]
    ensures Matches(SearchKeys(titles), s, QueryKey("ada")) == [2]
    ensures SearchResult(SearchKeys(titles), s, QueryKey("ada")) == []
  {
    MixedCaseSearchKeys(titles);
    assert |s| == 3 by {
      assert |multiset(s)| == |multiset([0, 1, 2])|;
    }
    OnlyOrderedArrangement(SortKeys(titles), s);
    MixedCaseProbes();
  }

  lemma MixedCaseSearchKeys(titles: seq<string>)
    requires SortKeys(titles) == ["Baker", "Smith", "adams"]
    ensures SearchKeys(titles) == ["bak", "smi", "ada"]
  {
    MixedCasePrefixKeys();
    SearchKeysArePrefixKeys(titles);
  }

  lemma MixedCasePrefixKeys()
    ensures PrefixKeys(["Baker", "Smith", "adams"]) == ["bak", "smi", "ada"]
  {
    FoldedPrefixes();
    var p := PrefixKeys(["Baker", "Smith", "adams"]);
    assert p[0] == "bak" && p[1] == "smi" && p[2] == "ada";
  }

  lemma MixedCaseProbes()
    ensures Matches(["bak", "smi", "ada"], [0, 1, 2], QueryKey("ada")) == [2]
    ensures SearchResult(["bak", "smi", "ada"], [0, 1, 2], QueryKey("ada")) == []
  {
    var sk: seq<string> := ["bak", "smi", "ada"];
    assert QueryKey("ada") == "ada";
    assert Slots(sk, [0, 1, 2]) == sk;
    assert Narrow(sk, "ada", 0, 2, -1) == (0, 0, -1);
    assert Narrow(sk, "ada", 0, 0, -1) == (0, -1, -1);
    assert Probe(sk, "ada", 0, 2, -1) == -1;
  }

  /** With strictly increasing keys, the only arrangement of the three
      records in key order is the identity. */
  lemma OnlyOrderedArrangement(keys: seq<string>, s: seq<nat>)
    requires |keys| == 3 && Less(keys[0], keys[1]) && Less(keys[1], keys[2])
    requires |s| == 3 && InStore(s, 3) && multiset(s) == multiset([0, 1, 2])
    requires Ordered(Slots(keys, s))
    ensures s == [0, 1, 2]
  {
    LessTransitive(keys[0], keys[1], keys[2]);
    LessAsymmetric(keys[0], keys[1]);
    LessAsymmetric(keys[1], keys[2]);
    LessAsymmetric(keys[0], keys[2]);
    var ks := Slots(keys, s);
    assert LessEq(ks[0], ks[1]) && LessEq(ks[1], ks[2]);
    assert s[0] <= s[1] <= s[2];
    assert 0 in multiset(s) && 1 in multiset(s) && 2 in multiset(s);
  }
}
