/** The sort-key extractor `get_surname` and the keys derived from it: the
    full key the sorter compares and the folded three-character key the
    search compares. */
module SortKey {
  import opened Strings

  datatype Option<T> = None | Some(value: T)

  /** `strchr(s + from, c)` for a character other than NUL: the first
      position at or after `from` that holds `c`, or nothing. */
  function FindChar(s: string, c: char, from: nat): (r: Option<nat>)
    requires from <= |s|
    ensures r.Some? ==> from <= r.value < |s| && s[r.value] == c && c !in s[from..r.value]
    ensures r.None? <==> c !in s[from..]
    decreases |s| - from
  {
    if from == |s| then None
    else if s[from] == c then Some(from)
    else
      var r := FindChar(s, c, from + 1);
      assert s[from..] == [s[from]] + s[from + 1..];
      r
  }

  /** `get_surname`: the suffix of the title that starts just after its
      second space, or no key (`nullptr`) when the title holds fewer than two
      spaces. The prefix cut off is exactly the part of the title up to and
      including its second space. */
  function GetSurname(title: string): (r: Option<string>)
    ensures r.None? <==> multiset(title)[' '] < 2
    ensures r.Some? ==> SurnameCut(title, |title| - |r.value|) && title[|title| - |r.value|..] == r.value
  {
    match FindChar(title, ' ', 0)
    case None =>
      NoSpaces(title);
      None
    case Some(i) =>
      match FindChar(title, ' ', i + 1)
      case None =>
        OneSpace(title, i);
        None
      case Some(j) =>
        TwoSpaces(title, i, j);
        Some(title[j + 1..])
  }

  /** Cutting `title` at `n` removes a prefix that ends in a space and holds
      exactly two spaces. */
  ghost predicate SurnameCut(title: string, n: int)
  {
    2 <= n <= |title| && title[n - 1] == ' ' && multiset(title[..n])[' '] == 2
  }

  lemma NoSpaces(title: string)
    requires FindChar(title, ' ', 0).None?
    ensures multiset(title)[' '] == 0
  {
    assert title[0..] == title;
  }

  lemma OneSpace(title: string, i: nat)
    requires FindChar(title, ' ', 0) == Some(i)
    requires i + 1 <= |title| && FindChar(title, ' ', i + 1).None?
    ensures multiset(title)[' '] == 1
  {
    var p, q := title[..i], title[i + 1..];
    assert title[0..i] == p;
    assert title == p + [' '] + q;
    SpacesOfConcat(p + [' '], q);
    SpacesOfConcat(p, [' ']);
    assert multiset(p)[' '] == 0 && multiset(q)[' '] == 0;
  }

  lemma TwoSpaces(title: string, i: nat, j: nat)
    requires FindChar(title, ' ', 0) == Some(i)
    requires i + 1 <= |title| && FindChar(title, ' ', i + 1) == Some(j)
    ensures multiset(title)[' '] >= 2
    ensures SurnameCut(title, j + 1)
  {
    assert title[0..i] == title[..i];
    CountTwoSpaces(title, i, j);
  }

  lemma CountTwoSpaces(title: string, i: nat, j: nat)
    requires i < j < |title| && title[i] == ' ' && title[j] == ' '
    requires ' ' !in title[..i] && ' ' !in title[i + 1..j]
    ensures multiset(title[..j + 1])[' '] == 2
    ensures multiset(title)[' '] >= 2
  {
    var a, b := title[..i], title[i + 1..j];
    var head := title[..j + 1];
    assert head == a + [' '] + b + [' '];
    SpacesOfConcat(a + [' '] + b, [' ']);
    SpacesOfConcat(a + [' '], b);
    SpacesOfConcat(a, [' ']);
    assert title == head + title[j + 1..];
    SpacesOfConcat(head, title[j + 1..]);
  }

  lemma SpacesOfConcat(x: string, y: string)
    ensures multiset(x + y)[' '] == multiset(x)[' '] + multiset(y)[' ']
  {
    assert multiset(x + y) == multiset(x) + multiset(y);
  }

  /** `FindChar` stops at the first occurrence. */
  lemma FindCharFirst(s: string, c: char, from: nat, k: nat)
    requires from <= k < |s| && s[k] == c && c !in s[from..k]
    ensures FindChar(s, c, from) == Some(k)
  {
    var r := FindChar(s, c, from);
    assert s[k] in s[from..];
  }

  /** The key `quick_sort` compares: the surname, with no key read as "". */
  function SortKeyOf(title: string): (r: string)
    ensures multiset(title)[' '] < 2 ==> r == ""
    ensures multiset(title)[' '] >= 2 ==> SurnameCut(title, |title| - |r|) && title[|title| - |r|..] == r
  {
    match GetSurname(title)
    case Some(s) => s
    case None => ""
  }

  /** `(surname != nullptr) ? string(surname).substr(0, 3) : ""`, then
      lower-cased: the three-character folded form of a surname, with no key
      read as "". */
  function LowerPrefix(surname: Option<string>): (r: string)
    ensures |r| <= 3
    ensures surname.None? ==> r == ""
    ensures surname.Some? ==> r == LowerStr(Take(surname.value, 3))
  {
    var prefix := if surname.Some? then Take(surname.value, 3) else "";
    LowerStr(prefix)
  }

  /** The key `binary_search` compares for a record: the first three
      characters of its surname (or of "" when it has none), lower-cased. */
  function SearchKeyOf(title: string): (r: string)
    ensures |r| <= 3
  {
    LowerPrefix(GetSurname(title))
  }

  /** The search key of a record is the folded three-character prefix of
      its sort key. */
  lemma SearchKeyIsSortKeyPrefix(title: string)
    ensures SearchKeyOf(title) == LowerStr(Take(SortKeyOf(title), 3))
  {
  }

  /** The search key is also the three-character prefix of the folded sort
      key, since folding and truncating commute. */
  lemma SearchKeyIsFoldedPrefix(title: string)
    ensures SearchKeyOf(title) == Take(LowerStr(SortKeyOf(title)), 3)
  {
    SearchKeyIsSortKeyPrefix(title);
    LowerTakeCommute(SortKeyOf(title), 3);
  }

  /** The key `binary_search` looks for: the first three characters of the
      query, lower-cased. */
  function QueryKey(query: string): (r: string)
    ensures |r| <= 3 && |r| == |Take(query, 3)|
    ensures forall k :: 0 <= k < |r| ==> r[k] == Lower(query[k])
  {
    LowerStr(Take(query, 3))
  }

  /** Only the first three characters of the query count, and their case
      does not: a query and its lower-cased form look for the same key. */
  lemma QueryKeyIgnoresCase(query: string)
    ensures QueryKey(LowerStr(query)) == QueryKey(query)
    ensures QueryKey(query) == QueryKey(Take(query, 3))
  {
    LowerTakeCommute(query, 3);
  }

  /** Typing a record's surname, in any case, as the query looks for that
      record's search key. */
  lemma OwnSurnameQueryMatches(title: string)
    ensures SearchKeyOf(title) == QueryKey(SortKeyOf(title))
    ensures SearchKeyOf(title) == QueryKey(LowerStr(SortKeyOf(title)))
  {
    SearchKeyIsSortKeyPrefix(title);
    QueryKeyIgnoresCase(SortKeyOf(title));
  }

  /** A title split as `p + " " + q + " " + t` with no space in `p` or `q`
      has surname `t`. */
  lemma SurnameOfSplit(p: string, q: string, t: string)
    requires ' ' !in p && ' ' !in q
    ensures GetSurname(p + [' '] + q + [' '] + t) == Some(t)
  {
    var title := p + [' '] + q + [' '] + t;
    assert title[0..|p|] == p;
    FindCharFirst(title, ' ', 0, |p|);
    assert title[|p| + 1..|p| + 1 + |q|] == q;
    FindCharFirst(title, ' ', |p| + 1, |p| + 1 + |q|);
    assert title[|p| + |q| + 2..] == t;
  }

  /** A malformed title (fewer than two spaces) has the empty key, which the
      empty query matches and a three-letter query does not. */
  lemma MalformedTitleKey(title: string, query: string)
    requires multiset(title)[' '] < 2
    ensures SortKeyOf(title) == "" && SearchKeyOf(title) == ""
    ensures SearchKeyOf(title) == QueryKey(query) <==> query == ""
  {
    SearchKeyIsSortKeyPrefix(title);
    if query != "" {
      assert |QueryKey(query)| > 0;
    }
  }
}
