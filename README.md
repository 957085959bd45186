# saod-kurswork: the index, sort and search engine

The catalog keeps a store of fixed-width book records and an index array of
references to them. It answers two queries: list the records in sorted
order, and find the records whose surname starts with a query. This project
models the engine behind those queries and proves properties of it. The
engine has four parts:

- `get_surname` derives a record's sort key. The key is the part of the
  title after its second space; a title with fewer than two spaces has no
  key.
- `quick_sort` reorders the index array in place with a Hoare/Wirth
  partition sort. It orders the records by `strcmp` of their keys. The
  records themselves never move.
- `binary_search` lower-cases the first three characters of the query and
  of each record's key. A leftmost-match binary search finds the first slot
  whose key matches. A forward scan then enqueues the whole run of matching
  slots.
- `Queue` is a singly linked FIFO of record references that carries the
  results to the search screen.

How each part is modelled:

- A record is its title; a record reference is an index into the sequence
  of titles.
- The index array is an `array<nat>`. Its length plays the role of the
  fixed record count.
- Strings are sequences of characters, compared as `strcmp` compares them.
- The sorter and the search read the key of record `x` as `keys[x]`.
  `get_surname` is pure and the records never change, so this is what the
  source computes at every comparison.
- The as-written sort passes `SortKeys(titles)`. The search passes
  `SearchKeys(titles)`.
- The queue is a class with `front` and `rear` pointers and heap nodes.
  Its ghost `Contents` lists the queued references from front to rear.

Files:

- `strings.dfy` (`Strings`): the `strcmp` order, ASCII case folding and
  `substr(0, n)`.
- `sort_key.dfy` (`SortKey`): `get_surname` and the keys derived from it.
- `catalog.dfy` (`Catalog`): the store, the index array and the order
  predicates.
- `quick_sort.dfy` (`Sorter`): the sort.
- `result_queue.dfy` (`ResultQueue`): the queue.
- `search_spec.dfy` (`Search`): what the search computes and what it
  should compute, as functions, with the lemmas that relate them.
- `binary_search.dfy` (`Searcher`): the search procedure, proved against
  those functions.
- `search_screen.dfy` (`Screen`): the search screen, the sort-then-search
  command, and the case-sensitivity finding.

Three facts about the code shape what the model claims:

- The sort compares the raw surname with `strcmp` (`main.cpp:130-131`), so
  every upper-case letter sorts before every lower-case one. The search
  compares lower-cased three-character prefixes (`main.cpp:226-234`).
- So an index array sorted by the sort key is also sorted by the search
  key whenever folding to lower case reverses no pair of keys (for example
  "Abc" before "bcd"). It can fail when folding reverses a pair within
  their first three characters, as it does for "Baker" and "adams". See
  "## Findings".
- The partition swaps two slots whose keys both equal the pivot
  (`main.cpp:130-139`). So sorting an already sorted index array keeps the
  key order but can reorder records with equal keys. The model claims only
  a permutation, sorted afterwards.

## Model

| member | source | states |
|---|---|---|
| Strings.LessIrreflexive | main.cpp:130-131 | no key is below itself, so the cursor scans stop at a key equal to the pivot |
| Strings.LessTransitive | main.cpp:130-131 | the `strcmp` order is transitive |
| Strings.LessTotal | main.cpp:130-131 | two different keys are always ordered one way or the other |
| Strings.LessAsymmetric | main.cpp:130-131 | a key below another is not also above it |
| Strings.LessEqIff | main.cpp:130-131 | "not after" is exactly "before or equal" |
| Strings.LessEqTransitive | main.cpp:130-131 | "not after" is transitive, which is what lets the two sorted halves join around the pivot |
| Strings.LowerIdempotent | main.cpp:219 | the folded string holds no upper-case letter, so folding it again changes nothing |
| Strings.TakeMonotone | main.cpp:226 | cutting two ordered keys to the same length never reverses their order |
| Strings.TakeLessReflects | main.cpp:226 | if the cut keys are strictly ordered, so are the full keys |
| Strings.LowerTakeCommute | main.cpp:226-228 | folding then cutting equals cutting then folding |
| SortKey.FindChar | main.cpp:147-150 | `strchr` finds the first occurrence at or after the start, and reports none exactly when the rest holds no such character |
| SortKey.GetSurname | main.cpp:146-154 | no key exactly when the title holds fewer than two spaces; otherwise the key is the suffix after a prefix that ends in a space and holds exactly two spaces |
| SortKey.FindCharFirst | main.cpp:147 | `strchr` returns the first occurrence |
| SortKey.SurnameOfSplit | main.cpp:146-154 | a title "p q t", where p and q hold no space, has key t |
| SortKey.SortKeyOf | main.cpp:125 | the key the sort compares: "" for a title with fewer than two spaces, otherwise exactly the suffix of the title after a prefix that ends in a space and holds two spaces |
| SortKey.SearchKeyOf | main.cpp:225-228 | a record's search key has at most three characters |
| SortKey.SearchKeyIsSortKeyPrefix | main.cpp:225-228 | the search key is the folded three-character prefix of the sort key |
| SortKey.SearchKeyIsFoldedPrefix | main.cpp:225-228 | the search key is also the three-character prefix of the folded sort key |
| SortKey.QueryKeyIgnoresCase | main.cpp:218-219 | only the first three characters of the query count, and their case does not |
| SortKey.OwnSurnameQueryMatches | main.cpp:218-228 | a query that is a record's surname, in either case, looks for exactly that record's search key |
| SortKey.MalformedTitleKey | main.cpp:148-151 | a title with fewer than two spaces has empty keys, and its search key equals a query's key exactly when the query is empty |
| Catalog.SearchKeysArePrefixKeys | main.cpp:225-228 | the store's search keys are the folded prefixes of its sort keys |
| Catalog.InStorePermuted | main.cpp:134-136 | reordering the index array keeps every reference inside the store |
| Catalog.SegmentPermuted | main.cpp:142-143 | two arrangements that agree outside a range and hold the same references also hold the same references inside that range |
| Catalog.BoundsPermuted | main.cpp:142-143 | a bound against the pivot that holds for every reference survives any rearrangement |
| Sorter.Partition | main.cpp:125-140 | the pivot is the key first read at `a[l]`; both cursors stay in `l-1..r+1` and cross; `l..i-1` is at most the pivot and `j+1..r` at least; both parts are strictly smaller than `l..r`; the array is a permutation of the old one, changed only inside `l..r` |
| Sorter.Swap | main.cpp:134-136 | exchanges two slots and nothing else, keeping the multiset of references |
| Sorter.ScanRight | main.cpp:130 | the cursor passes exactly the keys below the pivot, stops at the first that is not, and never passes `r + 1` |
| Sorter.ScanLeft | main.cpp:131 | the cursor passes exactly the keys above the pivot, stops at the first that is not, and never passes `l - 1` |
| Sorter.QuickSort | main.cpp:122-144 | afterwards `l..r` is in non-decreasing key order, the array is a permutation of the old one, and nothing outside `l..r` has changed; when `l >= r` nothing changes; it terminates because each recursive call is on a smaller range |
| Sorter.SortedAfterRecursion | main.cpp:142-143 | the two recursive calls leave the whole range sorted |
| Sorter.LeftAfterRecursion | main.cpp:142 | sorting the left part keeps it at most the pivot, and the right call leaves it alone |
| Sorter.RightAfterRecursion | main.cpp:143 | sorting the right part keeps it at least the pivot |
| Sorter.SortedAroundPivot | main.cpp:142-143 | two sorted parts on either side of the pivot make one sorted range |
| Sorter.SortIndex | main.cpp:179-182 | the whole index array is a permutation of the old one, ordered by the sort key |
| Sorter.SortIndexFolded | main.cpp:179-182 | the corrected sort on the folded key: a permutation, ordered by the folded key and therefore by the search key |
| Sorter.FoldedOrderIsSearchOrder | main.cpp:226-234 | an index array in folded-key order is in search-key order |
| ResultQueue.Node.constructor | main.cpp:45 | a new node holds its reference and no successor |
| ResultQueue.Queue.constructor | main.cpp:34 | a new queue is valid and empty |
| ResultQueue.Queue.Enqueue | main.cpp:44-53 | the reference joins at the rear of `Contents`; the queue stays valid and the only nodes added are new ones |
| ResultQueue.Queue.Dequeue | main.cpp:55-67 | on an empty queue: false, `rec` unchanged, queue unchanged; otherwise: true, the front reference handed out and removed, and both pointers null once the last one leaves |
| ResultQueue.Queue.IsEmpty | main.cpp:69-71 | true exactly when no reference remains |
| ResultQueue.Drain | main.cpp:200-203 | the consumer loop receives the references in exactly the order they were enqueued and leaves the queue empty |
| Search.Matches | main.cpp:252-259 | what a search should deliver: the references whose key is the query key, in index order |
| Search.MatchesMembers | main.cpp:252-259 | a reference is among the matches exactly when it is in the index array and its key is the query key |
| Search.RunEnd | main.cpp:245-259 | the scan stops at the first slot from its start that does not match, or at the end; every slot it passes matches |
| Search.Narrow | main.cpp:224-240 | one probe strictly shrinks the range and stays inside it; the recorded match is the old one or a matching slot of the range |
| Search.Probe | main.cpp:222-240 | the answer of the probe loop is the starting `first` or a slot of the range whose key is the query key |
| Search.ProbeHit | main.cpp:230-232 | a hit records `mid` and continues left of it |
| Search.ProbeRight | main.cpp:234-235 | a smaller key continues right of `mid` |
| Search.ProbeLeft | main.cpp:237-239 | a greater key continues left of `mid` |
| Search.ProbeDone | main.cpp:223 | the loop ends with the recorded match once the range is empty |
| Search.SearchResult | main.cpp:214-260 | what the search appends: nothing when no probe matched, otherwise the run of matching slots from the first match; never longer than the array |
| Search.RunAt | main.cpp:242-259 | the run from a found slot, or nothing for -1 |
| Search.SearchResultSound | main.cpp:243-259 | in any order of the index array, every reference delivered is in the array and has the query key |
| Search.BracketHit | main.cpp:230-232 | a hit keeps the loop invariant: nothing left of `left` matches, and nothing right of `right` matches before the recorded match |
| Search.BracketRight | main.cpp:234-235 | on a sorted array, moving `left` past a smaller key keeps the invariant |
| Search.BracketLeft | main.cpp:237-239 | on a sorted array, moving `right` below a greater key keeps the invariant |
| Search.ProbeLeftmost | main.cpp:222-240 | on an array sorted by the search key, the probes find the leftmost matching slot, or -1 exactly when no slot matches |
| Search.LeftmostHit | main.cpp:230-232 | the leftmost property after a hit |
| Search.LeftmostRight | main.cpp:234-235 | the leftmost property after a move right |
| Search.LeftmostLeft | main.cpp:237-239 | the leftmost property after a move left |
| Search.MatchesOfRange | main.cpp:243-259 | when exactly the slots `f..e-1` match, the matches are those slots, in order |
| Search.SearchFindsAllMatches | main.cpp:214-260 | on an array sorted by the search key, the search delivers every record whose key matches and no other, in index order, as one contiguous run |
| Searcher.FindFirst | main.cpp:215-240 | the loop computes the answer of the probes, which is -1 or a slot whose key is the query key; every slot it reads is inside the array (each read is bounds-checked) |
| Searcher.ProbeOnce | main.cpp:224-240 | one pass of the loop does what `Narrow` does; the middle slot it reads lies inside the range |
| Searcher.EnqueueRun | main.cpp:243-259 | appends the slots from the first match up to the first mismatch or the end, in index order, keeping the queue valid |
| Searcher.BinarySearch | main.cpp:214-260 | appends exactly `SearchResult` to the queue and never writes the index array; when no probe matches the queue is unchanged |
| Screen.SearchScreen | main.cpp:188-212 | the records drained are what the search appended; "not found" is shown exactly when that is nothing; on an array sorted by the search key they are exactly the matches |
| Screen.SortAndSearch | main.cpp:178-184 | as written: the array ends up as a permutation sorted by the raw key, and the search delivers what its probes select on that order |
| Screen.SortFoldedAndSearch | main.cpp:178-184 | corrected: sort on the folded key, then search; the records delivered are exactly those whose search key is the query's, in index order |
| Screen.FoldedPrefixes | main.cpp:226-228 | the folded prefixes of "Baker", "Smith" and "adams" are "bak", "smi" and "ada" |
| Screen.CaseSensitiveOrderMissesMatch | main.cpp:130-131 | with keys Baker, Smith and adams, the only order the sort can leave is that one, and the search for "ada" finds nothing although record 2 matches |
| Screen.MixedCaseSearchKeys | main.cpp:225-228 | the search keys of those three records are "bak", "smi" and "ada" |
| Screen.MixedCasePrefixKeys | main.cpp:226-228 | the folded prefixes of the three sort keys |
| Screen.MixedCaseProbes | main.cpp:222-240 | on those keys in that order, the probes for "ada" go left twice and answer -1, while the matches are record 2 |
| Screen.OnlyOrderedArrangement | main.cpp:122-144 | three records with strictly increasing keys have only one sorted arrangement |

## Left out

- File loading, the ncurses screen, pagination and keystroke dispatch are I/O. The store is given as a sequence of titles. The query is given as a string; the 10-byte input buffer it is read into is not modelled.
- The `is_sorted` flag, which keeps the sort to one run per session, is screen bookkeeping. `SortAndSearch` models the command on its first use.
- The `author`, `publisher`, `year` and `num_of_page` fields are only printed. Only `title` is modelled.
- `tolower` is modelled for ASCII only. Its locale-dependent behaviour on other bytes is not modelled.
- The 32-byte title buffer and NUL termination are not modelled. A title is its characters up to its NUL.
- Sort keys: `strcmp` on a missing key (a null pointer) is undefined behaviour in the source. The model reads a missing key as "", which the search does explicitly.
- Record count: the fixed count of 4000 is replaced by the index array's length.
- The queue destructor and node deletion are memory management. A dequeued node is simply dropped from the chain.
- Key computation: the sort and the search take every record's key precomputed. They do not call `get_surname` at each comparison. This yields the same keys, because `get_surname` is pure and the records do not change.
- Searcher.FindFirst: its contract ties the result to `Probe`. The leftmost-match property on a sorted array is stated about `Probe`, in `Search.ProbeLeftmost`.
- Sorter.QuickSort: no claim that re-sorting a sorted array keeps the reference order. The partition swaps records with equal keys, so it does not.

## Findings

| source | as written | input that shows it | evidently intended | confidence | as-written member | corrected member |
|---|---|---|---|---|---|---|
| main.cpp:130-131, 226-234 | The sort orders records by the raw surname with `strcmp`, so upper case sorts before lower case. The search bisects on the lower-cased three-character prefix, which assumes a different order. | Three records with surnames Baker, Smith and adams. The sort leaves them in that order. Searching for "ada" probes "smi", then "bak", moves left both times and reports not found, although record 2 matches. | The search finds every record whose surname starts with the query, ignoring case. Sorting on the folded key gives an order the search can bisect. | not executed | Screen.CaseSensitiveOrderMissesMatch | Screen.SortFoldedAndSearch |
