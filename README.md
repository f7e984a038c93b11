# OneR quantisation of one attribute, modelled in Dafny

This project models the discretisation core of `oner_quantize`, the library that
turns one numeric attribute into class-labelled intervals for the OneR (1R)
classifier. It also models the lookup that finds the interval of a value.

`find_intervals` runs a five-stage pipeline:

1. It pairs each attribute value with its class and sorts the pairs by value.
2. It proposes a split at each index where the sorted value strictly increases.
3. It trims the splits in one left-to-right pass:
   - It drops a split whose segment has no class occurring more than `small` times.
   - It also drops a split whose segment's majority class equals the next segment's.
4. It builds a `Lower`, `Range`, `Upper` or `Infinite` interval per segment, each
   tagged with the segment's majority class.
5. It merges neighbouring intervals that carry the same class.

`quantize` returns the first interval of a list that contains a value.

The files:

- `wrappers.dfy` — `Option`.
- `interval.dfy` (module `Intervals`) — the interval type, its bounds and
  membership, chains of intervals, and the merge of same-class neighbours.
- `splits.rs` is modelled by `splits.dfy` (module `Splits`):
  - frequency counting, with the loop as a method proved against a map
    comprehension;
  - the majority class;
  - the two trimming tests;
  - the trimming fold, as a recursive function and as the loop that threads
    `keep` and `start_index`;
  - the interval builder, as a method proved against a function.
- `mod.rs` is modelled by `quantize.dfy` (module `Quantize`):
  - `FindIntervals` keeps the source's push loops and is proved equal to a
    function of the inputs;
  - the lookup is `Quantize`;
  - properties of the whole pipeline.
- `scenarios.dfy` (module `Scenarios`) — the documentation example of
  `find_intervals`, the golf test and the documentation example of `quantize`,
  each proved over the model.

Modelling choices:

- Attribute values are `int`.
- Classes are any equality type; the examples use `char`.
- Index arithmetic uses `nat`. It never wraps: every index stays below the
  length of the data.
- A Rust panic becomes a precondition. There are three:
  - an empty segment in `most_frequent_class`;
  - out-of-range slicing or indexing (`data[index]` in the builder);
  - empty input to `find_intervals`, which reaches `most_frequent_class(0, 0)`.

Attribute and class lists of unequal length are not an error. The zip stops at
the shorter list, as the code does (`Zip`).

## Model

| member | source | states |
|---|---|---|
| Intervals.MatchesWithinBounds | src/quantize/mod.rs:107-119 | A value matches an interval exactly when it lies at or above the lower bound and strictly below the upper bound: `Lower` excludes its bound, `Range` includes its `from`. |
| Intervals.Make | src/quantize/splits.rs:35-51 | The interval built from optional bounds and a class has exactly those bounds and that class. |
| Intervals.ChainPartitions | src/quantize/splits.rs:14-18 | Along a chain (linked, unbounded at both ends), every value lies in some interval and in only one. |
| Intervals.LinkedBoundsIncrease | src/quantize/splits.rs:14-18 | Along linked intervals the boundaries strictly increase. |
| Intervals.ChainOfCuts | src/quantize/splits.rs:53-65 | Intervals bounded in turn by strictly increasing cuts, open at both ends, form a chain. |
| Intervals.JoinCoversBoth | src/quantize/mod.rs:74-75 | Joining two abutting intervals covers exactly the values of the two. |
| Intervals.MergeNeighbours | src/quantize/mod.rs:74-75 | The merge (an assumed contract) never lengthens the list and keeps it empty only when the input is. It keeps the first class, the first lower bound and the last upper bound. Afterwards no two neighbours share a class. |
| Intervals.JoinedLinked | src/quantize/mod.rs:74-75 | Joining the first two of a linked list keeps it linked with the same outer bounds. |
| Intervals.MergeKeepsLinked | src/quantize/mod.rs:74-75 | Merging keeps a linked list linked and a chain a chain. |
| Intervals.MergeFixesDistinct | src/quantize/mod.rs:74-75 | A list whose neighbours already differ in class is left unchanged by the merge. |
| Intervals.MergeIdempotent | src/quantize/mod.rs:74-75 | Merging twice equals merging once. |
| Splits.FrequencyCount | src/quantize/splits.rs:138-148 | The loop's map has exactly the distinct elements as keys, each mapped to its number of occurrences. |
| Splits.FrequencyAppend | src/quantize/splits.rs:143-146 | Counting one more element bumps that element's count by one and changes nothing else. |
| Splits.FrequencyTotal | src/quantize/splits.rs:138-148 | The counts add up to the length of the counted sequence. |
| Splits.OccurrencesAtMostLength | src/quantize/splits.rs:125-134 | No element occurs more often than the sequence is long. |
| Splits.Best | src/quantize/splits.rs:120-122 | The choice among the counted classes is absent only for an empty segment, and otherwise is one of its classes. |
| Splits.BestIsBest | src/quantize/splits.rs:120-122 | No element has a larger count than the chosen one. |
| Splits.MostFrequentClass | src/quantize/splits.rs:115-123 | `most_frequest_class` is `None` exactly for an empty segment. |
| Splits.MostFrequentClassIsMostFrequent | src/quantize/splits.rs:115-123 | The class found occurs in the segment, and no class of the segment occurs more often. |
| Splits.MajorityIsMostFrequent | src/quantize/splits.rs:25-33 | The majority of a non-empty segment (the panic-free case of the closure) occurs in it with maximal count. |
| Splits.OccurrencesExtend | src/quantize/splits.rs:25-33 | Growing a segment by one pair adds one to that pair's class count only. |
| Splits.UniformSegment | src/quantize/splits.rs:115-123 | A segment of a single class has that class as its most frequent class. |
| Splits.MajorityOfClearWinner | src/quantize/splits.rs:25-33 | A class present in the segment and strictly more frequent than every other class is the majority, whatever the tie-break. |
| Splits.NoDominantClassIff | src/quantize/splits.rs:125-134 | `no_dominant_class` holds exactly when every class of the segment occurs at most `small` times. |
| Splits.SmallZeroAlwaysDominant | src/quantize/splits.rs:125-134 | With `small` = 0 no non-empty segment passes `no_dominant_class`, so the small-disjunct test never drops a split. |
| Splits.NextSplitSameClassIff | src/quantize/splits.rs:103-113 | For a non-empty segment, `next_split_same_class` holds exactly when a next split exists, its segment is non-empty, and both segments have the same most frequent class. |
| Splits.TrimKeepsOrder | src/quantize/splits.rs:84-99 | The kept splits strictly increase, each lies above the start, and each is one of the candidates. |
| Splits.TrimSplits | src/quantize/splits.rs:68-100 | The loop over the candidates that threads `keep` and `start_index` returns exactly the fold's result: a head for which either test holds is dropped and the tail is trimmed from the same start; otherwise the head is kept and becomes the new start. |
| Splits.TrimSubsequence | src/quantize/splits.rs:84-99 | The kept splits are a subsequence of the candidates, in the original order. |
| Splits.TrimDropsAllWhenSmallIsLarge | src/quantize/splits.rs:125-134 | With `small` at least the data length, no split is kept. |
| Splits.TrimDecision | src/quantize/splits.rs:84-99 | Candidate j is kept exactly when neither test holds on the segment from the last kept split before it (or 0). |
| Splits.TrimDecisionSmallZero | src/quantize/splits.rs:84-99 | With `small` = 0 and a start below the first candidate, a candidate is kept exactly when the segment up to the next candidate does not share its majority class. |
| Splits.TrimKeptSplitsQualify | src/quantize/splits.rs:86-94 | For every kept split, and so for every interval but the last, some class occurs more than `small` times in the segment from the previous kept split (or 0). When a next candidate exists, the majority of that segment differs from the majority of the next candidate's segment. |
| Splits.TrimKeptAt | src/quantize/splits.rs:86-94 | The same two conditions for the k-th kept split, found at candidate position j. |
| Splits.BuildShapes | src/quantize/splits.rs:53-65 | The builder's specification gives one `Infinite` interval without splits. Otherwise it gives a `Lower` at the first split, one `Range` per consecutive pair of splits in order, and an `Upper` at the last split; n+1 intervals in all. |
| Splits.IntervalsFromSplits | src/quantize/splits.rs:19-66 | The builder with its three arms and its push loop returns exactly the specified interval list. |
| Splits.BuildOfShapes | src/quantize/splits.rs:55-64 | A list of the builder's shapes around at least one split is the builder's output. |
| Splits.BuildBoundsAt | src/quantize/splits.rs:35-51 | Interval k is bounded by the values at the splits around segment k, and only inner intervals are ranges. |
| Splits.TrimKeepsValid | src/quantize/mod.rs:69-72 | Trimmed splits are valid input for the builder and still sit at value changes. |
| Splits.BelowSplitIff | src/quantize/splits.rs:14-18 | In sorted data, a pair lies before a value-change split exactly when its value is below that split's value. |
| Splits.BuildIsChain | src/quantize/splits.rs:14-18 | Built over sorted data with splits at value changes, the intervals form a chain covering every value exactly once. |
| Splits.BuildCoversSegments | src/quantize/splits.rs:14-18 | Interval k contains the value of pair i exactly when pair i belongs to segment k. |
| Quantize.Zip | src/quantize/mod.rs:48-51 | The pairs are as many as the shorter input has. |
| Quantize.InsertAddsOne | src/quantize/mod.rs:52 | Inserting into the sorted pairs adds exactly the new pair. |
| Quantize.InsertSorted | src/quantize/mod.rs:52 | Inserting into sorted pairs keeps them sorted. |
| Quantize.SortByValueSorts | src/quantize/mod.rs:52 | The sort returns the same pairs, as a permutation, in non-decreasing order of value. |
| Quantize.SortSortedIsIdentity | src/quantize/mod.rs:52 | Sorting pairs already in value order leaves them unchanged. |
| Quantize.SortedByNeighbours | src/quantize/mod.rs:52 | Pairs whose neighbours are in value order are in value order. |
| Quantize.ChangePointsIncreasing | src/quantize/mod.rs:59-66 | The candidate splits strictly increase and lie in [1, len). |
| Quantize.ChangePointsAtChanges | src/quantize/mod.rs:59-66 | Every candidate split is an index where the value strictly increases. |
| Quantize.ChangePointsComplete | src/quantize/mod.rs:59-66 | Every index where the value strictly increases is a candidate split. |
| Quantize.ChangePointsExtend | src/quantize/mod.rs:60-65 | One more loop turn adds the index exactly when the value increases there. |
| Quantize.ChangePointsCountDistinct | src/quantize/mod.rs:59-66 | Over sorted pairs with k distinct values there are k − 1 candidate splits. |
| Quantize.ChangePointsValid | src/quantize/mod.rs:59-69 | The candidate splits are acceptable input for trimming and building. |
| Quantize.SortedPairs | src/quantize/mod.rs:48-52 | The sorted pairs are a permutation of the zipped pairs, in value order. |
| Quantize.TrimmedSplits | src/quantize/mod.rs:69 | The trimmed splits are valid for the builder and sit at value changes. |
| Quantize.FindIntervals | src/quantize/mod.rs:42-76 | The pipeline with its zip and change-point loops equals the composition of sort, candidate splits, trim, build and merge. Its result is a chain (every value falls in exactly one interval) in which neighbours differ in class. |
| Quantize.FirstMatchFrom | src/quantize/mod.rs:126 | The search from a position finds the first matching interval, or reports that none matches. |
| Quantize.Quantize | src/quantize/mod.rs:121-127 | `quantize` returns `None` exactly when no interval matches. Otherwise it returns the first interval in list order that matches. |
| Quantize.QuantizeChain | src/quantize/mod.rs:121-127 | On a chain the lookup returns the one interval that contains the value. |
| Quantize.QuantizeCons | src/quantize/mod.rs:126 | Looking up in `[x] + xs` tries `x` first, then `xs`. |
| Quantize.MergeKeepsClasses | src/quantize/mod.rs:74-75 | Merging neighbours with the same class changes no value's class. |
| Quantize.FindIntervalsClassifiesSegments | src/quantize/mod.rs:42-76 | Each training value is classified as the majority class of the trimmed segment its pair belongs to. |
| Quantize.LargeSmallGivesOneInterval | src/quantize/mod.rs:42-76 | With `small` at least the number of pairs, the result is one `Infinite` interval with the overall majority class. |
| Scenarios.QuantizeExample | src/quantize/mod.rs:107-119 | Over `[lower(15,x), range(15,20,y), upper(20,z)]`, 10 maps to x, 15 to y and 99 to z. |
| Scenarios.DocSortedPairs | src/quantize/mod.rs:30-34 | The documentation example's pairs sort to `(1,a) (1,a) (3,a) (10,b) (20,b) (30,b) (100,c)`. |
| Scenarios.DocChangePoints | src/quantize/mod.rs:30-34 | Its candidate splits are `[2, 3, 4, 5, 6]`. |
| Scenarios.DocTrimmedSplits | src/quantize/mod.rs:30-34 | With `small` = 2 its trimmed splits are `[3, 6]`. |
| Scenarios.DocBuild | src/quantize/mod.rs:30-40 | Built on `[3, 6]`, the intervals are `Lower{10,a}`, `Range{10,100,b}`, `Upper{100,c}`. |
| Scenarios.DocExample | src/quantize/mod.rs:30-40 | `find_intervals` of the documentation example is `[Lower{10,a}, Range{10,100,b}, Upper{100,c}]`. |
| Scenarios.DocLastIntervalSmall | src/quantize/mod.rs:21-40 | The documentation example's last interval, `Upper{100,c}`, contains only the last sorted pair, so no class in it occurs more than `small` = 2 times. |
| Scenarios.GolfSortedPairs | src/quantize/mod.rs:87-91 | The golf pairs are already sorted, so sorting leaves them unchanged. |
| Scenarios.GolfChangePoints | src/quantize/mod.rs:87-91 | The golf data's candidate splits are the indices where the temperature increases. |
| Scenarios.GolfTrimmedSplits | src/quantize/mod.rs:87-91 | With `small` = 3 the golf data's trimmed splits are `[5, 13]`. |
| Scenarios.GolfBuild | src/quantize/mod.rs:87-95 | Built on `[5, 13]`, the intervals are `Lower{71,p}`, `Range{71,85,p}`, `Upper{85,d}`. |
| Scenarios.GolfMerge | src/quantize/mod.rs:87-95 | The merge collapses the first two of those into `Lower{85,p}`. |
| Scenarios.GolfExample | src/quantize/mod.rs:87-95 | `find_intervals` of the golf data with `small` = 3 is `[Lower{85,p}, Upper{85,d}]`. |
| Scenarios.GolfLastIntervalSmall | src/quantize/mod.rs:87-95 | The golf result's last interval, `Upper{85,d}`, contains only the last sorted pair, so no class in it occurs more than `small` = 3 times. |

## Left out

- `Intervals.MergeNeighbours`: `merge_neighbours_with_same_class` is defined in
  src/interval.rs, which this model does not cover. The merge is written as a
  function with a stated contract: it collapses each maximal run of same-class
  neighbours, keeping the first lower bound and the last upper bound. This is an
  assumption, not a model of that code.
- `Interval::matches` and the `Interval` constructors are defined in
  src/interval.rs (re-exported at the crate root), which this model does not
  cover. Membership follows the comment at src/quantize/splits.rs:14-18 and the
  `quantize` documentation example. This too is an assumption.
- `Splits.MostFrequentClass`: the tie-break differs from the source's. The
  source takes `max_by_key` over an FxHash map, so among tied classes the one
  chosen depends on the key hashes. The model takes the first class in segment
  order with a maximal count. The lemmas that do not depend on the tie rule
  (`BestIsBest`, `MostFrequentClassIsMostFrequent`, `MajorityIsMostFrequent`,
  `UniformSegment`, `MajorityOfClearWinner`) hold for both. The documentation
  example proves its majorities through `UniformSegment`, and the golf test
  through `UniformSegment` and `MajorityOfClearWinner`, so neither depends on
  ties.
- Majority ties: on inputs where a segment has a tied majority, trimming
  (`Splits.Trim`, `Splits.TrimDecision`, `Splits.TrimKeptSplitsQualify`),
  building (`Splits.Build`) and `find_intervals` (`Quantize.FindIntervalsSpec`,
  `Quantize.FindIntervalsClassifiesSegments`,
  `Quantize.LargeSmallGivesOneInterval`) follow the model's segment-order rule
  and may differ from the program.
- The library sort (`ord_subset_sort_by_key`) is modelled as a stable insertion
  sort on values (`SortByValue`). Segments start and end at value changes, so
  no result depends on the order of equal values, apart from majority ties,
  where the model's segment-order rule makes the result depend on the order of
  equal values.
- `OrdSubset` and unordered values such as NaN are left out: attribute values
  are integers, which are totally ordered.
- Panic messages, `Debug` formatting, borrows (`&A`, `&C`) and
  `Vec::with_capacity` do not affect results and are left out.
- Empty input to `find_intervals` panics in the source. The model requires
  non-empty attribute and class lists instead of modelling the panic.

## Findings

| source | as written | input that shows it | evidently intended | confidence | as-written member | corrected member |
|---|---|---|---|---|---|---|
| src/quantize/mod.rs:21 | The doc comment says every interval has a class with more than `small` values. The trimming fold tests only segments closed by a kept split, so the last interval (or a lone `Infinite`) is never tested. | The golf test with `small` = 3 ends in `Upper{85,d}`, which holds one pair. The documentation example with `small` = 2 ends in `Upper{100,c}`, which also holds one pair. | Every interval but the last has a class with more than `small` values; the tests expect exactly this behaviour. | high, not executed | Scenarios.GolfLastIntervalSmall | Splits.TrimKeptSplitsQualify |
