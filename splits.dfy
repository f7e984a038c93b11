/**
  Split trimming and interval construction over the value-sorted
  (value, class) pairs: the model of src/quantize/splits.rs.

  A split is an index into the sorted pairs; segment [start, until) is the run of
  pairs between two splits.
 */
module Splits {
  import opened Wrappers
  import opened Intervals

  // ---------------------------------------------------------------------------
  // Sorted data and split lists
  // ---------------------------------------------------------------------------

  /** The pairs are in non-decreasing order of attribute value. */
  predicate SortedByValue<C(==)>(data: seq<(int, C)>) {
    forall i, j :: 0 <= i < j < |data| ==> data[i].0 <= data[j].0
  }

  predicate StrictlyIncreasing(s: seq<nat>) {
    forall i, j :: 0 <= i < j < |s| ==> s[i] < s[j]
  }

  /** Every element of `a` appears in `b`, in the same order. */
  predicate IsSubsequence(a: seq<nat>, b: seq<nat>)
    decreases |b|
  {
    |a| == 0 || (|b| > 0 && ((a[0] == b[0] && IsSubsequence(a[1..], b[1..])) || IsSubsequence(a, b[1..])))
  }

  /** The classes of a run of pairs. */
  function Classes<C(==)>(data: seq<(int, C)>): (r: seq<C>)
    ensures |r| == |data|
  {
    seq(|data|, i requires 0 <= i < |data| => data[i].1)
  }

  /** The classes of segment [start, until). */
  function Segment<C(==)>(data: seq<(int, C)>, start: nat, until: nat): seq<C>
    requires start <= until <= |data|
  {
    Classes(data[start..until])
  }

  /** How many pairs of segment [start, until) have class `c`. */
  function Occurrences<C(==)>(data: seq<(int, C)>, start: nat, until: nat, c: C): nat
    requires start <= until <= |data|
  {
    multiset(Segment(data, start, until))[c]
  }

  // ---------------------------------------------------------------------------
  // frequency_count
  // ---------------------------------------------------------------------------

  /** The class-to-count map of a sequence. */
  function FrequencyOf<T(==)>(ts: seq<T>): map<T, nat> {
    map t | t in ts :: multiset(ts)[t]
  }

  /** Counts each distinct element, one element at a time. */
  method FrequencyCount<T(==)>(ts: seq<T>) returns (counts: map<T, nat>)
    ensures forall t :: t in counts <==> t in ts
    ensures forall t :: t in counts ==> counts[t] == multiset(ts)[t]
    ensures counts == FrequencyOf(ts)
  {
    counts := map[];
    for i := 0 to |ts|
      invariant forall t :: t in counts <==> t in ts[..i]
      invariant forall t :: t in counts ==> counts[t] == multiset(ts[..i])[t]
    {
      var t := ts[i];
      var count := if t in counts then counts[t] else 0;
      counts := counts[t := count + 1];
      assert ts[..i + 1] == ts[..i] + [t];
    }
    assert ts[..|ts|] == ts;
  }

  /** The sum of the values of a map. */
  ghost function SumValues<T>(m: map<T, nat>): nat
    decreases |m.Keys|
  {
    if m == map[] then 0
    else
      var k :| k in m;
      assert |(m - {k}).Keys| < |m.Keys| by {
        assert (m - {k}).Keys == m.Keys - {k};
      }
      m[k] + SumValues(m - {k})
  }

  /** The sum does not depend on which key is taken first. */
  lemma {:induction false} SumValuesRemove<T>(m: map<T, nat>, k: T)
    requires k in m
    ensures SumValues(m) == m[k] + SumValues(m - {k})
    decreases |m.Keys|
  {
    var j :| j in m && SumValues(m) == m[j] + SumValues(m - {j});
    if j != k {
      assert (m - {j}).Keys == m.Keys - {j};
      assert (m - {k}).Keys == m.Keys - {k};
      SumValuesRemove(m - {j}, k);
      SumValuesRemove(m - {k}, j);
      assert (m - {j}) - {k} == (m - {k}) - {j};
    }
  }

  /** Counting one more element bumps exactly that element's count. */
  lemma FrequencyAppend<T>(p: seq<T>, x: T)
    ensures FrequencyOf(p + [x]) == FrequencyOf(p)[x := multiset(p)[x] + 1]
  {
    var f, g := FrequencyOf(p + [x]), FrequencyOf(p)[x := multiset(p)[x] + 1];
    assert multiset(p + [x]) == multiset(p) + multiset{x};
    assert forall t :: t in p + [x] <==> t in p || t == x;
    assert f.Keys == g.Keys;
    forall t | t in f ensures f[t] == g[t] { }
  }

  /** The counts add up to the length of the counted sequence. */
  lemma {:induction false} FrequencyTotal<T>(ts: seq<T>)
    ensures SumValues(FrequencyOf(ts)) == |ts|
  {
    if |ts| > 0 {
      var p, x := ts[..|ts| - 1], ts[|ts| - 1];
      assert ts == p + [x];
      FrequencyTotal(p);
      FrequencyAppend(p, x);
      var g := FrequencyOf(p);
      assert x in g <==> multiset(p)[x] > 0;
      SumValuesUpdate(g, x, multiset(p)[x] + 1);
    }
  }

  /** Setting one key's value changes the sum by the difference. */
  lemma SumValuesUpdate<T>(m: map<T, nat>, k: T, v: nat)
    ensures SumValues(m[k := v]) == SumValues(m) - (if k in m then m[k] else 0) + v
  {
    var f := m[k := v];
    SumValuesRemove(f, k);
    if k in m {
      SumValuesRemove(m, k);
      assert f - {k} == m - {k};
    } else {
      assert f - {k} == m;
    }
  }

  /** No element occurs more often than the length of the sequence. */
  lemma {:induction false} OccurrencesAtMostLength<T>(ts: seq<T>, t: T)
    ensures multiset(ts)[t] <= |ts|
  {
    if |ts| > 0 {
      assert ts == ts[..|ts| - 1] + [ts[|ts| - 1]];
      OccurrencesAtMostLength(ts[..|ts| - 1], t);
    }
  }

  /** A sequence made of one element only counts it once per position. */
  lemma {:induction false} OccurrencesOfConstant<T>(ts: seq<T>, t: T)
    requires forall i :: 0 <= i < |ts| ==> ts[i] == t
    ensures multiset(ts)[t] == |ts|
  {
    if |ts| > 0 {
      assert ts == ts[..|ts| - 1] + [ts[|ts| - 1]];
      OccurrencesOfConstant(ts[..|ts| - 1], t);
    }
  }

  // ---------------------------------------------------------------------------
  // Majority class (most_frequest_class and the closure in intervals_from_splits)
  // ---------------------------------------------------------------------------

  /**
    The first element of `s` whose count in `counts` is maximal. Ties go to the
    earliest element of `s`. The counts of a segment's classes are the entries
    of its frequency map: `FrequencyOf(s)[t] == multiset(s)[t]` for `t` in `s`.
   */
  function Best<T(==)>(s: seq<T>, counts: multiset<T>): (r: Option<T>)
    ensures r.None? <==> |s| == 0
    ensures r.Some? ==> r.value in s
  {
    if |s| == 0 then None
    else
      var rest := Best(s[1..], counts);
      if rest.None? || counts[rest.value] <= counts[s[0]] then Some(s[0]) else rest
  }

  /** No element of `s` has a larger count than the element found. */
  lemma {:induction false} BestIsBest<T>(s: seq<T>, counts: multiset<T>)
    ensures Best(s, counts).Some? ==> forall t :: t in s ==> counts[t] <= counts[Best(s, counts).value]
  {
    if |s| > 0 {
      BestIsBest(s[1..], counts);
      forall t | t in s ensures counts[t] <= counts[Best(s, counts).value] {
        if t != s[0] { assert t in s[1..]; }
      }
    }
  }

  /**
    The most frequent class of segment [start, until), or None for an empty
    segment.
   */
  function MostFrequentClass<C(==)>(start: nat, until: nat, data: seq<(int, C)>): (r: Option<C>)
    requires start <= until <= |data|
    ensures r.None? <==> start == until
  {
    var classes := Segment(data, start, until);
    Best(classes, multiset(classes))
  }

  /** The class found occurs in the segment, and no class of the segment occurs more often. */
  lemma MostFrequentClassIsMostFrequent<C>(start: nat, until: nat, data: seq<(int, C)>)
    requires start <= until <= |data|
    ensures MostFrequentClass(start, until, data).Some? ==>
      exists i :: start <= i < until && data[i].1 == MostFrequentClass(start, until, data).value
    ensures MostFrequentClass(start, until, data).Some? ==> forall i :: start <= i < until ==>
      Occurrences(data, start, until, data[i].1) <= Occurrences(data, start, until, MostFrequentClass(start, until, data).value)
  {
    var classes := Segment(data, start, until);
    var best := Best(classes, multiset(classes));
    BestIsBest(classes, multiset(classes));
    if best.Some? {
      var k :| 0 <= k < |classes| && classes[k] == best.value;
      assert data[start + k].1 == best.value;
      forall i | start <= i < until
        ensures Occurrences(data, start, until, data[i].1) <= Occurrences(data, start, until, best.value)
      {
        assert classes[i - start] == data[i].1;
      }
    }
  }

  /** The majority class of a segment that cannot be empty. */
  function Majority<C(==)>(start: nat, until: nat, data: seq<(int, C)>): C
    requires start < until <= |data|
  {
    MostFrequentClass(start, until, data).value
  }

  /** The majority occurs in its segment, at least as often as any class of the segment. */
  lemma MajorityIsMostFrequent<C>(start: nat, until: nat, data: seq<(int, C)>)
    requires start < until <= |data|
    ensures exists i :: start <= i < until && data[i].1 == Majority(start, until, data)
    ensures forall i :: start <= i < until ==>
      Occurrences(data, start, until, data[i].1) <= Occurrences(data, start, until, Majority(start, until, data))
  {
    MostFrequentClassIsMostFrequent(start, until, data);
  }

  /** Growing a segment by one pair adds one to that pair's class count and nothing else. */
  lemma OccurrencesExtend<C>(data: seq<(int, C)>, start: nat, until: nat, c: C)
    requires start < until <= |data|
    ensures Occurrences(data, start, until, c)
         == Occurrences(data, start, until - 1, c) + (if data[until - 1].1 == c then 1 else 0)
  {
    assert Segment(data, start, until) == Segment(data, start, until - 1) + [data[until - 1].1];
  }

  /** In a segment of a single class that class occurs once per pair and is the majority. */
  lemma UniformSegment<C>(data: seq<(int, C)>, start: nat, until: nat, c: C)
    requires start < until <= |data|
    requires forall i :: start <= i < until ==> data[i].1 == c
    ensures Occurrences(data, start, until, c) == until - start
    ensures MostFrequentClass(start, until, data) == Some(c)
  {
    var seg := Segment(data, start, until);
    assert forall i :: 0 <= i < |seg| ==> seg[i] == data[start + i].1;
    OccurrencesOfConstant(seg, c);
    MostFrequentClassIsMostFrequent(start, until, data);
  }

  /** A class that occurs strictly more often than every other is the majority. */
  lemma MajorityOfClearWinner<C>(start: nat, until: nat, data: seq<(int, C)>, c: C)
    requires start < until <= |data|
    requires exists i :: start <= i < until && data[i].1 == c
    requires forall i :: start <= i < until && data[i].1 != c ==>
      Occurrences(data, start, until, data[i].1) < Occurrences(data, start, until, c)
    ensures Majority(start, until, data) == c
  {
    MostFrequentClassIsMostFrequent(start, until, data);
  }

  // ---------------------------------------------------------------------------
  // The two tests of the trimming fold
  // ---------------------------------------------------------------------------

  /** No class occurs more than `small` times in segment [start, until). */
  function NoDominantClass<C(==)>(start: nat, until: nat, small: nat, data: seq<(int, C)>): bool
    requires start <= until <= |data|
  {
    var counts := FrequencyOf(Segment(data, start, until));
    forall c | c in counts :: counts[c] <= small
  }

  /** The test holds exactly when every pair's class occurs at most `small` times. */
  lemma NoDominantClassIff<C>(start: nat, until: nat, small: nat, data: seq<(int, C)>)
    requires start <= until <= |data|
    ensures NoDominantClass(start, until, small, data) <==>
      forall i :: start <= i < until ==> Occurrences(data, start, until, data[i].1) <= small
  {
    var classes := Segment(data, start, until);
    var counts := FrequencyOf(classes);
    forall i | start <= i < until
      ensures data[i].1 in counts
    {
      assert classes[i - start] == data[i].1;
    }
    forall c | c in counts
      ensures exists i :: start <= i < until && data[i].1 == c
    {
      var k :| 0 <= k < |classes| && classes[k] == c;
      assert data[start + k].1 == c;
    }
  }

  /** With `small` = 0 no non-empty segment passes the small-disjunct test. */
  lemma SmallZeroAlwaysDominant<C>(start: nat, until: nat, data: seq<(int, C)>)
    requires start < until <= |data|
    ensures !NoDominantClass(start, until, 0, data)
  {
    NoDominantClassIff(start, until, 0, data);
    assert Segment(data, start, until)[0] == data[start].1;
  }

  /**
    Whether the segment [until, next) has the same majority class as
    [start, until); false when there is no next split.
   */
  function NextSplitSameClass<C(==)>(start: nat, until: nat, data: seq<(int, C)>, next: Option<nat>): bool
    requires start <= until <= |data|
    requires next.Some? ==> until <= next.value <= |data|
  {
    var cls := MostFrequentClass(start, until, data);
    var nextClass := match next
      case None => None
      case Some(n) => MostFrequentClass(until, n, data);
    nextClass == cls
  }

  /** Over a non-empty segment the test asks for a non-empty next segment with the same majority class. */
  lemma NextSplitSameClassIff<C>(start: nat, until: nat, data: seq<(int, C)>, next: Option<nat>)
    requires start < until <= |data|
    requires next.Some? ==> until <= next.value <= |data|
    ensures NextSplitSameClass(start, until, data, next) <==>
      next.Some? && until < next.value && MostFrequentClass(start, until, data) == MostFrequentClass(until, next.value, data)
  {
  }

  // ---------------------------------------------------------------------------
  // trim_splits / trim_splits0
  // ---------------------------------------------------------------------------

  /** The splits a trimming fold may take, starting at `start`. */
  predicate TrimmableFrom(splits: seq<nat>, start: nat, len: nat) {
    && start <= len
    && (|splits| > 0 ==> start <= splits[0])
    && (forall k :: 0 < k < |splits| ==> splits[k - 1] <= splits[k])
    && (forall k :: 0 <= k < |splits| ==> splits[k] <= len)
  }

  /** The candidate after position `j`, if any. */
  function NextCandidate(splits: seq<nat>, j: nat): Option<nat>
    requires j < |splits|
  {
    if j + 1 < |splits| then Some(splits[j + 1]) else None
  }

  /**
    The fold's test for the candidate at position `j` when its segment starts at
    `prev`: the segment has no dominant class, or the segment up to the next
    candidate has the same majority class.
   */
  predicate Dropped<C(==)>(splits: seq<nat>, j: nat, small: nat, data: seq<(int, C)>, prev: nat)
    requires j < |splits| && prev <= splits[j] <= |data|
    requires j + 1 < |splits| ==> splits[j] <= splits[j + 1] <= |data|
  {
    NoDominantClass(prev, splits[j], small, data) || NextSplitSameClass(prev, splits[j], data, NextCandidate(splits, j))
  }

  /**
    The splits kept by the left-to-right fold that starts its current segment at
    `start`: a dropped candidate leaves the segment open, a kept one starts the
    next segment.
   */
  function Trim<C(==)>(splits: seq<nat>, small: nat, data: seq<(int, C)>, start: nat): seq<nat>
    requires TrimmableFrom(splits, start, |data|)
    decreases |splits|
  {
    if |splits| == 0 then []
    else if Dropped(splits, 0, small, data, start) then Trim(splits[1..], small, data, start)
    else [splits[0]] + Trim(splits[1..], small, data, splits[0])
  }

  /** One step of the fold, taken at position `i` of the candidate list. */
  lemma TrimStep<C>(splits: seq<nat>, small: nat, data: seq<(int, C)>, start: nat, i: nat)
    requires i < |splits| && TrimmableFrom(splits[i..], start, |data|)
    ensures start <= splits[i] <= |data| && (i + 1 < |splits| ==> splits[i] <= splits[i + 1] <= |data|)
    ensures TrimmableFrom(splits[i + 1..], start, |data|)
    ensures Dropped(splits, i, small, data, start) ==>
      Trim(splits[i..], small, data, start) == Trim(splits[i + 1..], small, data, start)
    ensures !Dropped(splits, i, small, data, start) ==>
      TrimmableFrom(splits[i + 1..], splits[i], |data|) &&
      Trim(splits[i..], small, data, start) == [splits[i]] + Trim(splits[i + 1..], small, data, splits[i])
  {
    var rest := splits[i..];
    assert rest[0] == splits[i] && rest[1..] == splits[i + 1..];
    assert i + 1 < |splits| ==> rest[1] == splits[i + 1];
    assert NextCandidate(rest, 0) == NextCandidate(splits, i);
  }

  /** A candidate the fold drops: the rest is trimmed from the same start. */
  lemma TrimDrop<C>(splits: seq<nat>, small: nat, data: seq<(int, C)>, start: nat)
    requires |splits| > 0 && TrimmableFrom(splits, start, |data|) && Dropped(splits, 0, small, data, start)
    ensures Trim(splits, small, data, start) == Trim(splits[1..], small, data, start)
  {
  }

  /** A candidate the fold keeps: it starts the next segment. */
  lemma TrimKeep<C>(splits: seq<nat>, small: nat, data: seq<(int, C)>, start: nat)
    requires |splits| > 0 && TrimmableFrom(splits, start, |data|) && !Dropped(splits, 0, small, data, start)
    ensures Trim(splits, small, data, start) == [splits[0]] + Trim(splits[1..], small, data, splits[0])
  {
  }

  /** The kept splits strictly increase, each above `start` and each one of the candidates. */
  lemma {:induction false} TrimKeepsOrder<C>(splits: seq<nat>, small: nat, data: seq<(int, C)>, start: nat)
    requires TrimmableFrom(splits, start, |data|)
    ensures StrictlyIncreasing(Trim(splits, small, data, start))
    ensures forall k :: 0 <= k < |Trim(splits, small, data, start)| ==>
      start < Trim(splits, small, data, start)[k] && Trim(splits, small, data, start)[k] in splits
    decreases |splits|
  {
    if |splits| > 0 {
      var head, tail := splits[0], splits[1..];
      if Dropped(splits, 0, small, data, start) {
        TrimKeepsOrder(tail, small, data, start);
        InTail(Trim(tail, small, data, start), splits);
      } else {
        TrimKeepsOrder(tail, small, data, head);
        InTail(Trim(tail, small, data, head), splits);
        ConsAbove(head, Trim(tail, small, data, head), splits, start);
      }
    }
  }

  /** What lies in the tail of a list lies in the list. */
  lemma InTail(r: seq<nat>, splits: seq<nat>)
    requires |splits| > 0 && forall k :: 0 <= k < |r| ==> r[k] in splits[1..]
    ensures forall k :: 0 <= k < |r| ==> r[k] in splits
  {
    forall k | 0 <= k < |r| ensures r[k] in splits {
      var j :| 0 <= j < |splits[1..]| && splits[1..][j] == r[k];
      assert splits[j + 1] == r[k];
    }
  }

  /** Putting the first candidate before an increasing list of later ones keeps it increasing. */
  lemma ConsAbove(head: nat, rest: seq<nat>, splits: seq<nat>, start: nat)
    requires |splits| > 0 && head == splits[0] && start < head
    requires StrictlyIncreasing(rest) && forall k :: 0 <= k < |rest| ==> head < rest[k] && rest[k] in splits
    ensures StrictlyIncreasing([head] + rest)
    ensures forall k :: 0 <= k < |[head] + rest| ==> start < ([head] + rest)[k] && ([head] + rest)[k] in splits
  {
    var r := [head] + rest;
    forall i, j | 0 <= i < j < |r| ensures r[i] < r[j] {
      assert r[j] == rest[j - 1];
      if i > 0 {
        assert r[i] == rest[i - 1];
      }
    }
  }

  /** The fold as the loop that threads `keep` and `start_index`. */
  method TrimSplits<C(==)>(splits: seq<nat>, small: nat, data: seq<(int, C)>) returns (keep: seq<nat>)
    requires TrimmableFrom(splits, 0, |data|)
    ensures keep == Trim(splits, small, data, 0)
  {
    keep := [];
    var startIndex: nat := 0;
    assert splits[0..] == splits;
    for i := 0 to |splits|
      invariant TrimmableFrom(splits[i..], startIndex, |data|)
      invariant keep + Trim(splits[i..], small, data, startIndex) == Trim(splits, small, data, 0)
    {
      var head := splits[i];
      var next := if i + 1 < |splits| then Some(splits[i + 1]) else None;
      TrimAdvance(splits, small, data, startIndex, i, keep, Trim(splits, small, data, 0));
      if NoDominantClass(startIndex, head, small, data) || NextSplitSameClass(startIndex, head, data, next) {
        // Drop this split.
      } else {
        keep := keep + [head];
        startIndex := head;
      }
    }
    assert splits[|splits|..] == [];
  }

  /** One turn of the loop keeps the fold's result in view. */
  lemma TrimAdvance<C>(splits: seq<nat>, small: nat, data: seq<(int, C)>, start: nat, i: nat, keep: seq<nat>, target: seq<nat>)
    requires i < |splits| && TrimmableFrom(splits[i..], start, |data|)
    requires keep + Trim(splits[i..], small, data, start) == target
    ensures start <= splits[i] <= |data| && (i + 1 < |splits| ==> splits[i] <= splits[i + 1] <= |data|)
    ensures Dropped(splits, i, small, data, start) ==>
      TrimmableFrom(splits[i + 1..], start, |data|) && keep + Trim(splits[i + 1..], small, data, start) == target
    ensures !Dropped(splits, i, small, data, start) ==>
      TrimmableFrom(splits[i + 1..], splits[i], |data|) &&
      (keep + [splits[i]]) + Trim(splits[i + 1..], small, data, splits[i]) == target
  {
    TrimStep(splits, small, data, start, i);
    if !Dropped(splits, i, small, data, start) {
      assert (keep + [splits[i]]) + Trim(splits[i + 1..], small, data, splits[i])
          == keep + ([splits[i]] + Trim(splits[i + 1..], small, data, splits[i]));
    }
  }

  /** The kept splits appear in the candidate list, in the same order. */
  lemma {:induction false} TrimSubsequence<C>(splits: seq<nat>, small: nat, data: seq<(int, C)>, start: nat)
    requires TrimmableFrom(splits, start, |data|)
    ensures IsSubsequence(Trim(splits, small, data, start), splits)
    decreases |splits|
  {
    if |splits| > 0 {
      var head, tail := splits[0], splits[1..];
      var r := Trim(splits, small, data, start);
      if Dropped(splits, 0, small, data, start) {
        TrimSubsequence(tail, small, data, start);
      } else {
        TrimSubsequence(tail, small, data, head);
        assert r[1..] == Trim(tail, small, data, head);
      }
    }
  }

  /**
    When `small` is at least the number of pairs, no segment has a class that
    occurs more than `small` times, so every candidate split is dropped.
   */
  lemma {:induction false} TrimDropsAllWhenSmallIsLarge<C>(splits: seq<nat>, small: nat, data: seq<(int, C)>, start: nat)
    requires TrimmableFrom(splits, start, |data|) && small >= |data|
    ensures Trim(splits, small, data, start) == []
    decreases |splits|
  {
    if |splits| > 0 {
      var head := splits[0];
      forall i | start <= i < head ensures Occurrences(data, start, head, data[i].1) <= small {
        OccurrencesAtMostLength(Segment(data, start, head), data[i].1);
      }
      NoDominantClassIff(start, head, small, data);
      TrimDropsAllWhenSmallIsLarge(splits[1..], small, data, start);
    }
  }

  /**
    The start of the segment that a split at `x` closes: the last kept split
    below `x`, or `start` when there is none. `kept` is read left to right as the
    fold produced it.
   */
  function LastKeptBefore(kept: seq<nat>, x: nat, start: nat): (r: nat)
    ensures r == start || (r in kept && r < x)
  {
    if |kept| == 0 || kept[0] >= x then start else LastKeptBefore(kept[1..], x, kept[0])
  }

  /** In an increasing list the segment closed by the k-th kept split starts at the previous kept split. */
  lemma {:induction false} LastKeptBeforeKept(kept: seq<nat>, k: nat, start: nat)
    requires StrictlyIncreasing(kept) && k < |kept| && (|kept| > 0 ==> start < kept[0])
    ensures LastKeptBefore(kept, kept[k], start) == if k == 0 then start else kept[k - 1]
  {
    if k > 0 {
      if k > 1 {
        LastKeptBeforeKept(kept[1..], k - 1, kept[0]);
      }
    }
  }

  /**
    The fold's decision, split by split: a candidate is kept exactly when the
    segment it closes (from the last kept split, or `start`) has a class occurring
    more than `small` times and does not share its majority class with the
    segment up to the next candidate.
   */
  lemma {:induction false} TrimDecision<C>(splits: seq<nat>, small: nat, data: seq<(int, C)>, start: nat)
    requires TrimmableFrom(splits, start, |data|) && StrictlyIncreasing(splits)
    ensures forall j :: 0 <= j < |splits| ==> LastKeptBefore(Trim(splits, small, data, start), splits[j], start) <= splits[j]
    ensures forall j :: 0 <= j < |splits| ==>
      (splits[j] in Trim(splits, small, data, start) <==>
       !Dropped(splits, j, small, data, LastKeptBefore(Trim(splits, small, data, start), splits[j], start)))
  {
    forall j | 0 <= j < |splits|
      ensures LastKeptBefore(Trim(splits, small, data, start), splits[j], start) <= splits[j]
      ensures splits[j] in Trim(splits, small, data, start) <==>
        !Dropped(splits, j, small, data, LastKeptBefore(Trim(splits, small, data, start), splits[j], start))
    {
      TrimDecisionAt(splits, small, data, start, j);
    }
  }

  /**
    With `small` = 0 only the majority test remains: over non-empty segments a
    candidate is dropped exactly when the segment up to the next candidate has
    the same majority class.
   */
  lemma TrimDecisionSmallZero<C>(splits: seq<nat>, data: seq<(int, C)>, start: nat)
    requires TrimmableFrom(splits, start, |data|) && StrictlyIncreasing(splits)
    requires |splits| > 0 ==> start < splits[0]
    ensures forall j :: 0 <= j < |splits| ==> LastKeptBefore(Trim(splits, 0, data, start), splits[j], start) < splits[j]
    ensures forall j :: 0 <= j < |splits| ==>
      (splits[j] in Trim(splits, 0, data, start) <==>
       !NextSplitSameClass(LastKeptBefore(Trim(splits, 0, data, start), splits[j], start), splits[j], data, NextCandidate(splits, j)))
  {
    var r := Trim(splits, 0, data, start);
    TrimDecision(splits, 0, data, start);
    forall j | 0 <= j < |splits|
      ensures LastKeptBefore(r, splits[j], start) < splits[j]
      ensures splits[j] in r <==> !NextSplitSameClass(LastKeptBefore(r, splits[j], start), splits[j], data, NextCandidate(splits, j))
    {
      assert splits[0] <= splits[j];
      SmallZeroAlwaysDominant(LastKeptBefore(r, splits[j], start), splits[j], data);
    }
  }

  /** The decision for the candidate at position `j`. */
  lemma {:induction false} TrimDecisionAt<C>(splits: seq<nat>, small: nat, data: seq<(int, C)>, start: nat, j: nat)
    requires TrimmableFrom(splits, start, |data|) && StrictlyIncreasing(splits) && j < |splits|
    ensures LastKeptBefore(Trim(splits, small, data, start), splits[j], start) <= splits[j]
    ensures splits[j] in Trim(splits, small, data, start) <==>
      !Dropped(splits, j, small, data, LastKeptBefore(Trim(splits, small, data, start), splits[j], start))
    decreases j
  {
    if j > 0 {
      TailTrimmable(splits, start, |data|);
    }
    if j == 0 {
      TrimDecisionFirst(splits, small, data, start);
    } else if Dropped(splits, 0, small, data, start) {
      TrimDecisionAt(splits[1..], small, data, start, j - 1);
      TrimDecisionAfterDrop(splits, small, data, start, j);
    } else {
      TrimDecisionAt(splits[1..], small, data, splits[0], j - 1);
      TrimDecisionAfterKeep(splits, small, data, start, j);
    }
  }

  /** Dropping the first candidate leaves a list the fold can take from `start` or from that candidate. */
  lemma TailTrimmable(splits: seq<nat>, start: nat, len: nat)
    requires TrimmableFrom(splits, start, len) && StrictlyIncreasing(splits) && 0 < |splits|
    ensures TrimmableFrom(splits[1..], start, len) && TrimmableFrom(splits[1..], splits[0], len)
    ensures StrictlyIncreasing(splits[1..])
  {
  }

  /** The decision for the first candidate is the fold's test on [start, head). */
  lemma TrimDecisionFirst<C>(splits: seq<nat>, small: nat, data: seq<(int, C)>, start: nat)
    requires TrimmableFrom(splits, start, |data|) && StrictlyIncreasing(splits) && 0 < |splits|
    ensures LastKeptBefore(Trim(splits, small, data, start), splits[0], start) == start
    ensures splits[0] in Trim(splits, small, data, start) <==> !Dropped(splits, 0, small, data, start)
  {
    var r := Trim(splits, small, data, start);
    if Dropped(splits, 0, small, data, start) {
      TrimKeepsOrder(splits[1..], small, data, start);
      assert r == Trim(splits[1..], small, data, start);
      assert |r| > 0 ==> r[0] in splits[1..];
    } else {
      assert r == [splits[0]] + Trim(splits[1..], small, data, splits[0]);
    }
  }

  /** After a dropped first candidate the fold goes on from the same start. */
  lemma TrimDecisionAfterDrop<C>(splits: seq<nat>, small: nat, data: seq<(int, C)>, start: nat, j: nat)
    requires TrimmableFrom(splits, start, |data|) && StrictlyIncreasing(splits) && 0 < j < |splits|
    requires Dropped(splits, 0, small, data, start)
    requires LastKeptBefore(Trim(splits[1..], small, data, start), splits[j], start) <= splits[j]
    requires splits[j] in Trim(splits[1..], small, data, start) <==>
      !Dropped(splits[1..], j - 1, small, data, LastKeptBefore(Trim(splits[1..], small, data, start), splits[j], start))
    ensures LastKeptBefore(Trim(splits, small, data, start), splits[j], start) <= splits[j]
    ensures splits[j] in Trim(splits, small, data, start) <==>
      !Dropped(splits, j, small, data, LastKeptBefore(Trim(splits, small, data, start), splits[j], start))
  {
    assert Trim(splits, small, data, start) == Trim(splits[1..], small, data, start);
    assert splits[j] == splits[1..][j - 1];
    assert NextCandidate(splits, j) == NextCandidate(splits[1..], j - 1);
  }

  /** After a kept first candidate the fold goes on from that candidate. */
  lemma TrimDecisionAfterKeep<C>(splits: seq<nat>, small: nat, data: seq<(int, C)>, start: nat, j: nat)
    requires TrimmableFrom(splits, start, |data|) && StrictlyIncreasing(splits) && 0 < j < |splits|
    requires !Dropped(splits, 0, small, data, start)
    requires TrimmableFrom(splits[1..], splits[0], |data|)
    requires LastKeptBefore(Trim(splits[1..], small, data, splits[0]), splits[j], splits[0]) <= splits[j]
    requires splits[j] in Trim(splits[1..], small, data, splits[0]) <==>
      !Dropped(splits[1..], j - 1, small, data, LastKeptBefore(Trim(splits[1..], small, data, splits[0]), splits[j], splits[0]))
    ensures LastKeptBefore(Trim(splits, small, data, start), splits[j], start) <= splits[j]
    ensures splits[j] in Trim(splits, small, data, start) <==>
      !Dropped(splits, j, small, data, LastKeptBefore(Trim(splits, small, data, start), splits[j], start))
  {
    var r' := Trim(splits[1..], small, data, splits[0]);
    var r := Trim(splits, small, data, start);
    assert r == [splits[0]] + r';
    assert r[1..] == r';
    assert splits[0] < splits[j];
    assert LastKeptBefore(r, splits[j], start) == LastKeptBefore(r', splits[j], splits[0]);
    assert splits[j] == splits[1..][j - 1];
    assert NextCandidate(splits, j) == NextCandidate(splits[1..], j - 1);
  }

  /** The start of the segment closed by the k-th kept split: the previous kept split, or 0. */
  function PreviousKept(kept: seq<nat>, k: nat): nat
    requires k < |kept|
  {
    if k == 0 then 0 else kept[k - 1]
  }

  /**
    Every kept split closes a segment, starting at the previous kept split (or
    0), in which some class occurs more than `small` times; and when a further
    candidate follows it, the majority class of that segment differs from the
    majority class of the segment up to that candidate.
   */
  lemma TrimKeptSplitsQualify<C>(splits: seq<nat>, small: nat, data: seq<(int, C)>)
    requires TrimmableFrom(splits, 0, |data|) && StrictlyIncreasing(splits)
    ensures forall k :: 0 <= k < |Trim(splits, small, data, 0)| ==>
      PreviousKept(Trim(splits, small, data, 0), k) < Trim(splits, small, data, 0)[k] <= |data|
    ensures forall k :: 0 <= k < |Trim(splits, small, data, 0)| ==>
      exists i :: PreviousKept(Trim(splits, small, data, 0), k) <= i < Trim(splits, small, data, 0)[k] &&
        Occurrences(data, PreviousKept(Trim(splits, small, data, 0), k), Trim(splits, small, data, 0)[k], data[i].1) > small
    ensures forall k, j :: 0 <= k < |Trim(splits, small, data, 0)| && 0 <= j < |splits| - 1 && splits[j] == Trim(splits, small, data, 0)[k] ==>
      MostFrequentClass(PreviousKept(Trim(splits, small, data, 0), k), splits[j], data)
        != MostFrequentClass(splits[j], splits[j + 1], data)
  {
    var r := Trim(splits, small, data, 0);
    forall k | 0 <= k < |r| {
      TrimKeptQualifies(splits, small, data, k);
    }
    forall k, j | 0 <= k < |r| && 0 <= j < |splits| - 1 && splits[j] == r[k]
      ensures MostFrequentClass(PreviousKept(r, k), splits[j], data) != MostFrequentClass(splits[j], splits[j + 1], data)
    {
      TrimKeptQualifies(splits, small, data, k);
    }
  }

  /** The conditions met by the k-th kept split. */
  lemma TrimKeptQualifies<C>(splits: seq<nat>, small: nat, data: seq<(int, C)>, k: nat)
    requires TrimmableFrom(splits, 0, |data|) && StrictlyIncreasing(splits)
    requires k < |Trim(splits, small, data, 0)|
    ensures PreviousKept(Trim(splits, small, data, 0), k) < Trim(splits, small, data, 0)[k] <= |data|
    ensures exists i :: PreviousKept(Trim(splits, small, data, 0), k) <= i < Trim(splits, small, data, 0)[k] &&
                        Occurrences(data, PreviousKept(Trim(splits, small, data, 0), k), Trim(splits, small, data, 0)[k], data[i].1) > small
    ensures forall j :: 0 <= j < |splits| - 1 && splits[j] == Trim(splits, small, data, 0)[k] ==>
      MostFrequentClass(PreviousKept(Trim(splits, small, data, 0), k), splits[j], data)
        != MostFrequentClass(splits[j], splits[j + 1], data)
  {
    var r := Trim(splits, small, data, 0);
    TrimKeepsOrder(splits, small, data, 0);
    var j :| 0 <= j < |splits| && splits[j] == r[k];
    TrimKeptAt(splits, small, data, k, j);
    forall j' | 0 <= j' < |splits| - 1 && splits[j'] == r[k]
      ensures MostFrequentClass(PreviousKept(r, k), splits[j'], data) != MostFrequentClass(splits[j'], splits[j' + 1], data)
    {
      assert j' == j;
    }
  }

  /** The conditions met by the k-th kept split, found at position `j` of the candidates. */
  lemma TrimKeptAt<C>(splits: seq<nat>, small: nat, data: seq<(int, C)>, k: nat, j: nat)
    requires TrimmableFrom(splits, 0, |data|) && StrictlyIncreasing(splits)
    requires k < |Trim(splits, small, data, 0)| && j < |splits| && splits[j] == Trim(splits, small, data, 0)[k]
    ensures PreviousKept(Trim(splits, small, data, 0), k) < splits[j] <= |data|
    ensures exists i ::
      PreviousKept(Trim(splits, small, data, 0), k) <= i < splits[j] &&
      Occurrences(data, PreviousKept(Trim(splits, small, data, 0), k), splits[j], data[i].1) > small
    ensures j + 1 < |splits| ==>
      MostFrequentClass(PreviousKept(Trim(splits, small, data, 0), k), splits[j], data)
        != MostFrequentClass(splits[j], splits[j + 1], data)
  {
    var r := Trim(splits, small, data, 0);
    TrimKeepsOrder(splits, small, data, 0);
    LastKeptBeforeKept(r, k, 0);
    TrimDecisionAt(splits, small, data, 0, j);
    assert !Dropped(splits, j, small, data, PreviousKept(r, k));
    NoDominantClassIff(PreviousKept(r, k), splits[j], small, data);
    if j + 1 < |splits| {
      NextSplitSameClassIff(PreviousKept(r, k), splits[j], data, NextCandidate(splits, j));
    }
  }
  // ---------------------------------------------------------------------------
  // intervals_from_splits
  // ---------------------------------------------------------------------------

  /** Splits the builder accepts: strictly increasing indices strictly inside the data. */
  predicate ValidSplits(splits: seq<nat>, len: nat) {
    StrictlyIncreasing(splits) && forall k :: 0 <= k < |splits| ==> 0 < splits[k] < len
  }

  /** Each split sits where the attribute value strictly increases. */
  predicate AtValueChanges<C>(splits: seq<nat>, data: seq<(int, C)>) {
    forall k :: 0 <= k < |splits| ==> 0 < splits[k] < |data| && data[splits[k] - 1].0 < data[splits[k]].0
  }

  /** The first pair of the k-th segment. */
  function SegStart(splits: seq<nat>, k: nat): nat
    requires k <= |splits|
  {
    if k == 0 then 0 else splits[k - 1]
  }

  /** One past the last pair of the k-th segment; segments are never empty. */
  function SegEnd(splits: seq<nat>, k: nat, len: nat): (r: nat)
    requires k <= |splits|
    ensures 0 < len && ValidSplits(splits, len) ==> SegStart(splits, k) < r <= len
  {
    if k == |splits| then len else splits[k]
  }

  /**
    The k-th interval: unbounded below for the first, unbounded above for the
    last, bounded by the split values in between, and tagged with its segment's
    majority class.
   */
  function IntervalAt<C(==)>(splits: seq<nat>, data: seq<(int, C)>, k: nat): Interval<C>
    requires 0 < |data| && ValidSplits(splits, |data|) && k <= |splits|
  {
    var lo := if k == 0 then None else Some(data[splits[k - 1]].0);
    var hi := if k == |splits| then None else Some(data[splits[k]].0);
    Make(lo, hi, Majority(SegStart(splits, k), SegEnd(splits, k, |data|), data))
  }

  /** One interval per segment, in order. */
  function Build<C(==)>(splits: seq<nat>, data: seq<(int, C)>): (r: seq<Interval<C>>)
    requires 0 < |data| && ValidSplits(splits, |data|)
  {
    seq(|splits| + 1, k requires 0 <= k <= |splits| => IntervalAt(splits, data, k))
  }

  /** The first interval: every value below the split's value. */
  function LowerAt<C(==)>(data: seq<(int, C)>, index: nat): Interval<C>
    requires 0 < index < |data|
  {
    Lower(data[index].0, Majority(0, index, data))
  }

  /** The last interval: every value from the split's value on. */
  function UpperAt<C(==)>(data: seq<(int, C)>, index: nat): Interval<C>
    requires index < |data|
  {
    Upper(data[index].0, Majority(index, |data|, data))
  }

  /** An inner interval between two consecutive splits. */
  function RangeAt<C(==)>(data: seq<(int, C)>, start: nat, end: nat): Interval<C>
    requires start < end < |data|
  {
    Range(data[start].0, data[end].0, Majority(start, end, data))
  }

  /** The only interval when there are no splits. */
  function InfiniteOf<C(==)>(data: seq<(int, C)>): Interval<C>
    requires 0 < |data|
  {
    Infinite(Majority(0, |data|, data))
  }

  /**
    The shapes the builder produces: a single `Infinite` interval without
    splits, `Lower` and `Upper` around a single split, and otherwise `Lower`,
    one `Range` per consecutive pair of splits, then `Upper`.
   */
  lemma BuildShapes<C>(splits: seq<nat>, data: seq<(int, C)>)
    requires 0 < |data| && ValidSplits(splits, |data|)
    ensures |Build(splits, data)| == |splits| + 1
    ensures |splits| == 0 ==> Build(splits, data) == [InfiniteOf(data)]
    ensures |splits| > 0 ==> Build(splits, data)[0] == LowerAt(data, splits[0])
    ensures forall k :: 1 <= k < |splits| ==> Build(splits, data)[k] == RangeAt(data, splits[k - 1], splits[k])
    ensures |splits| > 0 ==> Build(splits, data)[|splits|] == UpperAt(data, splits[|splits| - 1])
  {
  }

  /** The builder, a loop over consecutive pairs of splits between the two unbounded ends. */
  method IntervalsFromSplits<C(==)>(splits: seq<nat>, data: seq<(int, C)>) returns (intervals: seq<Interval<C>>)
    requires 0 < |data| && ValidSplits(splits, |data|)
    ensures intervals == Build(splits, data)
  {
    var n := |splits|;
    if n == 0 {
      intervals := [InfiniteOf(data)];
      BuildWithoutSplits(splits, data);
    } else if n == 1 {
      intervals := [LowerAt(data, splits[0]), UpperAt(data, splits[0])];
      BuildOfShapes(splits, data, intervals);
    } else {
      intervals := [LowerAt(data, splits[0])];
      for k := 1 to n
        invariant |intervals| == k && intervals[0] == LowerAt(data, splits[0])
        invariant forall m :: 1 <= m < k ==> intervals[m] == RangeAt(data, splits[m - 1], splits[m])
      {
        intervals := intervals + [RangeAt(data, splits[k - 1], splits[k])];
      }
      intervals := intervals + [UpperAt(data, splits[n - 1])];
      BuildOfShapes(splits, data, intervals);
    }
  }

  /** Without splits the builder gives one unbounded interval. */
  lemma BuildWithoutSplits<C>(splits: seq<nat>, data: seq<(int, C)>)
    requires 0 < |data| && |splits| == 0
    ensures Build(splits, data) == [InfiniteOf(data)]
  {
    assert Build(splits, data)[0] == IntervalAt(splits, data, 0);
  }

  /** A list with the builder's shapes around at least one split is the builder's output. */
  lemma BuildOfShapes<C>(splits: seq<nat>, data: seq<(int, C)>, xs: seq<Interval<C>>)
    requires 0 < |data| && ValidSplits(splits, |data|) && 0 < |splits|
    requires |xs| == |splits| + 1 && xs[0] == LowerAt(data, splits[0])
    requires forall m :: 1 <= m < |splits| ==> xs[m] == RangeAt(data, splits[m - 1], splits[m])
    requires xs[|splits|] == UpperAt(data, splits[|splits| - 1])
    ensures xs == Build(splits, data)
  {
    BuildShapes(splits, data);
  }

  /** Trimming keeps splits valid for the builder, and at value changes. */
  lemma TrimKeepsValid<C>(splits: seq<nat>, small: nat, data: seq<(int, C)>)
    requires ValidSplits(splits, |data|) && AtValueChanges(splits, data) && TrimmableFrom(splits, 0, |data|)
    ensures ValidSplits(Trim(splits, small, data, 0), |data|)
    ensures AtValueChanges(Trim(splits, small, data, 0), data)
  {
    TrimKeepsOrder(splits, small, data, 0);
    ChosenSplitsValid(Trim(splits, small, data, 0), splits, data);
  }

  /** Increasing splits chosen among valid ones at value changes are valid and at value changes. */
  lemma ChosenSplitsValid<C>(chosen: seq<nat>, splits: seq<nat>, data: seq<(int, C)>)
    requires StrictlyIncreasing(chosen) && forall k :: 0 <= k < |chosen| ==> chosen[k] in splits
    requires ValidSplits(splits, |data|) && AtValueChanges(splits, data)
    ensures ValidSplits(chosen, |data|) && AtValueChanges(chosen, data)
  {
    forall k | 0 <= k < |chosen|
      ensures 0 < chosen[k] < |data| && data[chosen[k] - 1].0 < data[chosen[k]].0
    {
      var j :| 0 <= j < |splits| && splits[j] == chosen[k];
    }
  }

  /** In sorted data, a pair lies before a value-change split exactly when its value is below the split's value. */
  lemma BelowSplitIff<C>(data: seq<(int, C)>, s: nat, i: nat)
    requires SortedByValue(data) && 0 < s < |data| && data[s - 1].0 < data[s].0 && i < |data|
    ensures data[i].0 < data[s].0 <==> i < s
  {
    if i < s {
      assert data[i].0 <= data[s - 1].0;
    } else {
      assert data[s].0 <= data[i].0;
    }
  }

  /** Built over sorted data at value changes, the intervals form a chain covering the whole domain. */
  lemma BuildIsChain<C>(splits: seq<nat>, data: seq<(int, C)>)
    requires 0 < |data| && ValidSplits(splits, |data|) && SortedByValue(data) && AtValueChanges(splits, data)
    ensures Chain(Build(splits, data))
  {
    var r := Build(splits, data);
    var cuts := SplitValues(splits, data);
    forall i | 0 < i < |cuts| ensures cuts[i - 1] < cuts[i] {
      BelowSplitIff(data, splits[i], splits[i - 1]);
    }
    forall k | 0 <= k < |r|
      ensures r[k].LowerBound() == if k == 0 then None else Some(cuts[k - 1])
      ensures r[k].UpperBound() == if k == |cuts| then None else Some(cuts[k])
    {
      BuildBoundsAt(splits, data, k);
    }
    ChainOfCuts(r, cuts);
  }

  /** The attribute values at the splits. */
  function SplitValues<C>(splits: seq<nat>, data: seq<(int, C)>): (r: seq<int>)
    requires forall k :: 0 <= k < |splits| ==> splits[k] < |data|
    ensures |r| == |splits| && forall k :: 0 <= k < |splits| ==> r[k] == data[splits[k]].0
  {
    seq(|splits|, k requires 0 <= k < |splits| => data[splits[k]].0)
  }

  /** The k-th interval is bounded by the values at the splits around its segment. */
  lemma BuildBoundsAt<C>(splits: seq<nat>, data: seq<(int, C)>, k: nat)
    requires 0 < |data| && ValidSplits(splits, |data|) && k <= |splits|
    ensures Build(splits, data)[k].LowerBound() == if k == 0 then None else Some(data[splits[k - 1]].0)
    ensures Build(splits, data)[k].UpperBound() == if k == |splits| then None else Some(data[splits[k]].0)
    ensures Build(splits, data)[k].Range? ==> 0 < k < |splits|
  {
  }

  /**
    Built over sorted data at value changes, the k-th interval contains the
    value of pair i exactly when pair i belongs to the k-th segment.
   */
  lemma BuildCoversSegments<C>(splits: seq<nat>, data: seq<(int, C)>, k: nat, i: nat)
    requires 0 < |data| && ValidSplits(splits, |data|) && SortedByValue(data) && AtValueChanges(splits, data)
    requires k <= |splits| && i < |data|
    ensures Build(splits, data)[k].Matches(data[i].0) <==> SegStart(splits, k) <= i < SegEnd(splits, k, |data|)
  {
    var x := Build(splits, data)[k];
    MatchesWithinBounds(x, data[i].0);
    if k > 0 {
      BelowSplitIff(data, splits[k - 1], i);
    }
    if k < |splits| {
      BelowSplitIff(data, splits[k], i);
    }
  }
}
