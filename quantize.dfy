/**
  The discretisation pipeline of src/quantize/mod.rs: pair each attribute value
  with its class, sort the pairs by value, propose a split wherever the value
  changes, trim the splits, build one interval per segment and merge
  neighbours with the same class; and the lookup of a value's interval.
 */
module Quantize {
  import opened Wrappers
  import opened Intervals
  import opened Splits

  // ---------------------------------------------------------------------------
  // Step 1: pair and sort
  // ---------------------------------------------------------------------------

  /** The pairs `(attribute[i], classes[i])`, as many as the shorter input has. */
  function Zip<C>(attribute: seq<int>, classes: seq<C>): (r: seq<(int, C)>)
    ensures |r| == if |attribute| <= |classes| then |attribute| else |classes|
  {
    var n := if |attribute| <= |classes| then |attribute| else |classes|;
    seq(n, i requires 0 <= i < n => (attribute[i], classes[i]))
  }

  /** Places `x` after every trailing pair whose value is larger, so equal values keep their order. */
  function Insert<C>(s: seq<(int, C)>, x: (int, C)): seq<(int, C)>
    decreases |s|
  {
    if |s| == 0 then [x]
    else if x.0 < s[|s| - 1].0 then Insert(s[..|s| - 1], x) + [s[|s| - 1]]
    else s + [x]
  }

  /** A stable sort of the pairs by attribute value. */
  function SortByValue<C>(s: seq<(int, C)>): seq<(int, C)>
    decreases |s|
  {
    if |s| == 0 then []
    else Insert(SortByValue(s[..|s| - 1]), s[|s| - 1])
  }

  /** Appending a pair whose value is at least the last one's keeps pairs sorted. */
  lemma AppendSorted<C>(s: seq<(int, C)>, y: (int, C))
    requires SortedByValue(s) && (|s| > 0 ==> s[|s| - 1].0 <= y.0)
    ensures SortedByValue(s + [y])
  {
    var r := s + [y];
    forall i, j | 0 <= i < j < |r| ensures r[i].0 <= r[j].0 {
      if j < |s| {
        assert r[i] == s[i] && r[j] == s[j];
      } else {
        assert r[i] == s[i] && s[i].0 <= s[|s| - 1].0;
      }
    }
  }

  /** Inserting adds exactly `x` to the pairs. */
  lemma {:induction false} InsertAddsOne<C>(s: seq<(int, C)>, x: (int, C))
    ensures multiset(Insert(s, x)) == multiset(s) + multiset{x}
    ensures |Insert(s, x)| == |s| + 1
    decreases |s|
  {
    if |s| > 0 && x.0 < s[|s| - 1].0 {
      var p := s[..|s| - 1];
      InsertAddsOne(p, x);
      assert s == p + [s[|s| - 1]];
    }
  }

  /** Inserting into sorted pairs keeps them sorted; the last value is the larger of the two candidates. */
  lemma {:induction false} InsertSorted<C>(s: seq<(int, C)>, x: (int, C))
    requires SortedByValue(s)
    ensures SortedByValue(Insert(s, x))
    ensures |Insert(s, x)| == |s| + 1
    ensures Insert(s, x)[|s|].0 == if |s| > 0 && x.0 < s[|s| - 1].0 then s[|s| - 1].0 else x.0
    decreases |s|
  {
    InsertAddsOne(s, x);
    if |s| > 0 && x.0 < s[|s| - 1].0 {
      var p := s[..|s| - 1];
      var y := s[|s| - 1];
      assert SortedByValue(p) by {
        forall i, j | 0 <= i < j < |p| ensures p[i].0 <= p[j].0 {
          assert p[i] == s[i] && p[j] == s[j];
        }
      }
      InsertSorted(p, x);
      var q := Insert(p, x);
      assert Insert(s, x) == q + [y];
      if |p| > 0 {
        assert p[|p| - 1].0 <= y.0;
      }
      AppendSorted(q, y);
    } else if |s| > 0 {
      AppendSorted(s, x);
    }
  }

  /** The sort returns the same pairs in non-decreasing order of value. */
  lemma SortByValueSorts<C>(s: seq<(int, C)>)
    ensures SortedByValue(SortByValue(s))
    ensures multiset(SortByValue(s)) == multiset(s)
    ensures |SortByValue(s)| == |s|
  {
    SortByValueOrders(s);
    SortByValuePermutes(s);
  }

  /** The sort returns pairs in non-decreasing order of value. */
  lemma {:induction false} SortByValueOrders<C>(s: seq<(int, C)>)
    ensures SortedByValue(SortByValue(s))
    decreases |s|
  {
    if |s| > 0 {
      var p, x := s[..|s| - 1], s[|s| - 1];
      var q := SortByValue(p);
      assert SortByValue(s) == Insert(q, x);
      SortByValueOrders(p);
      InsertSorted(q, x);
    }
  }

  /** The sort returns the same pairs, each as often as in the input. */
  lemma {:induction false} SortByValuePermutes<C>(s: seq<(int, C)>)
    ensures multiset(SortByValue(s)) == multiset(s)
    ensures |SortByValue(s)| == |s|
    decreases |s|
  {
    if |s| > 0 {
      var p, x := s[..|s| - 1], s[|s| - 1];
      var q := SortByValue(p);
      assert SortByValue(s) == Insert(q, x);
      SortByValuePermutes(p);
      InsertAddsOne(q, x);
      assert s == p + [x];
    }
  }

  /** Pairs whose neighbours are in value order are in value order. */
  lemma {:induction false} SortedByNeighbours<C>(s: seq<(int, C)>)
    requires forall i :: 0 < i < |s| ==> s[i - 1].0 <= s[i].0
    ensures SortedByValue(s)
    decreases |s|
  {
    if |s| > 1 {
      var p := s[..|s| - 1];
      SortedByNeighbours(p);
      forall i, j | 0 <= i < j < |s| ensures s[i].0 <= s[j].0 {
        if j < |s| - 1 {
          assert s[i] == p[i] && s[j] == p[j];
        } else if i < j - 1 {
          assert s[i] == p[i] && s[j - 1] == p[j - 1];
        }
      }
    }
  }

  /** Sorting one more pair inserts it into the sorted others. */
  lemma SortExtend<C>(s: seq<(int, C)>, x: (int, C))
    ensures SortByValue(s + [x]) == Insert(SortByValue(s), x)
  {
    assert (s + [x])[..|s|] == s;
  }

  /** Sorting pairs that are already in value order leaves them as they are. */
  lemma {:induction false} SortSortedIsIdentity<C>(s: seq<(int, C)>)
    requires SortedByValue(s)
    ensures SortByValue(s) == s
    decreases |s|
  {
    if |s| > 0 {
      var p := s[..|s| - 1];
      assert SortedByValue(p) by {
        forall i, j | 0 <= i < j < |p| ensures p[i].0 <= p[j].0 {
          assert p[i] == s[i] && p[j] == s[j];
        }
      }
      SortSortedIsIdentity(p);
      assert s == p + [s[|s| - 1]];
      if |p| > 0 {
        assert p[|p| - 1].0 <= s[|s| - 1].0;
      }
    }
  }

  // ---------------------------------------------------------------------------
  // Step 2: tentative splits where the value changes
  // ---------------------------------------------------------------------------

  /** The indices `i` with `s[i - 1].0 < s[i].0`, in increasing order. */
  function ChangePoints<C>(s: seq<(int, C)>): seq<nat>
    decreases |s|
  {
    if |s| <= 1 then []
    else
      var p := ChangePoints(s[..|s| - 1]);
      if s[|s| - 2].0 < s[|s| - 1].0 then p + [|s| - 1] else p
  }

  /** The change points are strictly increasing indices in [1, |s|). */
  lemma {:induction false} ChangePointsIncreasing<C>(s: seq<(int, C)>)
    ensures StrictlyIncreasing(ChangePoints(s))
    ensures forall k :: 0 <= k < |ChangePoints(s)| ==> 0 < ChangePoints(s)[k] < |s|
    decreases |s|
  {
    if |s| > 1 {
      var q := s[..|s| - 1];
      ChangePointsIncreasing(q);
      var p := ChangePoints(q);
      if s[|s| - 2].0 < s[|s| - 1].0 {
        var r := p + [|s| - 1];
        assert ChangePoints(s) == r;
        forall i, j | 0 <= i < j < |r| ensures r[i] < r[j] {
          if j < |p| {
            assert r[i] == p[i] && r[j] == p[j];
          } else {
            assert r[i] == p[i];
          }
        }
      }
    }
  }

  /** Every change point is an index where the value strictly increases. */
  lemma {:induction false} ChangePointsAtChanges<C>(s: seq<(int, C)>)
    ensures AtValueChanges(ChangePoints(s), s)
    decreases |s|
  {
    if |s| > 1 {
      var q := s[..|s| - 1];
      ChangePointsAtChanges(q);
      ChangePointsIncreasing(q);
      var p := ChangePoints(q);
      forall k | 0 <= k < |p| ensures s[p[k] - 1].0 < s[p[k]].0 {
        assert q[p[k] - 1] == s[p[k] - 1] && q[p[k]] == s[p[k]];
      }
    }
  }

  /** Every index where the value strictly increases is a change point. */
  lemma {:induction false} ChangePointsComplete<C>(s: seq<(int, C)>)
    ensures forall j :: 0 < j < |s| && s[j - 1].0 < s[j].0 ==> j in ChangePoints(s)
    decreases |s|
  {
    if |s| > 1 {
      var q := s[..|s| - 1];
      ChangePointsComplete(q);
      forall j | 0 < j < |s| && s[j - 1].0 < s[j].0 ensures j in ChangePoints(s) {
        if j < |s| - 1 {
          assert q[j - 1] == s[j - 1] && q[j] == s[j];
        }
      }
    }
  }

  /** Extending the pairs by one adds at most one change point, the new last index. */
  lemma ChangePointsExtend<C>(s: seq<(int, C)>, n: nat)
    requires 1 <= n < |s|
    ensures ChangePoints(s[..n + 1]) == ChangePoints(s[..n]) + (if s[n - 1].0 < s[n].0 then [n] else [])
  {
    assert s[..n + 1][..n] == s[..n];
  }

  /** The distinct attribute values of the pairs. */
  function ValuesOf<C>(s: seq<(int, C)>): set<int> {
    set i | 0 <= i < |s| :: s[i].0
  }

  /** The values of pairs with one more pair at the end. */
  lemma ValuesOfSnoc<C>(s: seq<(int, C)>)
    requires 0 < |s|
    ensures ValuesOf(s) == ValuesOf(s[..|s| - 1]) + {s[|s| - 1].0}
  {
    var q := s[..|s| - 1];
    forall v | v in ValuesOf(s) ensures v in ValuesOf(q) + {s[|s| - 1].0} {
      var i :| 0 <= i < |s| && s[i].0 == v;
      if i < |q| { assert q[i] == s[i]; }
    }
    forall v | v in ValuesOf(q) ensures v in ValuesOf(s) {
      var i :| 0 <= i < |q| && q[i].0 == v;
      assert s[i] == q[i];
    }
  }

  /** A prefix of sorted pairs is sorted. */
  lemma SortedPrefix<C>(s: seq<(int, C)>)
    requires SortedByValue(s) && 0 < |s|
    ensures SortedByValue(s[..|s| - 1])
  {
    var q := s[..|s| - 1];
    forall i, j | 0 <= i < j < |q| ensures q[i].0 <= q[j].0 {
      assert q[i] == s[i] && q[j] == s[j];
    }
  }

  /** One more sorted pair adds a distinct value exactly when its value is new. */
  lemma ValuesStep<C>(s: seq<(int, C)>)
    requires SortedByValue(s) && 1 < |s|
    ensures |ValuesOf(s)| == |ValuesOf(s[..|s| - 1])| + if s[|s| - 2].0 < s[|s| - 1].0 then 1 else 0
  {
    ValuesOfSnoc(s);
    if s[|s| - 2].0 < s[|s| - 1].0 {
      ValueAbovePrefix(s);
    } else {
      var q := s[..|s| - 1];
      assert s[|s| - 1].0 == q[|q| - 1].0 && s[|s| - 1].0 in ValuesOf(q);
      assert ValuesOf(q) + {s[|s| - 1].0} == ValuesOf(q);
    }
  }

  /** The last value of sorted pairs, when above the one before it, is not among the earlier values. */
  lemma ValueAbovePrefix<C>(s: seq<(int, C)>)
    requires SortedByValue(s) && 1 < |s| && s[|s| - 2].0 < s[|s| - 1].0
    ensures s[|s| - 1].0 !in ValuesOf(s[..|s| - 1])
  {
    var q := s[..|s| - 1];
    forall i | 0 <= i < |q| ensures q[i].0 != s[|s| - 1].0 {
      assert q[i] == s[i];
    }
  }

  /** Over sorted pairs with k distinct values there are k - 1 change points. */
  lemma {:induction false} ChangePointsCountDistinct<C>(s: seq<(int, C)>)
    requires SortedByValue(s) && 0 < |s|
    ensures |ChangePoints(s)| == |ValuesOf(s)| - 1
    decreases |s|
  {
    if |s| == 1 {
      assert ValuesOf(s) == {s[0].0};
    } else {
      SortedPrefix(s);
      ChangePointsCountDistinct(s[..|s| - 1]);
      ValuesStep(s);
    }
  }

  /** Splits at value changes are acceptable input for trimming and building. */
  lemma ChangePointsValid<C>(s: seq<(int, C)>)
    ensures TrimmableFrom(ChangePoints(s), 0, |s|)
    ensures ValidSplits(ChangePoints(s), |s|)
    ensures AtValueChanges(ChangePoints(s), s)
  {
    ChangePointsIncreasing(s);
    ChangePointsAtChanges(s);
  }

  // ---------------------------------------------------------------------------
  // Steps 3 to 5 as one function
  // ---------------------------------------------------------------------------

  /** The value-sorted pairs the pipeline works on. */
  function SortedPairs<C>(attribute: seq<int>, classes: seq<C>): (r: seq<(int, C)>)
    ensures SortedByValue(r)
    ensures multiset(r) == multiset(Zip(attribute, classes))
    ensures |r| == |Zip(attribute, classes)|
  {
    SortByValueSorts(Zip(attribute, classes));
    SortByValue(Zip(attribute, classes))
  }

  /** The splits that survive trimming. */
  function TrimmedSplits<C(==)>(attribute: seq<int>, classes: seq<C>, small: nat): (r: seq<nat>)
    ensures ValidSplits(r, |SortedPairs(attribute, classes)|)
    ensures AtValueChanges(r, SortedPairs(attribute, classes))
  {
    var sorted := SortedPairs(attribute, classes);
    ChangePointsValid(sorted);
    TrimKeepsValid(ChangePoints(sorted), small, sorted);
    Trim(ChangePoints(sorted), small, sorted, 0)
  }

  /** The intervals `find_intervals` returns. */
  function FindIntervalsSpec<C(==)>(attribute: seq<int>, classes: seq<C>, small: nat): seq<Interval<C>>
    requires 0 < |attribute| && 0 < |classes|
  {
    MergeNeighbours(Build(TrimmedSplits(attribute, classes, small), SortedPairs(attribute, classes)))
  }

  /**
    The pipeline: the zip and change-point loops inline, then trimming, building
    and merging. Its result is a chain (every value falls in exactly one
    interval) in which neighbours differ in class.
   */
  method FindIntervals<C(==)>(attribute: seq<int>, classes: seq<C>, small: nat) returns (intervals: seq<Interval<C>>)
    requires 0 < |attribute| && 0 < |classes|
    ensures intervals == FindIntervalsSpec(attribute, classes, small)
    ensures Chain(intervals) && DistinctNeighbours(intervals)
  {
    var n := if |attribute| <= |classes| then |attribute| else |classes|;
    var pairs: seq<(int, C)> := [];
    for i := 0 to n
      invariant pairs == Zip(attribute, classes)[..i]
    {
      pairs := pairs + [(attribute[i], classes[i])];
    }
    assert pairs == Zip(attribute, classes);
    var sorted := SortByValue(pairs);
    SortByValueSorts(pairs);

    var splitIndex: seq<nat> := [];
    var prev := 0;
    while prev + 1 < |sorted|
      invariant prev < |sorted|
      invariant splitIndex == ChangePoints(sorted[..prev + 1])
    {
      ChangePointsExtend(sorted, prev + 1);
      if sorted[prev + 1].0 > sorted[prev].0 {
        splitIndex := splitIndex + [prev + 1];
      }
      prev := prev + 1;
    }
    assert sorted[..prev + 1] == sorted;

    ChangePointsValid(sorted);
    TrimKeepsValid(splitIndex, small, sorted);
    var trimmed := TrimSplits(splitIndex, small, sorted);
    var built := IntervalsFromSplits(trimmed, sorted);
    intervals := MergeNeighbours(built);

    BuildIsChain(trimmed, sorted);
    MergeKeepsLinked(built);
  }

  // ---------------------------------------------------------------------------
  // quantize
  // ---------------------------------------------------------------------------

  /** The index of the first interval at or after `from` that contains `value`. */
  function FirstMatchFrom<C>(intervals: seq<Interval<C>>, value: int, from: nat): (r: Option<nat>)
    requires from <= |intervals|
    ensures r.None? <==> forall i :: from <= i < |intervals| ==> !intervals[i].Matches(value)
    ensures r.Some? ==> from <= r.value < |intervals| && intervals[r.value].Matches(value)
    ensures r.Some? ==> forall j :: from <= j < r.value ==> !intervals[j].Matches(value)
    decreases |intervals| - from
  {
    if from == |intervals| then None
    else if intervals[from].Matches(value) then Some(from)
    else FirstMatchFrom(intervals, value, from + 1)
  }

  /** Interval `i` contains `value` and no earlier one does. */
  predicate FirstMatch<C>(intervals: seq<Interval<C>>, value: int, i: nat) {
    && i < |intervals|
    && intervals[i].Matches(value)
    && forall j :: 0 <= j < i ==> !intervals[j].Matches(value)
  }

  /** The first interval that contains `value`, if any. */
  function Quantize<C>(intervals: seq<Interval<C>>, value: int): (r: Option<Interval<C>>)
    ensures r.None? <==> forall i :: 0 <= i < |intervals| ==> !intervals[i].Matches(value)
    ensures r.Some? ==> exists i: nat :: FirstMatch(intervals, value, i) && intervals[i] == r.value
  {
    match FirstMatchFrom(intervals, value, 0)
    case None => None
    case Some(i) =>
      assert FirstMatch(intervals, value, i);
      Some(intervals[i])
  }

  /** The class of the interval `value` falls in, if any. */
  function ClassOf<C>(intervals: seq<Interval<C>>, value: int): Option<C> {
    match Quantize(intervals, value)
    case None => None
    case Some(x) => Some(x.cls)
  }

  /** On a chain every value has an interval, and it is the one interval containing it. */
  lemma QuantizeChain<C>(intervals: seq<Interval<C>>, value: int, k: nat)
    requires Chain(intervals) && k < |intervals| && intervals[k].Matches(value)
    ensures Quantize(intervals, value) == Some(intervals[k])
  {
    ChainPartitions(intervals, value);
  }

  /** Looking up in `[x] + xs` tries `x` first, then `xs`. */
  lemma QuantizeCons<C>(x: Interval<C>, xs: seq<Interval<C>>, value: int)
    ensures ClassOf([x] + xs, value) == if x.Matches(value) then Some(x.cls) else ClassOf(xs, value)
  {
    var ys := [x] + xs;
    assert ys[0] == x;
    if !x.Matches(value) {
      FirstMatchShift(x, xs, value, 0);
      var f := FirstMatchFrom(xs, value, 0);
      if f.Some? {
        assert ys[f.value + 1] == xs[f.value];
      }
    }
  }

  /** Past the first interval, a search in `[x] + xs` is the search in `xs`, one position later. */
  lemma {:induction false} FirstMatchShift<C>(x: Interval<C>, xs: seq<Interval<C>>, value: int, from: nat)
    requires from <= |xs|
    ensures FirstMatchFrom([x] + xs, value, from + 1)
         == if FirstMatchFrom(xs, value, from).None? then None else Some(FirstMatchFrom(xs, value, from).value + 1)
    decreases |xs| - from
  {
    var ys := [x] + xs;
    if from < |xs| {
      assert ys[from + 1] == xs[from];
      FirstMatchShift(x, xs, value, from + 1);
    }
  }

  /** Merging neighbours with the same class changes no value's class. */
  lemma {:induction false} MergeKeepsClasses<C>(xs: seq<Interval<C>>, value: int)
    requires Linked(xs)
    ensures ClassOf(MergeNeighbours(xs), value) == ClassOf(xs, value)
    decreases |xs|
  {
    if |xs| <= 1 {
    } else if xs[0].cls == xs[1].cls {
      MergeKeepsClassesJoin(xs, value);
    } else {
      MergeKeepsClassesKeep(xs, value);
    }
  }

  lemma {:induction false} MergeKeepsClassesJoin<C>(xs: seq<Interval<C>>, value: int)
    requires Linked(xs) && |xs| >= 2 && xs[0].cls == xs[1].cls
    ensures ClassOf(MergeNeighbours(xs), value) == ClassOf(xs, value)
    decreases |xs|, 0
  {
    var joined := Join(xs[0], xs[1]);
    var rest := xs[2..];
    var ys := [joined] + rest;
    assert MergeNeighbours(xs) == MergeNeighbours(ys);
    JoinedLinked(xs);
    MergeKeepsClasses(ys, value);
    assert Abuts(xs[0], xs[1]);
    JoinCoversBoth(xs[0], xs[1], value);
    QuantizeCons(joined, rest, value);
    assert xs == [xs[0]] + ([xs[1]] + rest);
    QuantizeCons(xs[0], [xs[1]] + rest, value);
    QuantizeCons(xs[1], rest, value);
  }

  lemma {:induction false} MergeKeepsClassesKeep<C>(xs: seq<Interval<C>>, value: int)
    requires Linked(xs) && |xs| >= 2 && xs[0].cls != xs[1].cls
    ensures ClassOf(MergeNeighbours(xs), value) == ClassOf(xs, value)
    decreases |xs|, 0
  {
    var tail := xs[1..];
    assert Linked(tail) by {
      forall i | 0 <= i < |tail| - 1 ensures Abuts(tail[i], tail[i + 1]) {
        assert Abuts(xs[i + 1], xs[i + 2]);
      }
    }
    MergeKeepsClasses(tail, value);
    assert MergeNeighbours(xs) == [xs[0]] + MergeNeighbours(tail);
    QuantizeCons(xs[0], MergeNeighbours(tail), value);
    assert xs == [xs[0]] + tail;
    QuantizeCons(xs[0], tail, value);
  }

  // ---------------------------------------------------------------------------
  // Properties of the whole pipeline
  // ---------------------------------------------------------------------------

  /**
    Every training value is classified as the majority class of the trimmed
    segment its pair belongs to.
   */
  lemma FindIntervalsClassifiesSegments<C>(attribute: seq<int>, classes: seq<C>, small: nat, k: nat, i: nat)
    requires 0 < |attribute| && 0 < |classes|
    requires k <= |TrimmedSplits(attribute, classes, small)|
    requires SegStart(TrimmedSplits(attribute, classes, small), k) <= i
    requires i < SegEnd(TrimmedSplits(attribute, classes, small), k, |SortedPairs(attribute, classes)|)
    ensures ClassOf(FindIntervalsSpec(attribute, classes, small), SortedPairs(attribute, classes)[i].0)
         == Some(Majority(SegStart(TrimmedSplits(attribute, classes, small), k),
                          SegEnd(TrimmedSplits(attribute, classes, small), k, |SortedPairs(attribute, classes)|),
                          SortedPairs(attribute, classes)))
  {
    var sorted := SortedPairs(attribute, classes);
    var splits := TrimmedSplits(attribute, classes, small);
    var built := Build(splits, sorted);
    BuildIsChain(splits, sorted);
    BuildCoversSegments(splits, sorted, k, i);
    QuantizeChain(built, sorted[i].0, k);
    MergeKeepsClasses(built, sorted[i].0);
  }

  /** With `small` at least the number of pairs no split survives: one interval, the overall majority. */
  lemma LargeSmallGivesOneInterval<C>(attribute: seq<int>, classes: seq<C>, small: nat)
    requires 0 < |attribute| && 0 < |classes|
    requires small >= |Zip(attribute, classes)|
    ensures FindIntervalsSpec(attribute, classes, small)
         == [Infinite(Majority(0, |SortedPairs(attribute, classes)|, SortedPairs(attribute, classes)))]
  {
    var sorted := SortedPairs(attribute, classes);
    ChangePointsValid(sorted);
    TrimDropsAllWhenSmallIsLarge(ChangePoints(sorted), small, sorted, 0);
    BuildShapes(TrimmedSplits(attribute, classes, small), sorted);
  }
}
