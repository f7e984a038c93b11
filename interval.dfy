/**
  The interval type produced by discretisation, and the merge of neighbouring
  intervals that carry the same class.

  `Interval::matches` and `merge_neighbours_with_same_class` are defined in
  src/interval.rs, which this model does not cover: their behaviour here is an
  assumption, stated as the contract the discretisation pipeline relies on.
 */
module Intervals {
  import opened Wrappers

  /** One labelled piece of the (integer) attribute domain. */
  datatype Interval<C> =
    | Lower(below: int, cls: C)              // every v with v < below
    | Range(from: int, below: int, cls: C)   // every v with from <= v < below
    | Upper(from: int, cls: C)               // every v with from <= v
    | Infinite(cls: C)                       // every v
  {
    /** The inclusive lower bound, when the interval has one. */
    function LowerBound(): Option<int> {
      match this
      case Range(f, _, _) => Some(f)
      case Upper(f, _) => Some(f)
      case _ => None
    }

    /** The exclusive upper bound, when the interval has one. */
    function UpperBound(): Option<int> {
      match this
      case Lower(b, _) => Some(b)
      case Range(_, b, _) => Some(b)
      case _ => None
    }

    /** Whether `v` lies inside the interval. */
    predicate Matches(v: int)
    {
      match this
      case Lower(b, _) => v < b
      case Range(f, b, _) => f <= v < b
      case Upper(f, _) => f <= v
      case Infinite(_) => true
    }
  }

  /** `v` is at or above `lo` (when present) and strictly below `hi` (when present). */
  predicate Within(lo: Option<int>, hi: Option<int>, v: int) {
    (lo.None? || lo.value <= v) && (hi.None? || v < hi.value)
  }

  /** Membership is exactly "between the two bounds", whatever the shape. */
  lemma MatchesWithinBounds<C>(x: Interval<C>, v: int)
    ensures x.Matches(v) <==> Within(x.LowerBound(), x.UpperBound(), v)
  {
  }

  /** The interval of the right shape for a pair of optional bounds. */
  function Make<C>(lo: Option<int>, hi: Option<int>, cls: C): (r: Interval<C>)
    ensures r.LowerBound() == lo && r.UpperBound() == hi && r.cls == cls
  {
    match (lo, hi)
    case (None, None) => Infinite(cls)
    case (None, Some(b)) => Lower(b, cls)
    case (Some(f), Some(b)) => Range(f, b, cls)
    case (Some(f), None) => Upper(f, cls)
  }

  /** A `Range` is not empty. */
  predicate NonEmpty<C>(x: Interval<C>) {
    x.Range? ==> x.from < x.below
  }

  /** `x` ends exactly where `y` begins. */
  predicate Abuts<C>(x: Interval<C>, y: Interval<C>) {
    x.UpperBound().Some? && y.LowerBound().Some? && x.UpperBound().value == y.LowerBound().value
  }

  /** Consecutive, non-empty intervals, each one starting where the previous one ends. */
  ghost predicate Linked<C>(xs: seq<Interval<C>>) {
    && (forall i :: 0 <= i < |xs| ==> NonEmpty(xs[i]))
    && (forall i :: 0 <= i < |xs| - 1 ==> Abuts(xs[i], xs[i + 1]))
  }

  /**
    A finished interval list: linked, unbounded below at the start and unbounded
    above at the end, so it partitions the whole domain.
   */
  ghost predicate Chain<C>(xs: seq<Interval<C>>) {
    |xs| > 0 && Linked(xs) && xs[0].LowerBound().None? && xs[|xs| - 1].UpperBound().None?
  }

  /** No two neighbours carry the same class. */
  ghost predicate DistinctNeighbours<C>(xs: seq<Interval<C>>) {
    forall i :: 0 <= i < |xs| - 1 ==> xs[i].cls != xs[i + 1].cls
  }

  /** Along a linked list the boundaries strictly increase. */
  lemma {:induction false} LinkedBoundsIncrease<C>(xs: seq<Interval<C>>, i: nat, j: nat)
    requires Linked(xs) && i < j < |xs|
    ensures xs[i].UpperBound().Some? && xs[j].LowerBound().Some?
    ensures xs[i].UpperBound().value <= xs[j].LowerBound().value
    ensures j + 1 < |xs| ==> xs[j].UpperBound().Some? && xs[i].UpperBound().value < xs[j].UpperBound().value
    decreases j - i
  {
    assert Abuts(xs[j - 1], xs[j]);
    if j + 1 < |xs| {
      assert Abuts(xs[j], xs[j + 1]);
      assert NonEmpty(xs[j]);
    }
    if i + 1 < j {
      LinkedBoundsIncrease(xs, i, j - 1);
    }
  }

  /**
    Intervals whose bounds are, in turn, the strictly increasing `cuts`, with no
    lower bound first and no upper bound last, form a chain.
   */
  lemma ChainOfCuts<C>(xs: seq<Interval<C>>, cuts: seq<int>)
    requires |xs| == |cuts| + 1
    requires forall i :: 0 < i < |cuts| ==> cuts[i - 1] < cuts[i]
    requires forall k :: 0 <= k < |xs| ==> xs[k].LowerBound() == if k == 0 then None else Some(cuts[k - 1])
    requires forall k :: 0 <= k < |xs| ==> xs[k].UpperBound() == if k == |cuts| then None else Some(cuts[k])
    ensures Chain(xs)
  {
    forall k | 0 <= k < |xs| ensures NonEmpty(xs[k]) {
      if xs[k].Range? {
        assert xs[k].LowerBound() == Some(xs[k].from) && xs[k].UpperBound() == Some(xs[k].below);
      }
    }
    forall k | 0 <= k < |xs| - 1 ensures Abuts(xs[k], xs[k + 1]) {
    }
  }

  /** A chain covers every value exactly once. */
  lemma ChainPartitions<C>(xs: seq<Interval<C>>, v: int)
    requires Chain(xs)
    ensures exists i :: 0 <= i < |xs| && xs[i].Matches(v)
    ensures forall i, j :: 0 <= i < |xs| && 0 <= j < |xs| && xs[i].Matches(v) && xs[j].Matches(v) ==> i == j
  {
    var n := |xs|;
    var k := 0;
    while k < n - 1 && xs[k].UpperBound().Some? && xs[k].UpperBound().value <= v
      invariant 0 <= k < n
      invariant k > 0 ==> xs[k].LowerBound().Some? && xs[k].LowerBound().value <= v
    {
      assert Abuts(xs[k], xs[k + 1]);
      k := k + 1;
    }
    if k < n - 1 {
      assert Abuts(xs[k], xs[k + 1]);
    }
    MatchesWithinBounds(xs[k], v);
    forall i, j | 0 <= i < n && 0 <= j < n && xs[i].Matches(v) && xs[j].Matches(v)
      ensures i == j
    {
      if i < j {
        LinkedBoundsIncrease(xs, i, j);
      } else if j < i {
        LinkedBoundsIncrease(xs, j, i);
      }
    }
  }

  /** One interval covering `x` followed by `y`, with `x`'s class. */
  function Join<C>(x: Interval<C>, y: Interval<C>): Interval<C> {
    Make(x.LowerBound(), y.UpperBound(), x.cls)
  }

  /** Joining two abutting intervals covers exactly what the two covered. */
  lemma JoinCoversBoth<C>(x: Interval<C>, y: Interval<C>, v: int)
    requires Abuts(x, y) && NonEmpty(x) && NonEmpty(y)
    ensures NonEmpty(Join(x, y))
    ensures Join(x, y).Matches(v) <==> x.Matches(v) || y.Matches(v)
  {
    MatchesWithinBounds(x, v);
    MatchesWithinBounds(y, v);
    MatchesWithinBounds(Join(x, y), v);
  }

  /**
    The merge of neighbours with the same class (an assumed contract): every
    maximal run of adjacent same-class intervals becomes one interval that keeps
    the first one's lower bound and the last one's upper bound.
   */
  function MergeNeighbours<C(==)>(xs: seq<Interval<C>>): (r: seq<Interval<C>>)
    ensures |r| <= |xs| && (|r| == 0 <==> |xs| == 0)
    ensures |xs| > 0 ==> r[0].cls == xs[0].cls && r[0].LowerBound() == xs[0].LowerBound()
    ensures |xs| > 0 ==> r[|r| - 1].UpperBound() == xs[|xs| - 1].UpperBound()
    ensures DistinctNeighbours(r)
    decreases |xs|
  {
    if |xs| <= 1 then xs
    else if xs[0].cls == xs[1].cls then MergeNeighbours([Join(xs[0], xs[1])] + xs[2..])
    else [xs[0]] + MergeNeighbours(xs[1..])
  }

  /** Joining the first two of a linked list leaves it linked, with the same outer bounds. */
  lemma JoinedLinked<C>(xs: seq<Interval<C>>)
    requires Linked(xs) && |xs| >= 2
    ensures Linked([Join(xs[0], xs[1])] + xs[2..])
    ensures Join(xs[0], xs[1]).LowerBound() == xs[0].LowerBound()
    ensures ([Join(xs[0], xs[1])] + xs[2..])[|xs| - 2].UpperBound() == xs[|xs| - 1].UpperBound()
  {
    var ys := [Join(xs[0], xs[1])] + xs[2..];
    assert Abuts(xs[0], xs[1]);
    JoinCoversBoth(xs[0], xs[1], 0);
    forall i | 0 <= i < |ys| - 1 ensures Abuts(ys[i], ys[i + 1]) {
      assert Abuts(xs[i + 1], xs[i + 2]);
    }
    forall i | 0 <= i < |ys| ensures NonEmpty(ys[i]) {
      if i > 0 { assert ys[i] == xs[i + 1]; }
    }
  }

  /** Merging keeps a linked list linked, so a chain stays a chain. */
  lemma {:induction false} MergeKeepsLinked<C>(xs: seq<Interval<C>>)
    requires Linked(xs)
    ensures Linked(MergeNeighbours(xs))
    ensures Chain(xs) ==> Chain(MergeNeighbours(xs))
    decreases |xs|
  {
    if |xs| <= 1 {
    } else if xs[0].cls == xs[1].cls {
      JoinedLinked(xs);
      MergeKeepsLinked([Join(xs[0], xs[1])] + xs[2..]);
    } else {
      var ys := xs[1..];
      MergeKeepsLinked(ys);
      var m := MergeNeighbours(ys);
      assert MergeNeighbours(xs) == [xs[0]] + m;
      assert Abuts(xs[0], xs[1]);
      ConsLinked(xs[0], m);
    }
  }

  /** An interval that ends where a linked list begins extends it. */
  lemma ConsLinked<C>(x: Interval<C>, m: seq<Interval<C>>)
    requires Linked(m) && |m| > 0 && NonEmpty(x) && Abuts(x, m[0])
    ensures Linked([x] + m)
  {
    var r := [x] + m;
    forall i | 0 <= i < |r| - 1 ensures Abuts(r[i], r[i + 1]) {
      if i > 0 { assert r[i] == m[i - 1] && r[i + 1] == m[i]; }
    }
    forall i | 0 <= i < |r| ensures NonEmpty(r[i]) {
      if i > 0 { assert r[i] == m[i - 1]; }
    }
  }

  /** A list whose neighbours already differ in class is left unchanged. */
  lemma {:induction false} MergeFixesDistinct<C>(xs: seq<Interval<C>>)
    requires DistinctNeighbours(xs)
    ensures MergeNeighbours(xs) == xs
    decreases |xs|
  {
    if |xs| > 1 {
      MergeFixesDistinct(xs[1..]);
      assert [xs[0]] + xs[1..] == xs;
    }
  }

  /** Merging twice is merging once. */
  lemma MergeIdempotent<C>(xs: seq<Interval<C>>)
    ensures MergeNeighbours(MergeNeighbours(xs)) == MergeNeighbours(xs)
  {
    MergeFixesDistinct(MergeNeighbours(xs));
  }
}
