/**
  The worked examples of src/quantize/mod.rs, stated over the model: the
  documentation example of `find_intervals`, the golf data set of its test,
  and the documentation example of `quantize`.
 */
module Scenarios {
  import opened Wrappers
  import opened Intervals
  import opened Splits
  import opened Quantize

  /** The three-interval table of the `quantize` documentation. */
  function LookupTable(): seq<Interval<char>> {
    [Lower(15, 'x'), Range(15, 20, 'y'), Upper(20, 'z')]
  }

  /** Values below 15 are `x`, from 15 below 20 are `y`, from 20 on are `z`. */
  lemma QuantizeExample()
    ensures ClassOf(LookupTable(), 10) == Some('x')
    ensures ClassOf(LookupTable(), 15) == Some('y')
    ensures ClassOf(LookupTable(), 99) == Some('z')
  {
  }

  function DocAttribute(): seq<int> { [1, 10, 3, 1, 20, 30, 100] }
  function DocClasses(): seq<char> { ['a', 'b', 'a', 'a', 'b', 'b', 'c'] }

  function DocSorted(): seq<(int, char)> {
    [(1, 'a'), (1, 'a'), (3, 'a'), (10, 'b'), (20, 'b'), (30, 'b'), (100, 'c')]
  }

  /**
    `d` holds the sorted pairs of the documentation example, stated pair by pair
    so that the verifier reasons about segments of `d` through the contracts
    rather than by evaluating them on a literal.
   */
  predicate IsDocSorted(d: seq<(int, char)>) {
    && |d| == 7
    && d[0] == (1, 'a')
    && d[1] == (1, 'a')
    && d[2] == (3, 'a')
    && d[3] == (10, 'b')
    && d[4] == (20, 'b')
    && d[5] == (30, 'b')
    && d[6] == (100, 'c')
  }

  lemma DocSortedPairByPair()
    ensures IsDocSorted(DocSorted())
  {
  }

  // The sort of the documentation example, one inserted pair at a time.

  lemma DocSort1()
    ensures SortByValue([(1, 'a')])
         == [(1, 'a')]
  {
    SortExtend([], (1, 'a'));
  }

  lemma DocSort2()
    ensures SortByValue([(1, 'a'), (10, 'b')])
         == [(1, 'a'), (10, 'b')]
  {
    calc {
      SortByValue([(1, 'a'), (10, 'b')]);
    == { assert [(1, 'a'), (10, 'b')] == [(1, 'a')] + [(10, 'b')]; }
      SortByValue([(1, 'a')] + [(10, 'b')]);
    == { SortExtend([(1, 'a')], (10, 'b')); }
      Insert(SortByValue([(1, 'a')]), (10, 'b'));
    == { DocSort1(); }
      Insert([(1, 'a')], (10, 'b'));
    ==
      [(1, 'a'), (10, 'b')];
    }
  }

  lemma DocSort3()
    ensures SortByValue([(1, 'a'), (10, 'b'), (3, 'a')])
         == [(1, 'a'), (3, 'a'), (10, 'b')]
  {
    calc {
      SortByValue([(1, 'a'), (10, 'b'), (3, 'a')]);
    == { assert [(1, 'a'), (10, 'b'), (3, 'a')] == [(1, 'a'), (10, 'b')] + [(3, 'a')]; }
      SortByValue([(1, 'a'), (10, 'b')] + [(3, 'a')]);
    == { SortExtend([(1, 'a'), (10, 'b')], (3, 'a')); }
      Insert(SortByValue([(1, 'a'), (10, 'b')]), (3, 'a'));
    == { DocSort2(); }
      Insert([(1, 'a'), (10, 'b')], (3, 'a'));
    ==
      [(1, 'a'), (3, 'a'), (10, 'b')];
    }
  }

  lemma DocSort4()
    ensures SortByValue([(1, 'a'), (10, 'b'), (3, 'a'), (1, 'a')])
         == [(1, 'a'), (1, 'a'), (3, 'a'), (10, 'b')]
  {
    calc {
      SortByValue([(1, 'a'), (10, 'b'), (3, 'a'), (1, 'a')]);
    == { assert [(1, 'a'), (10, 'b'), (3, 'a'), (1, 'a')] == [(1, 'a'), (10, 'b'), (3, 'a')] + [(1, 'a')]; }
      SortByValue([(1, 'a'), (10, 'b'), (3, 'a')] + [(1, 'a')]);
    == { SortExtend([(1, 'a'), (10, 'b'), (3, 'a')], (1, 'a')); }
      Insert(SortByValue([(1, 'a'), (10, 'b'), (3, 'a')]), (1, 'a'));
    == { DocSort3(); }
      Insert([(1, 'a'), (3, 'a'), (10, 'b')], (1, 'a'));
    ==
      [(1, 'a'), (1, 'a'), (3, 'a'), (10, 'b')];
    }
  }

  lemma DocSort5()
    ensures SortByValue([(1, 'a'), (10, 'b'), (3, 'a'), (1, 'a'), (20, 'b')])
         == [(1, 'a'), (1, 'a'), (3, 'a'), (10, 'b'), (20, 'b')]
  {
    calc {
      SortByValue([(1, 'a'), (10, 'b'), (3, 'a'), (1, 'a'), (20, 'b')]);
    == { assert [(1, 'a'), (10, 'b'), (3, 'a'), (1, 'a'), (20, 'b')] == [(1, 'a'), (10, 'b'), (3, 'a'), (1, 'a')] + [(20, 'b')]; }
      SortByValue([(1, 'a'), (10, 'b'), (3, 'a'), (1, 'a')] + [(20, 'b')]);
    == { SortExtend([(1, 'a'), (10, 'b'), (3, 'a'), (1, 'a')], (20, 'b')); }
      Insert(SortByValue([(1, 'a'), (10, 'b'), (3, 'a'), (1, 'a')]), (20, 'b'));
    == { DocSort4(); }
      Insert([(1, 'a'), (1, 'a'), (3, 'a'), (10, 'b')], (20, 'b'));
    ==
      [(1, 'a'), (1, 'a'), (3, 'a'), (10, 'b'), (20, 'b')];
    }
  }

  lemma DocSort6()
    ensures SortByValue([(1, 'a'), (10, 'b'), (3, 'a'), (1, 'a'), (20, 'b'), (30, 'b')])
         == [(1, 'a'), (1, 'a'), (3, 'a'), (10, 'b'), (20, 'b'), (30, 'b')]
  {
    calc {
      SortByValue([(1, 'a'), (10, 'b'), (3, 'a'), (1, 'a'), (20, 'b'), (30, 'b')]);
    == { assert [(1, 'a'), (10, 'b'), (3, 'a'), (1, 'a'), (20, 'b'), (30, 'b')] == [(1, 'a'), (10, 'b'), (3, 'a'), (1, 'a'), (20, 'b')] + [(30, 'b')]; }
      SortByValue([(1, 'a'), (10, 'b'), (3, 'a'), (1, 'a'), (20, 'b')] + [(30, 'b')]);
    == { SortExtend([(1, 'a'), (10, 'b'), (3, 'a'), (1, 'a'), (20, 'b')], (30, 'b')); }
      Insert(SortByValue([(1, 'a'), (10, 'b'), (3, 'a'), (1, 'a'), (20, 'b')]), (30, 'b'));
    == { DocSort5(); }
      Insert([(1, 'a'), (1, 'a'), (3, 'a'), (10, 'b'), (20, 'b')], (30, 'b'));
    ==
      [(1, 'a'), (1, 'a'), (3, 'a'), (10, 'b'), (20, 'b'), (30, 'b')];
    }
  }

  lemma DocSort7()
    ensures SortByValue([(1, 'a'), (10, 'b'), (3, 'a'), (1, 'a'), (20, 'b'), (30, 'b'), (100, 'c')])
         == [(1, 'a'), (1, 'a'), (3, 'a'), (10, 'b'), (20, 'b'), (30, 'b'), (100, 'c')]
  {
    calc {
      SortByValue([(1, 'a'), (10, 'b'), (3, 'a'), (1, 'a'), (20, 'b'), (30, 'b'), (100, 'c')]);
    == { assert [(1, 'a'), (10, 'b'), (3, 'a'), (1, 'a'), (20, 'b'), (30, 'b'), (100, 'c')] == [(1, 'a'), (10, 'b'), (3, 'a'), (1, 'a'), (20, 'b'), (30, 'b')] + [(100, 'c')]; }
      SortByValue([(1, 'a'), (10, 'b'), (3, 'a'), (1, 'a'), (20, 'b'), (30, 'b')] + [(100, 'c')]);
    == { SortExtend([(1, 'a'), (10, 'b'), (3, 'a'), (1, 'a'), (20, 'b'), (30, 'b')], (100, 'c')); }
      Insert(SortByValue([(1, 'a'), (10, 'b'), (3, 'a'), (1, 'a'), (20, 'b'), (30, 'b')]), (100, 'c'));
    == { DocSort6(); }
      Insert([(1, 'a'), (1, 'a'), (3, 'a'), (10, 'b'), (20, 'b'), (30, 'b')], (100, 'c'));
    ==
      [(1, 'a'), (1, 'a'), (3, 'a'), (10, 'b'), (20, 'b'), (30, 'b'), (100, 'c')];
    }
  }

  /** The stable sort of the documentation example's pairs. */
  lemma DocSortedPairs()
    ensures SortedPairs(DocAttribute(), DocClasses()) == DocSorted()
  {
    assert Zip(DocAttribute(), DocClasses()) == [(1, 'a'), (10, 'b'), (3, 'a'), (1, 'a'), (20, 'b'), (30, 'b'), (100, 'c')];
    DocSort7();
  }

  /** The value changes of the documentation example's sorted pairs. */
  lemma DocChangePoints()
    ensures ChangePoints(DocSorted()) == [2, 3, 4, 5, 6]
  {
    DocSortedPairByPair();
    DocChangePointsUpTo4(DocSorted());
    DocChangePointsOf(DocSorted());
  }

  lemma DocChangePointsUpTo4(d: seq<(int, char)>)
    requires IsDocSorted(d)
    ensures ChangePoints(d[..4]) == [2, 3]
  {
    ChangePointsExtend(d, 1);
    assert ChangePoints(d[..1]) == [];
    ChangePointsExtend(d, 2);
    ChangePointsExtend(d, 3);
  }

  lemma DocChangePointsOf(d: seq<(int, char)>)
    requires IsDocSorted(d) && ChangePoints(d[..4]) == [2, 3]
    ensures ChangePoints(d) == [2, 3, 4, 5, 6]
  {
    ChangePointsExtend(d, 4);
    ChangePointsExtend(d, 5);
    ChangePointsExtend(d, 6);
    assert d[..7] == d;
  }

  // Trimming the documentation example with `small` = 2, one candidate at a
  // time from the last: split 6 closes three `b`s, splits 5 and 4 leave too few
  // `b`s, split 3 closes three `a`s before a `b`, and the segment before split 2
  // has no class above 2. The sorted pairs are a parameter, so that the verifier
  // reasons about the segments through the contracts rather than by evaluation.

  lemma DocMany3To6(d: seq<(int, char)>)
    requires IsDocSorted(d)
    ensures !NoDominantClass(3, 6, 2, d)
  {
    NoDominantClassIff(3, 6, 2, d);
    UniformSegment(d, 3, 6, 'b');
  }

  lemma DocTrimFrom6(d: seq<(int, char)>)
    requires IsDocSorted(d)
    ensures Trim([6], 2, d, 3) == [6]
  {
    DocMany3To6(d);
    TrimKeep([6], 2, d, 3);
    assert [6][1..] == [];
  }

  /** The segments [3, 4) and [3, 5) hold one and two `b`s. */
  lemma DocFewFrom3(d: seq<(int, char)>, until: nat)
    requires IsDocSorted(d) && 3 < until < 6
    ensures NoDominantClass(3, until, 2, d)
  {
    NoDominantClassIff(3, until, 2, d);
    UniformSegment(d, 3, until, 'b');
  }

  lemma DocTrimFrom5(d: seq<(int, char)>)
    requires IsDocSorted(d)
    ensures Trim([5, 6], 2, d, 3) == [6]
  {
    DocFewFrom3(d, 5);
    TrimDrop([5, 6], 2, d, 3);
    assert [5, 6][1..] == [6];
    DocTrimFrom6(d);
  }

  lemma DocTrimFrom4(d: seq<(int, char)>)
    requires IsDocSorted(d)
    ensures Trim([4, 5, 6], 2, d, 3) == [6]
  {
    DocFewFrom3(d, 4);
    TrimDrop([4, 5, 6], 2, d, 3);
    assert [4, 5, 6][1..] == [5, 6];
    DocTrimFrom5(d);
  }

  lemma DocKeep3(d: seq<(int, char)>)
    requires IsDocSorted(d)
    ensures !NoDominantClass(0, 3, 2, d) && !NextSplitSameClass(0, 3, d, Some(4))
  {
    NoDominantClassIff(0, 3, 2, d);
    NextSplitSameClassIff(0, 3, d, Some(4));
    UniformSegment(d, 0, 3, 'a');
    UniformSegment(d, 3, 4, 'b');
  }

  lemma DocTrimFrom3(d: seq<(int, char)>)
    requires IsDocSorted(d)
    ensures Trim([3, 4, 5, 6], 2, d, 0) == [3, 6]
  {
    DocKeep3(d);
    TrimKeep([3, 4, 5, 6], 2, d, 0);
    assert [3, 4, 5, 6][1..] == [4, 5, 6];
    DocTrimFrom4(d);
  }

  lemma DocFew0To2(d: seq<(int, char)>)
    requires IsDocSorted(d)
    ensures NoDominantClass(0, 2, 2, d)
  {
    NoDominantClassIff(0, 2, 2, d);
    UniformSegment(d, 0, 2, 'a');
  }

  lemma DocTrim(d: seq<(int, char)>)
    requires IsDocSorted(d)
    ensures Trim([2, 3, 4, 5, 6], 2, d, 0) == [3, 6]
  {
    DocFew0To2(d);
    TrimDrop([2, 3, 4, 5, 6], 2, d, 0);
    assert [2, 3, 4, 5, 6][1..] == [3, 4, 5, 6];
    DocTrimFrom3(d);
  }

  lemma DocTrimmedSplits()
    ensures TrimmedSplits(DocAttribute(), DocClasses(), 2) == [3, 6]
  {
    DocSortedPairs();
    DocChangePoints();
    DocSortedPairByPair();
    DocTrim(DocSorted());
  }

  /** Two splits give `Lower`, `Range` and `Upper`, each with its segment's majority. */
  lemma BuildTwoSplits<C>(s1: nat, s2: nat, d: seq<(int, C)>)
    requires 0 < s1 < s2 < |d|
    ensures Build([s1, s2], d)
         == [Lower(d[s1].0, Majority(0, s1, d)), Range(d[s1].0, d[s2].0, Majority(s1, s2, d)), Upper(d[s2].0, Majority(s2, |d|, d))]
  {
    BuildShapes([s1, s2], d);
  }

  lemma DocMajorities(d: seq<(int, char)>)
    requires IsDocSorted(d)
    ensures Majority(0, 3, d) == 'a'
    ensures Majority(3, 6, d) == 'b'
    ensures Majority(6, 7, d) == 'c'
  {
    UniformSegment(d, 0, 3, 'a');
    UniformSegment(d, 3, 6, 'b');
    UniformSegment(d, 6, 7, 'c');
  }

  lemma DocBuild(d: seq<(int, char)>)
    requires IsDocSorted(d)
    ensures Build([3, 6], d) == [Lower(10, 'a'), Range(10, 100, 'b'), Upper(100, 'c')]
  {
    BuildTwoSplits(3, 6, d);
    DocMajorities(d);
  }

  /** The pipeline's result from the results of its stages. */
  lemma ExampleFromStages<C>(attribute: seq<int>, classes: seq<C>, small: nat,
                             d: seq<(int, C)>, splits: seq<nat>, built: seq<Interval<C>>, merged: seq<Interval<C>>)
    requires 0 < |attribute| && 0 < |classes|
    requires SortedPairs(attribute, classes) == d && TrimmedSplits(attribute, classes, small) == splits
    requires 0 < |d| && ValidSplits(splits, |d|) && Build(splits, d) == built
    requires MergeNeighbours(built) == merged
    ensures FindIntervalsSpec(attribute, classes, small) == merged
  {
  }

  lemma DocMerge()
    ensures MergeNeighbours([Lower(10, 'a'), Range(10, 100, 'b'), Upper(100, 'c')])
         == [Lower(10, 'a'), Range(10, 100, 'b'), Upper(100, 'c')]
  {
    MergeFixesDistinct([Lower(10, 'a'), Range(10, 100, 'b'), Upper(100, 'c')]);
  }

  /** The documentation example: three clear segments give three intervals. */
  lemma DocExample()
    ensures FindIntervalsSpec(DocAttribute(), DocClasses(), 2)
         == [Lower(10, 'a'), Range(10, 100, 'b'), Upper(100, 'c')]
  {
    DocSortedPairs();
    DocTrimmedSplits();
    DocSortedPairByPair();
    DocBuild(DocSorted());
    DocMerge();
    ExampleFromStages(DocAttribute(), DocClasses(), 2, DocSorted(), [3, 6],
      [Lower(10, 'a'), Range(10, 100, 'b'), Upper(100, 'c')], [Lower(10, 'a'), Range(10, 100, 'b'), Upper(100, 'c')]);
  }

  /** Only the last pair of the documentation data lies in `Upper{100,c}`, and it is alone in its segment. */
  lemma DocLastSegment(d: seq<(int, char)>)
    requires IsDocSorted(d)
    ensures forall i :: 0 <= i < |d| ==> (Upper(100, 'c').Matches(d[i].0) <==> i == 6)
    ensures NoDominantClass(6, 7, 2, d)
  {
    NoDominantClassIff(6, 7, 2, d);
    UniformSegment(d, 6, 7, 'c');
  }

  /**
    The last interval of the documentation example, `Upper{100,c}`, holds only the
    last sorted pair, so no class in it occurs more than `small` = 2 times.
   */
  lemma DocLastIntervalSmall()
    ensures var r := FindIntervalsSpec(DocAttribute(), DocClasses(), 2); |r| > 0 && r[|r| - 1] == Upper(100, 'c')
    ensures forall i :: 0 <= i < |DocSorted()| ==> (Upper(100, 'c').Matches(DocSorted()[i].0) <==> i == 6)
    ensures NoDominantClass(6, 7, 2, DocSorted())
  {
    DocExample();
    DocSortedPairByPair();
    DocLastSegment(DocSorted());
  }

  // ---------------------------------------------------------------------------
  // The golf data set (Nevill-Manning, Holmes and Witten, 1995)
  // ---------------------------------------------------------------------------

  function GolfAttribute(): seq<int> { [64, 65, 68, 69, 70, 71, 72, 72, 75, 75, 80, 81, 83, 85] }
  function GolfClasses(): seq<char> { ['p', 'd', 'p', 'p', 'p', 'd', 'p', 'd', 'p', 'p', 'd', 'p', 'p', 'd'] }
  function GolfSorted(): seq<(int, char)> {
    [(64, 'p'), (65, 'd'), (68, 'p'), (69, 'p'), (70, 'p'), (71, 'd'), (72, 'p'), (72, 'd'), (75, 'p'), (75, 'p'), (80, 'd'), (81, 'p'), (83, 'p'), (85, 'd')]
  }

  /** `d` holds the sorted golf pairs, stated pair by pair. */
  predicate IsGolfSorted(d: seq<(int, char)>) {
    && |d| == 14
    && d[0] == (64, 'p')
    && d[1] == (65, 'd')
    && d[2] == (68, 'p')
    && d[3] == (69, 'p')
    && d[4] == (70, 'p')
    && d[5] == (71, 'd')
    && d[6] == (72, 'p')
    && d[7] == (72, 'd')
    && d[8] == (75, 'p')
    && d[9] == (75, 'p')
    && d[10] == (80, 'd')
    && d[11] == (81, 'p')
    && d[12] == (83, 'p')
    && d[13] == (85, 'd')
  }

  lemma GolfSortedPairByPair()
    ensures IsGolfSorted(GolfSorted())
  {
  }

  /** The golf pairs are already in value order, so sorting keeps them as they are. */
  lemma GolfSortedPairs()
    ensures SortedPairs(GolfAttribute(), GolfClasses()) == GolfSorted()
  {
    var d := GolfSorted();
    assert Zip(GolfAttribute(), GolfClasses()) == d;
    GolfSortedPairByPair();
    SortedByNeighbours(d);
    SortSortedIsIdentity(d);
  }

  // The change points of the golf data, one more pair at a time.

  lemma GolfChangePoints1(d: seq<(int, char)>)
    requires IsGolfSorted(d)
    ensures ChangePoints(d[..1]) == []
  {
  }

  lemma GolfChangePoints2(d: seq<(int, char)>)
    requires IsGolfSorted(d)
    ensures ChangePoints(d[..2]) == [1]
  {
    GolfChangePoints1(d);
    ChangePointsExtend(d, 1);
  }

  lemma GolfChangePoints3(d: seq<(int, char)>)
    requires IsGolfSorted(d)
    ensures ChangePoints(d[..3]) == [1, 2]
  {
    GolfChangePoints2(d);
    ChangePointsExtend(d, 2);
  }

  lemma GolfChangePoints4(d: seq<(int, char)>)
    requires IsGolfSorted(d)
    ensures ChangePoints(d[..4]) == [1, 2, 3]
  {
    GolfChangePoints3(d);
    ChangePointsExtend(d, 3);
  }

  lemma GolfChangePoints5(d: seq<(int, char)>)
    requires IsGolfSorted(d)
    ensures ChangePoints(d[..5]) == [1, 2, 3, 4]
  {
    GolfChangePoints4(d);
    ChangePointsExtend(d, 4);
  }

  lemma GolfChangePoints6(d: seq<(int, char)>)
    requires IsGolfSorted(d)
    ensures ChangePoints(d[..6]) == [1, 2, 3, 4, 5]
  {
    GolfChangePoints5(d);
    ChangePointsExtend(d, 5);
  }

  lemma GolfChangePoints7(d: seq<(int, char)>)
    requires IsGolfSorted(d)
    ensures ChangePoints(d[..7]) == [1, 2, 3, 4, 5, 6]
  {
    GolfChangePoints6(d);
    ChangePointsExtend(d, 6);
  }

  lemma GolfChangePoints8(d: seq<(int, char)>)
    requires IsGolfSorted(d)
    ensures ChangePoints(d[..8]) == [1, 2, 3, 4, 5, 6]
  {
    GolfChangePoints7(d);
    ChangePointsExtend(d, 7);
  }

  lemma GolfChangePoints9(d: seq<(int, char)>)
    requires IsGolfSorted(d)
    ensures ChangePoints(d[..9]) == [1, 2, 3, 4, 5, 6, 8]
  {
    GolfChangePoints8(d);
    ChangePointsExtend(d, 8);
  }

  lemma GolfChangePoints10(d: seq<(int, char)>)
    requires IsGolfSorted(d)
    ensures ChangePoints(d[..10]) == [1, 2, 3, 4, 5, 6, 8]
  {
    GolfChangePoints9(d);
    ChangePointsExtend(d, 9);
  }

  lemma GolfChangePoints11(d: seq<(int, char)>)
    requires IsGolfSorted(d)
    ensures ChangePoints(d[..11]) == [1, 2, 3, 4, 5, 6, 8, 10]
  {
    GolfChangePoints10(d);
    ChangePointsExtend(d, 10);
  }

  lemma GolfChangePoints12(d: seq<(int, char)>)
    requires IsGolfSorted(d)
    ensures ChangePoints(d[..12]) == [1, 2, 3, 4, 5, 6, 8, 10, 11]
  {
    GolfChangePoints11(d);
    ChangePointsExtend(d, 11);
  }

  lemma GolfChangePoints13(d: seq<(int, char)>)
    requires IsGolfSorted(d)
    ensures ChangePoints(d[..13]) == [1, 2, 3, 4, 5, 6, 8, 10, 11, 12]
  {
    GolfChangePoints12(d);
    ChangePointsExtend(d, 12);
  }

  lemma GolfChangePoints14(d: seq<(int, char)>)
    requires IsGolfSorted(d)
    ensures ChangePoints(d[..14]) == [1, 2, 3, 4, 5, 6, 8, 10, 11, 12, 13]
  {
    GolfChangePoints13(d);
    ChangePointsExtend(d, 13);
  }

  /** The value changes of the golf data: every index but the second 72 and the second 75. */
  lemma GolfChangePoints(d: seq<(int, char)>)
    requires IsGolfSorted(d)
    ensures ChangePoints(d) == [1, 2, 3, 4, 5, 6, 8, 10, 11, 12, 13]
  {
    GolfChangePoints14(d);
    assert d[..14] == d;
  }

  // The class counts of the growing segments that start at 0 and at 5.

  lemma GolfCounts0To1(d: seq<(int, char)>)
    requires IsGolfSorted(d)
    ensures Occurrences(d, 0, 1, 'p') == 1 && Occurrences(d, 0, 1, 'd') == 0
  {
    OccurrencesExtend(d, 0, 1, 'p');
    OccurrencesExtend(d, 0, 1, 'd');
  }

  lemma GolfCounts0To2(d: seq<(int, char)>)
    requires IsGolfSorted(d)
    ensures Occurrences(d, 0, 2, 'p') == 1 && Occurrences(d, 0, 2, 'd') == 1
  {
    GolfCounts0To1(d);
    OccurrencesExtend(d, 0, 2, 'p');
    OccurrencesExtend(d, 0, 2, 'd');
  }

  lemma GolfCounts0To3(d: seq<(int, char)>)
    requires IsGolfSorted(d)
    ensures Occurrences(d, 0, 3, 'p') == 2 && Occurrences(d, 0, 3, 'd') == 1
  {
    GolfCounts0To2(d);
    OccurrencesExtend(d, 0, 3, 'p');
    OccurrencesExtend(d, 0, 3, 'd');
  }

  lemma GolfCounts0To4(d: seq<(int, char)>)
    requires IsGolfSorted(d)
    ensures Occurrences(d, 0, 4, 'p') == 3 && Occurrences(d, 0, 4, 'd') == 1
  {
    GolfCounts0To3(d);
    OccurrencesExtend(d, 0, 4, 'p');
    OccurrencesExtend(d, 0, 4, 'd');
  }

  lemma GolfCounts0To5(d: seq<(int, char)>)
    requires IsGolfSorted(d)
    ensures Occurrences(d, 0, 5, 'p') == 4 && Occurrences(d, 0, 5, 'd') == 1
  {
    GolfCounts0To4(d);
    OccurrencesExtend(d, 0, 5, 'p');
    OccurrencesExtend(d, 0, 5, 'd');
  }

  lemma GolfCounts5To6(d: seq<(int, char)>)
    requires IsGolfSorted(d)
    ensures Occurrences(d, 5, 6, 'p') == 0 && Occurrences(d, 5, 6, 'd') == 1
  {
    OccurrencesExtend(d, 5, 6, 'p');
    OccurrencesExtend(d, 5, 6, 'd');
  }

  lemma GolfCounts5To7(d: seq<(int, char)>)
    requires IsGolfSorted(d)
    ensures Occurrences(d, 5, 7, 'p') == 1 && Occurrences(d, 5, 7, 'd') == 1
  {
    GolfCounts5To6(d);
    OccurrencesExtend(d, 5, 7, 'p');
    OccurrencesExtend(d, 5, 7, 'd');
  }

  lemma GolfCounts5To8(d: seq<(int, char)>)
    requires IsGolfSorted(d)
    ensures Occurrences(d, 5, 8, 'p') == 1 && Occurrences(d, 5, 8, 'd') == 2
  {
    GolfCounts5To7(d);
    OccurrencesExtend(d, 5, 8, 'p');
    OccurrencesExtend(d, 5, 8, 'd');
  }

  lemma GolfCounts5To9(d: seq<(int, char)>)
    requires IsGolfSorted(d)
    ensures Occurrences(d, 5, 9, 'p') == 2 && Occurrences(d, 5, 9, 'd') == 2
  {
    GolfCounts5To8(d);
    OccurrencesExtend(d, 5, 9, 'p');
    OccurrencesExtend(d, 5, 9, 'd');
  }

  lemma GolfCounts5To10(d: seq<(int, char)>)
    requires IsGolfSorted(d)
    ensures Occurrences(d, 5, 10, 'p') == 3 && Occurrences(d, 5, 10, 'd') == 2
  {
    GolfCounts5To9(d);
    OccurrencesExtend(d, 5, 10, 'p');
    OccurrencesExtend(d, 5, 10, 'd');
  }

  lemma GolfCounts5To11(d: seq<(int, char)>)
    requires IsGolfSorted(d)
    ensures Occurrences(d, 5, 11, 'p') == 3 && Occurrences(d, 5, 11, 'd') == 3
  {
    GolfCounts5To10(d);
    OccurrencesExtend(d, 5, 11, 'p');
    OccurrencesExtend(d, 5, 11, 'd');
  }

  lemma GolfCounts5To12(d: seq<(int, char)>)
    requires IsGolfSorted(d)
    ensures Occurrences(d, 5, 12, 'p') == 4 && Occurrences(d, 5, 12, 'd') == 3
  {
    GolfCounts5To11(d);
    OccurrencesExtend(d, 5, 12, 'p');
    OccurrencesExtend(d, 5, 12, 'd');
  }

  lemma GolfCounts5To13(d: seq<(int, char)>)
    requires IsGolfSorted(d)
    ensures Occurrences(d, 5, 13, 'p') == 5 && Occurrences(d, 5, 13, 'd') == 3
  {
    GolfCounts5To12(d);
    OccurrencesExtend(d, 5, 13, 'p');
    OccurrencesExtend(d, 5, 13, 'd');
  }

  // Trimming the golf splits with `small` = 3, one candidate at a time from the
  // last. From 5 on: 13 closes five `p`s against three `d`s; 12 is dropped because
  // the segment after it also has majority `p`; 11, 10, 8 and 6 leave no class above 3.
  // From 0: 5 closes four `p`s before a `d`; 4, 3, 2 and 1 leave no class above 3.

  /** A golf segment with at most three of each class has no dominant class. */
  lemma GolfFew(d: seq<(int, char)>, start: nat, until: nat)
    requires IsGolfSorted(d) && start <= until <= |d|
    requires Occurrences(d, start, until, 'p') <= 3 && Occurrences(d, start, until, 'd') <= 3
    ensures NoDominantClass(start, until, 3, d)
  {
    NoDominantClassIff(start, until, 3, d);
    assert forall i :: start <= i < until ==> d[i].1 == 'p' || d[i].1 == 'd';
  }

  lemma GolfMany5To13(d: seq<(int, char)>)
    requires IsGolfSorted(d)
    ensures !NoDominantClass(5, 13, 3, d)
  {
    GolfCounts5To13(d);
    NoDominantClassIff(5, 13, 3, d);
    assert d[6].1 == 'p';
  }

  lemma GolfTrimFrom13(d: seq<(int, char)>)
    requires IsGolfSorted(d)
    ensures Trim([13], 3, d, 5) == [13]
  {
    GolfMany5To13(d);
    TrimKeep([13], 3, d, 5);
    assert [13][1..] == [];
  }

  lemma GolfMajority5To12(d: seq<(int, char)>)
    requires IsGolfSorted(d)
    ensures MostFrequentClass(5, 12, d) == Some('p')
  {
    GolfCounts5To12(d);
    assert forall i :: 5 <= i < 12 && d[i].1 != 'p' ==> d[i].1 == 'd';
    MajorityOfClearWinner(5, 12, d, 'p');
  }

  lemma GolfSame12(d: seq<(int, char)>)
    requires IsGolfSorted(d)
    ensures NextSplitSameClass(5, 12, d, Some(13))
  {
    NextSplitSameClassIff(5, 12, d, Some(13));
    GolfMajority5To12(d);
    UniformSegment(d, 12, 13, 'p');
  }

  lemma GolfTrimFrom12(d: seq<(int, char)>)
    requires IsGolfSorted(d)
    ensures Trim([12, 13], 3, d, 5) == [13]
  {
    GolfSame12(d);
    TrimDrop([12, 13], 3, d, 5);
    assert [12, 13][1..] == [13];
    GolfTrimFrom13(d);
  }

  lemma GolfTrimFrom11(d: seq<(int, char)>)
    requires IsGolfSorted(d)
    ensures Trim([11, 12, 13], 3, d, 5) == [13]
  {
    GolfCounts5To11(d);
    GolfFew(d, 5, 11);
    TrimDrop([11, 12, 13], 3, d, 5);
    assert [11, 12, 13][1..] == [12, 13];
    GolfTrimFrom12(d);
  }

  lemma GolfTrimFrom10(d: seq<(int, char)>)
    requires IsGolfSorted(d)
    ensures Trim([10, 11, 12, 13], 3, d, 5) == [13]
  {
    GolfCounts5To10(d);
    GolfFew(d, 5, 10);
    TrimDrop([10, 11, 12, 13], 3, d, 5);
    assert [10, 11, 12, 13][1..] == [11, 12, 13];
    GolfTrimFrom11(d);
  }

  lemma GolfTrimFrom8(d: seq<(int, char)>)
    requires IsGolfSorted(d)
    ensures Trim([8, 10, 11, 12, 13], 3, d, 5) == [13]
  {
    GolfCounts5To8(d);
    GolfFew(d, 5, 8);
    TrimDrop([8, 10, 11, 12, 13], 3, d, 5);
    assert [8, 10, 11, 12, 13][1..] == [10, 11, 12, 13];
    GolfTrimFrom10(d);
  }

  lemma GolfTrimFrom6(d: seq<(int, char)>)
    requires IsGolfSorted(d)
    ensures Trim([6, 8, 10, 11, 12, 13], 3, d, 5) == [13]
  {
    GolfCounts5To6(d);
    GolfFew(d, 5, 6);
    TrimDrop([6, 8, 10, 11, 12, 13], 3, d, 5);
    assert [6, 8, 10, 11, 12, 13][1..] == [8, 10, 11, 12, 13];
    GolfTrimFrom8(d);
  }

  lemma GolfMajority0To5(d: seq<(int, char)>)
    requires IsGolfSorted(d)
    ensures Majority(0, 5, d) == 'p'
  {
    GolfCounts0To5(d);
    assert forall i :: 0 <= i < 5 && d[i].1 != 'p' ==> d[i].1 == 'd';
    MajorityOfClearWinner(0, 5, d, 'p');
  }

  lemma GolfKeep5(d: seq<(int, char)>)
    requires IsGolfSorted(d)
    ensures !NoDominantClass(0, 5, 3, d) && !NextSplitSameClass(0, 5, d, Some(6))
  {
    GolfCounts0To5(d);
    NoDominantClassIff(0, 5, 3, d);
    assert d[0].1 == 'p';
    NextSplitSameClassIff(0, 5, d, Some(6));
    GolfMajority0To5(d);
    UniformSegment(d, 5, 6, 'd');
  }

  lemma GolfTrimFrom5(d: seq<(int, char)>)
    requires IsGolfSorted(d)
    ensures Trim([5, 6, 8, 10, 11, 12, 13], 3, d, 0) == [5, 13]
  {
    GolfKeep5(d);
    TrimKeep([5, 6, 8, 10, 11, 12, 13], 3, d, 0);
    assert [5, 6, 8, 10, 11, 12, 13][1..] == [6, 8, 10, 11, 12, 13];
    GolfTrimFrom6(d);
  }

  lemma GolfTrimFrom4(d: seq<(int, char)>)
    requires IsGolfSorted(d)
    ensures Trim([4, 5, 6, 8, 10, 11, 12, 13], 3, d, 0) == [5, 13]
  {
    GolfCounts0To4(d);
    GolfFew(d, 0, 4);
    TrimDrop([4, 5, 6, 8, 10, 11, 12, 13], 3, d, 0);
    assert [4, 5, 6, 8, 10, 11, 12, 13][1..] == [5, 6, 8, 10, 11, 12, 13];
    GolfTrimFrom5(d);
  }

  lemma GolfTrimFrom3(d: seq<(int, char)>)
    requires IsGolfSorted(d)
    ensures Trim([3, 4, 5, 6, 8, 10, 11, 12, 13], 3, d, 0) == [5, 13]
  {
    GolfCounts0To3(d);
    GolfFew(d, 0, 3);
    TrimDrop([3, 4, 5, 6, 8, 10, 11, 12, 13], 3, d, 0);
    assert [3, 4, 5, 6, 8, 10, 11, 12, 13][1..] == [4, 5, 6, 8, 10, 11, 12, 13];
    GolfTrimFrom4(d);
  }

  lemma GolfTrimFrom2(d: seq<(int, char)>)
    requires IsGolfSorted(d)
    ensures Trim([2, 3, 4, 5, 6, 8, 10, 11, 12, 13], 3, d, 0) == [5, 13]
  {
    GolfCounts0To2(d);
    GolfFew(d, 0, 2);
    TrimDrop([2, 3, 4, 5, 6, 8, 10, 11, 12, 13], 3, d, 0);
    assert [2, 3, 4, 5, 6, 8, 10, 11, 12, 13][1..] == [3, 4, 5, 6, 8, 10, 11, 12, 13];
    GolfTrimFrom3(d);
  }

  lemma GolfTrimFrom1(d: seq<(int, char)>)
    requires IsGolfSorted(d)
    ensures Trim([1, 2, 3, 4, 5, 6, 8, 10, 11, 12, 13], 3, d, 0) == [5, 13]
  {
    GolfCounts0To1(d);
    GolfFew(d, 0, 1);
    TrimDrop([1, 2, 3, 4, 5, 6, 8, 10, 11, 12, 13], 3, d, 0);
    assert [1, 2, 3, 4, 5, 6, 8, 10, 11, 12, 13][1..] == [2, 3, 4, 5, 6, 8, 10, 11, 12, 13];
    GolfTrimFrom2(d);
  }

  lemma GolfMajority5To13(d: seq<(int, char)>)
    requires IsGolfSorted(d)
    ensures Majority(5, 13, d) == 'p'
  {
    GolfCounts5To13(d);
    assert forall i :: 5 <= i < 13 && d[i].1 != 'p' ==> d[i].1 == 'd';
    MajorityOfClearWinner(5, 13, d, 'p');
  }

  lemma GolfMajority13To14(d: seq<(int, char)>)
    requires IsGolfSorted(d)
    ensures Majority(13, 14, d) == 'd'
  {
    UniformSegment(d, 13, 14, 'd');
  }

  lemma GolfBuild(d: seq<(int, char)>)
    requires IsGolfSorted(d)
    ensures Build([5, 13], d) == [Lower(71, 'p'), Range(71, 85, 'p'), Upper(85, 'd')]
  {
    BuildTwoSplits(5, 13, d);
    GolfMajority0To5(d);
    GolfMajority5To13(d);
    GolfMajority13To14(d);
  }

  /** The two `p` intervals below 85 merge into one. */
  lemma GolfMerge()
    ensures MergeNeighbours([Lower(71, 'p'), Range(71, 85, 'p'), Upper(85, 'd')]) == [Lower(85, 'p'), Upper(85, 'd')]
  {
    assert Join(Lower(71, 'p'), Range(71, 85, 'p')) == Lower(85, 'p');
    assert [Lower(71, 'p'), Range(71, 85, 'p'), Upper(85, 'd')][2..] == [Upper(85, 'd')];
    assert [Lower(85, 'p'), Upper(85, 'd')][1..] == [Upper(85, 'd')];
  }

  /** The golf test: `small` = 3 gives `p` below 85 and `d` from 85 on. */
  lemma GolfTrimmedSplits()
    ensures TrimmedSplits(GolfAttribute(), GolfClasses(), 3) == [5, 13]
  {
    GolfSortedPairs();
    GolfSortedPairByPair();
    GolfChangePoints(GolfSorted());
    GolfTrimFrom1(GolfSorted());
  }

  lemma GolfExample()
    ensures FindIntervalsSpec(GolfAttribute(), GolfClasses(), 3) == [Lower(85, 'p'), Upper(85, 'd')]
  {
    GolfSortedPairs();
    GolfTrimmedSplits();
    GolfSortedPairByPair();
    GolfBuild(GolfSorted());
    GolfMerge();
    ExampleFromStages(GolfAttribute(), GolfClasses(), 3, GolfSorted(), [5, 13],
      [Lower(71, 'p'), Range(71, 85, 'p'), Upper(85, 'd')], [Lower(85, 'p'), Upper(85, 'd')]);
  }

  /** Only the last golf pair lies in `Upper{85,d}`, and it is alone in its segment. */
  lemma GolfLastSegment(d: seq<(int, char)>)
    requires IsGolfSorted(d)
    ensures forall i :: 0 <= i < |d| ==> (Upper(85, 'd').Matches(d[i].0) <==> i == 13)
    ensures NoDominantClass(13, 14, 3, d)
  {
    NoDominantClassIff(13, 14, 3, d);
    UniformSegment(d, 13, 14, 'd');
  }

  /**
    The last interval of the golf result, `Upper{85,d}`, holds only the last
    sorted pair, so no class in it occurs more than `small` = 3 times.
   */
  lemma GolfLastIntervalSmall()
    ensures var r := FindIntervalsSpec(GolfAttribute(), GolfClasses(), 3); |r| > 0 && r[|r| - 1] == Upper(85, 'd')
    ensures forall i :: 0 <= i < |GolfSorted()| ==> (Upper(85, 'd').Matches(GolfSorted()[i].0) <==> i == 13)
    ensures NoDominantClass(13, 14, 3, GolfSorted())
  {
    GolfExample();
    GolfSortedPairByPair();
    GolfLastSegment(GolfSorted());
  }
}
