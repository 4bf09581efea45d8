/**
 * The second half of `braid_from_piecewise`: on every sub-interval of the
 * common partition the crossings are found and consumed, and their letters
 * are appended to the braid word.
 */
module Braid {
  import opened Sorting
  import opened Geometry
  import opened Results
  import opened Piecewise
  import opened Crossings
  import opened Ordering
  import opened Words

  /** `totalpoints`: at least one strand, and every strand has the same number of samples. */
  ghost predicate Rectangular(pts: seq<seq<Point>>) {
    |pts| >= 1 && forall j :: 0 <= j < |pts| ==> |pts[j]| == |pts[0]|
  }

  /** `[totalpoints[j][i] for j in range(len(L))]`: every strand's sample `i`. */
  function Column(pts: seq<seq<Point>>, i: int): (l: seq<Point>)
    requires Rectangular(pts) && 0 <= i < |pts[0]|
    ensures |l| == |pts| && forall j :: 0 <= j < |pts| ==> l[j] == pts[j][i]
  {
    seq(|pts|, j requires 0 <= j < |pts| => pts[j][i])
  }

  /**
   * The word of the sub-interval from samples `l1` to samples `l2`: the
   * strands are put in start order, and the crossings of the inverted pairs
   * are consumed from the identity permutation. An undefined crossing time is
   * a failure.
   */
  ghost function IntervalWord(l1: seq<Point>, l2: seq<Point>): Result<seq<int>>
    requires |l1| == |l2|
  {
    var ms := SortedMoves(l1, l2);
    var a, b := Starts(ms), Ends(ms);
    if Undefined(a, b) then Fail(UndefinedCrossingTime)
    else
      assert AllValid(Recorded(a, b, |b|), |l1|);
      Ok(Emit(Recorded(a, b, |b|), |l1|))
  }

  /** The number of sub-intervals of the common partition. */
  function Gaps(pts: seq<seq<Point>>): nat
    requires Rectangular(pts)
  {
    if |pts[0]| == 0 then 0 else |pts[0]| - 1
  }

  /** The words of the sub-intervals, in order. */
  ghost function Intervals(pts: seq<seq<Point>>): (rs: seq<Result<seq<int>>>)
    requires Rectangular(pts)
    ensures |rs| == Gaps(pts)
  {
    seq(Gaps(pts), k requires 0 <= k < Gaps(pts) => IntervalWord(Column(pts, k), Column(pts, k + 1)))
  }

  /** The braid word of resampled strands: the words of all sub-intervals, one after the other. */
  ghost function BraidWord(pts: seq<seq<Point>>): Result<seq<int>>
    requires Rectangular(pts)
  {
    Join(Intervals(pts))
  }

  /** `w` is the word of sub-interval `k`. */
  ghost predicate IsIntervalWord(pts: seq<seq<Point>>, k: int, w: Result<seq<int>>)
    requires Rectangular(pts) && 0 <= k < Gaps(pts)
  {
    w == IntervalWord(Column(pts, k), Column(pts, k + 1))
  }

  /**
   * `rs` lists the words of the sub-intervals of `pts`. An entry is related to
   * its sub-interval only where that relation is asked for.
   */
  ghost predicate IntervalWords(pts: seq<seq<Point>>, rs: seq<Result<seq<int>>>) {
    && Rectangular(pts) && |rs| == Gaps(pts)
    && forall k {:trigger IsIntervalWord(pts, k, rs[k])} :: 0 <= k < |rs| ==> IsIntervalWord(pts, k, rs[k])
  }

  lemma IntervalsAreWords(pts: seq<seq<Point>>)
    requires Rectangular(pts)
    ensures IntervalWords(pts, Intervals(pts))
  {
    var rs := Intervals(pts);
    forall k | 0 <= k < |rs|
      ensures IsIntervalWord(pts, k, rs[k])
    {
    }
  }

  /**
   * One sub-interval, from samples `l1` to samples `l2`: sort the strands by
   * start position, find the crossings, and when there are any, sort and
   * consume them. The result is the sub-interval's letters, or the failure of
   * an undefined crossing time.
   */
  method IntervalLetters(l1: seq<Point>, l2: seq<Point>) returns (r: Result<seq<int>>)
    requires |l1| == |l2|
    ensures r == IntervalWord(l1, l2)
  {
    var M := SortedMoves(l1, l2);
    var starts, ends := Starts(M), Ends(M);
    var found := FindCrossings(starts, ends);
    if found.Fail? {
      return Fail(found.error);
    }
    var cruces := found.value;
    var letters: seq<int> := [];
    if cruces != [] {
      var sorted := SortBy(cruces, CrossingKey);
      ConsumedPermutation(cruces, sorted, Identity(|l1|));
      letters := ConsumeCrossings(sorted, |l1|);
    }
    r := Ok(letters);
  }

  /** The letters of sub-interval `i` of the braid. */
  method SubIntervalLetters(totalpoints: seq<seq<Point>>, i: int, ghost rs: seq<Result<seq<int>>>)
    returns (r: Result<seq<int>>)
    requires IntervalWords(totalpoints, rs) && 0 <= i < |rs|
    ensures r == rs[i]
  {
    var l1 := Column(totalpoints, i);
    var l2 := Column(totalpoints, i + 1);
    r := IntervalLetters(l1, l2);
    assert IsIntervalWord(totalpoints, i, rs[i]);
  }

  /**
   * The loop over the sub-intervals of `braid_from_piecewise`: the letters of
   * each sub-interval are appended to the braid word. Given the words `rs` of
   * the sub-intervals, the result is their concatenation, or the first
   * undefined crossing time.
   */
  method ExtractBraid(totalpoints: seq<seq<Point>>, ghost rs: seq<Result<seq<int>>>) returns (r: Result<seq<int>>)
    requires IntervalWords(totalpoints, rs)
    ensures r == Join(rs)
  {
    var width := |totalpoints[0]|;
    if width == 0 {
      return Ok([]);
    }
    var braid: seq<int> := [];
    var i := 0;
    while i < width - 1
      invariant 0 <= i <= |rs|
      invariant Join(rs[..i]) == Ok(braid)
    {
      var letters := SubIntervalLetters(totalpoints, i, rs);
      if letters.Fail? {
        JoinStepFail(rs, i);
        JoinFails(rs, i + 1);
        return letters;
      }
      JoinStepOk(rs, i, braid, letters.value);
      braid := braid + letters.value;
      i := i + 1;
    }
    assert rs[..i] == rs;
    r := Ok(braid);
  }

  /**
   * `braid_from_piecewise`: resample the strands onto the common partition,
   * then build the braid word sub-interval by sub-interval.
   */
  method BraidFromPiecewise(strands: seq<Strand>) returns (r: Result<seq<int>>)
    requires AllWellFormed(strands)
    ensures Rectangular(Resampled(strands))
    ensures r == BraidWord(Resampled(strands))
  {
    var totalpoints := Resample(strands);
    ResampledEnds(strands);
    IntervalsAreWords(totalpoints);
    r := ExtractBraid(totalpoints, Intervals(totalpoints));
  }

  /** One letter per inverted pair of a sub-interval. */
  lemma IntervalLength(l1: seq<Point>, l2: seq<Point>)
    requires |l1| == |l2| && IntervalWord(l1, l2).Ok?
    ensures |IntervalWord(l1, l2).value| == |InvertedPairs(Ends(SortedMoves(l1, l2)))|
  {
    var ms := SortedMoves(l1, l2);
    var a, b := Starts(ms), Ends(ms);
    var cruces := Recorded(a, b, |b|);
    var id := Identity(|l1|);
    assert AllValid(cruces, |id|);
    OrderMembers(cruces, id);
    WordLength(Order(cruces, id), id);
    CrossingCount(a, b);
  }

  /** The number of inverted pairs of each sub-interval. */
  ghost function InversionCounts(pts: seq<seq<Point>>): (ns: seq<int>)
    requires Rectangular(pts)
    ensures |ns| == Gaps(pts)
  {
    seq(Gaps(pts), k requires 0 <= k < Gaps(pts) =>
      |InvertedPairs(Ends(SortedMoves(Column(pts, k), Column(pts, k + 1))))|)
  }

  lemma IntervalCount(pts: seq<seq<Point>>, k: int)
    requires Rectangular(pts) && 0 <= k < Gaps(pts) && Intervals(pts)[k].Ok?
    ensures |Intervals(pts)[k].value| == InversionCounts(pts)[k]
  {
    var l1, l2 := Column(pts, k), Column(pts, k + 1);
    assert Intervals(pts)[k] == IntervalWord(l1, l2);
    IntervalLength(l1, l2);
  }

  /** Each sub-interval contributes as many letters as it has inverted pairs. */
  lemma CountsMatch(pts: seq<seq<Point>>)
    requires Rectangular(pts)
    ensures forall k :: 0 <= k < Gaps(pts) && Intervals(pts)[k].Ok? ==>
      |Intervals(pts)[k].value| == InversionCounts(pts)[k]
  {
    forall k | 0 <= k < Gaps(pts) && Intervals(pts)[k].Ok?
      ensures |Intervals(pts)[k].value| == InversionCounts(pts)[k]
    {
      IntervalCount(pts, k);
    }
  }

  /** The braid word has exactly one letter for each inverted pair of each sub-interval. */
  lemma BraidLength(pts: seq<seq<Point>>)
    requires Rectangular(pts) && BraidWord(pts).Ok?
    ensures |BraidWord(pts).value| == Sum(InversionCounts(pts))
  {
    CountsMatch(pts);
    JoinLength(Intervals(pts), InversionCounts(pts));
  }
}
