/**
 * The documented example of `braid_from_piecewise`: three piecewise-linear
 * strands whose braid is `s0*s1`, the word `[1, 2]`. The resampled strands,
 * the crossings of each sub-interval and the letters they give are worked
 * out one stage at a time.
 */
module Example {
  import opened Sorting
  import opened Geometry
  import opened Results
  import opened Piecewise
  import opened Crossings
  import opened Ordering
  import opened Words
  import opened Braid

  /** `[(0, I), (0.2, -1 - 0.5*I), (0.8, -1), (1, -I)]` */
  ghost predicate IsStrandA(s: Strand) {
    |s| == 4 && s[0] == Sample(0.0, Point(0.0, 1.0)) && s[1] == Sample(0.2, Point(-1.0, -0.5))
    && s[2] == Sample(0.8, Point(-1.0, 0.0)) && s[3] == Sample(1.0, Point(0.0, -1.0))
  }

  /** `[(0, -1), (0.5, -I), (1, 1)]` */
  ghost predicate IsStrandB(s: Strand) {
    |s| == 3 && s[0] == Sample(0.0, Point(-1.0, 0.0)) && s[1] == Sample(0.5, Point(0.0, -1.0))
    && s[2] == Sample(1.0, Point(1.0, 0.0))
  }

  /** `[(0, 1), (0.5, 1 + I), (1, I)]` */
  ghost predicate IsStrandC(s: Strand) {
    |s| == 3 && s[0] == Sample(0.0, Point(1.0, 0.0)) && s[1] == Sample(0.5, Point(1.0, 1.0))
    && s[2] == Sample(1.0, Point(0.0, 1.0))
  }

  /** The three strands of the documented example, in this order. */
  ghost predicate IsDocumented(ps: seq<Strand>) {
    |ps| == 3 && IsStrandA(ps[0]) && IsStrandB(ps[1]) && IsStrandC(ps[2])
  }

  /** `l` lists the three samples `p0, p1, p2`. */
  ghost predicate Samples(l: seq<Point>, p0: Point, p1: Point, p2: Point) {
    |l| == 3 && l[0] == p0 && l[1] == p1 && l[2] == p2
  }

  /** Strand A at the five partition times. */
  lemma EvalA(s: Strand)
    requires IsStrandA(s)
    ensures WellFormed(s)
    ensures Eval(s, 0.0) == Point(0.0, 1.0) && Eval(s, 0.2) == Point(-1.0, -0.5)
    ensures Eval(s, 0.5) == Point(-1.0, -0.25) && Eval(s, 0.8) == Point(-1.0, 0.0)
    ensures Eval(s, 1.0) == Point(0.0, -1.0)
  {
    assert Increasing(s);
    assert Eval(s, 0.0) == Point(0.0, 1.0) by {
      EvalOnSegment(s, 1, 0.0);
    }
    assert Eval(s, 0.2) == Point(-1.0, -0.5) by {
      EvalOnSegment(s, 1, 0.2);
    }
    assert Eval(s, 0.5) == Point(-1.0, -0.25) by {
      EvalOnSegment(s, 2, 0.5);
    }
    assert Eval(s, 0.8) == Point(-1.0, 0.0) by {
      EvalOnSegment(s, 2, 0.8);
    }
    assert Eval(s, 1.0) == Point(0.0, -1.0) by {
      EvalOnSegment(s, 3, 1.0);
    }
  }

  /** Strand B at the five partition times. */
  lemma EvalB(s: Strand)
    requires IsStrandB(s)
    ensures WellFormed(s)
    ensures Eval(s, 0.0) == Point(-1.0, 0.0) && Eval(s, 0.2) == Point(-0.6, -0.4)
    ensures Eval(s, 0.5) == Point(0.0, -1.0) && Eval(s, 0.8) == Point(0.6, -0.4)
    ensures Eval(s, 1.0) == Point(1.0, 0.0)
  {
    assert Increasing(s);
    assert Eval(s, 0.0) == Point(-1.0, 0.0) by {
      EvalOnSegment(s, 1, 0.0);
    }
    assert Eval(s, 0.2) == Point(-0.6, -0.4) by {
      EvalOnSegment(s, 1, 0.2);
    }
    assert Eval(s, 0.5) == Point(0.0, -1.0) by {
      EvalOnSegment(s, 1, 0.5);
    }
    assert Eval(s, 0.8) == Point(0.6, -0.4) by {
      EvalOnSegment(s, 2, 0.8);
    }
    assert Eval(s, 1.0) == Point(1.0, 0.0) by {
      EvalOnSegment(s, 2, 1.0);
    }
  }

  /** Strand C at the five partition times. */
  lemma EvalC(s: Strand)
    requires IsStrandC(s)
    ensures WellFormed(s)
    ensures Eval(s, 0.0) == Point(1.0, 0.0) && Eval(s, 0.2) == Point(1.0, 0.4)
    ensures Eval(s, 0.5) == Point(1.0, 1.0) && Eval(s, 0.8) == Point(0.4, 1.0)
    ensures Eval(s, 1.0) == Point(0.0, 1.0)
  {
    assert Increasing(s);
    assert Eval(s, 0.0) == Point(1.0, 0.0) by {
      EvalOnSegment(s, 1, 0.0);
    }
    assert Eval(s, 0.2) == Point(1.0, 0.4) by {
      EvalOnSegment(s, 1, 0.2);
    }
    assert Eval(s, 0.5) == Point(1.0, 1.0) by {
      EvalOnSegment(s, 1, 0.5);
    }
    assert Eval(s, 0.8) == Point(0.4, 1.0) by {
      EvalOnSegment(s, 2, 0.8);
    }
    assert Eval(s, 1.0) == Point(0.0, 1.0) by {
      EvalOnSegment(s, 2, 1.0);
    }
  }

  /** The example strands are what the continuation tracker delivers. */
  lemma ExampleWellFormed(ps: seq<Strand>)
    requires IsDocumented(ps)
    ensures AllWellFormed(ps)
  {
    assert Increasing(ps[0]) && Increasing(ps[1]) && Increasing(ps[2]);
  }

  /** The common partition of the example: every breakpoint time once, in order. */
  lemma ExampleTimes(ps: seq<Strand>)
    requires IsDocumented(ps)
    ensures PartitionTimes(ps) == [0.0, 0.2, 0.5, 0.8, 1.0]
  {
    var ts, S := [0.0, 0.2, 0.5, 0.8, 1.0], BreakTimes(ps);
    assert forall x :: x in S ==> x in ts by {
      forall x | x in S
        ensures x in ts
      {
        var j, k :| 0 <= j < |ps| && 0 <= k < |ps[j]| && ps[j][k].t == x;
      }
    }
    assert forall x :: x in ts ==> x in S by {
      assert ps[0][0].t in S && ps[0][1].t in S && ps[1][1].t in S;
      assert ps[0][2].t in S && ps[0][3].t in S;
    }
    AscendingUnique(ts, S);
  }

  /** Strand A resampled at the common partition. */
  lemma RowA(ps: seq<Strand>)
    requires IsDocumented(ps) && AllWellFormed(ps)
    ensures Resampled(ps)[0] == [Point(0.0, 1.0), Point(-1.0, -0.5), Point(-1.0, -0.25), Point(-1.0, 0.0), Point(0.0, -1.0)]
  {
    var ts, r := PartitionTimes(ps), Resampled(ps)[0];
    assert |r| == |ts| && forall m :: 0 <= m < |ts| ==> r[m] == Eval(ps[0], ts[m]);
    ExampleTimes(ps);
    assert r[0] == Eval(ps[0], 0.0) && r[1] == Eval(ps[0], 0.2) && r[2] == Eval(ps[0], 0.5);
    assert r[3] == Eval(ps[0], 0.8) && r[4] == Eval(ps[0], 1.0);
    assert r == [r[0], r[1], r[2], r[3], r[4]];
    EvalA(ps[0]);
  }

  /** Strand B resampled at the common partition. */
  lemma RowB(ps: seq<Strand>)
    requires IsDocumented(ps) && AllWellFormed(ps)
    ensures Resampled(ps)[1] == [Point(-1.0, 0.0), Point(-0.6, -0.4), Point(0.0, -1.0), Point(0.6, -0.4), Point(1.0, 0.0)]
  {
    var ts, r := PartitionTimes(ps), Resampled(ps)[1];
    assert |r| == |ts| && forall m :: 0 <= m < |ts| ==> r[m] == Eval(ps[1], ts[m]);
    ExampleTimes(ps);
    assert r[0] == Eval(ps[1], 0.0) && r[1] == Eval(ps[1], 0.2) && r[2] == Eval(ps[1], 0.5);
    assert r[3] == Eval(ps[1], 0.8) && r[4] == Eval(ps[1], 1.0);
    assert r == [r[0], r[1], r[2], r[3], r[4]];
    EvalB(ps[1]);
  }

  /** Strand C resampled at the common partition. */
  lemma RowC(ps: seq<Strand>)
    requires IsDocumented(ps) && AllWellFormed(ps)
    ensures Resampled(ps)[2] == [Point(1.0, 0.0), Point(1.0, 0.4), Point(1.0, 1.0), Point(0.4, 1.0), Point(0.0, 1.0)]
  {
    var ts, r := PartitionTimes(ps), Resampled(ps)[2];
    assert |r| == |ts| && forall m :: 0 <= m < |ts| ==> r[m] == Eval(ps[2], ts[m]);
    ExampleTimes(ps);
    assert r[0] == Eval(ps[2], 0.0) && r[1] == Eval(ps[2], 0.2) && r[2] == Eval(ps[2], 0.5);
    assert r[3] == Eval(ps[2], 0.8) && r[4] == Eval(ps[2], 1.0);
    assert r == [r[0], r[1], r[2], r[3], r[4]];
    EvalC(ps[2]);
  }

  /** The five columns of the resampled table, one sample of each strand per partition time. */
  lemma ExampleColumns(r: seq<seq<Point>>)
    requires |r| == 3
    requires r[0] == [Point(0.0, 1.0), Point(-1.0, -0.5), Point(-1.0, -0.25), Point(-1.0, 0.0), Point(0.0, -1.0)]
    requires r[1] == [Point(-1.0, 0.0), Point(-0.6, -0.4), Point(0.0, -1.0), Point(0.6, -0.4), Point(1.0, 0.0)]
    requires r[2] == [Point(1.0, 0.0), Point(1.0, 0.4), Point(1.0, 1.0), Point(0.4, 1.0), Point(0.0, 1.0)]
    ensures Rectangular(r) && |r[0]| == 5
    ensures Samples(Column(r, 0), Point(0.0, 1.0), Point(-1.0, 0.0), Point(1.0, 0.0))
    ensures Samples(Column(r, 1), Point(-1.0, -0.5), Point(-0.6, -0.4), Point(1.0, 0.4))
    ensures Samples(Column(r, 2), Point(-1.0, -0.25), Point(0.0, -1.0), Point(1.0, 1.0))
    ensures Samples(Column(r, 3), Point(-1.0, 0.0), Point(0.6, -0.4), Point(0.4, 1.0))
    ensures Samples(Column(r, 4), Point(0.0, -1.0), Point(1.0, 0.0), Point(0.0, 1.0))
  {
    assert Rectangular(r);
    forall i | 0 <= i < 5
      ensures Column(r, i) == [r[0][i], r[1][i], r[2][i]]
    {
      var l := Column(r, i);
      assert l == [l[0], l[1], l[2]];
    }
  }

  /** Lines 83-103 on the example: each strand sampled at every partition time. */
  lemma ExampleResampled(ps: seq<Strand>)
    requires IsDocumented(ps)
    ensures AllWellFormed(ps)
    ensures Rectangular(Resampled(ps)) && |Resampled(ps)[0]| == 5
    ensures Samples(Column(Resampled(ps), 0), Point(0.0, 1.0), Point(-1.0, 0.0), Point(1.0, 0.0))
    ensures Samples(Column(Resampled(ps), 1), Point(-1.0, -0.5), Point(-0.6, -0.4), Point(1.0, 0.4))
    ensures Samples(Column(Resampled(ps), 2), Point(-1.0, -0.25), Point(0.0, -1.0), Point(1.0, 1.0))
    ensures Samples(Column(Resampled(ps), 3), Point(-1.0, 0.0), Point(0.6, -0.4), Point(0.4, 1.0))
    ensures Samples(Column(Resampled(ps), 4), Point(0.0, -1.0), Point(1.0, 0.0), Point(0.0, 1.0))
  {
    ExampleWellFormed(ps);
    assert |Resampled(ps)| == 3;
    RowA(ps);
    RowB(ps);
    RowC(ps);
    ExampleColumns(Resampled(ps));
  }

  /** `M.sort()` has one outcome: a sorted rearrangement of the moves is the sorted list. */
  lemma SortsTo(l1: seq<Point>, l2: seq<Point>, ms: seq<Move>)
    requires |l1| == |l2|
    requires SortedBy(ms, MoveKey) && multiset(ms) == multiset(Moves(l1, l2))
    ensures SortedMoves(l1, l2) == ms
  {
    forall x, y | x in ms && y in ms && MoveKey(x) == MoveKey(y)
      ensures x == y
    {
      assert MoveKey(x)[0] == MoveKey(y)[0] && MoveKey(x)[1] == MoveKey(y)[1];
      assert MoveKey(x)[2] == MoveKey(y)[2] && MoveKey(x)[3] == MoveKey(y)[3];
    }
    SortedUnique(ms, SortedMoves(l1, l2), MoveKey);
  }

  /** A sub-interval whose sorted end positions keep their order has the empty word. */
  lemma NoCrossing(l1: seq<Point>, l2: seq<Point>, ms: seq<Move>)
    requires |l1| == |l2|
    requires SortedBy(ms, MoveKey) && multiset(ms) == multiset(Moves(l1, l2))
    requires forall k, j :: 0 <= k < j < |ms| ==> !Less(ms[j].end, ms[k].end)
    ensures IntervalWord(l1, l2) == Ok([])
  {
    SortsTo(l1, l2, ms);
    var a, b := Starts(ms), Ends(ms);
    assert !Undefined(a, b);
    CrossingCount(a, b);
    assert InvertedPairs(b) == {};
    assert Recorded(a, b, |b|) == [];
  }

  /** A single crossing consumed from the identity gives its own letter. */
  lemma EmitOne(c: Crossing, n: nat)
    requires Valid(c, n)
    ensures AllValid([c], n)
    ensures Emit([c], n) == [c.s * Min(c.k + 1, c.j + 1)]
  {
    var p := Identity(n);
    assert [c][1..] == [];
    assert SortBy([c], KeyUnder(p)) == [c];
    assert Order([c], p) == [c];
    assert Word([c], p) == [Letter(c, p)] + Word([], Swap(p, c.k, c.j));
  }

  /** The only inverted pair gives the only recorded crossing. */
  lemma RecordedOne(a: seq<Point>, b: seq<Point>, k: int, j: int)
    requires |a| == |b| && Inverted(b, k, j)
    requires forall k', j' :: Inverted(b, k', j') ==> k' == k && j' == j
    ensures Recorded(a, b, |b|) == [MakeCrossing(a, b, k, j)]
  {
    assert (k, j) in InvertedPairs(b);
    forall q | q in InvertedPairs(b)
      ensures q == (k, j)
    {
      assert Inverted(b, q.0, q.1);
    }
    assert InvertedPairs(b) == {(k, j)};
    CrossingCount(a, b);
    RecordedAreCrossings(a, b);
    var r := Recorded(a, b, |b|);
    assert r[0] in r;
    assert r[0] in CrossingSet(a, b);
    var k', j' :| 0 <= k' < j' < |b| && Less(b[j'], b[k']) && r[0] == MakeCrossing(a, b, k', j');
    assert Inverted(b, k', j');
  }

  /** A sub-interval whose double loop records exactly one crossing has that crossing's letter as its word. */
  lemma IntervalOfOne(l1: seq<Point>, l2: seq<Point>, ms: seq<Move>, c: Crossing)
    requires |l1| == |l2| && SortedMoves(l1, l2) == ms
    requires !Undefined(Starts(ms), Ends(ms))
    requires Recorded(Starts(ms), Ends(ms), |Ends(ms)|) == [c] && Valid(c, |l1|)
    ensures IntervalWord(l1, l2) == Ok([c.s * Min(c.k + 1, c.j + 1)])
  {
    EmitOne(c, |l1|);
  }

  /** A sub-interval with one inverted pair, whose crossing time is defined, has that crossing's letter as its word. */
  lemma OneCrossing(l1: seq<Point>, l2: seq<Point>, ms: seq<Move>, k: int, j: int, c: Crossing)
    requires |l1| == |l2|
    requires SortedBy(ms, MoveKey) && multiset(ms) == multiset(Moves(l1, l2))
    requires Inverted(Ends(ms), k, j)
    requires forall k', j' :: Inverted(Ends(ms), k', j') ==> k' == k && j' == j
    requires Divisor(Starts(ms), Ends(ms), k, j) != 0.0
    requires c == MakeCrossing(Starts(ms), Ends(ms), k, j)
    ensures IntervalWord(l1, l2) == Ok([c.s * Min(c.k + 1, c.j + 1)])
  {
    SortsTo(l1, l2, ms);
    var a, b := Starts(ms), Ends(ms);
    assert !Undefined(a, b);
    RecordedOne(a, b, k, j);
    IntervalOfOne(l1, l2, ms, c);
  }

  /** Sub-interval 0 (`t` from 0 to 0.2): strands 0 and 1 cross once, at 5/7 of the way, giving `s0`. */
  lemma Interval0(l1: seq<Point>, l2: seq<Point>)
    requires Samples(l1, Point(0.0, 1.0), Point(-1.0, 0.0), Point(1.0, 0.0))
    requires Samples(l2, Point(-1.0, -0.5), Point(-0.6, -0.4), Point(1.0, 0.4))
    ensures IntervalWord(l1, l2) == Ok([1])
  {
    var ms := [Move(l1[1], l2[1]), Move(l1[0], l2[0]), Move(l1[2], l2[2])];
    assert Moves(l1, l2) == [Move(l1[0], l2[0]), Move(l1[1], l2[1]), Move(l1[2], l2[2])];
    var b := Ends(ms);
    assert b == [l2[1], l2[0], l2[2]];
    var c := Crossing(5.0 / 7.0, 0, 1, 1);
    assert MakeCrossing(Starts(ms), b, 0, 1) == c;
    OneCrossing(l1, l2, ms, 0, 1, c);
  }

  /** Sub-interval 1 (`t` from 0.2 to 0.5): no crossing. */
  lemma Interval1(l1: seq<Point>, l2: seq<Point>)
    requires Samples(l1, Point(-1.0, -0.5), Point(-0.6, -0.4), Point(1.0, 0.4))
    requires Samples(l2, Point(-1.0, -0.25), Point(0.0, -1.0), Point(1.0, 1.0))
    ensures IntervalWord(l1, l2) == Ok([])
  {
    var ms := [Move(l1[0], l2[0]), Move(l1[1], l2[1]), Move(l1[2], l2[2])];
    assert Moves(l1, l2) == ms;
    NoCrossing(l1, l2, ms);
  }

  /** Sub-interval 2 (`t` from 0.5 to 0.8): strands 1 and 2 cross once, at 5/6 of the way, giving `s1`. */
  lemma Interval2(l1: seq<Point>, l2: seq<Point>)
    requires Samples(l1, Point(-1.0, -0.25), Point(0.0, -1.0), Point(1.0, 1.0))
    requires Samples(l2, Point(-1.0, 0.0), Point(0.6, -0.4), Point(0.4, 1.0))
    ensures IntervalWord(l1, l2) == Ok([2])
  {
    var ms := [Move(l1[0], l2[0]), Move(l1[1], l2[1]), Move(l1[2], l2[2])];
    assert Moves(l1, l2) == ms;
    var b := Ends(ms);
    assert b == l2;
    var c := Crossing(5.0 / 6.0, 1, 2, 1);
    assert MakeCrossing(Starts(ms), b, 1, 2) == c;
    OneCrossing(l1, l2, ms, 1, 2, c);
  }

  /** Sub-interval 3 (`t` from 0.8 to 1): strands 1 and 2 swap their start order, but no end order is inverted. */
  lemma Interval3(l1: seq<Point>, l2: seq<Point>)
    requires Samples(l1, Point(-1.0, 0.0), Point(0.6, -0.4), Point(0.4, 1.0))
    requires Samples(l2, Point(0.0, -1.0), Point(1.0, 0.0), Point(0.0, 1.0))
    ensures IntervalWord(l1, l2) == Ok([])
  {
    var ms := [Move(l1[0], l2[0]), Move(l1[2], l2[2]), Move(l1[1], l2[1])];
    assert Moves(l1, l2) == [Move(l1[0], l2[0]), Move(l1[1], l2[1]), Move(l1[2], l2[2])];
    NoCrossing(l1, l2, ms);
  }

  /** A sequence of length four is the display of its entries. */
  lemma FourEntries<T>(s: seq<T>)
    requires |s| == 4
    ensures s == [s[0], s[1], s[2], s[3]]
  {
  }

  /** The words of the four sub-intervals. */
  lemma ExampleIntervals(pts: seq<seq<Point>>)
    requires Rectangular(pts) && |pts[0]| == 5
    requires Samples(Column(pts, 0), Point(0.0, 1.0), Point(-1.0, 0.0), Point(1.0, 0.0))
    requires Samples(Column(pts, 1), Point(-1.0, -0.5), Point(-0.6, -0.4), Point(1.0, 0.4))
    requires Samples(Column(pts, 2), Point(-1.0, -0.25), Point(0.0, -1.0), Point(1.0, 1.0))
    requires Samples(Column(pts, 3), Point(-1.0, 0.0), Point(0.6, -0.4), Point(0.4, 1.0))
    requires Samples(Column(pts, 4), Point(0.0, -1.0), Point(1.0, 0.0), Point(0.0, 1.0))
    ensures Intervals(pts) == [Ok([1]), Ok([]), Ok([2]), Ok([])]
  {
    var rs := Intervals(pts);
    assert |rs| == 4;
    assert rs[0] == Ok([1]) by {
      assert rs[0] == IntervalWord(Column(pts, 0), Column(pts, 1));
      Interval0(Column(pts, 0), Column(pts, 1));
    }
    assert rs[1] == Ok([]) by {
      assert rs[1] == IntervalWord(Column(pts, 1), Column(pts, 2));
      Interval1(Column(pts, 1), Column(pts, 2));
    }
    assert rs[2] == Ok([2]) by {
      assert rs[2] == IntervalWord(Column(pts, 2), Column(pts, 3));
      Interval2(Column(pts, 2), Column(pts, 3));
    }
    assert rs[3] == Ok([]) by {
      assert rs[3] == IntervalWord(Column(pts, 3), Column(pts, 4));
      Interval3(Column(pts, 3), Column(pts, 4));
    }
    FourEntries(rs);
  }

  /** The words of the sub-intervals joined: `s0 * 1 * s1 * 1`. */
  lemma ExampleJoin()
    ensures Join([Ok([1]), Ok([]), Ok([2]), Ok([])]) == Ok([1, 2])
  {
    var rs := [Ok([1]), Ok([]), Ok([2]), Ok([])];
    assert rs[..0] == [];
    var e: seq<int> := [];
    JoinStepOk(rs, 0, e, [1]);
    assert e + [1] == [1];
    JoinStepOk(rs, 1, [1], e);
    assert [1] + e == [1];
    JoinStepOk(rs, 2, [1], [2]);
    assert [1] + [2] == [1, 2];
    JoinStepOk(rs, 3, [1, 2], e);
    assert [1, 2] + e == [1, 2];
    assert rs[..4] == rs;
  }

  /** The documented example: the braid of the three strands is `s0*s1`. */
  lemma DocumentedExample(ps: seq<Strand>)
    requires IsDocumented(ps)
    ensures AllWellFormed(ps)
    ensures Rectangular(Resampled(ps))
    ensures BraidWord(Resampled(ps)) == Ok([1, 2])
  {
    ExampleResampled(ps);
    ExampleIntervals(Resampled(ps));
    ExampleJoin();
  }

  /** `braid_from_piecewise(paths)` on the documented example returns `s0*s1`. */
  method ExampleBraid() returns (r: Result<seq<int>>)
    ensures r == Ok([1, 2])
  {
    var paths := [
      [Sample(0.0, Point(0.0, 1.0)), Sample(0.2, Point(-1.0, -0.5)), Sample(0.8, Point(-1.0, 0.0)), Sample(1.0, Point(0.0, -1.0))],
      [Sample(0.0, Point(-1.0, 0.0)), Sample(0.5, Point(0.0, -1.0)), Sample(1.0, Point(1.0, 0.0))],
      [Sample(0.0, Point(1.0, 0.0)), Sample(0.5, Point(1.0, 1.0)), Sample(1.0, Point(0.0, 1.0))]];
    DocumentedExample(paths);
    r := BraidFromPiecewise(paths);
  }
}
