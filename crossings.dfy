/**
 * Crossing detection on one sub-interval of the common partition: the strands
 * are put in order of their start positions, and every pair whose end
 * positions come in the opposite order crosses somewhere in the sub-interval.
 */
module Crossings {
  import opened Sorting
  import opened Geometry
  import opened Results

  /** One strand over one sub-interval: `[l1[s], l2[s]]`. */
  datatype Move = Move(start: Point, end: Point)

  /** Python compares `[[a.re, a.im], [b.re, b.im]]` as the flat list of the four numbers. */
  function MoveKey(m: Move): seq<real> {
    Key(m.start) + Key(m.end)
  }

  /** `M = [[l1[s], l2[s]] for s in range(len(l1))]`. */
  function Moves(l1: seq<Point>, l2: seq<Point>): (ms: seq<Move>)
    requires |l1| == |l2|
    ensures |ms| == |l1|
    ensures forall s :: 0 <= s < |ms| ==> ms[s] == Move(l1[s], l2[s])
  {
    seq(|l1|, s requires 0 <= s < |l1| => Move(l1[s], l2[s]))
  }

  function Starts(ms: seq<Move>): (l: seq<Point>)
    ensures |l| == |ms| && forall s :: 0 <= s < |ms| ==> l[s] == ms[s].start
  {
    seq(|ms|, s requires 0 <= s < |ms| => ms[s].start)
  }

  function Ends(ms: seq<Move>): (l: seq<Point>)
    ensures |l| == |ms| && forall s :: 0 <= s < |ms| ==> l[s] == ms[s].end
  {
    seq(|ms|, s requires 0 <= s < |ms| => ms[s].end)
  }

  /** `M.sort()`: the strands of a sub-interval in order of start position (then end position). */
  function SortedMoves(l1: seq<Point>, l2: seq<Point>): (ms: seq<Move>)
    requires |l1| == |l2|
    ensures |ms| == |l1|
    ensures multiset(ms) == multiset(Moves(l1, l2))
    ensures SortedBy(ms, MoveKey)
  {
    var ms := SortBy(Moves(l1, l2), MoveKey);
    assert |ms| == |multiset(ms)| == |multiset(Moves(l1, l2))| == |l1|;
    ms
  }

  /** In the sorted order no start position comes before a smaller one. */
  lemma SortedStarts(ms: seq<Move>, k: int, j: int)
    requires SortedBy(ms, MoveKey) && 0 <= k < j < |ms|
    ensures ms[k].start.re <= ms[j].start.re
  {
    var a, b := MoveKey(ms[k]), MoveKey(ms[j]);
    assert LexLe(a, b);
    LexCons(a[0], a[1..], b[0], b[1..]);
    assert a == [a[0]] + a[1..] && b == [b[0]] + b[1..];
  }

  /** A crossing `[t, k, j, s]`: strands `k < j` (sorted positions) cross at time `t` with orientation `s`. */
  datatype Crossing = Crossing(t: real, k: int, j: int, s: int)

  /** `cruces.sort()` compares the four numbers of `[t, k, j, s]`. */
  function CrossingKey(c: Crossing): seq<real> {
    [c.t, c.k as real, c.j as real, c.s as real]
  }

  /** Strand `j` ends before strand `k` although it starts after it: `l2[j] < l2[k]` for `k < j`. */
  predicate Inverted(l2: seq<Point>, k: int, j: int) {
    0 <= k < j < |l2| && Less(l2[j], l2[k])
  }

  /** The divisor of the crossing time, `l2[k].re - l1[k].re + l1[j].re - l2[j].re`. */
  function Divisor(l1: seq<Point>, l2: seq<Point>, k: int, j: int): real
    requires 0 <= k < |l1| == |l2| && 0 <= j < |l1|
  {
    l2[k].re - l1[k].re + l1[j].re - l2[j].re
  }

  /**
   * The time, as a fraction of the sub-interval, at which the real parts of
   * strands `k` and `j` meet: `(l1[j].re - l1[k].re) / Divisor`. A zero
   * divisor has no crossing time; the value 0 then stands in for it.
   */
  function CrossTime(l1: seq<Point>, l2: seq<Point>, k: int, j: int): real
    requires 0 <= k < |l1| == |l2| && 0 <= j < |l1|
  {
    var d := Divisor(l1, l2, k, j);
    if d == 0.0 then 0.0 else (l1[j].re - l1[k].re) / d
  }

  /** The `sgn(x, y)` of Sage's `braid_from_piecewise`: 1 if `x < y`, -1 if `x > y`, 0 if they are equal. */
  function Sgn(x: real, y: real): (r: int)
    ensures r == 1 <==> x < y
    ensures r == -1 <==> x > y
    ensures r == 0 <==> x == y
  {
    if x < y then 1 else if x > y then -1 else 0
  }

  /** The straight segment from `a` to `b` at fraction `t` of the way, written as Sage's `braid_from_piecewise` does. */
  function Between(a: real, b: real, t: real): real {
    a * (1.0 - t) + t * b
  }

  /** The crossing that the nested loops record for the pair `k < j`. */
  function MakeCrossing(l1: seq<Point>, l2: seq<Point>, k: int, j: int): (c: Crossing)
    requires 0 <= k < |l1| == |l2| && 0 <= j < |l1|
    ensures c.k == k && c.j == j && -1 <= c.s <= 1
  {
    var t := CrossTime(l1, l2, k, j);
    Crossing(t, k, j, Sgn(Between(l1[k].im, l2[k].im, t), Between(l1[j].im, l2[j].im, t)))
  }

  /** Some inverted pair has no crossing time. */
  ghost predicate Undefined(l1: seq<Point>, l2: seq<Point>)
    requires |l1| == |l2|
  {
    exists k, j :: Inverted(l2, k, j) && Divisor(l1, l2, k, j) == 0.0
  }

  /** The inverted pairs, `(k, j)` with `k < j` and `l2[j] < l2[k]`. */
  ghost function InvertedPairs(l2: seq<Point>): set<(int, int)> {
    set k, j | 0 <= k < j < |l2| && Less(l2[j], l2[k]) :: (k, j)
  }

  /** One crossing for each inverted pair. */
  ghost function CrossingSet(l1: seq<Point>, l2: seq<Point>): set<Crossing>
    requires |l1| == |l2|
  {
    set k, j | 0 <= k < j < |l2| && Less(l2[j], l2[k]) :: MakeCrossing(l1, l2, k, j)
  }

  /**
   * The crossings that the inner loop records for strand `j` while `k' < k`,
   * in the order it visits them.
   */
  function RowCrossings(l1: seq<Point>, l2: seq<Point>, j: int, k: int): (r: seq<Crossing>)
    requires |l1| == |l2| && 0 <= k <= j < |l2|
    ensures forall c :: c in r ==> c.j == j && 0 <= c.k < k && -1 <= c.s <= 1
    decreases k
  {
    if k == 0 then []
    else
      RowCrossings(l1, l2, j, k - 1)
        + (if Less(l2[j], l2[k - 1]) then [MakeCrossing(l1, l2, k - 1, j)] else [])
  }

  /** `cruces` once the outer loop has visited the strands before `j`. */
  function Recorded(l1: seq<Point>, l2: seq<Point>, j: int): (r: seq<Crossing>)
    requires |l1| == |l2| && 0 <= j <= |l2|
    ensures forall c :: c in r ==> 0 <= c.k < c.j < j && -1 <= c.s <= 1
    decreases j
  {
    if j == 0 then [] else Recorded(l1, l2, j - 1) + RowCrossings(l1, l2, j - 1, j - 1)
  }

  /**
   * The nested loops over `j` and `k < j`: every inverted pair is recorded
   * with its crossing time and orientation, in the order the loops visit the
   * pairs. Where the crossing time of an inverted pair is undefined the
   * result is a failure.
   */
  method FindCrossings(l1: seq<Point>, l2: seq<Point>) returns (r: Result<seq<Crossing>>)
    requires |l1| == |l2|
    ensures r.Fail? <==> Undefined(l1, l2)
    ensures r.Fail? ==> r.error == UndefinedCrossingTime
    ensures r.Ok? ==> r.value == Recorded(l1, l2, |l2|)
  {
    var cruces: seq<Crossing> := [];
    var j := 0;
    while j < |l2|
      invariant 0 <= j <= |l2|
      invariant cruces == Recorded(l1, l2, j)
      invariant forall k', j' :: 0 <= k' < j' < j && Inverted(l2, k', j') ==> Divisor(l1, l2, k', j') != 0.0
    {
      var k := 0;
      while k < j
        invariant 0 <= k <= j
        invariant cruces == Recorded(l1, l2, j) + RowCrossings(l1, l2, j, k)
        invariant forall k', j' :: 0 <= k' < j' && (j' < j || (j' == j && k' < k)) && Inverted(l2, k', j') ==>
          Divisor(l1, l2, k', j') != 0.0
      {
        if Less(l2[j], l2[k]) {
          var d := l2[k].re - l1[k].re + l1[j].re - l2[j].re;
          if d == 0.0 {
            assert Inverted(l2, k, j) && Divisor(l1, l2, k, j) == 0.0;
            return Fail(UndefinedCrossingTime);
          }
          var t := (l1[j].re - l1[k].re) / d;
          var s := Sgn(l1[k].im * (1.0 - t) + t * l2[k].im, l1[j].im * (1.0 - t) + t * l2[j].im);
          assert Crossing(t, k, j, s) == MakeCrossing(l1, l2, k, j);
          assert RowCrossings(l1, l2, j, k + 1) == RowCrossings(l1, l2, j, k) + [Crossing(t, k, j, s)];
          cruces := cruces + [Crossing(t, k, j, s)];
        }
        k := k + 1;
      }
      j := j + 1;
    }
    r := Ok(cruces);
  }

  /** The real parts of two straight segments agree at the fraction `(b1 - a1) / d`, `d` the divisor. */
  lemma MeetAt(a1: real, a2: real, b1: real, b2: real)
    requires a2 - a1 + b1 - b2 != 0.0
    ensures var t := (b1 - a1) / (a2 - a1 + b1 - b2); Between(a1, a2, t) == Between(b1, b2, t)
  {
    var d := a2 - a1 + b1 - b2;
    var t := (b1 - a1) / d;
    assert t * d == b1 - a1;
    calc {
      Between(a1, a2, t) - Between(b1, b2, t);
      (a1 - b1) + t * d;
      0.0;
    }
  }

  /**
   * The crossing recorded for strands `k < j` of a sub-interval whose end
   * positions are inverted: its time lies in `[0, 1]`, strictly inside when
   * the real parts strictly swap order, the real parts of the two strands
   * agree at it, and its orientation compares their imaginary parts there.
   */
  lemma CrossingMeaning(ms: seq<Move>, k: int, j: int)
    requires SortedBy(ms, MoveKey) && Inverted(Ends(ms), k, j)
    requires Divisor(Starts(ms), Ends(ms), k, j) != 0.0
    ensures var l1, l2, c := Starts(ms), Ends(ms), MakeCrossing(Starts(ms), Ends(ms), k, j);
      && 0.0 <= c.t <= 1.0
      && (l1[k].re < l1[j].re && l2[j].re < l2[k].re ==> 0.0 < c.t < 1.0)
      && Between(l1[k].re, l2[k].re, c.t) == Between(l1[j].re, l2[j].re, c.t)
      && (c.s == 1 <==> Between(l1[k].im, l2[k].im, c.t) < Between(l1[j].im, l2[j].im, c.t))
      && (c.s == -1 <==> Between(l1[k].im, l2[k].im, c.t) > Between(l1[j].im, l2[j].im, c.t))
      && (c.s == 0 <==> Between(l1[k].im, l2[k].im, c.t) == Between(l1[j].im, l2[j].im, c.t))
  {
    var l1, l2 := Starts(ms), Ends(ms);
    SortedStarts(ms, k, j);
    var n := l1[j].re - l1[k].re;
    var d := Divisor(l1, l2, k, j);
    assert n >= 0.0 && d >= n;
    var t := n / d;
    assert t * d == n;
    assert 0.0 <= t <= 1.0;
    MeetAt(l1[k].re, l2[k].re, l1[j].re, l2[j].re);
  }

  /**
   * An undefined crossing time means the two strands have the same real
   * part at both ends of the sub-interval (and, being inverted, meet there).
   */
  lemma UndefinedMeansEqualRealParts(ms: seq<Move>, k: int, j: int)
    requires SortedBy(ms, MoveKey) && Inverted(Ends(ms), k, j)
    requires Divisor(Starts(ms), Ends(ms), k, j) == 0.0
    ensures Starts(ms)[k].re == Starts(ms)[j].re && Ends(ms)[k].re == Ends(ms)[j].re
  {
    SortedStarts(ms, k, j);
  }

  /** The crossings of the inverted pairs `(k', j)` with `k' < k`. */
  ghost function RowSet(l1: seq<Point>, l2: seq<Point>, j: int, k: int): set<Crossing>
    requires |l1| == |l2| && 0 <= k <= j < |l2|
  {
    set k' | 0 <= k' < k && Less(l2[j], l2[k']) :: MakeCrossing(l1, l2, k', j)
  }

  /** The crossings of the inverted pairs `(k', j')` with `j' < j`. */
  ghost function CrossingsBefore(l1: seq<Point>, l2: seq<Point>, j: int): set<Crossing>
    requires |l1| == |l2| && 0 <= j <= |l2|
  {
    set k', j' | 0 <= k' < j' < j && Less(l2[j'], l2[k']) :: MakeCrossing(l1, l2, k', j')
  }

  lemma {:induction false} RowMembers(l1: seq<Point>, l2: seq<Point>, j: int, k: int)
    requires |l1| == |l2| && 0 <= k <= j < |l2|
    ensures forall c :: c in RowCrossings(l1, l2, j, k) <==> c in RowSet(l1, l2, j, k)
    decreases k
  {
    if k > 0 {
      RowMembers(l1, l2, j, k - 1);
      var extra := if Less(l2[j], l2[k - 1]) then {MakeCrossing(l1, l2, k - 1, j)} else {};
      assert RowSet(l1, l2, j, k) == RowSet(l1, l2, j, k - 1) + extra;
    }
  }

  lemma {:induction false} RecordedMembers(l1: seq<Point>, l2: seq<Point>, j: int)
    requires |l1| == |l2| && 0 <= j <= |l2|
    ensures forall c :: c in Recorded(l1, l2, j) <==> c in CrossingsBefore(l1, l2, j)
    decreases j
  {
    if j > 0 {
      RecordedMembers(l1, l2, j - 1);
      RowMembers(l1, l2, j - 1, j - 1);
      assert CrossingsBefore(l1, l2, j) == CrossingsBefore(l1, l2, j - 1) + RowSet(l1, l2, j - 1, j - 1);
    }
  }

  /** The nested loops record exactly the crossings of the inverted pairs. */
  lemma RecordedAreCrossings(l1: seq<Point>, l2: seq<Point>)
    requires |l1| == |l2|
    ensures forall c :: c in Recorded(l1, l2, |l2|) <==> c in CrossingSet(l1, l2)
  {
    RecordedMembers(l1, l2, |l2|);
    assert CrossingsBefore(l1, l2, |l2|) == CrossingSet(l1, l2);
  }

  /** The inverted pairs `(k', j)` with `k' < k`. */
  ghost function RowPairs(l2: seq<Point>, j: int, k: int): set<(int, int)> {
    set q | q in InvertedPairs(l2) && q.1 == j && q.0 < k
  }

  /** The inverted pairs `(k', j')` with `j' < j`. */
  ghost function PairsBefore(l2: seq<Point>, j: int): set<(int, int)> {
    set q | q in InvertedPairs(l2) && q.1 < j
  }

  lemma {:induction false} RowCount(l1: seq<Point>, l2: seq<Point>, j: int, k: int)
    requires |l1| == |l2| && 0 <= k <= j < |l2|
    ensures |RowCrossings(l1, l2, j, k)| == |RowPairs(l2, j, k)|
    decreases k
  {
    if k > 0 {
      RowCount(l1, l2, j, k - 1);
      if Less(l2[j], l2[k - 1]) {
        assert RowPairs(l2, j, k) == RowPairs(l2, j, k - 1) + {(k - 1, j)};
        assert (k - 1, j) !in RowPairs(l2, j, k - 1);
      } else {
        assert RowPairs(l2, j, k) == RowPairs(l2, j, k - 1);
      }
    }
  }

  /** The pairs before `j` are those before `j - 1` and those of row `j - 1`. */
  lemma PairsSplit(l2: seq<Point>, j: int)
    requires 0 < j <= |l2|
    ensures |PairsBefore(l2, j)| == |PairsBefore(l2, j - 1)| + |RowPairs(l2, j - 1, j - 1)|
  {
    var before, row := PairsBefore(l2, j - 1), RowPairs(l2, j - 1, j - 1);
    assert PairsBefore(l2, j) == before + row;
    assert before !! row by {
      forall q | q in row
        ensures q !in before
      {
      }
    }
  }

  lemma {:induction false} RecordedCount(l1: seq<Point>, l2: seq<Point>, j: int)
    requires |l1| == |l2| && 0 <= j <= |l2|
    ensures |Recorded(l1, l2, j)| == |PairsBefore(l2, j)|
    decreases j
  {
    if j > 0 {
      RecordedCount(l1, l2, j - 1);
      RowCount(l1, l2, j - 1, j - 1);
      PairsSplit(l2, j);
    }
  }

  /** The nested loops record one crossing for each inverted pair. */
  lemma CrossingCount(l1: seq<Point>, l2: seq<Point>)
    requires |l1| == |l2|
    ensures |Recorded(l1, l2, |l2|)| == |InvertedPairs(l2)|
  {
    RecordedCount(l1, l2, |l2|);
    assert PairsBefore(l2, |l2|) == InvertedPairs(l2);
  }
}
