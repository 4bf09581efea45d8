/**
 * The first half of `braid_from_piecewise`: piecewise-linear strands, each a
 * list of samples `(t, c)` from `t = 0` to `t = 1`, are resampled onto one
 * common partition of `[0, 1]`, so that every strand has a point at every
 * partition time.
 */
module Piecewise {
  import opened Geometry

  /** A piecewise-linear strand: its breakpoints in order of time. */
  type Strand = seq<Sample>

  /** Breakpoint times strictly increase along the strand. */
  ghost predicate Increasing(s: Strand) {
    forall a, b :: 0 <= a < b < |s| ==> s[a].t < s[b].t
  }

  /** What the continuation tracker delivers: at least two breakpoints, from `t = 0` to `t = 1`. */
  ghost predicate WellFormed(s: Strand) {
    |s| >= 2 && s[0].t == 0.0 && s[|s| - 1].t == 1.0 && Increasing(s)
  }

  /** A non-empty family of well-formed strands (`min` over the strands fails on an empty one). */
  ghost predicate AllWellFormed(strands: seq<Strand>) {
    |strands| >= 1 && forall j :: 0 <= j < |strands| ==> WellFormed(strands[j])
  }

  lemma IncreasingTail(s: Strand)
    requires Increasing(s) && s != []
    ensures Increasing(s[1..])
  {
    forall a, b | 0 <= a < b < |s[1..]| ensures s[1..][a].t < s[1..][b].t {
      assert s[1..][a] == s[a + 1] && s[1..][b] == s[b + 1];
    }
  }

  /**
   * The piecewise-linear strand as a function of time: the point at time `t`
   * on the segment between the breakpoints that bracket `t`.
   */
  function Eval(s: Strand, t: real): Point
    requires |s| >= 2 && Increasing(s)
    decreases |s|
  {
    if |s| == 2 || t <= s[1].t then Lerp(s[0], s[1], t)
    else
      IncreasingTail(s);
      Eval(s[1..], t)
  }

  /**
   * Between the breakpoints `k - 1` and `k` the strand is the straight segment
   * joining them (before the second breakpoint, the first segment).
   */
  lemma {:induction false} EvalOnSegment(s: Strand, k: nat, t: real)
    requires |s| >= 2 && Increasing(s)
    requires 1 <= k < |s|
    requires k == 1 || s[k - 1].t < t
    requires t <= s[k].t
    ensures Eval(s, t) == Lerp(s[k - 1], s[k], t)
    decreases k
  {
    if k > 1 {
      assert s[1].t <= s[k - 1].t;
      IncreasingTail(s);
      assert s[1..][k - 2] == s[k - 1] && s[1..][k - 1] == s[k];
      EvalOnSegment(s[1..], k - 1, t);
    }
  }

  /** At each of its breakpoints the strand passes through that breakpoint. */
  lemma EvalAtBreakpoint(s: Strand, k: nat)
    requires |s| >= 2 && Increasing(s)
    requires 1 <= k < |s|
    ensures Eval(s, s[k].t) == s[k].p
  {
    EvalOnSegment(s, k, s[k].t);
    LerpAtEnd(s[k - 1], s[k]);
  }

  /** A well-formed strand starts at its first breakpoint and ends at its last. */
  lemma EvalEnds(s: Strand)
    requires WellFormed(s)
    ensures Eval(s, 0.0) == s[0].p
    ensures Eval(s, 1.0) == s[|s| - 1].p
  {
    EvalOnSegment(s, 1, 0.0);
    LerpAtStart(s[0], s[1]);
    EvalAtBreakpoint(s, |s| - 1);
  }

  /** Every breakpoint time of every strand. */
  ghost function BreakTimes(strands: seq<Strand>): set<real> {
    set j, k | 0 <= j < |strands| && 0 <= k < |strands[j]| :: strands[j][k].t
  }

  ghost predicate StrictlyIncreasing(ts: seq<real>) {
    forall a, b :: 0 <= a < b < |ts| ==> ts[a] < ts[b]
  }

  /** A set that is not empty has an element. */
  lemma NonEmptyHasElement(S: set<real>)
    requires S != {}
    ensures exists y :: y in S
  {
    if forall y :: y !in S {
      assert false;
    }
  }

  lemma {:induction false} MinExists(S: set<real>)
    requires S != {}
    ensures exists m :: m in S && forall x :: x in S ==> m <= x
    decreases |S|
  {
    NonEmptyHasElement(S);
    var y :| y in S;
    var others := S - {y};
    if others == {} {
      forall x | x in S ensures y <= x {
        assert x == y || x in others;
      }
    } else {
      MinExists(others);
      var m :| m in others && forall x :: x in others ==> m <= x;
      var least := if y < m then y else m;
      forall x | x in S ensures least <= x {
        assert x == y || x in others;
      }
      assert least in S;
    }
  }

  /** The elements of a finite set of reals in increasing order. */
  ghost function Ascending(S: set<real>): (r: seq<real>)
    ensures StrictlyIncreasing(r)
    ensures forall x :: x in r <==> x in S
    decreases |S|
  {
    if S == {} then []
    else
      MinExists(S);
      var m :| m in S && forall x :: x in S ==> m <= x;
      var rest := Ascending(S - {m});
      assert forall x :: x in rest ==> m < x;
      [m] + rest
  }

  /** `Ascending(S)` starts with the least element of `S` and goes on with the others. */
  lemma AscendingHead(S: set<real>)
    requires S != {}
    ensures Ascending(S) != []
    ensures forall x :: x in S ==> Ascending(S)[0] <= x
    ensures Ascending(S)[1..] == Ascending(S - {Ascending(S)[0]})
  {
    NonEmptyHasElement(S);
    var r := Ascending(S);
    assert r != [];
    forall x | x in S ensures r[0] <= x {
      assert x in r;
      var b :| 0 <= b < |r| && r[b] == x;
      assert b == 0 || r[0] < r[b];
    }
  }

  /** A strictly increasing list holding exactly the elements of `S` is `Ascending(S)`. */
  lemma {:induction false} AscendingUnique(ts: seq<real>, S: set<real>)
    requires StrictlyIncreasing(ts)
    requires forall x :: x in ts <==> x in S
    ensures ts == Ascending(S)
    decreases |ts|
  {
    if ts == [] {
      assert forall x :: x !in S;
    } else {
      SameHead(ts, S);
      TailElements(ts, S);
      AscendingUnique(ts[1..], S - {ts[0]});
      AscendingHead(S);
      var r := Ascending(S);
      assert ts[1..] == r[1..];
      assert ts == [ts[0]] + ts[1..] && r == [r[0]] + r[1..];
    }
  }

  /** Both lists start with the least element of `S`. */
  lemma SameHead(ts: seq<real>, S: set<real>)
    requires StrictlyIncreasing(ts) && ts != []
    requires forall x :: x in ts <==> x in S
    ensures S != {} && Ascending(S) != [] && ts[0] == Ascending(S)[0]
  {
    assert ts[0] in ts;
    AscendingHead(S);
    var r0 := Ascending(S)[0];
    assert r0 in Ascending(S);
    var b :| 0 <= b < |ts| && ts[b] == r0;
    assert ts[0] <= r0;
  }

  lemma TailElements(ts: seq<real>, S: set<real>)
    requires StrictlyIncreasing(ts) && ts != []
    requires forall x :: x in ts <==> x in S
    ensures StrictlyIncreasing(ts[1..])
    ensures forall x :: x in ts[1..] <==> x in S - {ts[0]}
  {
    forall x ensures x in ts[1..] <==> x in S - {ts[0]} {
      if x in ts[1..] {
        var b :| 0 <= b < |ts[1..]| && ts[1..][b] == x;
        assert ts[b + 1] == x;
      }
      if x in S - {ts[0]} {
        assert x in ts;
        var b :| 0 <= b < |ts| && ts[b] == x;
        assert b != 0;
        assert ts[1..][b - 1] == x;
      }
    }
    forall a, b | 0 <= a < b < |ts[1..]| ensures ts[1..][a] < ts[1..][b] {
      assert ts[1..][a] == ts[a + 1] && ts[1..][b] == ts[b + 1];
    }
  }

  /**
   * The common partition: every breakpoint time of every strand, in increasing
   * order (the finest partition that refines all the strands' own).
   */
  ghost function PartitionTimes(strands: seq<Strand>): seq<real> {
    Ascending(BreakTimes(strands))
  }

  /** Each strand evaluated at each time of the common partition. */
  ghost function Resampled(strands: seq<Strand>): (r: seq<seq<Point>>)
    requires AllWellFormed(strands)
  {
    var ts := PartitionTimes(strands);
    seq(|strands|, j requires 0 <= j < |strands| =>
      seq(|ts|, m requires 0 <= m < |ts| => Eval(strands[j], ts[m])))
  }

  /** Python's `min` over a non-empty list. */
  function MinOf(s: seq<real>): (m: real)
    requires s != []
    ensures m in s
    ensures forall x :: x in s ==> m <= x
  {
    if |s| == 1 then s[0]
    else
      var r := MinOf(s[1..]);
      assert s == [s[0]] + s[1..];
      if s[0] <= r then s[0] else r
  }

  /** The time of every strand's next breakpoint, `val[indices[k]][0]`. */
  function NextTimes(strands: seq<Strand>, indices: seq<int>): (r: seq<real>)
    requires |indices| == |strands|
    requires forall j :: 0 <= j < |strands| ==> 0 <= indices[j] < |strands[j]|
    ensures |r| == |strands|
    ensures forall j :: 0 <= j < |strands| ==> r[j] == strands[j][indices[j]].t
  {
    seq(|strands|, j requires 0 <= j < |strands| => strands[j][indices[j]].t)
  }

  /** The set of elements of a list. */
  ghost function Elems(ts: seq<real>): set<real> {
    set x | x in ts
  }

  /** Every strand's point at each time of `times` so far is recorded in `points`. */
  ghost predicate Sampled(strands: seq<Strand>, points: seq<seq<Point>>, times: seq<real>) {
    && AllWellFormed(strands)
    && |points| == |strands|
    && (forall j :: 0 <= j < |strands| ==> |points[j]| == |times|)
    && (forall j, m :: 0 <= j < |strands| && 0 <= m < |times| ==> points[j][m] == Eval(strands[j], times[m]))
  }

  /** Every strand's index points at its next breakpoint: the two indexed breakpoints bracket `i`. */
  ghost predicate Bracketed(strands: seq<Strand>, indices: seq<int>, i: real) {
    && |indices| == |strands|
    && (forall j :: 0 <= j < |strands| ==> 1 <= indices[j] < |strands[j]|)
    && (forall j :: 0 <= j < |strands| ==> strands[j][indices[j] - 1].t < i <= strands[j][indices[j]].t)
  }

  /** The partition times so far: strictly increasing from 0, all before `i`. */
  ghost predicate TimesSoFar(times: seq<real>, i: real) {
    |times| >= 1 && times[0] == 0.0 && StrictlyIncreasing(times) && times[|times| - 1] < i
  }

  /** Every partition time so far is a breakpoint time. */
  ghost predicate AllBreaks(strands: seq<Strand>, times: seq<real>) {
    forall m :: 0 <= m < |times| ==> times[m] in BreakTimes(strands)
  }

  /** The times of the first `n` breakpoints of a strand. */
  ghost function Passed(s: Strand, n: int): set<real>
    requires 0 <= n <= |s|
  {
    set k | 0 <= k < n :: s[k].t
  }

  /** Every breakpoint that an index has passed is a partition time already. */
  ghost predicate Covers(strands: seq<Strand>, indices: seq<int>, times: seq<real>)
    requires |indices| == |strands|
    requires forall j :: 0 <= j < |strands| ==> 0 <= indices[j] <= |strands[j]|
  {
    forall j :: 0 <= j < |strands| ==> Passed(strands[j], indices[j]) <= Elems(times)
  }

  /** A strand's index advances exactly when its next breakpoint is at the current time `i`. */
  ghost predicate Advanced(strands: seq<Strand>, indices0: seq<int>, indices: seq<int>, i: real, upto: int)
    requires |indices0| == |strands| == |indices| && 0 <= upto <= |strands|
    requires forall j :: 0 <= j < |strands| ==> 0 <= indices0[j] < |strands[j]|
  {
    && (forall j :: 0 <= j < upto ==>
         indices[j] == if strands[j][indices0[j]].t > i then indices0[j] else indices0[j] + 1)
    && (forall j :: upto <= j < |strands| ==> indices[j] == indices0[j])
  }

  /** What the outer resampling loop keeps. */
  ghost predicate LoopInv(strands: seq<Strand>, points: seq<seq<Point>>, indices: seq<int>, times: seq<real>, i: real) {
    && Sampled(strands, points, times)
    && Bracketed(strands, indices, i)
    && i in BreakTimes(strands)
    && TimesSoFar(times, i)
    && Covers(strands, indices, times)
    && AllBreaks(strands, times)
  }

  /**
   * Resampling (`totalpoints`): at each partition time `i`, a strand whose next
   * breakpoint lies later gets the point interpolated between the breakpoints
   * that bracket `i`; a strand whose next breakpoint is at `i` gets that
   * breakpoint, and its index advances. The next partition time is the
   * earliest next breakpoint. Finally every strand gets its last breakpoint.
   */
  method Resample(strands: seq<Strand>) returns (totalpoints: seq<seq<Point>>)
    requires AllWellFormed(strands)
    ensures totalpoints == Resampled(strands)
  {
    var n := |strands|;
    var i := MinOf(seq(n, j requires 0 <= j < n => strands[j][1].t));
    totalpoints := seq(n, j requires 0 <= j < n => [strands[j][0].p]);
    var indices: seq<int> := seq(n, j => 1);
    ghost var times := [0.0];
    Start(strands, totalpoints, indices, i);
    totalpoints, indices, times, i := SampleAll(strands, totalpoints, indices, times, i);
    ghost var points1 := totalpoints;
    totalpoints := AppendLast(strands, totalpoints);
    Finish(strands, points1, totalpoints, indices, times, i);
  }

  /** The outer loop: one partition time after the other, until time 1. */
  method SampleAll(strands: seq<Strand>, points0: seq<seq<Point>>, indices0: seq<int>, ghost times0: seq<real>, i0: real)
    returns (points: seq<seq<Point>>, indices: seq<int>, ghost times: seq<real>, i: real)
    requires LoopInv(strands, points0, indices0, times0, i0)
    ensures LoopInv(strands, points, indices, times, i) && i >= 1.0
  {
    points, indices, times, i := points0, indices0, times0, i0;
    while i < 1.0
      invariant LoopInv(strands, points, indices, times, i)
      decreases |BreakTimes(strands) - Elems(times)|
    {
      points, indices, times, i := Advance(strands, points, indices, times, i);
    }
  }

  /**
   * One turn of the outer loop: every strand gets its point at `i`, the strands
   * whose next breakpoint is at `i` move past it, and the next partition time
   * is the earliest next breakpoint.
   */
  method Advance(strands: seq<Strand>, points0: seq<seq<Point>>, indices0: seq<int>, ghost times0: seq<real>, i0: real)
    returns (points: seq<seq<Point>>, indices: seq<int>, ghost times: seq<real>, i: real)
    requires LoopInv(strands, points0, indices0, times0, i0) && i0 < 1.0
    ensures LoopInv(strands, points, indices, times, i)
    ensures times == times0 + [i0]
    ensures i in NextTimes(strands, indices) && forall x :: x in NextTimes(strands, indices) ==> i <= x
    ensures |BreakTimes(strands) - Elems(times)| < |BreakTimes(strands) - Elems(times0)|
  {
    points, indices := SampleAt(strands, points0, indices0, i0);
    StillInRange(strands, indices0, indices, i0);
    i := MinOf(NextTimes(strands, indices));
    Step(strands, points0, points, indices0, indices, times0, i0, i);
    times := times0 + [i0];
  }

  /** The last loop: every strand gets its last breakpoint, which is its point at time 1. */
  method AppendLast(strands: seq<Strand>, points0: seq<seq<Point>>) returns (points: seq<seq<Point>>)
    requires AllWellFormed(strands) && |points0| == |strands|
    ensures |points| == |strands|
    ensures forall j :: 0 <= j < |strands| ==> points[j] == points0[j] + [Eval(strands[j], 1.0)]
  {
    var n := |strands|;
    points := points0;
    var j := 0;
    while j < n
      invariant 0 <= j <= n && |points| == n
      invariant forall j' :: 0 <= j' < j ==> points[j'] == points0[j'] + [Eval(strands[j'], 1.0)]
      invariant forall j' :: j <= j' < n ==> points[j'] == points0[j']
    {
      var val := strands[j];
      assert WellFormed(val);
      EvalEnds(val);
      points := points[j := points[j] + [val[|val| - 1].p]];
      j := j + 1;
    }
  }

  /** Before time 1 no index moves past the last breakpoint. */
  lemma StillInRange(strands: seq<Strand>, indices0: seq<int>, indices: seq<int>, i: real)
    requires AllWellFormed(strands)
    requires Bracketed(strands, indices0, i) && i < 1.0
    requires |indices| == |strands| && Advanced(strands, indices0, indices, i, |strands|)
    ensures forall j :: 0 <= j < |strands| ==> indices[j] < |strands[j]|
  {
    forall j | 0 <= j < |strands| ensures indices[j] < |strands[j]| {
      assert WellFormed(strands[j]);
      if strands[j][indices0[j]].t <= i {
        assert indices0[j] != |strands[j]| - 1;
      }
    }
  }

  /** One turn of the outer loop keeps every invariant and meets a new breakpoint time. */
  lemma Step(strands: seq<Strand>, points0: seq<seq<Point>>, points: seq<seq<Point>>,
             indices0: seq<int>, indices: seq<int>, times: seq<real>, i: real, i2: real)
    requires LoopInv(strands, points0, indices0, times, i) && i < 1.0
    requires |points| == |strands| && |indices| == |strands|
    requires forall j :: 0 <= j < |strands| ==> points[j] == points0[j] + [Eval(strands[j], i)]
    requires Advanced(strands, indices0, indices, i, |strands|)
    requires forall j :: 0 <= j < |strands| ==> indices[j] < |strands[j]|
    requires i2 == MinOf(NextTimes(strands, indices))
    ensures LoopInv(strands, points, indices, times + [i], i2)
    ensures |BreakTimes(strands) - Elems(times + [i])| < |BreakTimes(strands) - Elems(times)|
  {
    SampledExtend(strands, points0, points, times, i);
    AdvanceStep(strands, indices0, indices, times, i);
    NextTime(strands, indices, times + [i], i, i2);
    FewerLeft(strands, times, i);
    AllBreaksAppend(strands, times, i);
  }

  /**
   * One pass of the inner loop at partition time `i`: every strand gets its
   * point at `i`, and the strands whose next breakpoint is at `i` move past it.
   */
  method SampleAt(strands: seq<Strand>, points0: seq<seq<Point>>, indices0: seq<int>, i: real)
    returns (points: seq<seq<Point>>, indices: seq<int>)
    requires AllWellFormed(strands)
    requires |points0| == |strands|
    requires Bracketed(strands, indices0, i)
    ensures |points| == |strands| && |indices| == |strands|
    ensures forall j :: 0 <= j < |strands| ==> points[j] == points0[j] + [Eval(strands[j], i)]
    ensures Advanced(strands, indices0, indices, i, |strands|)
    ensures forall j :: 0 <= j < |strands| ==> NewSample(strands[j], indices0[j], i, points[j][|points[j]| - 1])
  {
    var n := |strands|;
    points, indices := points0, indices0;
    var j := 0;
    while j < n
      invariant 0 <= j <= n
      invariant |points| == n && |indices| == n
      invariant forall j' :: 0 <= j' < j ==> points[j'] == points0[j'] + [Eval(strands[j'], i)]
      invariant forall j' :: j <= j' < n ==> points[j'] == points0[j']
      invariant Advanced(strands, indices0, indices, i, j)
      invariant forall j' :: 0 <= j' < j ==> NewSample(strands[j'], indices0[j'], i, points[j'][|points[j']| - 1])
    {
      var val := strands[j];
      assert WellFormed(val);
      if val[indices[j]].t > i {
        var xaux, yaux := val[indices[j] - 1], val[indices[j]];
        var interpola := Lerp(xaux, yaux, i);
        EvalOnSegment(val, indices[j], i);
        points := points[j := points[j] + [interpola]];
      } else {
        EvalAtBreakpoint(val, indices[j]);
        points := points[j := points[j] + [val[indices[j]].p]];
        indices := indices[j := indices[j] + 1];
      }
      j := j + 1;
    }
  }

  /**
   * The sample a strand gets at partition time `i`, given the index `k` of its
   * next breakpoint: that breakpoint itself when it is at `i` (the index then
   * advances), else the point at `i` on the segment joining breakpoints
   * `k - 1` and `k`.
   */
  ghost predicate NewSample(s: Strand, k: int, i: real, q: Point)
    requires |s| >= 2 && Increasing(s) && 1 <= k < |s|
  {
    if s[k].t > i then q == Lerp(s[k - 1], s[k], i) else q == s[k].p
  }

  /** Before the loop: one sample at time 0, every index at 1, and `i` the earliest second breakpoint. */
  lemma Start(strands: seq<Strand>, points: seq<seq<Point>>, indices: seq<int>, i: real)
    requires AllWellFormed(strands)
    requires points == seq(|strands|, j requires 0 <= j < |strands| => [strands[j][0].p])
    requires indices == seq(|strands|, j => 1)
    requires i == MinOf(seq(|strands|, j requires 0 <= j < |strands| => strands[j][1].t))
    ensures LoopInv(strands, points, indices, [0.0], i)
  {
    var seconds := seq(|strands|, j requires 0 <= j < |strands| => strands[j][1].t);
    forall j | 0 <= j < |strands| ensures points[j][0] == Eval(strands[j], 0.0) {
      EvalEnds(strands[j]);
    }
    var jm :| 0 <= jm < |strands| && seconds[jm] == i;
    assert WellFormed(strands[jm]);
    assert i > 0.0;
    forall j | 0 <= j < |strands| ensures strands[j][0].t < i <= strands[j][1].t {
      assert seconds[j] == strands[j][1].t && seconds[j] in seconds;
      assert WellFormed(strands[j]);
    }
    assert i in BreakTimes(strands) by {
      assert strands[jm][1].t == i;
    }
    assert 0.0 in BreakTimes(strands) by {
      assert strands[0][0].t == 0.0;
    }
    forall j, x | 0 <= j < |strands| && x in Passed(strands[j], 1) ensures x in Elems([0.0]) {
      assert WellFormed(strands[j]);
    }
  }

  lemma SampledExtend(strands: seq<Strand>, points0: seq<seq<Point>>, points: seq<seq<Point>>, times: seq<real>, i: real)
    requires Sampled(strands, points0, times)
    requires |points| == |strands|
    requires forall j :: 0 <= j < |strands| ==> points[j] == points0[j] + [Eval(strands[j], i)]
    ensures Sampled(strands, points, times + [i])
  {
    var ts := times + [i];
    forall j, m | 0 <= j < |strands| && 0 <= m < |ts| ensures points[j][m] == Eval(strands[j], ts[m]) {
      if m < |times| {
        assert points[j][m] == points0[j][m];
        assert ts[m] == times[m];
      }
    }
  }

  /** After one step no index has passed a breakpoint later than the old time `i`. */
  lemma AdvanceStep(strands: seq<Strand>, indices0: seq<int>, indices: seq<int>, times: seq<real>, i: real)
    requires AllWellFormed(strands)
    requires Bracketed(strands, indices0, i) && i < 1.0
    requires i in BreakTimes(strands)
    requires TimesSoFar(times, i)
    requires Covers(strands, indices0, times)
    requires |indices| == |strands| && Advanced(strands, indices0, indices, i, |strands|)
    ensures forall j :: 0 <= j < |strands| ==> 1 <= indices[j] < |strands[j]|
    ensures forall j :: 0 <= j < |strands| ==> strands[j][indices[j] - 1].t <= i < strands[j][indices[j]].t
    ensures Covers(strands, indices, times + [i])
    ensures TimesSoFar(times + [i], strands[0][indices[0]].t)
  {
    forall j | 0 <= j < |strands|
      ensures 1 <= indices[j] < |strands[j]|
      ensures strands[j][indices[j] - 1].t <= i < strands[j][indices[j]].t
    {
      assert WellFormed(strands[j]);
      if strands[j][indices0[j]].t <= i {
        assert indices0[j] != |strands[j]| - 1;
      }
    }
    var ts := times + [i];
    forall j, x | 0 <= j < |strands| && x in Passed(strands[j], indices[j]) ensures x in Elems(ts) {
      var k :| 0 <= k < indices[j] && strands[j][k].t == x;
      if k < indices0[j] {
        assert x in Passed(strands[j], indices0[j]);
        assert x in times;
      } else {
        assert x == i;
        assert ts[|times|] == i;
      }
    }
  }

  lemma AllBreaksAppend(strands: seq<Strand>, times: seq<real>, i: real)
    requires AllBreaks(strands, times) && i in BreakTimes(strands)
    ensures AllBreaks(strands, times + [i])
  {
    var ts := times + [i];
    forall m | 0 <= m < |ts| ensures ts[m] in BreakTimes(strands) {
      if m < |times| {
        assert ts[m] == times[m];
      }
    }
  }

  /** A new partition time is a breakpoint time not met before, so fewer are left. */
  lemma FewerLeft(strands: seq<Strand>, times: seq<real>, i: real)
    requires TimesSoFar(times, i)
    requires i in BreakTimes(strands)
    ensures |BreakTimes(strands) - Elems(times + [i])| < |BreakTimes(strands) - Elems(times)|
  {
    var ts := times + [i];
    assert forall a :: 0 <= a < |times| ==> times[a] < i;
    assert i !in Elems(times);
    assert Elems(ts) == Elems(times) + {i};
    assert BreakTimes(strands) - Elems(ts) == (BreakTimes(strands) - Elems(times)) - {i};
  }

  /** The next partition time, the earliest next breakpoint, is again bracketed by every strand. */
  lemma NextTime(strands: seq<Strand>, indices: seq<int>, times: seq<real>, last: real, i: real)
    requires AllWellFormed(strands)
    requires |indices| == |strands|
    requires forall j :: 0 <= j < |strands| ==> 1 <= indices[j] < |strands[j]|
    requires forall j :: 0 <= j < |strands| ==> strands[j][indices[j] - 1].t <= last < strands[j][indices[j]].t
    requires TimesSoFar(times, strands[0][indices[0]].t) && times[|times| - 1] == last
    requires i == MinOf(NextTimes(strands, indices))
    ensures Bracketed(strands, indices, i)
    ensures i in BreakTimes(strands)
    ensures TimesSoFar(times, i)
  {
    var next := NextTimes(strands, indices);
    var jm :| 0 <= jm < |strands| && next[jm] == i;
    forall j | 0 <= j < |strands| ensures strands[j][indices[j] - 1].t < i <= strands[j][indices[j]].t {
      assert next[j] in next;
    }
    assert i in BreakTimes(strands) by {
      assert strands[jm][indices[jm]].t == i;
    }
  }

  /** After the loop `i` is 1; appending every strand's last breakpoint completes the partition. */
  lemma Finish(strands: seq<Strand>, points1: seq<seq<Point>>, points: seq<seq<Point>>,
               indices: seq<int>, times: seq<real>, i: real)
    requires LoopInv(strands, points1, indices, times, i) && i >= 1.0
    requires |points| == |strands|
    requires forall j :: 0 <= j < |strands| ==> points[j] == points1[j] + [Eval(strands[j], 1.0)]
    ensures points == Resampled(strands)
  {
    SampledExtend(strands, points1, points, times, 1.0);
    FinalTimes(strands, indices, times, i);
    Extensionality(strands, points, times + [1.0]);
  }

  /** Once `i` reaches 1, the times met, with 1 added, are the whole common partition. */
  lemma FinalTimes(strands: seq<Strand>, indices: seq<int>, times: seq<real>, i: real)
    requires AllWellFormed(strands)
    requires Bracketed(strands, indices, i) && i >= 1.0
    requires TimesSoFar(times, i) && AllBreaks(strands, times)
    requires Covers(strands, indices, times)
    ensures times + [1.0] == PartitionTimes(strands)
  {
    var n := |strands|;
    forall j | 0 <= j < n ensures strands[j][indices[j]].t == 1.0 {
      LastIsLatest(strands[j], indices[j]);
    }
    var ts := times + [1.0];
    assert 1.0 in BreakTimes(strands) by {
      assert strands[0][|strands[0]| - 1].t == 1.0;
    }
    forall x ensures x in ts <==> x in BreakTimes(strands) {
      if x in ts {
        var m :| 0 <= m < |ts| && ts[m] == x;
        if m < |times| {
          assert times[m] == x;
        }
      }
      if x in BreakTimes(strands) {
        var j', k :| 0 <= j' < n && 0 <= k < |strands[j']| && strands[j'][k].t == x;
        if k >= indices[j'] {
          LastIsLatest(strands[j'], k);
          assert x == 1.0;
        } else {
          assert x in Passed(strands[j'], indices[j']);
          assert x in Elems(times);
        }
      }
    }
    AppendIncreasing(times, 1.0);
    AscendingUnique(ts, BreakTimes(strands));
  }

  lemma AppendIncreasing(ts: seq<real>, x: real)
    requires StrictlyIncreasing(ts) && |ts| >= 1 && ts[|ts| - 1] < x
    ensures StrictlyIncreasing(ts + [x])
  {
    var us := ts + [x];
    forall a, b | 0 <= a < b < |us| ensures us[a] < us[b] {
      if b < |ts| {
        assert us[a] == ts[a] && us[b] == ts[b];
      } else if a < |ts| - 1 {
        assert ts[a] < ts[|ts| - 1];
      }
    }
  }

  /** No breakpoint of a well-formed strand is later than 1; one at or after a time-1 breakpoint is the last. */
  lemma LastIsLatest(s: Strand, k: nat)
    requires WellFormed(s) && k < |s|
    ensures s[k].t <= 1.0
    ensures s[k].t >= 1.0 ==> s[k].t == 1.0
  {
    if k < |s| - 1 {
      assert s[k].t < s[|s| - 1].t;
    }
  }

  lemma Extensionality(strands: seq<Strand>, points: seq<seq<Point>>, times: seq<real>)
    requires AllWellFormed(strands)
    requires times == PartitionTimes(strands)
    requires |points| == |strands|
    requires forall j :: 0 <= j < |strands| ==> |points[j]| == |times|
    requires forall j, m :: 0 <= j < |strands| && 0 <= m < |times| ==> points[j][m] == Eval(strands[j], times[m])
    ensures points == Resampled(strands)
  {
    var r := Resampled(strands);
    forall j | 0 <= j < |strands| ensures points[j] == r[j] {
    }
  }

  /** The common partition runs from 0 to 1 and has at least one sub-interval. */
  lemma PartitionEnds(strands: seq<Strand>)
    requires AllWellFormed(strands)
    ensures |PartitionTimes(strands)| >= 2
    ensures PartitionTimes(strands)[0] == 0.0
    ensures PartitionTimes(strands)[|PartitionTimes(strands)| - 1] == 1.0
  {
    var S := BreakTimes(strands);
    var ts := PartitionTimes(strands);
    var s0 := strands[0];
    assert WellFormed(s0);
    assert s0[0].t in S && s0[|s0| - 1].t in S;
    forall x | x in S
      ensures 0.0 <= x <= 1.0
    {
      var j, k :| 0 <= j < |strands| && 0 <= k < |strands[j]| && strands[j][k].t == x;
      var s := strands[j];
      assert WellFormed(s);
      assert s[0].t <= s[k].t <= s[|s| - 1].t;
    }
    assert 0.0 in ts && 1.0 in ts;
    var a :| 0 <= a < |ts| && ts[a] == 0.0;
    var b :| 0 <= b < |ts| && ts[b] == 1.0;
    assert a != b;
    var last := |ts| - 1;
    assert ts[0] in S && ts[last] in S;
    IncreasingBounds(ts, a);
    IncreasingBounds(ts, b);
  }

  lemma IncreasingBounds(ts: seq<real>, a: int)
    requires StrictlyIncreasing(ts) && 0 <= a < |ts|
    ensures ts[0] <= ts[a] <= ts[|ts| - 1]
  {
  }

  /**
   * After resampling every strand has one point per partition time, its first
   * point is its start point and its last point is its end point.
   */
  lemma ResampledEnds(strands: seq<Strand>)
    requires AllWellFormed(strands)
    ensures |Resampled(strands)| == |strands|
    ensures forall j :: 0 <= j < |strands| ==> |Resampled(strands)[j]| == |PartitionTimes(strands)| >= 2
    ensures forall j :: 0 <= j < |strands| ==>
      && Resampled(strands)[j][0] == strands[j][0].p
      && Resampled(strands)[j][|PartitionTimes(strands)| - 1] == strands[j][|strands[j]| - 1].p
  {
    PartitionEnds(strands);
    forall j | 0 <= j < |strands|
      ensures Eval(strands[j], 0.0) == strands[j][0].p && Eval(strands[j], 1.0) == strands[j][|strands[j]| - 1].p
    {
      assert WellFormed(strands[j]);
      EvalEnds(strands[j]);
    }
  }
}
