/**
 * The root matching of `braid_in_segment`: the ends of the tracked strands
 * are approximations of the roots of the fibres over the two ends of the
 * segment. Each approximation is matched to its nearest exact root, two
 * approximations must not choose the same root, and each match becomes a
 * two-point auxiliary strand from the exact root to the approximation (at
 * the start) or back (at the end). The braid of the segment is the braid of
 * the start strands, then that of the tracked strands, then that of the end
 * strands.
 */
module Segment {
  import opened Sorting
  import opened Geometry
  import opened Results
  import opened Piecewise
  import opened Braid

  /** What `sorted(distances)` compares for the pair `((approx - root).norm(), root)`. */
  function DistanceKey(approx: Point, root: Point): seq<real> {
    [Norm(Sub(approx, root))] + Key(root)
  }

  function ByDistance(approx: Point): Point -> seq<real> {
    r => DistanceKey(approx, r)
  }

  /** `sorted(distances)[0][1]`: the root nearest to `approx`, the least one among equally near roots. */
  function Nearest(approx: Point, roots: seq<Point>): Point
    requires roots != []
  {
    SortByMembers(roots, ByDistance(approx));
    SortBy(roots, ByDistance(approx))[0]
  }

  /** The first numbers decide a comparison of distance keys, the roots break ties. */
  lemma DistanceKeyOrder(approx: Point, y: Point, r: Point)
    requires LexLe(DistanceKey(approx, y), DistanceKey(approx, r))
    ensures Norm(Sub(approx, y)) <= Norm(Sub(approx, r))
    ensures Norm(Sub(approx, y)) == Norm(Sub(approx, r)) ==> LexLe(Key(y), Key(r))
  {
    var ny, nr := Norm(Sub(approx, y)), Norm(Sub(approx, r));
    LexLeHead(DistanceKey(approx, y), DistanceKey(approx, r));
    if ny == nr && Key(y) != Key(r) {
      LexCons(ny, Key(y), nr, Key(r));
    }
  }

  /** The root with the least distance key, found by one pass over the roots. */
  function Closest(approx: Point, roots: seq<Point>): (y: Point)
    requires roots != []
    ensures y in roots
    decreases |roots|
  {
    if |roots| == 1 then roots[0]
    else
      var c := Closest(approx, roots[1..]);
      if LexLe(DistanceKey(approx, roots[0]), DistanceKey(approx, c)) then roots[0] else c
  }

  /** No root has a smaller distance key than the closest one. */
  lemma {:induction false} ClosestIsLeast(approx: Point, roots: seq<Point>)
    requires roots != []
    ensures forall r :: r in roots ==> LexLe(DistanceKey(approx, Closest(approx, roots)), DistanceKey(approx, r))
    decreases |roots|
  {
    var y := Closest(approx, roots);
    if |roots| > 1 {
      var c := Closest(approx, roots[1..]);
      ClosestIsLeast(approx, roots[1..]);
      forall r | r in roots
        ensures LexLe(DistanceKey(approx, y), DistanceKey(approx, r))
      {
        if r != roots[0] {
          assert r in roots[1..];
        }
        if y == roots[0] && r != roots[0] {
          LexLeTransitive(DistanceKey(approx, y), DistanceKey(approx, c), DistanceKey(approx, r));
        } else if y != roots[0] && r == roots[0] {
          LexTrichotomy(DistanceKey(approx, roots[0]), DistanceKey(approx, c));
        }
      }
    }
  }

  /**
   * The chosen root is one of the roots, no root is nearer, and among
   * the equally near roots it has the least real part, then the least
   * imaginary part.
   */
  lemma ClosestIsNearest(approx: Point, roots: seq<Point>)
    requires roots != []
    ensures forall r :: r in roots ==> Norm(Sub(approx, Closest(approx, roots))) <= Norm(Sub(approx, r))
    ensures forall r :: r in roots && Norm(Sub(approx, r)) == Norm(Sub(approx, Closest(approx, roots))) ==>
      LexLe(Key(Closest(approx, roots)), Key(r))
  {
    ClosestIsLeast(approx, roots);
    forall r | r in roots
      ensures Norm(Sub(approx, Closest(approx, roots))) <= Norm(Sub(approx, r))
      ensures Norm(Sub(approx, r)) == Norm(Sub(approx, Closest(approx, roots))) ==>
        LexLe(Key(Closest(approx, roots)), Key(r))
    {
      DistanceKeyOrder(approx, Closest(approx, roots), r);
    }
  }

  /** The first element of the sorted distances is the closest root: sorting picks the same root as one pass. */
  lemma NearestIsClosest(approx: Point, roots: seq<Point>)
    requires roots != []
    ensures Nearest(approx, roots) == Closest(approx, roots)
  {
    var key := ByDistance(approx);
    SortByMembers(roots, key);
    var sorted := SortBy(roots, key);
    var y, c := sorted[0], Closest(approx, roots);
    SortedFirstIsLeast(sorted, key, c);
    ClosestIsLeast(approx, roots);
    assert LexLe(DistanceKey(approx, c), DistanceKey(approx, y));
    LexLeAntisymmetric(DistanceKey(approx, y), DistanceKey(approx, c));
    assert DistanceKey(approx, y)[1..] == Key(y) && DistanceKey(approx, c)[1..] == Key(c);
  }

  /** The loop's choice for one approximation: `sorted(distances)[0][1]`. */
  method ChooseRoot(approx: Point, roots: seq<Point>) returns (y: Point)
    requires roots != []
    ensures y == Closest(approx, roots)
  {
    y := Nearest(approx, roots);
    NearestIsClosest(approx, roots);
  }

  /** The root chosen for each approximation. */
  function Choices(approx: seq<Point>, roots: seq<Point>): (cs: seq<Point>)
    requires roots != []
    ensures |cs| == |approx|
  {
    seq(|approx|, m requires 0 <= m < |approx| => Closest(approx[m], roots))
  }

  /** `[(0, y0), (1, y0ap)]` at the start of the segment, `[(0, y1ap), (1, y1)]` at its end. */
  function AuxStrand(root: Point, approx: Point, atStart: bool): Strand {
    if atStart then [Sample(0.0, root), Sample(1.0, approx)]
    else [Sample(0.0, approx), Sample(1.0, root)]
  }

  function AuxStrands(chosen: seq<Point>, approx: seq<Point>, atStart: bool): (r: seq<Strand>)
    requires |chosen| == |approx|
    ensures |r| == |approx|
  {
    seq(|approx|, m requires 0 <= m < |approx| => AuxStrand(chosen[m], approx[m], atStart))
  }

  /**
   * The auxiliary strands of one end of the segment: no approximations need
   * no roots; otherwise there must be roots, and the approximations must
   * choose pairwise different ones.
   */
  ghost function Matched(approx: seq<Point>, roots: seq<Point>, atStart: bool): Result<seq<Strand>> {
    if approx == [] then Ok([])
    else if roots == [] then Fail(NoRoots)
    else if Distinct(Choices(approx, roots)) then Ok(AuxStrands(Choices(approx, roots), approx, atStart))
    else Fail(RootsTooClose)
  }

  /**
   * The loop over the approximations: each chooses its nearest root, a root
   * already in `used` is an error, and otherwise it is added to `used` and
   * its auxiliary strand to the strands.
   */
  method MatchRoots(approx: seq<Point>, roots: seq<Point>, atStart: bool) returns (r: Result<seq<Strand>>)
    ensures r == Matched(approx, roots, atStart)
  {
    var used: seq<Point> := [];
    var strands: seq<Strand> := [];
    for m := 0 to |approx|
      invariant roots == [] ==> m == 0
      invariant roots != [] ==> used == Choices(approx[..m], roots) && Distinct(used)
      invariant roots != [] ==> strands == AuxStrands(used, approx[..m], atStart)
    {
      if roots == [] {
        return Fail(NoRoots);
      }
      var y := ChooseRoot(approx[m], roots);
      if y in used {
        var a :| 0 <= a < |used| && used[a] == y;
        assert Choices(approx, roots)[a] == Choices(approx, roots)[m];
        return Fail(RootsTooClose);
      }
      assert approx[..m + 1] == approx[..m] + [approx[m]];
      used := used + [y];
      strands := strands + [AuxStrand(y, approx[m], atStart)];
    }
    if roots == [] {
      return Ok([]);
    }
    assert approx[..|approx|] == approx;
    r := Ok(strands);
  }

  /** Each auxiliary strand runs straight from `t = 0` to `t = 1`, from its root to its approximation or back. */
  lemma MatchedStrands(approx: seq<Point>, roots: seq<Point>, atStart: bool)
    requires Matched(approx, roots, atStart).Ok?
    ensures |Matched(approx, roots, atStart).value| == |approx|
    ensures forall m :: 0 <= m < |approx| ==> WellFormed(Matched(approx, roots, atStart).value[m])
    ensures forall m :: 0 <= m < |approx| ==>
      Matched(approx, roots, atStart).value[m] == AuxStrand(Closest(approx[m], roots), approx[m], atStart)
  {
  }

  /** Different approximations are matched to different roots. */
  lemma MatchedInjective(approx: seq<Point>, roots: seq<Point>, atStart: bool)
    requires Matched(approx, roots, atStart).Ok? && approx != []
    ensures roots != []
    ensures forall a, b :: 0 <= a < b < |approx| ==> Closest(approx[a], roots) != Closest(approx[b], roots)
  {
    assert forall a :: 0 <= a < |approx| ==> Choices(approx, roots)[a] == Closest(approx[a], roots);
  }

  /** The matching fails exactly when there are no roots, or two approximations share their nearest root. */
  lemma MatchedFails(approx: seq<Point>, roots: seq<Point>, atStart: bool)
    requires approx != []
    ensures Matched(approx, roots, atStart) == Fail(NoRoots) <==> roots == []
    ensures Matched(approx, roots, atStart) == Fail(RootsTooClose) <==>
      roots != [] && exists a, b :: 0 <= a < b < |approx| && Closest(approx[a], roots) == Closest(approx[b], roots)
  {
    if roots != [] && !Distinct(Choices(approx, roots)) {
      var a, b :| 0 <= a < b < |approx| && Choices(approx, roots)[a] == Choices(approx, roots)[b];
      assert Closest(approx[a], roots) == Closest(approx[b], roots);
    }
  }

  /** `[c[0][1] for c in complexstrands]`: where the tracked strands start. */
  function FirstPoints(strands: seq<Strand>): (ps: seq<Point>)
    requires forall j :: 0 <= j < |strands| ==> strands[j] != []
    ensures |ps| == |strands|
  {
    seq(|strands|, j requires 0 <= j < |strands| => strands[j][0].p)
  }

  /** `[c[-1][1] for c in complexstrands]`: where the tracked strands end. */
  function LastPoints(strands: seq<Strand>): (ps: seq<Point>)
    requires forall j :: 0 <= j < |strands| ==> strands[j] != []
    ensures |ps| == |strands|
  {
    seq(|strands|, j requires 0 <= j < |strands| => strands[j][|strands[j]| - 1].p)
  }

  /** The auxiliary strands of a successful matching form a family `braid_from_piecewise` accepts. */
  lemma MatchedWellFormed(approx: seq<Point>, roots: seq<Point>, atStart: bool)
    requires approx != [] && Matched(approx, roots, atStart).Ok?
    ensures AllWellFormed(Matched(approx, roots, atStart).value)
  {
    MatchedStrands(approx, roots, atStart);
  }

  /**
   * The braid of the segment, `initialbraid * centralbraid * finallbraid`,
   * as a word: the start strands' letters, then the tracked strands', then
   * the end strands'. A failure is the first one met in the order Sage's
   * `braid_in_segment` computes the three braids.
   */
  ghost function SegmentWord(tracked: seq<Strand>, startRoots: seq<Point>, endRoots: seq<Point>): Result<seq<int>>
    requires AllWellFormed(tracked)
  {
    match BraidWord(Resampled(tracked))
    case Fail(e) => Fail(e)
    case Ok(central) =>
      match Matched(FirstPoints(tracked), startRoots, true)
      case Fail(e) => Fail(e)
      case Ok(initial) =>
        MatchedWellFormed(FirstPoints(tracked), startRoots, true);
        match BraidWord(Resampled(initial))
        case Fail(e) => Fail(e)
        case Ok(w0) =>
          match Matched(LastPoints(tracked), endRoots, false)
          case Fail(e) => Fail(e)
          case Ok(final) =>
            MatchedWellFormed(LastPoints(tracked), endRoots, false);
            match BraidWord(Resampled(final))
            case Fail(e) => Fail(e)
            case Ok(w1) => Ok(w0 + central + w1)
  }

  /**
   * `braid_in_segment` once the strands are tracked and the roots over both
   * ends of the segment are known: the braid of the tracked strands, then
   * the matching at the start and its braid, then the matching at the end
   * and its braid.
   */
  method BraidInSegment(tracked: seq<Strand>, startRoots: seq<Point>, endRoots: seq<Point>)
    returns (r: Result<seq<int>>)
    requires AllWellFormed(tracked)
    ensures r == SegmentWord(tracked, startRoots, endRoots)
  {
    var central := BraidFromPiecewise(tracked);
    if central.Fail? {
      return central;
    }
    var initial := MatchRoots(FirstPoints(tracked), startRoots, true);
    if initial.Fail? {
      return Fail(initial.error);
    }
    MatchedWellFormed(FirstPoints(tracked), startRoots, true);
    var initialBraid := BraidFromPiecewise(initial.value);
    if initialBraid.Fail? {
      return initialBraid;
    }
    var final := MatchRoots(LastPoints(tracked), endRoots, false);
    if final.Fail? {
      return Fail(final.error);
    }
    MatchedWellFormed(LastPoints(tracked), endRoots, false);
    var finalBraid := BraidFromPiecewise(final.value);
    if finalBraid.Fail? {
      return finalBraid;
    }
    r := Ok(initialBraid.value + central.value + finalBraid.value);
  }
}
