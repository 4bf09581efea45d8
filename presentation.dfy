/**
 * The assembly of the presentation in `fundamental_group`: the vertices of
 * the segments, each carrying `d` generators of a free group, and one
 * relator for every segment and every generator of the fibre, obtained from
 * the braid of the segment acting on that generator.
 */
module Presentation {
  import opened Geometry
  import opened Results

  /** One entry of `braidscomputed`: a segment from vertex `start` to vertex `end`, and its braid as a word. */
  datatype Computed = Computed(start: Point, end: Point, braid: seq<int>)

  /** The relator `w1 / w2`, with both words in Tietze form (letter `n` is generator `n`, `-n` its inverse). */
  datatype Relator = Relator(lhs: seq<int>, rhs: seq<int>)

  /** A presentation `F / rels` of a free group on `ngens` generators. */
  datatype Presentation = Presentation(ngens: nat, rels: seq<Relator>)

  /** `flatten(segs)`: both end points of every segment, in order. */
  function Endpoints(segs: seq<(Point, Point)>): (ps: seq<Point>)
    ensures |ps| == 2 * |segs|
    decreases |segs|
  {
    if segs == [] then [] else [segs[0].0, segs[0].1] + Endpoints(segs[1..])
  }

  /** Both ends of every segment, and nothing else, are among the end points. */
  lemma {:induction false} EndpointsMembers(segs: seq<(Point, Point)>)
    ensures forall q :: q in segs ==> q.0 in Endpoints(segs) && q.1 in Endpoints(segs)
    ensures forall p :: p in Endpoints(segs) ==> exists q :: q in segs && (p == q.0 || p == q.1)
    decreases |segs|
  {
    if segs != [] {
      EndpointsMembers(segs[1..]);
      assert forall q :: q in segs ==> q == segs[0] || q in segs[1..];
      assert forall q :: q in segs[1..] ==> q in segs;
    }
  }

  /** `list(set(ps))`: every point once. The order Python's set gives is not modelled; this keeps first occurrences. */
  function Dedup(ps: seq<Point>): (vs: seq<Point>)
    decreases |ps|
  {
    if ps == [] then []
    else
      var rest := Dedup(ps[..|ps| - 1]);
      if ps[|ps| - 1] in rest then rest else rest + [ps[|ps| - 1]]
  }

  /** `Dedup` keeps every point exactly once: the same members as its input, with no repetition. */
  lemma {:induction false} DedupMembers(ps: seq<Point>)
    ensures Distinct(Dedup(ps))
    ensures forall p :: p in Dedup(ps) <==> p in ps
    decreases |ps|
  {
    if ps != [] {
      var front := ps[..|ps| - 1];
      DedupMembers(front);
      assert forall p :: p in ps <==> p in front || p == ps[|ps| - 1];
    }
  }

  /** `vertices = list(set(flatten(segs)))`. */
  function Vertices(segs: seq<(Point, Point)>): seq<Point> {
    Dedup(Endpoints(segs))
  }

  /** The vertices are distinct, and they are exactly the end points of the segments. */
  lemma VerticesOf(segs: seq<(Point, Point)>)
    ensures Distinct(Vertices(segs))
    ensures forall q :: q in segs ==> q.0 in Vertices(segs) && q.1 in Vertices(segs)
    ensures forall p :: p in Vertices(segs) ==> exists q :: q in segs && (p == q.0 || p == q.1)
  {
    EndpointsMembers(segs);
    DedupMembers(Endpoints(segs));
  }

  /** `vertices.index(v)`: the first position of `v`. */
  function IndexOf(vs: seq<Point>, v: Point): (i: nat)
    requires v in vs
    ensures i < |vs| && vs[i] == v
    ensures forall m :: 0 <= m < i ==> vs[m] != v
    decreases |vs|
  {
    if vs[0] == v then 0 else IndexOf(vs[1..], v) + 1
  }

  function Abs(a: int): nat {
    if a < 0 then -a else a
  }

  /** Sage's `sign(a)`. */
  function Sign(a: int): int {
    if a > 0 then 1 else if a < 0 then -1 else 0
  }

  /** Every letter of `w` is a generator `1..n` or its inverse. */
  ghost predicate Letters(w: seq<int>, n: int) {
    forall m :: 0 <= m < |w| ==> 1 <= Abs(w[m]) <= n
  }

  /** `[sign(a) * d * i + a for a in w]`: the generators of the fibre moved to the `d` generators of vertex `i`. */
  function Reindex(w: seq<int>, d: int, i: int): (r: seq<int>)
    ensures |r| == |w|
  {
    seq(|w|, m requires 0 <= m < |w| => Sign(w[m]) * d * i + w[m])
  }

  /** The inverse of `Reindex`: a letter of the block of vertex `i` back to a generator of the fibre. */
  function Unindex(r: seq<int>, d: int, i: int): (w: seq<int>)
    ensures |w| == |r|
  {
    seq(|r|, m requires 0 <= m < |r| => r[m] - Sign(r[m]) * d * i)
  }

  /**
   * A letter `a` with `1 <= |a| <= d` becomes one of the generators
   * `d*i+1 .. d*i+d` of vertex `i` or its inverse, with the sign of `a`.
   */
  lemma ReindexRange(w: seq<int>, d: int, i: int)
    requires Letters(w, d) && i >= 0
    ensures forall m :: 0 <= m < |w| ==>
      d * i + 1 <= Abs(Reindex(w, d, i)[m]) <= d * i + d && Sign(Reindex(w, d, i)[m]) == Sign(w[m])
  {
    forall m | 0 <= m < |w|
      ensures d * i + 1 <= Abs(Reindex(w, d, i)[m]) <= d * i + d
      ensures Sign(Reindex(w, d, i)[m]) == Sign(w[m])
    {
      var a := w[m];
      assert 1 <= Abs(a) <= d;
      NonNegativeProduct(d, i);
      if a > 0 {
        assert Reindex(w, d, i)[m] == d * i + a;
      } else {
        assert Reindex(w, d, i)[m] == -(d * i) + a;
      }
    }
  }

  lemma NonNegativeProduct(x: int, y: int)
    requires x >= 0 && y >= 0
    ensures x * y >= 0
  {
  }

  /** Reindexing loses nothing: the fibre's letters come back from the vertex's. */
  lemma ReindexRoundTrip(w: seq<int>, d: int, i: int)
    requires Letters(w, d) && i >= 0
    ensures Unindex(Reindex(w, d, i), d, i) == w
  {
    ReindexRange(w, d, i);
    forall m | 0 <= m < |w|
      ensures Unindex(Reindex(w, d, i), d, i)[m] == w[m]
    {
      assert Sign(Reindex(w, d, i)[m]) == Sign(w[m]);
    }
  }

  /** `prod(F.gen(i) for i in range(d))`: the product of the generators of the first vertex. */
  function FirstProduct(d: nat): (w: seq<int>)
    ensures |w| == d && forall m :: 0 <= m < d ==> w[m] == m + 1
  {
    seq(d, m requires 0 <= m < d => m + 1)
  }

  /**
   * The first `k` relators of a segment from vertex `i` to vertex `j` with
   * braid `braid`: for each generator `m + 1` of the fibre, its image under
   * the braid, moved to vertex `i`, over generator `m + 1` of vertex `j`.
   */
  function Block(i: int, j: int, braid: seq<int>, d: nat, act: (int, seq<int>) -> seq<int>, k: nat): (rs: seq<Relator>)
    ensures |rs| == k
  {
    if k == 0 then []
    else Block(i, j, braid, d, act, k - 1) + [Relator(Reindex(act(k - 1, braid), d, i), [d * j + (k - 1) + 1])]
  }

  /** Relator `m` of a block is the one for generator `m + 1`. */
  lemma {:induction false} BlockAt(i: int, j: int, braid: seq<int>, d: nat, act: (int, seq<int>) -> seq<int>, k: nat, m: int)
    requires 0 <= m < k
    ensures Block(i, j, braid, d, act, k)[m] == Relator(Reindex(act(m, braid), d, i), [d * j + m + 1])
  {
    if m < k - 1 {
      BlockAt(i, j, braid, d, act, k - 1, m);
    }
  }

  /** The `d` relators of one computed segment, between its start and end vertices. */
  function SegmentRelators(vs: seq<Point>, c: Computed, d: nat, act: (int, seq<int>) -> seq<int>): (rs: seq<Relator>)
    requires c.start in vs && c.end in vs
    ensures |rs| == d
  {
    Block(IndexOf(vs, c.start), IndexOf(vs, c.end), c.braid, d, act, d)
  }

  /** Both ends of every computed segment are vertices. */
  ghost predicate OnVertices(vs: seq<Point>, cs: seq<Computed>) {
    forall c :: c in cs ==> c.start in vs && c.end in vs
  }

  /** The computed segments are segments, so their ends are vertices. */
  lemma ComputedOnVertices(segs: seq<(Point, Point)>, computed: seq<Computed>)
    requires forall c :: c in computed ==> (c.start, c.end) in segs
    ensures OnVertices(Vertices(segs), computed)
  {
    VerticesOf(segs);
  }

  /** The projective relator, when asked for. */
  function Head(d: nat, projective: bool): seq<Relator> {
    if projective then [Relator(FirstProduct(d), [])] else []
  }

  /** `rels` once the first `n` computed segments are done: the projective relator, then their relators in order. */
  function Relators(vs: seq<Point>, cs: seq<Computed>, n: int, d: nat, projective: bool,
                    act: (int, seq<int>) -> seq<int>): seq<Relator>
    requires OnVertices(vs, cs) && 0 <= n <= |cs|
    decreases n
  {
    if n == 0 then Head(d, projective)
    else Relators(vs, cs, n - 1, d, projective, act) + SegmentRelators(vs, cs[n - 1], d, act)
  }

  /**
   * The presentation of the fundamental group before simplification: `d`
   * generators per vertex, the projective relator when asked for, then the
   * relators of the segments. The projective relator needs a first vertex
   * when `d > 0`.
   */
  ghost function Assembled(segs: seq<(Point, Point)>, computed: seq<Computed>, d: nat, projective: bool,
                           act: (int, seq<int>) -> seq<int>): Result<Presentation>
    requires forall c :: c in computed ==> (c.start, c.end) in segs
  {
    var vs := Vertices(segs);
    ComputedOnVertices(segs, computed);
    if projective && d > 0 && vs == [] then Fail(MissingGenerator)
    else
      NonNegativeProduct(d, |vs|);
      Ok(Presentation(d * |vs|, Relators(vs, computed, |computed|, d, projective, act)))
  }

  /**
   * The inner loop of `fundamental_group` for one computed segment from
   * vertex `i` to vertex `j`: for each `k` in `range(d)`, the relator
   * `w1 / w2` is appended to `rels`.
   */
  method AppendSegment(rels0: seq<Relator>, vertices: seq<Point>, c: Computed, d: nat,
                       act: (int, seq<int>) -> seq<int>) returns (rels: seq<Relator>)
    requires c.start in vertices && c.end in vertices
    ensures rels == rels0 + SegmentRelators(vertices, c, d, act)
  {
    var i := IndexOf(vertices, c.start);
    var j := IndexOf(vertices, c.end);
    rels := rels0;
    for k := 0 to d
      invariant rels == rels0 + Block(i, j, c.braid, d, act, k)
    {
      var w1 := Reindex(act(k, c.braid), d, i);
      var w2 := [d * j + k + 1];
      rels := rels + [Relator(w1, w2)];
    }
  }

  /**
   * The assembly loops of `fundamental_group`: `F = FreeGroup(d * len(vertices))`,
   * the projective relator, then for each computed segment and each `k` in
   * `range(d)` the relator `w1 / w2`.
   */
  method Assemble(segs: seq<(Point, Point)>, computed: seq<Computed>, d: nat, projective: bool,
                  act: (int, seq<int>) -> seq<int>) returns (r: Result<Presentation>)
    requires forall c :: c in computed ==> (c.start, c.end) in segs
    ensures r == Assembled(segs, computed, d, projective, act)
  {
    var vertices := Vertices(segs);
    ComputedOnVertices(segs, computed);
    var rels: seq<Relator> := [];
    if projective {
      if d > 0 && vertices == [] {
        return Fail(MissingGenerator);
      }
      rels := rels + [Relator(FirstProduct(d), [])];
    }
    for s := 0 to |computed|
      invariant rels == Relators(vertices, computed, s, d, projective, act)
    {
      rels := AppendSegment(rels, vertices, computed[s], d, act);
    }
    var ngens := d * |vertices|;
    NonNegativeProduct(d, |vertices|);
    r := Ok(Presentation(ngens, rels));
  }

  /** `d * a <= d * b` when `a <= b`. */
  lemma MonotoneProduct(d: int, a: int, b: int)
    requires d >= 0 && a <= b
    ensures d * a <= d * b
  {
    NonNegativeProduct(d, b - a);
    assert d * b - d * a == d * (b - a);
  }

  /** One relator for every generator of the fibre and every computed segment, after the projective one. */
  lemma {:induction false} RelatorCount(vs: seq<Point>, cs: seq<Computed>, n: int, d: nat, projective: bool,
                                        act: (int, seq<int>) -> seq<int>)
    requires OnVertices(vs, cs) && 0 <= n <= |cs|
    ensures |Relators(vs, cs, n, d, projective, act)| == |Head(d, projective)| + d * n
    decreases n
  {
    if n != 0 {
      RelatorCount(vs, cs, n - 1, d, projective, act);
      assert d * n == d * (n - 1) + d;
    } else {
      assert d * n == 0;
    }
  }

  /**
   * Relator number `d * s + k` after the projective one belongs to segment `s`
   * and generator `k + 1`: the image of that generator under the braid of the
   * segment, moved to its start vertex, over generator `k + 1` of its end vertex.
   */
  lemma RelatorAt(vs: seq<Point>, cs: seq<Computed>, n: int, d: nat, projective: bool,
                  act: (int, seq<int>) -> seq<int>, s: int, k: int)
    requires OnVertices(vs, cs) && 0 <= s < n <= |cs| && 0 <= k < d
    ensures cs[s].start in vs && cs[s].end in vs
    ensures |Head(d, projective)| + d * s + k < |Relators(vs, cs, n, d, projective, act)|
    ensures Relators(vs, cs, n, d, projective, act)[|Head(d, projective)| + d * s + k]
      == Relator(Reindex(act(k, cs[s].braid), d, IndexOf(vs, cs[s].start)), [d * IndexOf(vs, cs[s].end) + k + 1])
  {
    RelatorsLast(vs, cs, s, d, projective, act, k);
    BlockAt(IndexOf(vs, cs[s].start), IndexOf(vs, cs[s].end), cs[s].braid, d, act, d, k);
    RelatorCount(vs, cs, s, d, projective, act);
    var x := |Head(d, projective)| + d * s + k;
    RelatorsPrefix(vs, cs, s + 1, n, d, projective, act, x);
  }

  /** Later segments only add relators after the ones already there. */
  lemma {:induction false} RelatorsPrefix(vs: seq<Point>, cs: seq<Computed>, m: int, n: int, d: nat, projective: bool,
                                          act: (int, seq<int>) -> seq<int>, x: int)
    requires OnVertices(vs, cs) && 0 <= m <= n <= |cs|
    requires 0 <= x < |Relators(vs, cs, m, d, projective, act)|
    ensures x < |Relators(vs, cs, n, d, projective, act)|
    ensures Relators(vs, cs, n, d, projective, act)[x] == Relators(vs, cs, m, d, projective, act)[x]
    decreases n
  {
    if m != n {
      RelatorsPrefix(vs, cs, m, n - 1, d, projective, act, x);
      RelatorsGrow(vs, cs, n, d, projective, act, x);
    }
  }

  /** Segment `n - 1` adds `d` relators after the ones before it and leaves those alone. */
  lemma RelatorsGrow(vs: seq<Point>, cs: seq<Computed>, n: int, d: nat, projective: bool,
                     act: (int, seq<int>) -> seq<int>, x: int)
    requires OnVertices(vs, cs) && 0 < n <= |cs|
    requires 0 <= x < |Relators(vs, cs, n - 1, d, projective, act)|
    ensures |Relators(vs, cs, n, d, projective, act)| == |Relators(vs, cs, n - 1, d, projective, act)| + d
    ensures Relators(vs, cs, n, d, projective, act)[x] == Relators(vs, cs, n - 1, d, projective, act)[x]
  {
    assert cs[n - 1] in cs;
  }

  /** The relators of segment `s` come right after those of the segments before it. */
  lemma RelatorsLast(vs: seq<Point>, cs: seq<Computed>, s: int, d: nat, projective: bool,
                     act: (int, seq<int>) -> seq<int>, k: int)
    requires OnVertices(vs, cs) && 0 <= s < |cs| && 0 <= k < d
    ensures cs[s].start in vs && cs[s].end in vs
    ensures |Relators(vs, cs, s, d, projective, act)| + k < |Relators(vs, cs, s + 1, d, projective, act)|
    ensures Relators(vs, cs, s + 1, d, projective, act)[|Relators(vs, cs, s, d, projective, act)| + k]
      == SegmentRelators(vs, cs[s], d, act)[k]
  {
    assert cs[s] in cs;
  }

  /** Both sides of a relator use only generators `1..n` and their inverses. */
  ghost predicate RelatorIn(r: Relator, n: int) {
    Letters(r.lhs, n) && Letters(r.rhs, n)
  }

  /** `Faux([k + 1]) * b.inverse()` is a word in the `d` generators of the fibre, for every computed braid. */
  ghost predicate ActsOnFibre(act: (int, seq<int>) -> seq<int>, d: nat, cs: seq<Computed>) {
    forall c, k :: c in cs && 0 <= k < d ==> Letters(act(k, c.braid), d)
  }

  /** A relator between vertices `i` and `j` among `n` uses only the `d * n` generators of `F`. */
  lemma BlockLetters(i: int, j: int, n: int, braid: seq<int>, d: nat, act: (int, seq<int>) -> seq<int>, t: int)
    requires 0 <= i < n && 0 <= j < n && 0 <= t < d
    requires Letters(act(t, braid), d)
    ensures RelatorIn(Block(i, j, braid, d, act, d)[t], d * n)
  {
    BlockAt(i, j, braid, d, act, d, t);
    ReindexRange(act(t, braid), d, i);
    MonotoneProduct(d, i + 1, n);
    MonotoneProduct(d, j + 1, n);
    NonNegativeProduct(d, j);
    assert d * (i + 1) == d * i + d && d * (j + 1) == d * j + d;
  }

  /** The relators of a segment use only the `d * |vs|` generators of `F`. */
  lemma SegmentLetters(vs: seq<Point>, c: Computed, d: nat, act: (int, seq<int>) -> seq<int>)
    requires c.start in vs && c.end in vs
    requires forall k :: 0 <= k < d ==> Letters(act(k, c.braid), d)
    ensures forall t :: 0 <= t < d ==> RelatorIn(SegmentRelators(vs, c, d, act)[t], d * |vs|)
  {
    forall t | 0 <= t < d
      ensures RelatorIn(SegmentRelators(vs, c, d, act)[t], d * |vs|)
    {
      BlockLetters(IndexOf(vs, c.start), IndexOf(vs, c.end), |vs|, c.braid, d, act, t);
    }
  }

  /**
   * Every relator, the projective one included, uses only the generators of
   * `F` and their inverses, provided the braid action stays in the fibre.
   */
  lemma {:induction false} RelatorsLetters(vs: seq<Point>, cs: seq<Computed>, n: int, d: nat, projective: bool,
                                           act: (int, seq<int>) -> seq<int>)
    requires OnVertices(vs, cs) && 0 <= n <= |cs| && ActsOnFibre(act, d, cs)
    requires projective && d > 0 ==> vs != []
    ensures forall t :: 0 <= t < |Relators(vs, cs, n, d, projective, act)| ==>
      RelatorIn(Relators(vs, cs, n, d, projective, act)[t], d * |vs|)
    decreases n
  {
    if n == 0 {
      if projective && d > 0 {
        MonotoneProduct(d, 1, |vs|);
      }
    } else {
      var c := cs[n - 1];
      assert c in cs;
      RelatorsLetters(vs, cs, n - 1, d, projective, act);
      SegmentLetters(vs, c, d, act);
    }
  }

  /** The projective relator needs a vertex exactly when there are no segments. */
  lemma AssembledFails(segs: seq<(Point, Point)>, computed: seq<Computed>, d: nat, projective: bool,
                       act: (int, seq<int>) -> seq<int>)
    requires forall c :: c in computed ==> (c.start, c.end) in segs
    ensures Assembled(segs, computed, d, projective, act).Fail? <==> projective && d > 0 && segs == []
    ensures Assembled(segs, computed, d, projective, act).Fail? ==>
      Assembled(segs, computed, d, projective, act).error == MissingGenerator
  {
    VerticesOf(segs);
    if segs != [] {
      assert segs[0] in segs;
    }
  }

  /**
   * A successful assembly has `d` generators per vertex, one relator per
   * generator of the fibre and computed segment after the projective one,
   * and no letter outside the generators of `F`.
   */
  lemma AssembledShape(segs: seq<(Point, Point)>, computed: seq<Computed>, d: nat, projective: bool,
                       act: (int, seq<int>) -> seq<int>)
    requires forall c :: c in computed ==> (c.start, c.end) in segs
    requires ActsOnFibre(act, d, computed)
    requires Assembled(segs, computed, d, projective, act).Ok?
    ensures Assembled(segs, computed, d, projective, act).value.ngens == d * |Vertices(segs)|
    ensures |Assembled(segs, computed, d, projective, act).value.rels| ==
      d * |computed| + (if projective then 1 else 0)
    ensures forall t :: 0 <= t < |Assembled(segs, computed, d, projective, act).value.rels| ==>
      RelatorIn(Assembled(segs, computed, d, projective, act).value.rels[t], Assembled(segs, computed, d, projective, act).value.ngens)
  {
    var vs := Vertices(segs);
    ComputedOnVertices(segs, computed);
    RelatorCount(vs, computed, |computed|, d, projective, act);
    RelatorsLetters(vs, computed, |computed|, d, projective, act);
  }
}
