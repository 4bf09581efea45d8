/**
 * Complex numbers as pairs of reals, the way the braid extraction stores them
 * (`[c.real(), c.imag()]`), and the samples `(t, c)` of a piecewise-linear strand.
 * Arithmetic is exact; Sage's Zariski–Van Kampen code works in 64-bit precision.
 */
module Geometry {

  datatype Point = Point(re: real, im: real)

  /** One breakpoint `(t, c)` of a piecewise-linear strand. */
  datatype Sample = Sample(t: real, p: Point)

  /** The numbers Python compares when it compares `[c.real(), c.imag()]`. */
  function Key(p: Point): seq<real> {
    [p.re, p.im]
  }

  /** Python's `[a.real, a.imag] < [b.real, b.imag]`: real parts first, then imaginary parts. */
  predicate Less(a: Point, b: Point) {
    a.re < b.re || (a.re == b.re && a.im < b.im)
  }

  /**
   * The point at time `t` on the straight segment from sample `a` to sample `b`,
   * written as Sage's `braid_from_piecewise` writes it: `xaux + (yaux - xaux) * (t - aaux) / (baux - aaux)`.
   */
  function Lerp(a: Sample, b: Sample, t: real): Point
    requires a.t != b.t
  {
    Point(a.p.re + (b.p.re - a.p.re) * (t - a.t) / (b.t - a.t),
          a.p.im + (b.p.im - a.p.im) * (t - a.t) / (b.t - a.t))
  }

  lemma LerpAtStart(a: Sample, b: Sample)
    requires a.t != b.t
    ensures Lerp(a, b, a.t) == a.p
  {
  }

  lemma LerpAtEnd(a: Sample, b: Sample)
    requires a.t != b.t
    ensures Lerp(a, b, b.t) == b.p
  {
    var d := b.t - a.t;
    assert (b.p.re - a.p.re) * d / d == b.p.re - a.p.re;
    assert (b.p.im - a.p.im) * d / d == b.p.im - a.p.im;
  }

  function Sub(a: Point, b: Point): Point {
    Point(a.re - b.re, a.im - b.im)
  }

  /** Sage's `norm()` of a complex number: the square of its absolute value. */
  function Norm(a: Point): (r: real)
    ensures r >= 0.0
  {
    a.re * a.re + a.im * a.im
  }

  /** No point occurs twice. */
  ghost predicate Distinct(s: seq<Point>) {
    forall a, b :: 0 <= a < b < |s| ==> s[a] != s[b]
  }
}
