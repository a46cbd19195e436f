/** Wrap correction of a vertex's two bearings and the trisection blend. Bearings
    are reals in (-π, π], the range of atan2; the trigonometry that produces
    them is not part of this model. */
module Angles {

  /** The value of π the program works with. Every proof here uses only π > 0. */
  const Pi: real := 3.141592653589793

  predicate InBearingRange(a: real)
  {
    -Pi < a <= Pi
  }

  function Abs(a: real): real
  {
    if a < 0.0 then -a else a
  }

  predicate Between(lo: real, x: real, hi: real)
  {
    (lo <= x <= hi) || (hi <= x <= lo)
  }

  /** The bearings toward the left and the right neighbour, after wrap correction. */
  datatype Pair = Pair(left: real, right: real)

  /** The two rays that split the swept angle into three equal parts. */
  datatype Thirds = Thirds(oneThird: real, twoThirds: real)

  /** Wrap correction: when the bearings have opposite signs and their absolute
      values add up to more than π, the linear blend would sweep the exterior
      angle, so a full turn is added to the negative one. */
  function WrapCorrect(l: real, r: real): (p: Pair)
    ensures p.left == l || (l < 0.0 && p.left == l + 2.0 * Pi)
    ensures p.right == r || (r < 0.0 && p.right == r + 2.0 * Pi)
    ensures p != Pair(l, r) <==> ((l < 0.0 < r || r < 0.0 < l) && Abs(l) + Abs(r) > Pi)
    ensures p.left == l || p.right == r
    ensures InBearingRange(l) && InBearingRange(r) ==> Abs(p.left - p.right) <= Pi
  {
    ProductNegative(l, r);
    if l * r < 0.0 && Abs(l) + Abs(r) > Pi then
      if l < 0.0 then Pair(l + 2.0 * Pi, r) else Pair(l, r + 2.0 * Pi)
    else
      Pair(l, r)
  }

  /** The sign test of the program, a negative product, means opposite signs. */
  lemma ProductNegative(l: real, r: real)
    ensures l * r < 0.0 <==> (l < 0.0 < r || r < 0.0 < l)
  {
    if l < 0.0 && r < 0.0 {
      assert l * r == (-l) * (-r);
    } else if l > 0.0 && r < 0.0 {
      assert l * r == -(l * (-r));
    } else if l < 0.0 && r > 0.0 {
      assert l * r == -((-l) * r);
    }
  }

  /** The corrected pair sweeps the shorter of the two arcs between the
      directions: its difference is the smaller of |l - r| and 2π - |l - r|. */
  lemma WrapSweepsShorterArc(l: real, r: real)
    requires InBearingRange(l) && InBearingRange(r)
    ensures var p := WrapCorrect(l, r); Abs(p.left - p.right) == ShorterArc(l, r) <= Pi
  {
  }

  /** The length of the shorter of the two arcs between bearings `l` and `r`. */
  function ShorterArc(l: real, r: real): real
  {
    var d := Abs(l - r);
    if d <= 2.0 * Pi - d then d else 2.0 * Pi - d
  }

  /** The linear blend: oneThird is two parts `l` and one part `r`, twoThirds
      the reverse. */
  function Trisect(l: real, r: real): (t: Thirds)
    ensures t.oneThird - l == t.twoThirds - t.oneThird == r - t.twoThirds
    ensures Between(l, t.oneThird, r) && Between(l, t.twoThirds, r)
    ensures Abs(t.oneThird - l) <= Abs(t.twoThirds - l)
  {
    Thirds((2.0 / 3.0) * l + (1.0 / 3.0) * r, (1.0 / 3.0) * l + (2.0 / 3.0) * r)
  }

  /** The trisectors of one vertex from its two bearings. */
  function VertexThirds(angleLeft: real, angleRight: real): (t: Thirds)
    ensures InBearingRange(angleLeft) && InBearingRange(angleRight) ==>
              3.0 * Abs(t.twoThirds - t.oneThird) == ShorterArc(angleLeft, angleRight) <= Pi
  {
    var p := WrapCorrect(angleLeft, angleRight);
    Trisect(p.left, p.right)
  }
}
