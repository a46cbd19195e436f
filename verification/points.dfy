/** Integer screen points and their component-wise arithmetic. */
module Points {

  /** A point of the drawing surface, compared by value. */
  datatype Point = Point(x: int, y: int)

  const Origin: Point := Point(0, 0)

  /** Component-wise sum: the displacement from `p` to the result is `q`. */
  function Add(p: Point, q: Point): (r: Point)
    ensures r.x - p.x == q.x && r.y - p.y == q.y
  {
    Point(p.x + q.x, p.y + q.y)
  }

  /** The additive inverse: each coordinate cancels against the input's. */
  function Neg(p: Point): (r: Point)
    ensures r.x + p.x == 0 && r.y + p.y == 0
  {
    Point(-p.x, -p.y)
  }

  /** Subtraction is addition of the negation, exactly as the point type defines it. */
  function Sub(p: Point, q: Point): (r: Point)
    ensures r.x == p.x - q.x && r.y == p.y - q.y
  {
    Add(p, Neg(q))
  }

  /** The coordinate pair the drawing backend and the pointer device exchange. */
  function ToTuple(p: Point): (t: (int, int))
    ensures FromTuple(t) == p
  {
    (p.x, p.y)
  }

  function FromTuple(t: (int, int)): (p: Point)
    ensures p.x == t.0 && p.y == t.1
  {
    Point(t.0, t.1)
  }

  lemma TupleRoundTrip(p: Point, t: (int, int))
    ensures FromTuple(ToTuple(p)) == p
    ensures ToTuple(FromTuple(t)) == t
  {
  }

  lemma AddCommutes(p: Point, q: Point)
    ensures Add(p, q) == Add(q, p)
  {
  }

  lemma AddAssociates(p: Point, q: Point, s: Point)
    ensures Add(Add(p, q), s) == Add(p, Add(q, s))
  {
  }

  lemma OriginIsNeutral(p: Point)
    ensures Add(p, Origin) == p && Add(Origin, p) == p
  {
  }

  /** Negation is the additive inverse and undoes itself. */
  lemma NegIsInverse(p: Point)
    ensures Add(p, Neg(p)) == Origin
    ensures Neg(Neg(p)) == p
    ensures Sub(p, p) == Origin
  {
  }

  /** Adding back what was subtracted, or subtracting what was added, is the identity. */
  lemma SubAddCancel(p: Point, q: Point)
    ensures Add(Sub(p, q), q) == p
    ensures Sub(Add(p, q), q) == p
    ensures Add(q, Sub(p, q)) == p
  {
  }

  /** p - (p - q) == q: the anchor recovered from a pointer and its offset. */
  lemma SubSubCancel(p: Point, q: Point)
    ensures Sub(p, Sub(p, q)) == q
  {
  }
}
