/** Points and vectors of the plane (the `Point` class of flxjs.js).
    The source never mutates a point after construction, so a point is a value. */
module Points {

  /** A position or displacement; `Point(0.0, 0.0)` is what `new Point()` builds. */
  datatype Point = Point(x: real, y: real) {

    /** Component-wise sum; subtracting `q` again gives back the receiver. */
    function Add(q: Point): (r: Point)
      ensures r.Subtract(q) == this
    {
      Point(x + q.x, y + q.y)
    }

    /** Component-wise difference; it is the zero vector exactly when the points coincide. */
    function Subtract(q: Point): (r: Point)
      ensures r == Point(0.0, 0.0) <==> this == q
    {
      Point(x - q.x, y - q.y)
    }

    /** Scalar product; a vector dotted with itself is its squared length,
        never negative and zero only for the zero vector. */
    function Dot(q: Point): (r: real)
      ensures q == this ==> r >= 0.0
      ensures q == this ==> (r == 0.0 <==> this == Point(0.0, 0.0))
    {
      SquareFacts(x);
      SquareFacts(y);
      x * q.x + y * q.y
    }

    /** Two-dimensional cross product (the determinant of the two vectors);
        with the dot product it satisfies Lagrange's identity. */
    function Cross(q: Point): (r: real)
      ensures r * r + Dot(q) * Dot(q) == Dot(this) * q.Dot(q)
    {
      x * q.y - y * q.x
    }

    /** A copy with the same coordinates. */
    function Clone(): (r: Point)
      ensures r.x == x && r.y == y
    {
      Point(x, y)
    }
  }

  /** A square is never negative, and it is zero only for zero. */
  lemma SquareFacts(v: real)
    ensures v * v >= 0.0
    ensures v * v == 0.0 ==> v == 0.0
  {
    if v != 0.0 {
      assert v == (v * v) / v;
    }
  }

  lemma SubtractUndoesAdd(p: Point, q: Point)
    ensures p.Add(q).Subtract(q) == p
    ensures p.Subtract(q).Add(q) == p
  {
  }

  lemma DotSymmetric(p: Point, q: Point)
    ensures p.Dot(q) == q.Dot(p)
  {
  }

  lemma CrossAntisymmetric(p: Point, q: Point)
    ensures p.Cross(q) == -q.Cross(p)
    ensures p.Cross(p) == 0.0
  {
  }
}
