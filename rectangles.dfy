/** Axis-aligned rectangles (the `Rectangle` class of flxjs.js).
    `Rect` is the value of a rectangle and carries the queries, which build
    new values; `Rectangle` is the mutable object whose setters and
    `inflate`/`offset`/`setEmpty` overwrite its four fields. */
module Rectangles {
  import opened Points

  /** `null` in the source, for "no overlap". */
  datatype Option<T> = None | Some(value: T)

  /** The `{ min, max }` object that `intersectRange` returns. */
  datatype Span = Span(min: real, max: real)

  /** `Math.max` and `Math.min` on reals. */
  function Max(p: real, q: real): real
  {
    if p >= q then p else q
  }

  function Min(p: real, q: real): real
  {
    if p <= q then p else q
  }

  /** Membership in the closed range [min, max]; empty when min > max. */
  function InclusiveRangeContains(value: real, min: real, max: real): (b: bool)
    ensures b ==> min <= max
    ensures value == min || value == max ==> (b <==> min <= max)
  {
    value >= min && value <= max
  }

  /** The overlap of the closed ranges [aMin, aMax] and [bMin, bMax]: `None`
      exactly when they share no value, otherwise the range of shared values. */
  function IntersectRange(aMin: real, aMax: real, bMin: real, bMax: real): (r: Option<Span>)
    ensures r.Some? <==> aMin <= aMax && bMin <= bMax && Max(aMin, bMin) <= Min(aMax, bMax)
    ensures r.Some? <==> exists v :: InclusiveRangeContains(v, aMin, aMax) && InclusiveRangeContains(v, bMin, bMax)
    ensures r.Some? ==> forall v :: InclusiveRangeContains(v, r.value.min, r.value.max) <==>
                                    InclusiveRangeContains(v, aMin, aMax) && InclusiveRangeContains(v, bMin, bMax)
  {
    var maxMin := Max(aMin, bMin);
    if !InclusiveRangeContains(maxMin, aMin, aMax) || !InclusiveRangeContains(maxMin, bMin, bMax) then
      None
    else
      var minMax := Min(aMax, bMax);
      if !InclusiveRangeContains(minMax, aMin, aMax) || !InclusiveRangeContains(minMax, bMin, bMax) then
        None
      else
        Some(Span(maxMin, minMax))
  }

  /** A rectangle with origin (x, y) and extents `width` and `height`, which
      may be zero or negative. */
  datatype Rect = Rect(x: real, y: real, width: real, height: real) {

    function Left(): real { x }
    function Top(): real { y }
    function Right(): real { x + width }
    function Bottom(): real { y + height }

    /** The origin; it is a contained point exactly when the rectangle is
        not empty. */
    function TopLeft(): (r: Point)
      ensures Contains(r.x, r.y) <==> !IsEmpty()
    {
      Point(x, y)
    }

    /** The far corner: the origin moved by the size. */
    function BottomRight(): (r: Point)
      ensures r == TopLeft().Add(Size())
    {
      Point(Right(), Bottom())
    }

    /** The extents, as the distance from the near edges to the far ones. */
    function Size(): (r: Point)
      ensures r == Point(Right() - Left(), Bottom() - Top())
    {
      Point(width, height)
    }

    /** Half-open containment: the left and top edges are inside, the right
        and bottom edges are not. */
    function Contains(px: real, py: real): (b: bool)
      ensures b ==> Covers(px, py) && width > 0.0 && height > 0.0
    {
      px >= x && py >= y && px < Right() && py < Bottom()
    }

    /** `Contains` on a point, i.e. the point's offset from the origin lies in
        [0, width) x [0, height). */
    function ContainsPoint(p: Point): (b: bool)
      ensures b <==> var v := p.Subtract(TopLeft());
                     0.0 <= v.x < width && 0.0 <= v.y < height
    {
      Contains(p.x, p.y)
    }

    /** Closed containment of another rectangle: its right and bottom edges
        may lie on this one's. */
    function ContainsRect(r: Rect): (b: bool)
      ensures b ==> forall px, py :: r.Covers(px, py) ==> Covers(px, py)
      ensures b ==> forall px, py :: r.Contains(px, py) ==> Contains(px, py)
    {
      r.x >= x && r.y >= y && r.Right() <= Right() && r.Bottom() <= Bottom()
    }

    /** Exact equality of the four fields. */
    function Equals(r: Rect): (b: bool)
      ensures b <==> r == this
    {
      r.x == x && r.y == y && r.width == width && r.height == height
    }

    /** Membership in the closed box [x, right] x [y, bottom]; a helper for
        stating what `intersection` computes. */
    predicate Covers(px: real, py: real)
    {
      InclusiveRangeContains(px, x, Right()) && InclusiveRangeContains(py, y, Bottom())
    }

    /** Grows the rectangle by `dx` on the left and on the right and by `dy`
        on the top and on the bottom, so its center stays where it was. */
    function Inflate(dx: real, dy: real): (r: Rect)
      ensures r.Size() == Size().Add(Point(2.0 * dx, 2.0 * dy))
      ensures r.Left() + r.Right() == Left() + Right() && r.Top() + r.Bottom() == Top() + Bottom()
    {
      Rect(x - dx, y - dy, width + 2.0 * dx, height + 2.0 * dy)
    }

    /** Moves the origin by (dx, dy) and keeps the size. */
    function Offset(dx: real, dy: real): (r: Rect)
      ensures r.TopLeft() == TopLeft().Add(Point(dx, dy)) && r.Size() == Size()
    {
      Rect(x + dx, y + dy, width, height)
    }

    /** The overlap of the two rectangles, axis by axis; `None` when either
        axis has no overlap. Touching rectangles overlap in a rectangle of
        zero extent. */
    function Intersection(toIntersect: Rect): (r: Option<Rect>)
      ensures r.Some? <==>
        && x <= Right() && toIntersect.x <= toIntersect.Right()
        && Max(x, toIntersect.x) <= Min(Right(), toIntersect.Right())
        && y <= Bottom() && toIntersect.y <= toIntersect.Bottom()
        && Max(y, toIntersect.y) <= Min(Bottom(), toIntersect.Bottom())
      ensures r.Some? ==> ContainsRect(r.value) && toIntersect.ContainsRect(r.value)
      ensures r.Some? ==> forall px, py :: r.value.Covers(px, py) <==> Covers(px, py) && toIntersect.Covers(px, py)
    {
      var xSpan := IntersectRange(x, Right(), toIntersect.x, toIntersect.Right());
      if xSpan.None? then
        None
      else
        var ySpan := IntersectRange(y, Bottom(), toIntersect.y, toIntersect.Bottom());
        if ySpan.None? then
          None
        else
          Some(Rect(xSpan.value.min, ySpan.value.min,
                    xSpan.value.max - xSpan.value.min, ySpan.value.max - ySpan.value.min))
    }

    /** Whether `intersection` is non-null, i.e. whether the two closed boxes
        share a point. */
    function Intersects(toIntersect: Rect): (b: bool)
      ensures b <==> exists px, py :: Covers(px, py) && toIntersect.Covers(px, py)
    {
      var xSpan := IntersectRange(x, Right(), toIntersect.x, toIntersect.Right());
      var ySpan := IntersectRange(y, Bottom(), toIntersect.y, toIntersect.Bottom());
      assert xSpan.Some? && ySpan.Some? ==>
        var corner := Point(xSpan.value.min, ySpan.value.min);
        Covers(corner.x, corner.y) && toIntersect.Covers(corner.x, corner.y);
      Intersection(toIntersect).Some?
    }

    /** A rectangle is empty exactly when it contains no point. */
    function IsEmpty(): (b: bool)
      ensures b <==> forall px, py :: !Contains(px, py)
    {
      assert width > 0.0 && height > 0.0 ==> Contains(x, y);
      width <= 0.0 || height <= 0.0
    }

    /** The smallest rectangle that contains both, even when they are apart
        or empty. */
    function Union(toUnion: Rect): (r: Rect)
      ensures r.ContainsRect(this) && r.ContainsRect(toUnion)
      ensures forall s: Rect :: s.ContainsRect(this) && s.ContainsRect(toUnion) ==> s.ContainsRect(r)
    {
      var minX := Min(toUnion.x, x);
      var maxX := Max(toUnion.Right(), Right());
      var minY := Min(toUnion.y, y);
      var maxY := Max(toUnion.Bottom(), Bottom());
      Rect(minX, minY, maxX - minX, maxY - minY)
    }
  }

  /** The second pair of checks in `IntersectRange` never rejects once the
      first pair has passed. */
  lemma SecondRangeCheckRedundant(aMin: real, aMax: real, bMin: real, bMax: real)
    requires InclusiveRangeContains(Max(aMin, bMin), aMin, aMax)
    requires InclusiveRangeContains(Max(aMin, bMin), bMin, bMax)
    ensures InclusiveRangeContains(Min(aMax, bMax), aMin, aMax)
    ensures InclusiveRangeContains(Min(aMax, bMax), bMin, bMax)
  {
  }

  /** Half-open point containment: the near edges are in, the far edges out. */
  lemma ContainsExample()
    ensures Rect(0.0, 0.0, 10.0, 10.0).Contains(0.0, 0.0)
    ensures !Rect(0.0, 0.0, 10.0, 10.0).Contains(10.0, 5.0)
    ensures !Rect(0.0, 0.0, 10.0, 10.0).ContainsPoint(Point(5.0, 10.0))
  {
  }

  /** Closed rectangle containment: a far edge may lie on the far edge. */
  lemma ContainsRectExample()
    ensures Rect(0.0, 0.0, 10.0, 10.0).ContainsRect(Rect(5.0, 5.0, 5.0, 5.0))
  {
  }

  lemma IsEmptyExample()
    ensures Rect(0.0, 0.0, 5.0, 0.0).IsEmpty()
    ensures !Rect(0.0, 0.0, 5.0, 1.0).IsEmpty()
  {
  }

  /** `ContainsRect` is a partial order on rectangles. */
  lemma ContainsRectIsPartialOrder(r: Rect, s: Rect, t: Rect)
    ensures r.ContainsRect(r)
    ensures r.ContainsRect(s) && s.ContainsRect(t) ==> r.ContainsRect(t)
    ensures r.ContainsRect(s) && s.ContainsRect(r) ==> r == s
  {
  }

  /** For a non-empty `inner`, closed rectangle containment agrees with
      containment of every point under the half-open test. */
  lemma ContainsRectIffContainsPoints(outer: Rect, inner: Rect)
    requires !inner.IsEmpty()
    ensures outer.ContainsRect(inner) <==>
            forall px, py :: inner.Contains(px, py) ==> outer.Contains(px, py)
  {
    if !outer.ContainsRect(inner) {
      // a point of `inner` just inside the violated edge lies outside `outer`
      var px := if inner.x < outer.x then inner.x else Max(inner.x, outer.Right());
      var py := if inner.y < outer.y then inner.y else Max(inner.y, outer.Bottom());
      if inner.x < outer.x || inner.Right() > outer.Right() {
        assert inner.Contains(px, inner.y) && !outer.Contains(px, inner.y);
      } else {
        assert inner.Contains(inner.x, py) && !outer.Contains(inner.x, py);
      }
    }
  }

  lemma IntersectionCommutes(r: Rect, s: Rect)
    ensures r.Intersection(s) == s.Intersection(r)
    ensures r.Intersects(s) == s.Intersects(r)
  {
  }

  /** The intersection is the largest rectangle of non-negative extent that
      both operands contain. */
  lemma IntersectionIsGreatest(r: Rect, s: Rect, t: Rect)
    requires t.width >= 0.0 && t.height >= 0.0
    ensures r.ContainsRect(t) && s.ContainsRect(t) <==>
            r.Intersection(s).Some? && r.Intersection(s).value.ContainsRect(t)
  {
  }

  lemma IntersectionExample()
    ensures Rect(0.0, 0.0, 4.0, 4.0).Intersection(Rect(2.0, 2.0, 4.0, 4.0)) == Some(Rect(2.0, 2.0, 2.0, 2.0))
  {
  }

  lemma DisjointIntersectionExample()
    ensures Rect(0.0, 0.0, 4.0, 4.0).Intersection(Rect(10.0, 10.0, 4.0, 4.0)) == None
  {
  }

  /** Rectangles that only touch overlap in a rectangle of zero width. */
  lemma TouchingIntersectionExample()
    ensures Rect(0.0, 0.0, 2.0, 2.0).Intersection(Rect(2.0, 0.0, 2.0, 2.0)) == Some(Rect(2.0, 0.0, 0.0, 2.0))
  {
  }

  lemma UnionCommutes(r: Rect, s: Rect)
    ensures r.Union(s) == s.Union(r)
  {
  }

  lemma UnionExample()
    ensures Rect(0.0, 0.0, 2.0, 2.0).Union(Rect(5.0, 5.0, 2.0, 2.0)) == Rect(0.0, 0.0, 7.0, 7.0)
  {
  }

  /** Inflating by non-negative amounts gives a rectangle that contains the
      original; inflating back by the opposite amounts restores it. */
  lemma InflateGrows(r: Rect, dx: real, dy: real)
    ensures dx >= 0.0 && dy >= 0.0 ==> r.Inflate(dx, dy).ContainsRect(r)
    ensures r.Inflate(dx, dy).Inflate(-dx, -dy) == r
  {
  }

  /** Offsetting moves every contained point along with the rectangle, and
      the opposite offset undoes it. */
  lemma OffsetMovesPoints(r: Rect, dx: real, dy: real, px: real, py: real)
    ensures r.Offset(dx, dy).Contains(px + dx, py + dy) == r.Contains(px, py)
    ensures r.Offset(dx, dy).Offset(-dx, -dy) == r
  {
  }

  /** A rectangle whose four fields the setters and mutators overwrite. */
  class Rectangle {
    var x: real
    var y: real
    var width: real
    var height: real

    /** The rectangle the fields currently describe; the getters `left()`,
        `top()`, `right()`, `bottom()`, `topLeft()`, `bottomRight()` and
        `size()` are `Value().Left()` and so on. */
    function Value(): Rect
      reads this
    {
      Rect(x, y, width, height)
    }

    constructor (x: real, y: real, width: real, height: real)
      ensures Value() == Rect(x, y, width, height)
    {
      this.x, this.y, this.width, this.height := x, y, width, height;
    }

    /** `new Rectangle()`: every field zero. */
    constructor Default()
      ensures Value() == Rect(0.0, 0.0, 0.0, 0.0)
    {
      x, y, width, height := 0.0, 0.0, 0.0, 0.0;
    }

    /** `left(newX)`: moves the left edge and keeps the right edge. */
    method SetLeft(newX: real) returns (r: real)
      modifies this
      ensures r == newX
      ensures Value().Left() == newX && Value().Right() == old(Value().Right())
      ensures y == old(y) && height == old(height)
    {
      width := width + (x - newX);
      x := newX;
      r := x;
    }

    /** `top(newY)`: moves the top edge and keeps the bottom edge. */
    method SetTop(newY: real) returns (r: real)
      modifies this
      ensures r == newY
      ensures Value().Top() == newY && Value().Bottom() == old(Value().Bottom())
      ensures x == old(x) && width == old(width)
    {
      height := height + (y - newY);
      y := newY;
      r := y;
    }

    /** `right(newX)`: moves the right edge and keeps the origin. */
    method SetRight(newX: real) returns (r: real)
      modifies this
      ensures r == newX
      ensures Value().Right() == newX
      ensures x == old(x) && y == old(y) && height == old(height)
    {
      width := newX - x;
      r := x + width;
    }

    /** `bottom(newY)`: moves the bottom edge and keeps the origin. */
    method SetBottom(newY: real) returns (r: real)
      modifies this
      ensures r == newY
      ensures Value().Bottom() == newY
      ensures x == old(x) && y == old(y) && width == old(width)
    {
      height := newY - y;
      r := y + height;
    }

    method Clone() returns (r: Rectangle)
      ensures fresh(r)
      ensures r.Value() == Value()
    {
      r := new Rectangle(x, y, width, height);
    }

    method Inflate(dx: real, dy: real)
      modifies this
      ensures Value() == old(Value()).Inflate(dx, dy)
    {
      x := x - dx;
      y := y - dy;
      width := width + 2.0 * dx;
      height := height + 2.0 * dy;
    }

    method InflatePoint(point: Point)
      modifies this
      ensures Value() == old(Value()).Inflate(point.x, point.y)
    {
      Inflate(point.x, point.y);
    }

    method Offset(dx: real, dy: real)
      modifies this
      ensures Value() == old(Value()).Offset(dx, dy)
    {
      x := x + dx;
      y := y + dy;
    }

    method OffsetPoint(point: Point)
      modifies this
      ensures Value() == old(Value()).Offset(point.x, point.y)
    {
      Offset(point.x, point.y);
    }

    method SetEmpty()
      modifies this
      ensures Value() == Rect(0.0, 0.0, 0.0, 0.0)
      ensures Value().IsEmpty()
    {
      x := 0.0;
      y := 0.0;
      width := 0.0;
      height := 0.0;
    }
  }
}
