/** Two-dimensional affine transforms (the `Matrix` class of flxjs.js).
    `Affine` is the value of a matrix and carries the pure operations;
    `Matrix` is the mutable object whose methods overwrite its six fields. */
module Matrices {
  import opened Points

  /** The transform (x, y) -> (a*x + c*y + tx, b*x + d*y + ty). */
  datatype Affine = Affine(a: real, b: real, c: real, d: real, tx: real, ty: real) {

    /** The determinant of the linear part (`adbc` in `invert`). */
    function Determinant(): real
    {
      a * d - b * c
    }

    /** The image of `p` under this transform: the origin goes to the
        translation (tx, ty) and the unit points to the columns of the linear
        part moved by it (see ConcatIsComposition, InverseUndoesTransform). */
    function TransformPoint(p: Point): (r: Point)
      ensures p == Point(0.0, 0.0) ==> r == Point(tx, ty)
      ensures p == Point(1.0, 0.0) ==> r == Point(a + tx, b + ty)
      ensures p == Point(0.0, 1.0) ==> r == Point(c + tx, d + ty)
    {
      Point(p.x * a + p.y * c + tx, p.x * b + p.y * d + ty)
    }

    /** Adds the offset to the translation part: the same map, followed by
        a shift by (dx, dy). */
    function Translate(dx: real, dy: real): Affine
    {
      Affine(a, b, c, d, tx + dx, ty + dy)
    }

    /** The product that applies this transform first and `m` second
        (see ConcatIsComposition). */
    function Concat(m: Affine): Affine
    {
      Affine(
        a * m.a + b * m.c, a * m.b + b * m.d,
        c * m.a + d * m.c, c * m.b + d * m.d,
        tx * m.a + ty * m.c + m.tx, tx * m.b + ty * m.d + m.ty)
    }

    /** Composition with the pure scale matrix (sx, 0, 0, sy, 0, 0)
        (see ScaleMultipliesComponents). */
    function Scale(sx: real, sy: real): Affine
    {
      Concat(Affine(sx, 0.0, 0.0, sy, 0.0, 0.0))
    }

    /** The inverse transform, by the closed form over the determinant
        (see InverseUndoesTransform). */
    function Inverse(): Affine
      requires Determinant() != 0.0
    {
      var adbc := Determinant();
      Affine(
        d / adbc, -b / adbc,
        -c / adbc, a / adbc,
        (c * ty - d * tx) / adbc,
        -((a * ty - b * tx) / adbc))
    }

    /** This transform followed by `Zoom(center, zoomFactor)`. */
    function ZoomAroundPoint(center: Point, zoomFactor: real): Affine
    {
      Concat(Zoom(center, zoomFactor))
    }
  }

  /** The zoom by `zoomFactor` about `center`, built as the source builds it:
      the identity composed with a translation of `center` to the origin, a
      uniform scale, and the translation back. */
  function Zoom(center: Point, zoomFactor: real): Affine
  {
    var translateToOrigin := Identity.Translate(-center.x, -center.y);
    var scale := Identity.Scale(zoomFactor, zoomFactor);
    var translateFromOrigin := Identity.Translate(center.x, center.y);
    Identity.Concat(translateToOrigin).Concat(scale).Concat(translateFromOrigin)
  }

  /** What `new Matrix()` holds. */
  const Identity := Affine(1.0, 0.0, 0.0, 1.0, 0.0, 0.0)

  /** Two transforms that agree on the origin and the two unit points are equal
      field by field: the six fields are read off those three images. */
  lemma DeterminedByUnitPoints(m1: Affine, m2: Affine)
    requires m1.TransformPoint(Point(0.0, 0.0)) == m2.TransformPoint(Point(0.0, 0.0))
    requires m1.TransformPoint(Point(1.0, 0.0)) == m2.TransformPoint(Point(1.0, 0.0))
    requires m1.TransformPoint(Point(0.0, 1.0)) == m2.TransformPoint(Point(0.0, 1.0))
    ensures m1 == m2
  {
  }

  /** The zoom's six fields: a uniform scale whose translation part keeps `center` fixed. */
  lemma ZoomClosedForm(center: Point, zoomFactor: real)
    ensures Zoom(center, zoomFactor) == Affine(zoomFactor, 0.0, 0.0, zoomFactor,
                                               center.x - zoomFactor * center.x,
                                               center.y - zoomFactor * center.y)
  {
    var toOrigin := Identity.Concat(Identity.Translate(-center.x, -center.y));
    assert toOrigin == Affine(1.0, 0.0, 0.0, 1.0, -center.x, -center.y);
    var scaled := toOrigin.Concat(Identity.Scale(zoomFactor, zoomFactor));
    assert scaled == Affine(zoomFactor, 0.0, 0.0, zoomFactor, -center.x * zoomFactor, -center.y * zoomFactor);
  }

  /** Scaling multiplies every x-component by `sx` and every y-component by `sy`,
      so each image is scaled about the origin after `m` is applied. */
  lemma ScaleMultipliesComponents(m: Affine, sx: real, sy: real, p: Point)
    ensures m.Scale(sx, sy) == Affine(m.a * sx, m.b * sy, m.c * sx, m.d * sy, m.tx * sx, m.ty * sy)
    ensures m.Scale(sx, sy).TransformPoint(p) == Point(m.TransformPoint(p).x * sx, m.TransformPoint(p).y * sy)
  {
    assert m.Scale(sx, sy) == Affine(m.a * sx, m.b * sy, m.c * sx, m.d * sy, m.tx * sx, m.ty * sy);
    ScaledSum(p.x, p.y, m.a, m.c, m.tx, sx);
    ScaledSum(p.x, p.y, m.b, m.d, m.ty, sy);
  }

  /** Scaling the three coefficients of an image coordinate scales the coordinate. */
  lemma ScaledSum(px: real, py: real, u: real, v: real, w: real, s: real)
    ensures px * (u * s) + py * (v * s) + w * s == (px * u + py * v + w) * s
  {
  }

  /** `Zoom` is the concatenation of its three parts, whichever way they were obtained. */
  lemma ZoomFromParts(center: Point, zoomFactor: real, toOrigin: Affine, scaled: Affine, fromOrigin: Affine)
    requires toOrigin == Identity.Translate(-center.x, -center.y)
    requires scaled == Identity.Scale(zoomFactor, zoomFactor)
    requires fromOrigin == Identity.Translate(center.x, center.y)
    ensures Identity.Concat(toOrigin).Concat(scaled).Concat(fromOrigin) == Zoom(center, zoomFactor)
  {
  }

  lemma IdentityIsNeutral(m: Affine, p: Point)
    ensures Identity.TransformPoint(p) == p
    ensures Identity.Concat(m) == m && m.Concat(Identity) == m
  {
  }

  /** `m1.Concat(m2)` maps every point as `m1` followed by `m2`. */
  lemma ConcatIsComposition(m1: Affine, m2: Affine, p: Point)
    ensures m1.Concat(m2).TransformPoint(p) == m2.TransformPoint(m1.TransformPoint(p))
  {
    ConcatImageX(m1, m2, p);
    ConcatImageY(m1, m2, p);
  }

  /** The x coordinate of `ConcatIsComposition`. */
  lemma ConcatImageX(m1: Affine, m2: Affine, p: Point)
    ensures m1.Concat(m2).TransformPoint(p).x == m2.TransformPoint(m1.TransformPoint(p)).x
  {
    var q := m1.TransformPoint(p);
    var r := m1.Concat(m2);
    calc {
      m2.TransformPoint(q).x;
    ==
      (p.x * m1.a + p.y * m1.c + m1.tx) * m2.a + (p.x * m1.b + p.y * m1.d + m1.ty) * m2.c + m2.tx;
    ==  { ComposedCoordinate(p.x, p.y, m1.a, m1.c, m1.tx, m1.b, m1.d, m1.ty, m2.a, m2.c, m2.tx); }
      p.x * (m1.a * m2.a + m1.b * m2.c) + p.y * (m1.c * m2.a + m1.d * m2.c) + (m1.tx * m2.a + m1.ty * m2.c + m2.tx);
    ==
      r.TransformPoint(p).x;
    }
  }

  /** The y coordinate of `ConcatIsComposition`. */
  lemma ConcatImageY(m1: Affine, m2: Affine, p: Point)
    ensures m1.Concat(m2).TransformPoint(p).y == m2.TransformPoint(m1.TransformPoint(p)).y
  {
    var q := m1.TransformPoint(p);
    var r := m1.Concat(m2);
    calc {
      m2.TransformPoint(q).y;
    ==
      (p.x * m1.a + p.y * m1.c + m1.tx) * m2.b + (p.x * m1.b + p.y * m1.d + m1.ty) * m2.d + m2.ty;
    ==  { ComposedCoordinate(p.x, p.y, m1.a, m1.c, m1.tx, m1.b, m1.d, m1.ty, m2.b, m2.d, m2.ty); }
      p.x * (m1.a * m2.b + m1.b * m2.d) + p.y * (m1.c * m2.b + m1.d * m2.d) + (m1.tx * m2.b + m1.ty * m2.d + m2.ty);
    ==
      r.TransformPoint(p).y;
    }
  }

  /** One coordinate of the image of the image (qx, qy) of (px, py), regrouped
      by `px`, `py` and the constant term as `Concat` groups it. */
  lemma ComposedCoordinate(px: real, py: real, a: real, c: real, tx: real, b: real, d: real, ty: real,
                           u: real, v: real, w: real)
    ensures (px * a + py * c + tx) * u + (px * b + py * d + ty) * v + w
         == px * (a * u + b * v) + py * (c * u + d * v) + (tx * u + ty * v + w)
  {
  }

  /** The determinant of a product is the product of the determinants. */
  lemma DeterminantOfConcat(m1: Affine, m2: Affine)
    ensures m1.Concat(m2).Determinant() == m1.Determinant() * m2.Determinant()
  {
    ProductOfDeterminants(m1.a, m1.b, m1.c, m1.d, m2.a, m2.b, m2.c, m2.d);
  }

  /** The polynomial identity behind DeterminantOfConcat. */
  lemma ProductOfDeterminants(a: real, b: real, c: real, d: real, e: real, f: real, g: real, h: real)
    ensures (a * e + b * g) * (c * f + d * h) - (a * f + b * h) * (c * e + d * g)
         == (a * d - b * c) * (e * h - f * g)
  {
    calc {
      (a * e + b * g) * (c * f + d * h) - (a * f + b * h) * (c * e + d * g);
    ==
      (a * e * c * f + a * e * d * h + b * g * c * f + b * g * d * h)
      - (a * f * c * e + a * f * d * g + b * h * c * e + b * h * d * g);
    ==
      a * e * d * h + b * g * c * f - a * f * d * g - b * h * c * e;
    ==
      (a * d - b * c) * (e * h - f * g);
    }
  }

  /** `Translate` keeps the map and then shifts every image by (dx, dy). */
  lemma TranslateShiftsImages(m: Affine, dx: real, dy: real, p: Point)
    ensures m.Translate(dx, dy).TransformPoint(p) == m.TransformPoint(p).Add(Point(dx, dy))
  {
    var q := m.TransformPoint(p);
    var shifted := m.Translate(dx, dy).TransformPoint(p);
    assert shifted.x == (p.x * m.a + p.y * m.c + m.tx) + dx;
    assert shifted.y == (p.x * m.b + p.y * m.d + m.ty) + dy;
  }

  /** The six fields `invert` computes from `adbc` are those of the inverse. */
  lemma InverseOfFields(m: Affine, adbc: real, inverse: Affine)
    requires adbc == m.Determinant() && adbc != 0.0
    requires inverse == Affine(m.d / adbc, -m.b / adbc, -m.c / adbc, m.a / adbc,
                               (m.c * m.ty - m.d * m.tx) / adbc, -((m.a * m.ty - m.b * m.tx) / adbc))
    ensures inverse == m.Inverse()
  {
  }

  /** The fields of the inverse, written with the reciprocal `k` of the determinant. */
  lemma InverseFields(m: Affine, k: real)
    requires m.Determinant() != 0.0 && k == 1.0 / m.Determinant()
    ensures m.Determinant() * k == 1.0
    ensures m.Inverse() == Affine(m.d * k, -m.b * k, -m.c * k, m.a * k,
                                  (m.c * m.ty - m.d * m.tx) * k, -((m.a * m.ty - m.b * m.tx) * k))
  {
    QuotientsAsProducts(m.a, m.b, m.c, m.d, m.tx, m.ty, m.Determinant(), k);
  }

  /** Each quotient by `D` is the product with its reciprocal `k`. */
  lemma QuotientsAsProducts(a: real, b: real, c: real, d: real, tx: real, ty: real, D: real, k: real)
    requires D != 0.0 && k == 1.0 / D
    ensures D * k == 1.0
    ensures d / D == d * k && -b / D == -b * k && -c / D == -c * k && a / D == a * k
    ensures (c * ty - d * tx) / D == (c * ty - d * tx) * k
    ensures -((a * ty - b * tx) / D) == -((a * ty - b * tx) * k)
  {
  }

  /** The inverse, written with the reciprocal `k` of the determinant, sends the
      image (qx, qy) of (px, py) back to (px, py). */
  lemma UndoImage(px: real, py: real, a: real, b: real, c: real, d: real, tx: real, ty: real, k: real)
    requires (a * d - b * c) * k == 1.0
    ensures var qx, qy := px * a + py * c + tx, px * b + py * d + ty;
            qx * (d * k) + qy * (-c * k) + (c * ty - d * tx) * k == px
    ensures var qx, qy := px * a + py * c + tx, px * b + py * d + ty;
            qx * (-b * k) + qy * (a * k) + -((a * ty - b * tx) * k) == py
  {
    var qx, qy := px * a + py * c + tx, px * b + py * d + ty;
    calc {
      qx * (d * k) + qy * (-c * k) + (c * ty - d * tx) * k;
    ==
      (qx * d - qy * c + c * ty - d * tx) * k;
    ==  { assert qx * d - qy * c + c * ty - d * tx == px * (a * d - b * c); }
      px * ((a * d - b * c) * k);
    }
    calc {
      qx * (-b * k) + qy * (a * k) + -((a * ty - b * tx) * k);
    ==
      (qy * a - qx * b - a * ty + b * tx) * k;
    ==  { assert qy * a - qx * b - a * ty + b * tx == py * (a * d - b * c); }
      py * ((a * d - b * c) * k);
    }
  }

  /** The image (ux, uy) of (px, py) under the inverse, written with the
      reciprocal `k` of the determinant, is sent back to (px, py). */
  lemma UndoInverseImage(px: real, py: real, a: real, b: real, c: real, d: real, tx: real, ty: real, k: real)
    requires (a * d - b * c) * k == 1.0
    ensures var ux := px * (d * k) + py * (-c * k) + (c * ty - d * tx) * k;
            var uy := px * (-b * k) + py * (a * k) + -((a * ty - b * tx) * k);
            ux * a + uy * c + tx == px && ux * b + uy * d + ty == py
  {
    var u := px * d - py * c + c * ty - d * tx;
    var v := py * a - px * b - a * ty + b * tx;
    var ux := px * (d * k) + py * (-c * k) + (c * ty - d * tx) * k;
    var uy := px * (-b * k) + py * (a * k) + -((a * ty - b * tx) * k);
    assert ux == u * k;
    assert uy == v * k;
    calc {
      ux * a + uy * c + tx;
    ==
      (u * a + v * c) * k + tx;
    ==  { assert u * a + v * c == (px - tx) * (a * d - b * c); }
      (px - tx) * ((a * d - b * c) * k) + tx;
    }
    calc {
      ux * b + uy * d + ty;
    ==
      (u * b + v * d) * k + ty;
    ==  { assert u * b + v * d == (py - ty) * (a * d - b * c); }
      (py - ty) * ((a * d - b * c) * k) + ty;
    }
  }

  /** The inverse maps every image `m.TransformPoint(p)` back to `p`. */
  lemma InverseUndoesTransform(m: Affine, p: Point)
    requires m.Determinant() != 0.0
    ensures m.Inverse().TransformPoint(m.TransformPoint(p)) == p
  {
    var k := 1.0 / m.Determinant();
    InverseFields(m, k);
    UndoImage(p.x, p.y, m.a, m.b, m.c, m.d, m.tx, m.ty, k);
  }

  /** Transforming an image of the inverse gives back the original point. */
  lemma TransformUndoesInverse(m: Affine, p: Point)
    requires m.Determinant() != 0.0
    ensures m.TransformPoint(m.Inverse().TransformPoint(p)) == p
  {
    var k := 1.0 / m.Determinant();
    InverseFields(m, k);
    UndoInverseImage(p.x, p.y, m.a, m.b, m.c, m.d, m.tx, m.ty, k);
  }

  /** Inverting and composing in either order gives the identity. */
  lemma InverseIsTwoSided(m: Affine)
    requires m.Determinant() != 0.0
    ensures m.Concat(m.Inverse()) == Identity
    ensures m.Inverse().Concat(m) == Identity
  {
    var inv := m.Inverse();
    forall p | p in {Point(0.0, 0.0), Point(1.0, 0.0), Point(0.0, 1.0)}
      ensures m.Concat(inv).TransformPoint(p) == Identity.TransformPoint(p)
      ensures inv.Concat(m).TransformPoint(p) == Identity.TransformPoint(p)
    {
      ConcatIsComposition(m, inv, p);
      ConcatIsComposition(inv, m, p);
      InverseUndoesTransform(m, p);
      TransformUndoesInverse(m, p);
    }
    DeterminedByUnitPoints(m.Concat(inv), Identity);
    DeterminedByUnitPoints(inv.Concat(m), Identity);
  }

  /** The inverse's determinant is the reciprocal of the original's. */
  lemma InverseDeterminant(m: Affine)
    requires m.Determinant() != 0.0
    ensures m.Inverse().Determinant() * m.Determinant() == 1.0
  {
    InverseIsTwoSided(m);
    DeterminantOfConcat(m, m.Inverse());
  }

  /** Inverting twice restores all six fields. */
  lemma InverseInvolutive(m: Affine)
    requires m.Determinant() != 0.0
    ensures m.Inverse().Determinant() != 0.0
    ensures m.Inverse().Inverse() == m
  {
    var inv := m.Inverse();
    InverseDeterminant(m);
    forall p | p in {Point(0.0, 0.0), Point(1.0, 0.0), Point(0.0, 1.0)}
      ensures inv.Inverse().TransformPoint(p) == m.TransformPoint(p)
    {
      InverseUndoesTransform(m, p);
      InverseUndoesTransform(inv, m.TransformPoint(p));
    }
    DeterminedByUnitPoints(inv.Inverse(), m);
  }

  /** A zoom about `center` moves every point `center + v` to `center + zoomFactor * v`;
      in particular the center itself stays fixed. */
  lemma ZoomScalesAboutCenter(center: Point, zoomFactor: real, p: Point)
    ensures Zoom(center, zoomFactor).TransformPoint(p)
         == Point(center.x + zoomFactor * (p.x - center.x), center.y + zoomFactor * (p.y - center.y))
    ensures Zoom(center, zoomFactor).TransformPoint(center) == center
  {
    ZoomClosedForm(center, zoomFactor);
  }

  /** `ZoomAroundPoint` applies the receiver's transform and then the zoom. */
  lemma ZoomAroundPointIsComposition(m: Affine, center: Point, zoomFactor: real, p: Point)
    ensures m.ZoomAroundPoint(center, zoomFactor).TransformPoint(p)
         == Zoom(center, zoomFactor).TransformPoint(m.TransformPoint(p))
  {
    ConcatIsComposition(m, Zoom(center, zoomFactor), p);
  }

  /** A 2x3 affine matrix whose six fields are overwritten in place. */
  class Matrix {
    var a: real
    var b: real
    var c: real
    var d: real
    var tx: real
    var ty: real

    /** The transform the fields currently describe. */
    function Value(): Affine
      reads this
    {
      Affine(a, b, c, d, tx, ty)
    }

    /** `new Matrix()`: the identity. */
    constructor Default()
      ensures Value() == Identity
    {
      a, b, c, d, tx, ty := 1.0, 0.0, 0.0, 1.0, 0.0, 0.0;
    }

    constructor (a: real, b: real, c: real, d: real, tx: real, ty: real)
      ensures Value() == Affine(a, b, c, d, tx, ty)
    {
      this.a, this.b, this.c, this.d, this.tx, this.ty := a, b, c, d, tx, ty;
    }

    method Translate(x: real, y: real)
      modifies this
      ensures Value() == old(Value()).Translate(x, y)
    {
      tx := tx + x;
      ty := ty + y;
    }

    method Scale(x: real, y: real)
      modifies this
      ensures Value() == old(Value()).Scale(x, y)
    {
      var scaleMatrix := new Matrix(x, 0.0, 0.0, y, 0.0, 0.0);
      Concat(scaleMatrix);
    }

    /** Every new field is computed from the old ones before any is written,
        so `m` may be this very matrix. */
    method Concat(m: Matrix)
      modifies this
      ensures Value() == old(Value()).Concat(old(m.Value()))
    {
      var product := new Matrix(
        a * m.a + b * m.c, a * m.b + b * m.d,
        c * m.a + d * m.c, c * m.b + d * m.d,
        tx * m.a + ty * m.c + m.tx, tx * m.b + ty * m.d + m.ty);
      Copy(product);
    }

    /** The fields are read through a snapshot `m` of the current value, so
        every new field is computed before any is written, as in the source. */
    method Invert()
      requires Value().Determinant() != 0.0
      modifies this
      ensures Value() == old(Value()).Inverse()
    {
      var m := Value();
      var adbc := m.a * m.d - m.b * m.c;
      var inverse := new Matrix(
        m.d / adbc, -m.b / adbc,
        -m.c / adbc, m.a / adbc,
        (m.c * m.ty - m.d * m.tx) / adbc,
        -((m.a * m.ty - m.b * m.tx) / adbc));
      InverseOfFields(m, adbc, inverse.Value());
      Copy(inverse);
    }

    method Clone() returns (r: Matrix)
      ensures fresh(r)
      ensures r.Value() == Value()
    {
      r := new Matrix(a, b, c, d, tx, ty);
    }

    method ZoomAroundPoint(center: Point, zoomFactor: real)
      modifies this
      ensures Value() == old(Value()).ZoomAroundPoint(center, zoomFactor)
    {
      var zoom := BuildZoom(center, zoomFactor);
      Concat(zoom);
    }

    /** The `zoom` matrix of `ZoomAroundPoint`, assembled from fresh identity
        matrices by translate, scale and concat, in the source's order. */
    static method BuildZoom(center: Point, zoomFactor: real) returns (zoom: Matrix)
      ensures fresh(zoom)
      ensures zoom.Value() == Zoom(center, zoomFactor)
    {
      var translateToOrigin := Translation(-center.x, -center.y);
      var scale := Scaling(zoomFactor, zoomFactor);
      var translateFromOrigin := Translation(center.x, center.y);
      ghost var toOrigin, scaled, fromOrigin := translateToOrigin.Value(), scale.Value(), translateFromOrigin.Value();
      zoom := ConcatInOrder(translateToOrigin, scale, translateFromOrigin);
      ZoomFromParts(center, zoomFactor, toOrigin, scaled, fromOrigin);
    }

    /** `new Matrix()` followed by `translate(x, y)`. */
    static method Translation(x: real, y: real) returns (r: Matrix)
      ensures fresh(r)
      ensures r.Value() == Identity.Translate(x, y)
    {
      r := new Matrix.Default();
      r.Translate(x, y);
    }

    /** `new Matrix()` followed by `scale(x, y)`. */
    static method Scaling(x: real, y: real) returns (r: Matrix)
      ensures fresh(r)
      ensures r.Value() == Identity.Scale(x, y)
    {
      r := new Matrix.Default();
      r.Scale(x, y);
    }

    /** A fresh identity matrix concatenated with `first`, `second` and
        `third` in turn (the `zoom` matrix of `ZoomAroundPoint`). */
    static method ConcatInOrder(first: Matrix, second: Matrix, third: Matrix) returns (r: Matrix)
      ensures fresh(r)
      ensures r.Value() == Identity.Concat(first.Value()).Concat(second.Value()).Concat(third.Value())
    {
      ghost var m3 := third.Value();
      r := ConcatPair(first, second);
      ghost var v := r.Value();
      r.Concat(third);
      assert r.Value() == v.Concat(m3);
    }

    /** A fresh identity matrix concatenated with `first` and then `second`. */
    static method ConcatPair(first: Matrix, second: Matrix) returns (r: Matrix)
      ensures fresh(r)
      ensures r.Value() == Identity.Concat(first.Value()).Concat(second.Value())
    {
      ghost var m2 := second.Value();
      r := ConcatOne(first);
      ghost var v := r.Value();
      r.Concat(second);
      assert r.Value() == v.Concat(m2);
    }

    /** A fresh identity matrix concatenated with `first`. */
    static method ConcatOne(first: Matrix) returns (r: Matrix)
      ensures fresh(r)
      ensures r.Value() == Identity.Concat(first.Value())
    {
      ghost var m1 := first.Value();
      r := new Matrix.Default();
      r.Concat(first);
      IdentityIsNeutral(m1, Point(0.0, 0.0));
      assert r.Value() == m1;
    }

    method Copy(m: Matrix)
      modifies this
      ensures Value() == old(m.Value())
    {
      a := m.a;
      b := m.b;
      c := m.c;
      d := m.d;
      tx := m.tx;
      ty := m.ty;
    }
  }
}
