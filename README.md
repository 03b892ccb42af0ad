# flxjs geometry in Dafny

flxjs.js provides three small 2D geometry types that mimic ActionScript 3's
`flash.geom` package:

- `Matrix`: a 2x3 affine transform with fields `a, b, c, d, tx, ty`.
  - It maps a point `(x, y)` to `(a*x + c*y + tx, b*x + d*y + ty)`.
  - `translate`, `scale`, `concat`, `invert`, `zoomAroundPoint` and `copy` overwrite the six fields in place.
- `Point`: a vector with `add`, `subtract`, `dot`, `cross` and `clone`.
- `Rectangle`: an axis-aligned box stored as `x, y, width, height`.
  - Edges: combined getter/setters `left/top/right/bottom`, plus `topLeft`, `bottomRight` and `size`.
  - Containment: half-open point containment (`contains`) and closed rectangle containment (`containsRect`).
  - Combination: `intersection` (null when there is no overlap) and `union`.
  - In-place mutators: `inflate`, `offset` and `setEmpty`.

The project has three modules, one per type. All numbers are Dafny `real`.

- `Points` (points.dfy): `Point` is a datatype, because the source never changes a point after building it.
- `Matrices` (matrices.dfy):
  - `Affine` is the value of a matrix and carries the pure operations.
  - `Matrix` is a class with the six real fields. Each mutating method is specified by the `Affine` function it applies to the old value (`ensures Value() == old(Value()).Concat(old(m.Value()))`).
  - Lemmas prove what those functions mean:
    - `Concat` is composition of maps.
    - `Inverse` undoes the map from both sides, and inverting twice gives the matrix back.
    - A zoom scales every point about its center, so the center stays fixed.
- `Rectangles` (rectangles.dfy):
  - `Rect` is the value of a rectangle and carries the queries (containment, intersection, union, emptiness).
  - `Rectangle` is a class with the four fields; its edge setters and `inflate`/`offset`/`setEmpty` are methods with `modifies this`.

## Model

| member | source | states |
|---|---|---|
| Points.Point.Add | flxjs.js:169-172 | subtracting `q` from `p + q` gives back `p` |
| Points.Point.Subtract | flxjs.js:174-177 | the difference is the zero vector exactly when the two points are equal |
| Points.Point.Dot | flxjs.js:179-182 | a vector dotted with itself is never negative, and is zero exactly for the zero vector |
| Points.Point.Cross | flxjs.js:184-187 | Lagrange's identity: `cross(p,q)^2 + dot(p,q)^2 == |p|^2 * |q|^2` |
| Points.Point.Clone | flxjs.js:189-191 | the copy has the receiver's two coordinates |
| Points.SubtractUndoesAdd | flxjs.js:169-177 | `p.add(q).subtract(q) == p` and `p.subtract(q).add(q) == p` |
| Points.DotSymmetric | flxjs.js:179-182 | `p.dot(q) == q.dot(p)` |
| Points.CrossAntisymmetric | flxjs.js:184-187 | `p.cross(q) == -q.cross(p)`, so `p.cross(p) == 0` |
| Matrices.Matrix.Default | flxjs.js:45-62 | `new Matrix()` holds the identity (1, 0, 0, 1, 0, 0) |
| Matrices.Matrix.constructor | flxjs.js:45-62 | the new matrix holds the six given fields |
| Matrices.IdentityIsNeutral | flxjs.js:45-71 | the identity maps every point to itself and is neutral for concat on both sides |
| Matrices.Affine.TransformPoint | flxjs.js:64-71 | the origin goes to (tx, ty) and the unit points to (a + tx, b + ty) and (c + tx, d + ty); `ConcatIsComposition` and `InverseUndoesTransform` state how images compose and invert |
| Matrices.ConcatIsComposition | flxjs.js:88-97 | `m1.concat(m2)` maps every point as `transformPoint` of `m1` and then of `m2` |
| Matrices.TranslateShiftsImages | flxjs.js:73-78 | after translate the map is the old map followed by a shift of every image by (x, y) |
| Matrices.Matrix.Translate | flxjs.js:73-78 | the new value is the old value with (x, y) added to (tx, ty), and a, b, c, d unchanged |
| Matrices.ScaleMultipliesComponents | flxjs.js:80-86 | scale multiplies a, c, tx by sx and b, d, ty by sy, so every image is scaled about the origin |
| Matrices.Matrix.Scale | flxjs.js:80-86 | the new value is the old value concatenated with the scale matrix (sx, 0, 0, sy, 0, 0) |
| Matrices.Matrix.Concat | flxjs.js:88-97 | the new value is the old value concatenated with the old value of `m`, also when `m` is the receiver |
| Matrices.DeterminantOfConcat | flxjs.js:88-97 | the determinant of a concatenation is the product of the determinants |
| Matrices.Matrix.Invert | flxjs.js:99-111 | for a nonzero determinant `adbc`, the new value is the closed-form inverse of the old one |
| Matrices.InverseUndoesTransform | flxjs.js:99-111 | the inverse maps `m.transformPoint(p)` back to `p` |
| Matrices.TransformUndoesInverse | flxjs.js:99-111 | `m` maps the inverse's image of `p` back to `p` |
| Matrices.InverseIsTwoSided | flxjs.js:99-111 | concatenating a matrix and its inverse in either order gives the identity |
| Matrices.InverseDeterminant | flxjs.js:99-111 | the inverse's determinant is the reciprocal of the original's |
| Matrices.InverseInvolutive | flxjs.js:99-111 | the inverse is invertible, and inverting twice restores all six fields |
| Matrices.Matrix.Clone | flxjs.js:113-122 | a fresh matrix with the receiver's value |
| Matrices.Matrix.ZoomAroundPoint | flxjs.js:124-141 | the new value is the old value concatenated with the zoom matrix |
| Matrices.Matrix.BuildZoom | flxjs.js:125-138 | identity, then translate to the origin, then scale, then translate back, concatenated in that order, give `Zoom(center, zoomFactor)` |
| Matrices.ZoomClosedForm | flxjs.js:124-141 | the zoom is (f, 0, 0, f, cx - f*cx, cy - f*cy) |
| Matrices.ZoomScalesAboutCenter | flxjs.js:124-141 | the zoom maps `p` to `center + f*(p - center)`, so `center` is fixed |
| Matrices.ZoomAroundPointIsComposition | flxjs.js:124-141 | after `zoomAroundPoint` the map is the old map followed by the zoom |
| Matrices.Matrix.Copy | flxjs.js:143-152 | the receiver's value becomes the old value of `m` |
| Rectangles.Rectangle.constructor | flxjs.js:194-214 | the new rectangle holds the four given fields |
| Rectangles.Rectangle.Default | flxjs.js:194-214 | `new Rectangle()` has every field zero |
| Rectangles.Rectangle.SetBottom | flxjs.js:216-220 | `bottom(v)`: the bottom edge becomes `v` and `v` is returned; x, y and width are unchanged |
| Rectangles.Rect.BottomRight | flxjs.js:222-224 | the far corner is the top-left corner moved by the size |
| Rectangles.Rectangle.SetLeft | flxjs.js:226-233 | `left(v)`: the left edge becomes `v` and `v` is returned; the right edge, y and height are unchanged |
| Rectangles.Rectangle.SetRight | flxjs.js:235-239 | `right(v)`: the right edge becomes `v` and `v` is returned; x, y and height are unchanged |
| Rectangles.Rect.Size | flxjs.js:241-243 | the size is the distance from the left and top edges to the right and bottom ones |
| Rectangles.Rectangle.SetTop | flxjs.js:245-252 | `top(v)`: the top edge becomes `v` and `v` is returned; the bottom edge, x and width are unchanged |
| Rectangles.Rect.TopLeft | flxjs.js:254-256 | the origin is itself a contained point exactly when the rectangle is not empty |
| Rectangles.Rectangle.Clone | flxjs.js:258-260 | a fresh rectangle with the receiver's value |
| Rectangles.Rect.Contains | flxjs.js:262-269 | a contained point lies in the closed box and the rectangle has positive width and height; `IsEmpty` and `ContainsRectIffContainsPoints` relate it to emptiness and to `containsRect` |
| Rectangles.ContainsExample | flxjs.js:262-273 | `(0,0,10,10)` contains `(0,0)` but neither `(10,5)` nor the point `(5,10)` |
| Rectangles.Rect.ContainsPoint | flxjs.js:271-273 | a point is contained exactly when its offset from the origin lies in `[0, width) x [0, height)` |
| Rectangles.Rect.ContainsRect | flxjs.js:275-282 | when it holds, every point of the inner rectangle, closed or half-open, is a point of the outer one; `ContainsRectIffContainsPoints` gives the converse for a non-empty inner rectangle |
| Rectangles.ContainsRectExample | flxjs.js:275-282 | `(0,0,10,10)` contains `(5,5,5,5)`: far edges may coincide |
| Rectangles.ContainsRectIsPartialOrder | flxjs.js:275-282 | `containsRect` is reflexive, transitive and antisymmetric |
| Rectangles.ContainsRectIffContainsPoints | flxjs.js:262-282 | for a non-empty inner rectangle, `containsRect` holds exactly when every point it contains is contained in the outer one |
| Rectangles.Rect.Equals | flxjs.js:284-291 | true exactly when the two rectangles are equal |
| Rectangles.Rect.Inflate | flxjs.js:293-298 | the size grows by (2dx, 2dy) and the center stays where it was |
| Rectangles.Rectangle.Inflate | flxjs.js:293-298 | the new value is the old value inflated by (dx, dy) |
| Rectangles.InflateGrows | flxjs.js:293-298 | inflating by non-negative amounts gives a rectangle that contains the original, and inflating by the opposite amounts undoes it |
| Rectangles.Rectangle.InflatePoint | flxjs.js:300-302 | the new value is the old value inflated by the point's coordinates |
| Rectangles.InclusiveRangeContains | flxjs.js:304-310 | a range holds a value only when `min <= max`, and a well-formed range holds both of its ends |
| Rectangles.IntersectRange | flxjs.js:304-326 | null exactly when the closed ranges share no value; otherwise the span holds exactly the shared values |
| Rectangles.SecondRangeCheckRedundant | flxjs.js:321-323 | the second pair of range checks never rejects once the first pair has passed |
| Rectangles.Rect.Intersection | flxjs.js:328-350 | non-null exactly when both axis ranges are well-formed and overlap; the result is contained in both operands and covers exactly their common points |
| Rectangles.IntersectionCommutes | flxjs.js:328-356 | `intersection` and `intersects` do not depend on operand order |
| Rectangles.IntersectionIsGreatest | flxjs.js:328-350 | a rectangle of non-negative extent is contained in both operands exactly when it is contained in their intersection |
| Rectangles.IntersectionExample | flxjs.js:328-350 | `(0,0,4,4) ∩ (2,2,4,4) = (2,2,2,2)` |
| Rectangles.DisjointIntersectionExample | flxjs.js:328-350 | disjoint rectangles give null |
| Rectangles.TouchingIntersectionExample | flxjs.js:328-350 | rectangles that only touch give a zero-width intersection, not null |
| Rectangles.Rect.Intersects | flxjs.js:352-356 | true exactly when the two closed boxes share a point |
| Rectangles.Rect.IsEmpty | flxjs.js:358-360 | true exactly when the half-open rectangle contains no point |
| Rectangles.IsEmptyExample | flxjs.js:358-360 | zero height is empty; positive width and height is not |
| Rectangles.Rect.Offset | flxjs.js:362-365 | the origin moves by (dx, dy) and the size is kept |
| Rectangles.Rectangle.Offset | flxjs.js:362-365 | the new value is the old value offset by (dx, dy) |
| Rectangles.OffsetMovesPoints | flxjs.js:362-365 | a point moved by (dx, dy) is contained in the moved rectangle exactly when the original point is contained in the original, and the opposite offset undoes it |
| Rectangles.Rectangle.OffsetPoint | flxjs.js:367-369 | the new value is the old value offset by the point's coordinates |
| Rectangles.Rectangle.SetEmpty | flxjs.js:371-376 | every field becomes zero and the rectangle is empty |
| Rectangles.Rect.Union | flxjs.js:388-401 | the result contains both operands and is contained in every rectangle that contains both |
| Rectangles.UnionCommutes | flxjs.js:388-401 | `union` does not depend on operand order |
| Rectangles.UnionExample | flxjs.js:388-401 | `(0,0,2,2) ∪ (5,5,2,2) = (0,0,7,7)` |

## Left out

- `Rectangle.toString` (flxjs.js:378-386) is not modelled. Its text depends on JavaScript's conversion of doubles to decimal strings.
- IEEE-754 doubles, rounding, `Infinity` and `NaN` are not modelled; every number is an exact `real`.
- Matrices.Matrix.Invert: requires a nonzero determinant. With a zero determinant the source divides by zero and stores non-finite values, which reals cannot represent. `Matrices.Affine.Inverse` has the same precondition.
- `===` in `equals` is modelled as equality of reals. The one case where it differs from numeric equality, `NaN`, does not exist over reals.
- Argument defaulting through `typeof ... === 'undefined'`:
  - It is modelled only as the argument-less constructors `Matrix.Default` (the identity) and `Rectangle.Default` (all zero).
  - The zero `Point()` is `Point(0.0, 0.0)`.
  - Calls that pass only some of the arguments are not modelled.
- The `(Number)(x)` coercion in the `Point` constructor is not modelled: coordinates are reals already.
- The `Matrix` mutators return the receiver for chaining. The methods here return nothing; the new state is in their postconditions.
- The combined getter/setters `left/top/right/bottom` are split in two.
  - The getters are `Rect.Left()`, `Top()`, `Right()` and `Bottom()` on the value `Value()`.
  - The setters are `Rectangle.SetLeft` and so on.
  - `topLeft`, `bottomRight` and `size` are likewise functions of `Rect`.
- `right(v)` and `bottom(v)` return the recomputed edge `x + width` (`y + height`). `SetRight`/`SetBottom` do the same and prove that over reals this equals `v` (`r == newX`).
- `Matrix.invert` reads its six fields through a snapshot `m := Value()` before it builds the new matrix. The source reads `this.a` and so on directly. Both compute every new field from the old values before `copy` writes any.
- `zoomAroundPoint` builds its three temporary matrices and their concatenation in helper methods (`Translation`, `Scaling`, `ConcatInOrder`). Each helper performs the source's own steps on fresh matrices.
