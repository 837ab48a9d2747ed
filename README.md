# geometry — a Dafny model of `Rect` and `Point`

This project models the two value classes of the `net.avh4.math.geometry`
library:

- `Rect` is an axis-aligned rectangle stored as an origin `(minX, minY)` and
  a size `width` by `height`.
- `Point` is a 2-D coordinate.

Both classes are immutable: every operation returns a new value. So the
model is pure. Each class is a `datatype` over `real`, each method is a
function with a named result, and each boolean test is a predicate. The laws the library promises are contracts
on those functions and lemmas beside them.

Layout:

- `Point.dfy` — module `Points`: the `Point` datatype and `Point.at`.
- `Rect.dfy` — module `Rects`: the `Rect` datatype and every `Rect` method.
- `RectProperties.dfy` — module `RectProperties`: the laws of the `Rect`
  operations.
- `PointTranslate.dfy` — module `PointTranslation`: `Point.translate` and
  its laws. It needs `Rect` while `Rect` needs `Point`, and Dafny modules
  cannot import each other in a cycle, so it has a module of its own.

Modelling choices:

- Coordinates are exact reals, not IEEE doubles. Where the source would
  divide by zero and return the quotient, the function requires a nonzero
  divisor instead. `aspectRatio` only compares two quotients before it
  divides, so there a zero divisor is modelled as a double would behave:
  `Divided` gives plus or minus infinity or NaN, and `Below` compares such
  values as `<` on doubles does.
- `translate(int dx, int dy)` keeps its integer offsets.
- Two quirks are modelled as written:
  - `scale(xScale, yScale)` multiplies `minY` by `xScale`.
  - `translate(fromRect, toRect)` moves the origin by
    `fromRect.min - toRect.min`.
- `topLeft(leftX, topY)` is modelled as the unfinished stub it is.
- `Rect.java` has no `center()`. Its tests
  (`RectTest.java:171-176`) call one, so `Center` is modelled as the point
  `(midX, midY)`, which the tests expect.

## Model

| member | source | states |
|---|---|---|
| Points.At | src/main/java/net/avh4/math/geometry/Point.java:60-62 | `at(x, y)` gives back `x` and `y` from its accessors |
| Points.AtAccessors | src/main/java/net/avh4/math/geometry/Point.java:12-18 | a point is determined by its two accessors: rebuilding from them gives the same point |
| Rects.FromTopLeft | src/main/java/net/avh4/math/geometry/Rect.java:17-19 | the four accessors return the four arguments |
| Rects.FromCenter | src/main/java/net/avh4/math/geometry/Rect.java:9-11 | the result's midpoint is the given centre and its size is the given size |
| Rects.FromCenterPoint | src/main/java/net/avh4/math/geometry/Rect.java:13-15 | the centre of the result is the given point; the size is the given size |
| Rects.OfSize | src/main/java/net/avh4/math/geometry/Rect.java:21-23 | origin at (0, 0) with the given size |
| Rects.Unit | src/main/java/net/avh4/math/geometry/Rect.java:227-229 | the unit square at the origin, containing both (0, 0) and (1, 1) |
| Rects.MaxX | src/main/java/net/avh4/math/geometry/Rect.java:55-57 | right edge; stated by `EdgesAndMidpoints` |
| Rects.MaxY | src/main/java/net/avh4/math/geometry/Rect.java:51-53 | bottom edge; stated by `EdgesAndMidpoints` |
| Rects.MidX | src/main/java/net/avh4/math/geometry/Rect.java:137-139 | horizontal midpoint; stated by `EdgesAndMidpoints` and `PercentXLandmarks` |
| Rects.MidY | src/main/java/net/avh4/math/geometry/Rect.java:141-143 | vertical midpoint; stated by `EdgesAndMidpoints` |
| RectProperties.EdgesAndMidpoints | src/main/java/net/avh4/math/geometry/Rect.java:51-57 | `maxX - minX == width`, `maxY - minY == height`; the midpoints are equidistant from both edges and lie between them for a non-negative size |
| Rects.Area | src/main/java/net/avh4/math/geometry/Rect.java:171-173 | non-negative for a non-negative size; zero exactly when width or height is zero |
| Rects.Center | src/test/java/net/avh4/math/geometry/RectTest.java:171-176 | the centre is `(midX, midY)` and lies inside every rect of non-negative size |
| RectProperties.CenterRoundTrip | src/main/java/net/avh4/math/geometry/Rect.java:9-15 | `fromCenter(center(), width, height)` rebuilds the rect |
| RectProperties.CenterExamples | src/test/java/net/avh4/math/geometry/RectTest.java:171-176 | the three `center()` test cases |
| Rects.Contains | src/main/java/net/avh4/math/geometry/Rect.java:59-62 | closed containment of a coordinate pair; its laws are `ContainsEdges` |
| Rects.ContainsPoint | src/main/java/net/avh4/math/geometry/Rect.java:219-221 | containment of a `Point`; related to rect containment by `ContainsPointAsRect` |
| Rects.ContainsRect | src/main/java/net/avh4/math/geometry/Rect.java:64-67 | containment of both corners of another rect; its laws are `ContainsRectEdges` and `ContainsRectTransitive` |
| RectProperties.ContainsEdges | src/main/java/net/avh4/math/geometry/Rect.java:59-62 | the middle and all four edges are contained; a point any positive distance beyond any edge is not |
| RectProperties.ContainsPointAsRect | src/main/java/net/avh4/math/geometry/Rect.java:219-221 | `contains(Point)` holds exactly when the rect contains the zero-size rect at that point |
| RectProperties.ContainsRectEdges | src/main/java/net/avh4/math/geometry/Rect.java:64-67 | `contains(Rect)` is reflexive and fails once the inner origin moves left or up, or the inner size grows, by any positive amount |
| RectProperties.ContainsRectTransitive | src/main/java/net/avh4/math/geometry/Rect.java:64-67 | containment of rects is transitive and carries contained points along |
| Rects.Divide | src/main/java/net/avh4/math/geometry/Rect.java:109-112 | the cut between two fractions on each axis; stated by `DivideEdges`, `DivideIdentity`, `DivideCompose` and `DivideContained` |
| RectProperties.DivideEdges | src/main/java/net/avh4/math/geometry/Rect.java:109-112 | the cut's left and right edges are `percentX` of the two x fractions; its top and bottom edges are at the two y fractions of the height |
| RectProperties.DivideIdentity | src/test/java/net/avh4/math/geometry/RectTest.java:60 | `divide(0, 0, 1, 1)` is the rect itself |
| RectProperties.DivideExample | src/test/java/net/avh4/math/geometry/RectTest.java:66-67 | the `divide(.2, .3, .4, .5)` test case |
| RectProperties.DivideCompose | src/main/java/net/avh4/math/geometry/Rect.java:109-112 | dividing a divided rect equals one divide at the composed fractions |
| RectProperties.DivideContained | src/main/java/net/avh4/math/geometry/Rect.java:109-112 | with ordered fractions in [0, 1], the cut lies inside a rect of non-negative size |
| Rects.Max | src/main/java/net/avh4/math/geometry/Rect.java:116-121 | `Math.max` as `inset` uses it: at least both arguments and equal to one of them |
| Rects.Inset | src/main/java/net/avh4/math/geometry/Rect.java:114-127 | size never negative; if the insets fit, the edges move in by exactly the insets; otherwise that axis collapses to zero at the old midpoint |
| Rects.InsetAll | src/main/java/net/avh4/math/geometry/Rect.java:129-131 | keeps the centre; each side is `max(0, side - 2n)` |
| RectProperties.InsetExact | src/main/java/net/avh4/math/geometry/Rect.java:114-127 | when the insets fit, `inset(l, t, r, b)` is `fromTopLeft(minX+l, minY+t, width-l-r, height-t-b)` |
| RectProperties.InsetExample | src/test/java/net/avh4/math/geometry/RectTest.java:72 | the `inset(1, 2, 3, 4)` test case |
| RectProperties.InsetOvershrink | src/test/java/net/avh4/math/geometry/RectTest.java:81-85 | half and whole insets both give the zero-size rect at the centre |
| RectProperties.InsetContained | src/main/java/net/avh4/math/geometry/Rect.java:114-127 | with non-negative insets and size, the inset rect lies inside the original |
| Rects.Divided | src/main/java/net/avh4/math/geometry/Rect.java:146 | a nonzero divisor gives the exact quotient; a zero divisor gives plus infinity, minus infinity or NaN exactly when the dividend is positive, negative or zero |
| Rects.Below | src/main/java/net/avh4/math/geometry/Rect.java:146 | `<` on doubles; stated by `BelowIsDoubleLess` |
| RectProperties.BelowIsDoubleLess | src/main/java/net/avh4/math/geometry/Rect.java:146 | false whenever NaN takes part; otherwise a strict total order (irreflexive, asymmetric, transitive, trichotomous) with minus infinity below and plus infinity above every other value, and the real order on finite values |
| Rects.KeepsWidth | src/main/java/net/avh4/math/geometry/Rect.java:146 | the branch test `width / height < desiredWidth / desiredHeight` on doubles; stated by `KeepsWidthFinite`, `AspectRatioZeroWidth`, `AspectRatioZeroHeight` and `AspectRatioFlatSource` |
| RectProperties.KeepsWidthFinite | src/main/java/net/avh4/math/geometry/Rect.java:146 | with both heights nonzero, the branch test is the plain comparison `width / height < dw / dh` |
| Rects.AspectRatio | src/main/java/net/avh4/math/geometry/Rect.java:145-151 | keeps the midpoint and has the ratio `dw : dh`; keeps the width when the source is relatively narrower, the height otherwise; only the divisor of the branch taken must be nonzero |
| RectProperties.AspectRatioZeroWidth | src/main/java/net/avh4/math/geometry/Rect.java:145-151 | `aspectRatio(0, 1)` on a 10 by 10 rect compares against `0 / 1` and gives the zero-width rect at the same centre |
| RectProperties.AspectRatioZeroHeight | src/main/java/net/avh4/math/geometry/Rect.java:145-151 | `aspectRatio(1, 0)` compares against infinity, keeps the width and gives the zero-height rect at the same centre |
| RectProperties.AspectRatioFlatSource | src/main/java/net/avh4/math/geometry/Rect.java:145-151 | a zero-height source of non-negative width collapses to a point at its centre; one of negative width keeps its width |
| RectProperties.AspectRatioFits | src/test/java/net/avh4/math/geometry/RectTest.java:178-185 | for positive sizes: positive result, `width/height == dw/dh`, no wider and no taller than the source |
| RectProperties.AspectRatioLargest | src/main/java/net/avh4/math/geometry/Rect.java:145-151 | every rect with ratio `dw : dh` that fits in the source is no larger than the result |
| RectProperties.AspectRatioContained | src/main/java/net/avh4/math/geometry/Rect.java:145-151 | for positive sizes the fitted rect lies inside the source |
| Rects.ScaleBetween | src/main/java/net/avh4/math/geometry/Rect.java:153-159 | maps a rect from one space into another; stated by `ScaleBetweenRoundTrip`, `ScaleBetweenIdentity`, `ScaleBetweenExamples` and `ScaleBetweenCorners` |
| RectProperties.ScaleBetweenRoundTrip | src/main/java/net/avh4/math/geometry/Rect.java:153-159 | `scale(a, b)` then `scale(b, a)` gives the rect back |
| RectProperties.ScaleBetweenIdentity | src/main/java/net/avh4/math/geometry/Rect.java:153-159 | scaling from a space into itself changes nothing |
| RectProperties.ScaleBetweenExamples | src/test/java/net/avh4/math/geometry/RectTest.java:94-105 | the five `scale(fromRect, toRect)` test cases |
| PointTranslation.ScaleBetweenCorners | src/main/java/net/avh4/math/geometry/Rect.java:153-159 | the scaled rect's two corners are the rect's corners moved by `Point.translate` |
| Rects.TranslateBetween | src/main/java/net/avh4/math/geometry/Rect.java:161-165 | keeps the size; moves the origin by `fromRect.min - toRect.min` |
| RectProperties.TranslateBetweenRoundTrip | src/main/java/net/avh4/math/geometry/Rect.java:161-165 | translating from `a` to `b` and back is the identity, as is translating from a space into itself |
| RectProperties.TranslateBetweenExamples | src/test/java/net/avh4/math/geometry/RectTest.java:108-112 | the `translate(fromRect, toRect)` test cases, in the source's direction |
| PointTranslation.TranslateBetweenAgainstPoint | src/main/java/net/avh4/math/geometry/Rect.java:161-165 | between equal-sized spaces the rect origin moves where `Point.translate` with the spaces swapped moves it |
| Rects.Size | src/main/java/net/avh4/math/geometry/Rect.java:167-169 | origin at (0, 0), same size, same area |
| RectProperties.SizeForgetsPosition | src/main/java/net/avh4/math/geometry/Rect.java:167-169 | `size()` is idempotent and unaffected by either `translate` |
| Rects.TopLeft | src/main/java/net/avh4/math/geometry/Rect.java:133-135 | the stub returns the rect's size at the origin |
| RectProperties.TopLeftIgnoresArguments | src/main/java/net/avh4/math/geometry/Rect.java:133-135 | the stub's result does not depend on its arguments and equals `size()` |
| Rects.Lerp | src/main/java/net/avh4/math/geometry/Rect.java:183-185 | gives `a` at percent 0 and `b` at percent 1 |
| RectProperties.LerpBetween | src/main/java/net/avh4/math/geometry/Rect.java:183-185 | for a percent in [0, 1] the value lies between the two ends |
| RectProperties.LerpMirror | src/main/java/net/avh4/math/geometry/Rect.java:183-185 | interpolating from `a` to `b` at `p` equals interpolating from `b` to `a` at `1 - p` |
| Rects.Interpolate | src/main/java/net/avh4/math/geometry/Rect.java:175-181 | each field is interpolated on its own |
| RectProperties.InterpolateEnds | src/test/java/net/avh4/math/geometry/RectTest.java:115-120 | `interpolate(a, b, 0) == a` and `interpolate(a, b, 1) == b` |
| RectProperties.InterpolateLaws | src/main/java/net/avh4/math/geometry/Rect.java:175-185 | percent 0.5 gives the fieldwise midpoint; equal ends give that rect; swapping ends mirrors the percent |
| Rects.ResizeFromCenter | src/main/java/net/avh4/math/geometry/Rect.java:187-189 | same centre, new size |
| RectProperties.ResizeFromCenterLaws | src/main/java/net/avh4/math/geometry/Rect.java:187-189 | resizing to the same size is the identity; two resizes equal the last one; the test case |
| Rects.Left | src/main/java/net/avh4/math/geometry/Rect.java:191-193 | strip sharing the left edge, of the given width and full height |
| Rects.Top | src/main/java/net/avh4/math/geometry/Rect.java:195-197 | strip sharing the top edge, of the given height and full width |
| Rects.Right | src/main/java/net/avh4/math/geometry/Rect.java:199-201 | strip sharing the right edge, of the given width and full height |
| Rects.Bottom | src/main/java/net/avh4/math/geometry/Rect.java:203-205 | strip sharing the bottom edge, of the given height and full width |
| RectProperties.SlicesTile | src/main/java/net/avh4/math/geometry/Rect.java:191-205 | `left(px)` and `right(width - px)` meet and fill the width; likewise `top` and `bottom` fill the height |
| RectProperties.SlicesContained | src/main/java/net/avh4/math/geometry/Rect.java:191-205 | a slice no larger than the rect lies inside it; a full-size slice is the rect |
| RectProperties.SliceExamples | src/test/java/net/avh4/math/geometry/RectTest.java:134-139 | the four slice test cases |
| Rects.TranslateBy | src/main/java/net/avh4/math/geometry/Rect.java:207-209 | moves the origin by `(dx, dy)` and keeps the size |
| RectProperties.TranslateByLaws | src/main/java/net/avh4/math/geometry/Rect.java:207-209 | moving by `(-dx, -dy)` undoes a move; two moves add up |
| RectProperties.TranslateByExample | src/test/java/net/avh4/math/geometry/RectTest.java:142-144 | the `translate(3, 4)` test case |
| Rects.ScaleBy | src/main/java/net/avh4/math/geometry/Rect.java:211-213 | `minX` and `width` times `xScale`, `height` times `yScale`, and `minY` times `xScale` as written |
| RectProperties.ScaleByLaws | src/main/java/net/avh4/math/geometry/Rect.java:211-213 | the area scales by `xScale * yScale`; scaling by (1, 1) is the identity |
| RectProperties.ScaleByUsesXFactorForMinY | src/main/java/net/avh4/math/geometry/Rect.java:212 | a concrete rect whose `minY` ignores `yScale`, so its bottom edge is not `yScale` times the old one |
| RectProperties.ScaleByExample | src/test/java/net/avh4/math/geometry/RectTest.java:147-149 | the `scale(5, 2)` test case |
| Rects.PercentX | src/main/java/net/avh4/math/geometry/Rect.java:215-217 | the x coordinate at a fraction of the width; stated by `PercentXLandmarks`, `PercentXRoundTrip` and `PercentXIncreasing` |
| RectProperties.PercentXLandmarks | src/main/java/net/avh4/math/geometry/Rect.java:215-217 | `percentX` gives `minX` at 0, `midX` at 0.5 and `maxX` at 1 |
| Rects.ToPercentX | src/main/java/net/avh4/math/geometry/Rect.java:223-225 | `percentX` of the result is the given `x` |
| RectProperties.PercentXRoundTrip | src/main/java/net/avh4/math/geometry/Rect.java:215-225 | for nonzero width, `toPercentX` and `percentX` invert each other in both orders |
| RectProperties.PercentXIncreasing | src/main/java/net/avh4/math/geometry/Rect.java:215-217 | for positive width, `percentX` is strictly increasing |
| RectProperties.PercentXExamples | src/test/java/net/avh4/math/geometry/RectTest.java:151-169 | test cases of `percentX` and `toPercentX` |
| PointTranslation.Translate | src/main/java/net/avh4/math/geometry/Point.java:20-26 | maps a point from one space into another; stated by the `Translate…` lemmas below |
| PointTranslation.TranslateKeepsFraction | src/main/java/net/avh4/math/geometry/Point.java:20-26 | the new x is `percentX` of the target at the source's `toPercentX`; for a nonzero target size the point keeps its fractional position on both axes |
| PointTranslation.TranslateShift | src/main/java/net/avh4/math/geometry/Point.java:20-26 | between equal-sized spaces the point shifts by `toRect.min - fromRect.min` |
| PointTranslation.TranslateScale | src/main/java/net/avh4/math/geometry/Point.java:20-26 | between spaces at the origin each coordinate scales by the size ratio |
| PointTranslation.TranslateExamples | src/test/java/net/avh4/math/geometry/PointTest.java:20-34 | (3, 4) goes to (8, 10) and to (30, 40) |
| PointTranslation.TranslateCorners | src/main/java/net/avh4/math/geometry/Point.java:21-24 | the min and max corners of `fromRect` go to those of `toRect` |
| PointTranslation.TranslateIdentity | src/main/java/net/avh4/math/geometry/Point.java:20-26 | translating from a space into itself changes nothing |
| PointTranslation.TranslateRoundTrip | src/main/java/net/avh4/math/geometry/Point.java:20-26 | `translate(a, b)` then `translate(b, a)` gives the point back |

## Left out

- IEEE-754 behaviour (rounding, NaN, infinities, signed zero). Coordinates are exact reals. Where the source divides by a size and returns the quotient, the function requires that size to be nonzero instead of producing an infinity or NaN.
- Rects.AspectRatio: the comparison at `Rect.java:146` follows doubles (plus or minus infinity, NaN), but -0.0 is not told apart from 0.0, so a negative-zero divisor gives the infinity of the other sign in the model. A zero-height source yields a finite rect, as `AspectRatioFlatSource` states.
- RectProperties.TranslateByLaws: `translate(int dx, int dy)` takes 32-bit Java `int`s while the model's offsets are unbounded, so the `-dx` and `dx + ex` the laws use would wrap at plus or minus 2^31 in Java (for example `-Integer.MIN_VALUE`).
- `equals`, `hashCode` and `toString` of both classes. Datatype equality stands in for `equals`; the bit-level `Double.compare` distinctions, such as -0.0 against 0.0, are not modelled.
- The protected `Rect` constructor. The datatype constructor plays its part, and no subclass exists.
- The accessors `minX()`, `minY()`, `width()`, `height()`, `x()` and `y()` are the datatype's destructors and have no members of their own.
- Rects.Max: models `Math.max` on reals only; Java's NaN and -0.0 cases are left out.
