/** Axis-aligned rectangles stored as an origin plus a size (Rect.java).
    A rectangle is a value: every transform returns a new one. Width and
    height may be negative; only `Inset` clamps. Coordinates are exact
    reals, and where the source would divide by zero the function
    requires a nonzero divisor instead. */
module Rects {
  import opened Points

  /** Origin `(minX, minY)` and extent `width` by `height`. */
  datatype Rect = Rect(minX: real, minY: real, width: real, height: real)

  // ---------------------------------------------------------------------
  // Named constructors

  /** `Rect.fromTopLeft`: the accessors give back the four arguments. */
  function FromTopLeft(minX: real, minY: real, width: real, height: real): (r: Rect)
    ensures r.minX == minX && r.minY == minY
    ensures r.width == width && r.height == height
  {
    Rect(minX, minY, width, height)
  }

  /** `Rect.fromCenter(x, y, w, h)`: a rect of the given size whose midpoint
      is the given centre. */
  function FromCenter(centerX: real, centerY: real, width: real, height: real): (r: Rect)
    ensures MidX(r) == centerX && MidY(r) == centerY
    ensures r.width == width && r.height == height
  {
    Rect(centerX - width / 2.0, centerY - height / 2.0, width, height)
  }

  /** `Rect.fromCenter(Point, w, h)`: same as above with the centre given as
      a point, so `Center` of the result is that point. */
  function FromCenterPoint(center: Point, width: real, height: real): (r: Rect)
    ensures Center(r) == center
    ensures r.width == width && r.height == height
  {
    FromCenter(center.x, center.y, width, height)
  }

  /** `Rect.ofSize(w, h)`: a rect of the given size anchored at the origin. */
  function OfSize(width: real, height: real): (r: Rect)
    ensures r.minX == 0.0 && r.minY == 0.0
    ensures r.width == width && r.height == height
  {
    FromTopLeft(0.0, 0.0, width, height)
  }

  /** `Rect.unit()`: the unit square at the origin; it contains both the
      origin and the opposite corner `(1, 1)`. */
  function Unit(): (r: Rect)
    ensures r.minX == 0.0 && r.minY == 0.0 && r.width == 1.0 && r.height == 1.0
    ensures Contains(r, 0.0, 0.0) && Contains(r, 1.0, 1.0)
  {
    Rect(0.0, 0.0, 1.0, 1.0)
  }

  // ---------------------------------------------------------------------
  // Derived values

  /** `maxX()`: the right edge. */
  function MaxX(r: Rect): (x: real) {
    r.minX + r.width
  }

  /** `maxY()`: the bottom edge. */
  function MaxY(r: Rect): (y: real) {
    r.minY + r.height
  }

  /** `midX()`: the horizontal midpoint. */
  function MidX(r: Rect): (x: real) {
    r.minX + r.width / 2.0
  }

  /** `midY()`: the vertical midpoint. */
  function MidY(r: Rect): (y: real) {
    r.minY + r.height / 2.0
  }

  /** `area()`: width times height; never negative for a rect of
      non-negative size, and zero exactly when one side is zero. */
  function Area(r: Rect): (a: real)
    ensures r.width >= 0.0 && r.height >= 0.0 ==> a >= 0.0
    ensures a == 0.0 <==> (r.width == 0.0 || r.height == 0.0)
  {
    r.width * r.height
  }

  /** `center()`: the point `(midX, midY)`; it lies inside every rect of
      non-negative size. */
  function Center(r: Rect): (p: Point)
    ensures p.x == MidX(r) && p.y == MidY(r)
    ensures r.width >= 0.0 && r.height >= 0.0 ==> ContainsPoint(r, p)
  {
    At(MidX(r), MidY(r))
  }

  // ---------------------------------------------------------------------
  // Queries

  /** `contains(x, y)`: the closed box, every edge included. */
  predicate Contains(r: Rect, x: real, y: real) {
    x >= r.minX && x <= MaxX(r) && y >= r.minY && y <= MaxY(r)
  }

  /** `contains(Point)`: delegates to `Contains` on the coordinates. */
  predicate ContainsPoint(r: Rect, p: Point) {
    Contains(r, p.x, p.y)
  }

  /** `contains(Rect)`: all four edges of `inner` lie within those of `r`,
      edges included. */
  predicate ContainsRect(r: Rect, inner: Rect) {
    inner.minX >= r.minX && MaxX(inner) <= MaxX(r)
    && inner.minY >= r.minY && MaxY(inner) <= MaxY(r)
  }

  // ---------------------------------------------------------------------
  // Transforms

  /** `divide(l, t, r, b)`: the sub-rect cut at fractions `l` and `r` of the
      width and `t` and `b` of the height. Fractions outside [0, 1] or in
      the wrong order are accepted. Its edges are stated by the lemma
      `DivideEdges`. */
  function Divide(r: Rect, leftPercent: real, topPercent: real,
                  rightPercent: real, bottomPercent: real): (cut: Rect)
  {
    Rect(r.minX + r.width * leftPercent, r.minY + r.height * topPercent,
         r.width * (rightPercent - leftPercent), r.height * (bottomPercent - topPercent))
  }

  /** The larger of two reals, as `Math.max`. */
  function Max(a: real, b: real): (m: real)
    ensures m >= a && m >= b && (m == a || m == b)
  {
    if a >= b then a else b
  }

  /** `inset(l, t, r, b)`: shrinks each side by its own amount. A side pair
      that would leave no room collapses to zero size at the original
      midpoint of that axis; otherwise the result is the rect between the
      moved edges. */
  function Inset(r: Rect, leftInset: real, topInset: real,
                 rightInset: real, bottomInset: real): (d: Rect)
    ensures d.width >= 0.0 && d.height >= 0.0
    ensures leftInset + rightInset < r.width ==>
              d.minX == r.minX + leftInset && MaxX(d) == MaxX(r) - rightInset
    ensures leftInset + rightInset >= r.width ==> d.width == 0.0 && d.minX == MidX(r)
    ensures topInset + bottomInset < r.height ==>
              d.minY == r.minY + topInset && MaxY(d) == MaxY(r) - bottomInset
    ensures topInset + bottomInset >= r.height ==> d.height == 0.0 && d.minY == MidY(r)
  {
    var width := Max(0.0, r.width - leftInset - rightInset);
    var minX := if width == 0.0 then r.minX + r.width / 2.0 else r.minX + leftInset;
    var height := Max(0.0, r.height - topInset - bottomInset);
    var minY := if height == 0.0 then r.minY + r.height / 2.0 else r.minY + topInset;
    Rect(minX, minY, width, height)
  }

  /** `inset(n)`: the same amount on all four sides. The result keeps the
      centre of `r` and is `2n` narrower and shorter, or empty. */
  function InsetAll(r: Rect, inset: real): (d: Rect)
    ensures MidX(d) == MidX(r) && MidY(d) == MidY(r)
    ensures d.width == Max(0.0, r.width - 2.0 * inset)
    ensures d.height == Max(0.0, r.height - 2.0 * inset)
  {
    Inset(r, inset, inset, inset, inset)
  }

  /** The value of a `double` division `x / y` as far as a comparison
      needs it: a finite quotient, or, for a zero divisor, an infinity
      signed like `x` or NaN when `x` is zero too. */
  datatype Quotient = Finite(value: real) | PlusInfinity | MinusInfinity | NotANumber

  /** `x / y` on doubles, with a zero divisor taken as `+0.0`. */
  function Divided(x: real, y: real): (q: Quotient)
    ensures y != 0.0 ==> q == Finite(x / y)
    ensures y == 0.0 ==> (q == PlusInfinity <==> x > 0.0)
    ensures y == 0.0 ==> (q == MinusInfinity <==> x < 0.0)
    ensures y == 0.0 ==> (q == NotANumber <==> x == 0.0)
  {
    if y != 0.0 then Finite(x / y)
    else if x > 0.0 then PlusInfinity
    else if x < 0.0 then MinusInfinity
    else NotANumber
  }

  /** The `<` of two doubles: false whenever NaN takes part; the infinities
      lie below and above every finite value. */
  predicate Below(a: Quotient, b: Quotient) {
    match (a, b)
    case (NotANumber, _) => false
    case (_, NotANumber) => false
    case (Finite(x), Finite(y)) => x < y
    case (MinusInfinity, _) => b != MinusInfinity
    case (_, PlusInfinity) => a != PlusInfinity
    case (_, _) => false
  }

  /** The test `width / height < desiredWidth / desiredHeight` of
      `aspectRatio`, evaluated as on doubles: the source is narrower than
      the desired ratio, so the width is kept. */
  predicate KeepsWidth(r: Rect, desiredWidth: real, desiredHeight: real) {
    Below(Divided(r.width, r.height), Divided(desiredWidth, desiredHeight))
  }

  /** `aspectRatio(dw, dh)`: letterbox or pillarbox fit. The result has the
      ratio `dw : dh`, keeps the centre of `r` and keeps its width or its
      height. The branch taken divides by `dw` or by `dh`, so that one must
      be nonzero; the comparison itself may see an infinity or NaN. */
  function AspectRatio(r: Rect, desiredWidth: real, desiredHeight: real): (a: Rect)
    requires KeepsWidth(r, desiredWidth, desiredHeight) ==> desiredWidth != 0.0
    requires !KeepsWidth(r, desiredWidth, desiredHeight) ==> desiredHeight != 0.0
    ensures MidX(a) == MidX(r) && MidY(a) == MidY(r)
    ensures a.width * desiredHeight == a.height * desiredWidth
    ensures KeepsWidth(r, desiredWidth, desiredHeight) ==> a.width == r.width
    ensures !KeepsWidth(r, desiredWidth, desiredHeight) ==> a.height == r.height
  {
    if KeepsWidth(r, desiredWidth, desiredHeight) then
      FromCenter(MidX(r), MidY(r), r.width, r.width / desiredWidth * desiredHeight)
    else
      FromCenter(MidX(r), MidY(r), r.height / desiredHeight * desiredWidth, r.height)
  }

  /** `scale(fromRect, toRect)`: re-expresses `r` in the coordinate space of
      `toRect`, taking `fromRect` as the space it is given in. The origin
      keeps its fractional position and the size scales by the ratio of
      the two spaces' sizes. */
  function ScaleBetween(r: Rect, fromRect: Rect, toRect: Rect): (s: Rect)
    requires fromRect.width != 0.0 && fromRect.height != 0.0
  {
    var newWidth := r.width / fromRect.width * toRect.width;
    var newHeight := r.height / fromRect.height * toRect.height;
    var newX := (r.minX - fromRect.minX) / fromRect.width * toRect.width + toRect.minX;
    var newY := (r.minY - fromRect.minY) / fromRect.height * toRect.height + toRect.minY;
    Rect(newX, newY, newWidth, newHeight)
  }

  /** `translate(fromRect, toRect)`: moves the origin by
      `fromRect.min - toRect.min` (that direction, as the source has it);
      the size is unchanged. */
  function TranslateBetween(r: Rect, fromRect: Rect, toRect: Rect): (t: Rect)
    ensures t.width == r.width && t.height == r.height
    ensures t.minX - r.minX == fromRect.minX - toRect.minX
    ensures t.minY - r.minY == fromRect.minY - toRect.minY
  {
    var newX := r.minX + fromRect.minX - toRect.minX;
    var newY := r.minY + fromRect.minY - toRect.minY;
    Rect(newX, newY, r.width, r.height)
  }

  /** `size()`: the same extent moved to the origin; the area is kept. */
  function Size(r: Rect): (s: Rect)
    ensures s.minX == 0.0 && s.minY == 0.0
    ensures s.width == r.width && s.height == r.height
    ensures Area(s) == Area(r)
  {
    OfSize(r.width, r.height)
  }

  /** `topLeft(leftX, topY)` as the source has it: an unfinished stub that
      ignores both arguments and returns the size of `r` at the origin. */
  function TopLeft(r: Rect, leftX: real, topY: real): (s: Rect)
    ensures s.minX == 0.0 && s.minY == 0.0
    ensures s.width == r.width && s.height == r.height
  {
    Rect(0.0, 0.0, r.width, r.height)
  }

  /** The private scalar `interpolate(a, b, p)`: `a` at `p = 0` and `b` at
      `p = 1`. */
  function Lerp(a: real, b: real, percent: real): (v: real)
    ensures percent == 0.0 ==> v == a
    ensures percent == 1.0 ==> v == b
  {
    a + (b - a) * percent
  }

  /** `Rect.interpolate(a, b, p)`: each of the four fields interpolated on
      its own. */
  function Interpolate(a: Rect, b: Rect, percent: real): (i: Rect)
    ensures i.minX == Lerp(a.minX, b.minX, percent)
    ensures i.minY == Lerp(a.minY, b.minY, percent)
    ensures i.width == Lerp(a.width, b.width, percent)
    ensures i.height == Lerp(a.height, b.height, percent)
  {
    var minX := Lerp(a.minX, b.minX, percent);
    var minY := Lerp(a.minY, b.minY, percent);
    var width := Lerp(a.width, b.width, percent);
    var height := Lerp(a.height, b.height, percent);
    Rect(minX, minY, width, height)
  }

  /** `resizeFromCenter(w, h)`: a rect of the new size with the same centre. */
  function ResizeFromCenter(r: Rect, newWidth: real, newHeight: real): (s: Rect)
    ensures Center(s) == Center(r)
    ensures s.width == newWidth && s.height == newHeight
  {
    FromCenter(MidX(r), MidY(r), newWidth, newHeight)
  }

  /** `left(px)`: the strip of width `px` along the left edge. */
  function Left(r: Rect, leftPixels: real): (s: Rect)
    ensures s.minX == r.minX && s.width == leftPixels
    ensures s.minY == r.minY && s.height == r.height
  {
    Rect(r.minX, r.minY, leftPixels, r.height)
  }

  /** `top(px)`: the strip of height `px` along the top edge. */
  function Top(r: Rect, topPixels: real): (s: Rect)
    ensures s.minY == r.minY && s.height == topPixels
    ensures s.minX == r.minX && s.width == r.width
  {
    Rect(r.minX, r.minY, r.width, topPixels)
  }

  /** `right(px)`: the strip of width `px` whose right edge is that of `r`. */
  function Right(r: Rect, rightPixels: real): (s: Rect)
    ensures MaxX(s) == MaxX(r) && s.width == rightPixels
    ensures s.minY == r.minY && s.height == r.height
  {
    Rect(r.minX + r.width - rightPixels, r.minY, rightPixels, r.height)
  }

  /** `bottom(px)`: the strip of height `px` whose bottom edge is that of `r`. */
  function Bottom(r: Rect, bottomPixels: real): (s: Rect)
    ensures MaxY(s) == MaxY(r) && s.height == bottomPixels
    ensures s.minX == r.minX && s.width == r.width
  {
    Rect(r.minX, r.minY + r.height - bottomPixels, r.width, bottomPixels)
  }

  /** `translate(int dx, int dy)`: moves the origin by whole-number offsets;
      the size is unchanged. */
  function TranslateBy(r: Rect, dx: int, dy: int): (t: Rect)
    ensures t.minX - r.minX == dx as real && t.minY - r.minY == dy as real
    ensures t.width == r.width && t.height == r.height
  {
    Rect(r.minX + dx as real, r.minY + dy as real, r.width, r.height)
  }

  /** `scale(xScale, yScale)`: multiplies `minX` and `width` by `xScale` and
      `height` by `yScale`; as in the source, `minY` is multiplied by
      `xScale` too. */
  function ScaleBy(r: Rect, xScale: real, yScale: real): (s: Rect)
    ensures s.minX == r.minX * xScale && s.width == r.width * xScale
    ensures s.minY == r.minY * xScale && s.height == r.height * yScale
  {
    Rect(r.minX * xScale, r.minY * xScale, r.width * xScale, r.height * yScale)
  }

  /** `percentX(p)`: the x coordinate at fraction `p` of the width. */
  function PercentX(r: Rect, percent: real): (x: real) {
    r.minX + r.width * percent
  }

  /** `toPercentX(x)`: the fraction of the width at which `x` lies, the
      inverse of `PercentX`. */
  function ToPercentX(r: Rect, x: real): (p: real)
    requires r.width != 0.0
    ensures PercentX(r, p) == x
  {
    (x - r.minX) / r.width
  }
}
