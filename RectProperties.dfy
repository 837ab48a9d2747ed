/** Laws of the rectangle operations: containment, the identity and
    round-trip laws of the transforms, the clamp of `Inset` and the fit of
    `AspectRatio`. */
module RectProperties {
  import opened Points
  import opened Rects

  // ---------------------------------------------------------------------
  // Derived values

  /** The far edges lie `width` and `height` beyond the origin, and the
      midpoints are equally far from both edges; for a non-negative size
      the midpoint lies between the edges. */
  lemma EdgesAndMidpoints(r: Rect)
    ensures MaxX(r) - r.minX == r.width && MaxY(r) - r.minY == r.height
    ensures MidX(r) - r.minX == MaxX(r) - MidX(r)
    ensures MidY(r) - r.minY == MaxY(r) - MidY(r)
    ensures r.width >= 0.0 ==> r.minX <= MidX(r) <= MaxX(r)
    ensures r.height >= 0.0 ==> r.minY <= MidY(r) <= MaxY(r)
  {
  }

  // ---------------------------------------------------------------------
  // Containment

  /** `contains(x, y)` accepts all four edges and rejects a point any
      positive distance beyond any one of them. */
  lemma ContainsEdges(r: Rect, eps: real)
    requires r.width >= 0.0 && r.height >= 0.0 && eps > 0.0
    ensures Contains(r, MidX(r), MidY(r))
    ensures Contains(r, r.minX, MidY(r)) && Contains(r, MaxX(r), MidY(r))
    ensures Contains(r, MidX(r), r.minY) && Contains(r, MidX(r), MaxY(r))
    ensures !Contains(r, r.minX - eps, MidY(r)) && !Contains(r, MaxX(r) + eps, MidY(r))
    ensures !Contains(r, MidX(r), r.minY - eps) && !Contains(r, MidX(r), MaxY(r) + eps)
  {
  }

  /** A rect contains a point exactly when it contains the zero-size rect
      at that point, so the two `contains` overloads agree. */
  lemma ContainsPointAsRect(r: Rect, p: Point)
    ensures ContainsPoint(r, p) <==> ContainsRect(r, FromTopLeft(p.x, p.y, 0.0, 0.0))
  {
  }

  /** `contains(Rect)` is reflexive, and fails as soon as the inner rect's
      origin moves left or up or its size grows past an outer edge. */
  lemma ContainsRectEdges(r: Rect, eps: real)
    requires eps > 0.0
    ensures ContainsRect(r, r)
    ensures !ContainsRect(r, FromTopLeft(r.minX - eps, r.minY, r.width, r.height))
    ensures !ContainsRect(r, FromTopLeft(r.minX, r.minY - eps, r.width, r.height))
    ensures !ContainsRect(r, FromTopLeft(r.minX, r.minY, r.width + eps, r.height))
    ensures !ContainsRect(r, FromTopLeft(r.minX, r.minY, r.width, r.height + eps))
  {
  }

  /** Containment of rects is transitive and carries over to points. */
  lemma ContainsRectTransitive(a: Rect, b: Rect, c: Rect, p: Point)
    ensures ContainsRect(a, b) && ContainsRect(b, c) ==> ContainsRect(a, c)
    ensures ContainsRect(a, b) && ContainsPoint(b, p) ==> ContainsPoint(a, p)
  {
  }

  // ---------------------------------------------------------------------
  // Divide

  /** The cut's left and right edges are `PercentX` of the two x fractions,
      and its top and bottom edges lie at the two y fractions of the
      height. */
  lemma DivideEdges(r: Rect, l: real, t: real, rt: real, b: real)
    ensures Divide(r, l, t, rt, b).minX == PercentX(r, l)
    ensures MaxX(Divide(r, l, t, rt, b)) == PercentX(r, rt)
    ensures Divide(r, l, t, rt, b).minY == r.minY + r.height * t
    ensures MaxY(Divide(r, l, t, rt, b)) == r.minY + r.height * b
  {
    var across, down := rt - l, b - t;
    var w, h := r.width, r.height;
    assert Divide(r, l, t, rt, b) == Rect(r.minX + w * l, r.minY + h * t, w * across, h * down);
    assert w * l + w * across == w * rt;
    assert h * t + h * down == h * b;
  }

  /** Dividing at fractions 0 and 1 on both axes gives the rect back. */
  lemma DivideIdentity(r: Rect)
    ensures Divide(r, 0.0, 0.0, 1.0, 1.0) == r
  {
  }

  /** The worked example `(10, 20, 30, 40)` cut at `.2, .3, .4, .5`. */
  lemma DivideExample()
    ensures Divide(FromTopLeft(10.0, 20.0, 30.0, 40.0), 0.2, 0.3, 0.4, 0.5)
            == FromTopLeft(16.0, 32.0, 6.0, 8.0)
  {
  }

  /** Dividing a divided rect is one division of the original, at the
      inner fractions mapped through the outer ones. */
  lemma DivideCompose(r: Rect, l: real, t: real, rt: real, b: real,
                      l2: real, t2: real, r2: real, b2: real)
    ensures Divide(Divide(r, l, t, rt, b), l2, t2, r2, b2)
            == Divide(r, l + (rt - l) * l2, t + (b - t) * t2,
                      l + (rt - l) * r2, t + (b - t) * b2)
  {
    var d := Divide(r, l, t, rt, b);
    var e := Divide(d, l2, t2, r2, b2);
    var f := Divide(r, l + (rt - l) * l2, t + (b - t) * t2,
                    l + (rt - l) * r2, t + (b - t) * b2);
    assert e.minX == f.minX by {
      assert d.width * l2 == r.width * ((rt - l) * l2);
    }
    assert e.width == f.width by {
      assert d.width * (r2 - l2) == r.width * ((rt - l) * r2 - (rt - l) * l2);
    }
    assert e.minY == f.minY by {
      assert d.height * t2 == r.height * ((b - t) * t2);
    }
    assert e.height == f.height by {
      assert d.height * (b2 - t2) == r.height * ((b - t) * b2 - (b - t) * t2);
    }
  }

  /** With fractions in order inside [0, 1], the divided rect lies inside
      the original (of non-negative size). */
  lemma DivideContained(r: Rect, l: real, t: real, rt: real, b: real)
    requires r.width >= 0.0 && r.height >= 0.0
    requires 0.0 <= l <= rt <= 1.0 && 0.0 <= t <= b <= 1.0
    ensures ContainsRect(r, Divide(r, l, t, rt, b))
  {
    DivideContainedAt(r.minX, r.minY, r.width, r.height, l, t, rt, b);
    assert r == Rect(r.minX, r.minY, r.width, r.height);
  }

  /** `DivideContained` for the rect built from its four fields. */
  lemma DivideContainedAt(x: real, y: real, w: real, h: real,
                          l: real, t: real, rt: real, b: real)
    requires w >= 0.0 && h >= 0.0
    requires 0.0 <= l <= rt <= 1.0 && 0.0 <= t <= b <= 1.0
    ensures ContainsRect(Rect(x, y, w, h), Divide(Rect(x, y, w, h), l, t, rt, b))
  {
    var across := rt - l;
    var down := b - t;
    var r := Rect(x, y, w, h);
    var d := Divide(r, l, t, rt, b);
    assert d == Rect(x + w * l, y + h * t, w * across, h * down);
    SpanWithin(x, w, l, across);
    SpanWithin(y, h, t, down);
    assert d.minX >= r.minX;
    assert MaxX(d) == x + w * l + w * across && MaxX(r) == x + w;
    assert MaxX(d) <= MaxX(r);
    assert d.minY >= r.minY;
    assert MaxY(d) == y + h * t + h * down && MaxY(r) == y + h;
    assert MaxY(d) <= MaxY(r);
  }

  /** The span of `len * span` starting at fraction `l` of a non-negative
      length stays within that length when `l` and `l + span` are in
      [0, 1]. */
  lemma SpanWithin(lo: real, len: real, l: real, span: real)
    requires len >= 0.0 && 0.0 <= l && 0.0 <= span && l + span <= 1.0
    ensures lo <= lo + len * l
    ensures lo + len * l + len * span <= lo + len
  {
    Within(len, l);
    var far := l + span;
    Within(len, far);
    assert len * l + len * span == len * far;
  }

  /** A non-negative length taken at a fraction in [0, 1] is between zero
      and the whole length. */
  lemma Within(len: real, p: real)
    requires len >= 0.0 && 0.0 <= p <= 1.0
    ensures 0.0 <= len * p <= len
  {
    assert len * (1.0 - p) >= 0.0;
  }

  // ---------------------------------------------------------------------
  // Inset

  /** When the insets leave room on both axes, `inset` is the rect between
      the moved edges. */
  lemma InsetExact(r: Rect, l: real, t: real, rt: real, b: real)
    requires l + rt < r.width && t + b < r.height
    ensures Inset(r, l, t, rt, b)
            == FromTopLeft(r.minX + l, r.minY + t, r.width - l - rt, r.height - t - b)
  {
  }

  /** The worked example: `(10, 20, 30, 40)` inset by `1, 2, 3, 4`. */
  lemma InsetExample()
    ensures Inset(FromTopLeft(10.0, 20.0, 30.0, 40.0), 1.0, 2.0, 3.0, 4.0)
            == FromTopLeft(11.0, 22.0, 26.0, 34.0)
  {
  }

  /** Insetting by half the size, or by the whole size, on every side
      collapses the rect to the zero-size rect at its centre. */
  lemma InsetOvershrink(r: Rect)
    requires r.width >= 0.0 && r.height >= 0.0
    ensures Inset(r, r.width / 2.0, r.height / 2.0, r.width / 2.0, r.height / 2.0)
            == FromTopLeft(MidX(r), MidY(r), 0.0, 0.0)
    ensures Inset(r, r.width, r.height, r.width, r.height)
            == FromTopLeft(MidX(r), MidY(r), 0.0, 0.0)
  {
  }

  /** Non-negative insets of a rect of non-negative size stay inside it. */
  lemma InsetContained(r: Rect, l: real, t: real, rt: real, b: real)
    requires r.width >= 0.0 && r.height >= 0.0
    requires l >= 0.0 && t >= 0.0 && rt >= 0.0 && b >= 0.0
    ensures ContainsRect(r, Inset(r, l, t, rt, b))
  {
  }

  // ---------------------------------------------------------------------
  // AspectRatio

  /** For positive sizes the fitted rect is positive, no wider and no
      taller than the source, and has the requested ratio. */
  lemma AspectRatioFits(r: Rect, dw: real, dh: real)
    requires r.width > 0.0 && r.height > 0.0 && dw > 0.0 && dh > 0.0
    ensures AspectRatio(r, dw, dh).width > 0.0 && AspectRatio(r, dw, dh).height > 0.0
    ensures AspectRatio(r, dw, dh).width <= r.width
    ensures AspectRatio(r, dw, dh).height <= r.height
    ensures AspectRatio(r, dw, dh).width / AspectRatio(r, dw, dh).height == dw / dh
  {
    var a := AspectRatio(r, dw, dh);
    if r.width / r.height < dw / dh {
      assert KeepsWidth(r, dw, dh);
      CrossMultiplyLess(r.width, r.height, dw, dh);
      assert a.height == r.width / dw * dh;
      assert r.width * dh < dw * r.height;
      assert a.height * dw == r.width * dh;
      PositiveProduct(r.width / dw, dh);
    } else {
      assert !KeepsWidth(r, dw, dh);
      CrossMultiplyLess(dw, dh, r.width, r.height);
      assert a.width == r.height / dh * dw;
      assert a.width * dh == r.height * dw;
      PositiveProduct(r.height / dh, dw);
    }
    RatioFromCross(a.width, a.height, dw, dh);
  }

  /** The fitted rect is the largest with the requested ratio: any positive
      size of that ratio that fits in the source fits in the result. */
  lemma AspectRatioLargest(r: Rect, dw: real, dh: real, w: real, h: real)
    requires r.width > 0.0 && r.height > 0.0 && dw > 0.0 && dh > 0.0
    requires 0.0 < w <= r.width && 0.0 < h <= r.height && w * dh == h * dw
    ensures w <= AspectRatio(r, dw, dh).width && h <= AspectRatio(r, dw, dh).height
  {
    var a := AspectRatio(r, dw, dh);
    if r.width / r.height < dw / dh {
      assert KeepsWidth(r, dw, dh);
      assert a.height * dw == r.width * dh;
      assert h * dw <= a.height * dw;
      DivideBothSides(h, a.height, dw);
    } else {
      assert !KeepsWidth(r, dw, dh);
      assert a.width * dh == r.height * dw;
      assert w * dh <= a.width * dh;
      DivideBothSides(w, a.width, dh);
    }
  }

  /** `Below` is the `<` of the extended reals, as on doubles: NaN compares
      false with everything; the other values are strictly and totally
      ordered, with minus infinity first, plus infinity last and the finite
      values in between in their real order. */
  lemma BelowIsDoubleLess(a: Quotient, b: Quotient, c: Quotient)
    ensures a == NotANumber || b == NotANumber ==> !Below(a, b)
    ensures !Below(a, a)
    ensures Below(a, b) ==> !Below(b, a)
    ensures Below(a, b) && Below(b, c) ==> Below(a, c)
    ensures a != NotANumber && b != NotANumber ==> (Below(a, b) || a == b || Below(b, a))
    ensures a != NotANumber && a != MinusInfinity ==> Below(MinusInfinity, a)
    ensures a != NotANumber && a != PlusInfinity ==> Below(a, PlusInfinity)
    ensures a.Finite? && b.Finite? ==> (Below(a, b) <==> a.value < b.value)
  {
  }

  /** For nonzero divisors the double comparison is the comparison of the
      two quotients. */
  lemma KeepsWidthFinite(r: Rect, dw: real, dh: real)
    requires r.height != 0.0 && dh != 0.0
    ensures KeepsWidth(r, dw, dh) <==> r.width / r.height < dw / dh
  {
  }

  /** A zero desired width keeps the height and gives a zero-width rect. */
  lemma AspectRatioZeroWidth()
    ensures AspectRatio(Rect(0.0, 0.0, 10.0, 10.0), 0.0, 1.0) == FromCenter(5.0, 5.0, 0.0, 10.0)
  {
    assert !KeepsWidth(Rect(0.0, 0.0, 10.0, 10.0), 0.0, 1.0);
  }

  /** A zero desired height keeps the width and gives a zero-height rect. */
  lemma AspectRatioZeroHeight()
    ensures AspectRatio(Rect(0.0, 0.0, 10.0, 10.0), 1.0, 0.0) == FromCenter(5.0, 5.0, 10.0, 0.0)
  {
    assert KeepsWidth(Rect(0.0, 0.0, 10.0, 10.0), 1.0, 0.0);
  }

  /** A flat source of non-negative width is compared as `+Infinity` or
      NaN, so it keeps its zero height and shrinks to nothing at its
      centre; one of negative width is compared as `-Infinity` and keeps
      its width. */
  lemma AspectRatioFlatSource(r: Rect, dw: real, dh: real)
    requires r.height == 0.0 && dh != 0.0 && (r.width < 0.0 ==> dw != 0.0)
    ensures r.width >= 0.0 ==> AspectRatio(r, dw, dh) == FromCenter(MidX(r), MidY(r), 0.0, 0.0)
    ensures r.width < 0.0 ==> AspectRatio(r, dw, dh).width == r.width
  {
    if r.width >= 0.0 {
      assert !KeepsWidth(r, dw, dh);
      var zero := r.height;
      assert zero / dh * dw == 0.0;
    } else {
      assert KeepsWidth(r, dw, dh);
    }
  }

  /** For positive sizes the fitted rect lies inside the source. */
  lemma AspectRatioContained(r: Rect, dw: real, dh: real)
    requires r.width > 0.0 && r.height > 0.0 && dw > 0.0 && dh > 0.0
    ensures ContainsRect(r, AspectRatio(r, dw, dh))
  {
    AspectRatioFits(r, dw, dh);
  }

  /** `x / y < u / v` for positive denominators is `x * v < u * y`. */
  lemma CrossMultiplyLess(x: real, y: real, u: real, v: real)
    requires y > 0.0 && v > 0.0
    ensures x / y < u / v <==> x * v < u * y
  {
    assert x == (x / y) * y;
    assert u == (u / v) * v;
    assert x * v == (x / y) * (y * v);
    assert u * y == (u / v) * (y * v);
    PositiveProduct(y, v);
    if x / y < u / v {
      StrictScale(x / y, u / v, y * v);
    } else {
      assert u / v <= x / y;
      WeakScale(u / v, x / y, y * v);
    }
  }

  lemma PositiveProduct(x: real, y: real)
    requires x > 0.0 && y > 0.0
    ensures x * y > 0.0
  {
  }

  lemma StrictScale(x: real, y: real, k: real)
    requires x < y && k > 0.0
    ensures x * k < y * k
  {
    assert y * k - x * k == (y - x) * k;
  }

  lemma WeakScale(x: real, y: real, k: real)
    requires x <= y && k > 0.0
    ensures x * k <= y * k
  {
    assert y * k - x * k == (y - x) * k;
  }

  /** Multiplying by a positive factor keeps the order both ways. */
  lemma DivideBothSides(x: real, y: real, k: real)
    requires k > 0.0 && x * k <= y * k
    ensures x <= y
  {
    if x > y {
      StrictScale(y, x, k);
    }
  }

  /** Equal cross products of positive sizes give equal ratios. */
  lemma RatioFromCross(w: real, h: real, dw: real, dh: real)
    requires h > 0.0 && dh > 0.0 && w * dh == h * dw
    ensures w / h == dw / dh
  {
    assert w == (w / h) * h;
    assert dw == (dw / dh) * dh;
    assert (w / h) * (h * dh) == (dw / dh) * (h * dh);
    PositiveProduct(h, dh);
  }

  // ---------------------------------------------------------------------
  // Scale and translate between coordinate spaces

  /** One axis of the fractional remap, there and back again. */
  lemma RemapRoundTrip(v: real, fromMin: real, fromSize: real, toMin: real, toSize: real)
    requires fromSize != 0.0 && toSize != 0.0
    ensures ((v - fromMin) / fromSize * toSize + toMin - toMin) / toSize * fromSize + fromMin == v
  {
    var f := (v - fromMin) / fromSize;
    assert f * fromSize == v - fromMin;
    assert (f * toSize + toMin - toMin) / toSize == f;
  }

  /** Scaling from space `a` into space `b` and back gives the rect back. */
  lemma ScaleBetweenRoundTrip(r: Rect, a: Rect, b: Rect)
    requires a.width != 0.0 && a.height != 0.0 && b.width != 0.0 && b.height != 0.0
    ensures ScaleBetween(ScaleBetween(r, a, b), b, a) == r
  {
    RemapRoundTrip(r.minX, a.minX, a.width, b.minX, b.width);
    RemapRoundTrip(r.minY, a.minY, a.height, b.minY, b.height);
    ResizeRoundTrip(r.width, a.width, b.width);
    ResizeRoundTrip(r.height, a.height, b.height);
    var t := ScaleBetween(ScaleBetween(r, a, b), b, a);
    assert t.minX == r.minX && t.minY == r.minY && t.width == r.width && t.height == r.height;
  }

  /** One side length scaled by `toSize / fromSize` and back again. */
  lemma ResizeRoundTrip(v: real, fromSize: real, toSize: real)
    requires fromSize != 0.0 && toSize != 0.0
    ensures v / fromSize * toSize / toSize * fromSize == v
  {
    var f := v / fromSize;
    assert f * fromSize == v;
    assert f * toSize / toSize == f;
  }

  /** Scaling from a space into itself changes nothing. */
  lemma ScaleBetweenIdentity(r: Rect, a: Rect)
    requires a.width != 0.0 && a.height != 0.0
    ensures ScaleBetween(r, a, a) == r
  {
  }

  /** The worked examples: scaling from a 100-wide space onto a 200-wide
      space whose origins differ. */
  lemma ScaleBetweenExamples()
    ensures ScaleBetween(Rect(10.0, 10.0, 10.0, 10.0), Rect(10.0, 10.0, 100.0, 100.0),
                         Rect(30.0, 30.0, 200.0, 200.0)) == Rect(30.0, 30.0, 20.0, 20.0)
    ensures ScaleBetween(Rect(10.0, 10.0, 10.0, 10.0), Rect(0.0, 0.0, 100.0, 100.0),
                         Rect(30.0, 30.0, 200.0, 200.0)) == Rect(50.0, 50.0, 20.0, 20.0)
    ensures ScaleBetween(Rect(0.0, 0.0, 10.0, 10.0), Rect(0.0, 0.0, 100.0, 100.0),
                         Rect(0.0, 0.0, 200.0, 200.0)) == Rect(0.0, 0.0, 20.0, 20.0)
    ensures ScaleBetween(Rect(10.0, 10.0, 10.0, 10.0), Rect(0.0, 0.0, 100.0, 100.0),
                         Rect(0.0, 0.0, 200.0, 200.0)) == Rect(20.0, 20.0, 20.0, 20.0)
    ensures ScaleBetween(Rect(10.0, 10.0, 10.0, 10.0), Rect(10.0, 10.0, 100.0, 100.0),
                         Rect(0.0, 0.0, 200.0, 200.0)) == Rect(0.0, 0.0, 20.0, 20.0)
  {
  }

  /** Translating from `a` to `b` and then from `b` to `a` gives the rect
      back, and translating between a space and itself changes nothing. */
  lemma TranslateBetweenRoundTrip(r: Rect, a: Rect, b: Rect)
    ensures TranslateBetween(TranslateBetween(r, a, b), b, a) == r
    ensures TranslateBetween(r, a, a) == r
  {
  }

  /** The worked examples; the origin moves by `fromRect.min - toRect.min`. */
  lemma TranslateBetweenExamples()
    ensures TranslateBetween(Rect(0.0, 0.0, 10.0, 10.0), Rect(0.0, 0.0, 100.0, 100.0),
                             Rect(0.0, 0.0, 200.0, 200.0)) == Rect(0.0, 0.0, 10.0, 10.0)
    ensures TranslateBetween(Rect(10.0, 10.0, 10.0, 10.0), Rect(0.0, 0.0, 100.0, 100.0),
                             Rect(5.0, 5.0, 200.0, 200.0)) == Rect(5.0, 5.0, 10.0, 10.0)
    ensures TranslateBetween(Rect(10.0, 10.0, 10.0, 10.0), Rect(5.0, 5.0, 100.0, 100.0),
                             Rect(0.0, 0.0, 200.0, 200.0)) == Rect(15.0, 15.0, 10.0, 10.0)
  {
  }

  // ---------------------------------------------------------------------
  // Translate and scale by amounts

  /** Translating by `(dx, dy)` and then by `(-dx, -dy)` gives the rect
      back; two translations add up. */
  lemma TranslateByLaws(r: Rect, dx: int, dy: int, ex: int, ey: int)
    ensures TranslateBy(TranslateBy(r, dx, dy), -dx, -dy) == r
    ensures TranslateBy(TranslateBy(r, dx, dy), ex, ey) == TranslateBy(r, dx + ex, dy + ey)
  {
  }

  /** The worked example: `ofSize(10, 20)` moved by `(3, 4)`. */
  lemma TranslateByExample()
    ensures TranslateBy(OfSize(10.0, 20.0), 3, 4) == FromTopLeft(3.0, 4.0, 10.0, 20.0)
  {
  }

  /** `scale(xs, ys)` multiplies the area by `xs * ys`, and scaling by ones
      changes nothing. */
  lemma ScaleByLaws(r: Rect, xs: real, ys: real)
    ensures Area(ScaleBy(r, xs, ys)) == Area(r) * (xs * ys)
    ensures ScaleBy(r, 1.0, 1.0) == r
  {
  }

  /** As written, `scale` multiplies `minY` by the x factor: scaling the
      rect at `(0, 1)` by `(1, 2)` leaves its top edge at 1, not at 2, and
      its bottom edge at 3, not at 4 as scaling the y axis by 2 would. */
  lemma ScaleByUsesXFactorForMinY()
    ensures ScaleBy(FromTopLeft(0.0, 1.0, 1.0, 1.0), 1.0, 2.0).minY == 1.0
    ensures MaxY(ScaleBy(FromTopLeft(0.0, 1.0, 1.0, 1.0), 1.0, 2.0)) == 3.0
  {
  }

  /** The worked example: `ofSize(100, 150)` scaled by `(5, 2)`. */
  lemma ScaleByExample()
    ensures ScaleBy(OfSize(100.0, 150.0), 5.0, 2.0) == OfSize(500.0, 300.0)
  {
  }

  // ---------------------------------------------------------------------
  // Size, centre and resizing

  /** `size()` forgets the position only: it is idempotent, and moving a
      rect does not change its size. */
  lemma SizeForgetsPosition(r: Rect, a: Rect, b: Rect, dx: int, dy: int)
    ensures Size(Size(r)) == Size(r)
    ensures Size(TranslateBy(r, dx, dy)) == Size(r)
    ensures Size(TranslateBetween(r, a, b)) == Size(r)
    ensures Size(r) == OfSize(r.width, r.height)
  {
  }

  /** The `topLeft` stub gives the same rect whatever its arguments: the
      size of `r` at the origin, as `Size` does. */
  lemma TopLeftIgnoresArguments(r: Rect, x1: real, y1: real, x2: real, y2: real)
    ensures TopLeft(r, x1, y1) == TopLeft(r, x2, y2)
    ensures TopLeft(r, x1, y1) == Size(r)
  {
  }

  /** A rect is rebuilt from its centre and its size. */
  lemma CenterRoundTrip(r: Rect)
    ensures FromCenterPoint(Center(r), r.width, r.height) == r
    ensures FromCenter(MidX(r), MidY(r), r.width, r.height) == r
  {
  }

  /** The worked examples for `center()`. */
  lemma CenterExamples()
    ensures Center(OfSize(800.0, 600.0)) == At(400.0, 300.0)
    ensures Center(FromTopLeft(10.0, 10.0, 800.0, 600.0)) == At(410.0, 310.0)
    ensures Center(FromCenter(20.0, 30.0, 100.0, 205.0)) == At(20.0, 30.0)
  {
  }

  /** Resizing to the current size changes nothing; a second resize
      overrides the first. */
  lemma ResizeFromCenterLaws(r: Rect, w1: real, h1: real, w2: real, h2: real)
    ensures ResizeFromCenter(r, r.width, r.height) == r
    ensures ResizeFromCenter(ResizeFromCenter(r, w1, h1), w2, h2) == ResizeFromCenter(r, w2, h2)
    ensures ResizeFromCenter(FromCenter(0.0, 0.0, 10.0, 10.0), 2.0, 2.0) == FromCenter(0.0, 0.0, 2.0, 2.0)
  {
  }

  // ---------------------------------------------------------------------
  // Slices

  /** A left strip and the right strip of the remaining width tile the
      rect, and likewise a top strip and a bottom strip. */
  lemma SlicesTile(r: Rect, px: real)
    ensures MaxX(Left(r, px)) == Right(r, r.width - px).minX
    ensures Left(r, px).width + Right(r, r.width - px).width == r.width
    ensures MaxY(Top(r, px)) == Bottom(r, r.height - px).minY
    ensures Top(r, px).height + Bottom(r, r.height - px).height == r.height
  {
  }

  /** A strip no thicker than the rect lies inside it; a strip of the full
      thickness is the rect itself. */
  lemma SlicesContained(r: Rect, px: real)
    ensures 0.0 <= px <= r.width ==> ContainsRect(r, Left(r, px)) && ContainsRect(r, Right(r, px))
    ensures 0.0 <= px <= r.height ==> ContainsRect(r, Top(r, px)) && ContainsRect(r, Bottom(r, px))
    ensures Left(r, r.width) == r && Right(r, r.width) == r
    ensures Top(r, r.height) == r && Bottom(r, r.height) == r
  {
  }

  /** The worked examples: 10-pixel strips of `(0, 0, 100, 200)`. */
  lemma SliceExamples()
    ensures Left(FromTopLeft(0.0, 0.0, 100.0, 200.0), 10.0) == FromTopLeft(0.0, 0.0, 10.0, 200.0)
    ensures Top(FromTopLeft(0.0, 0.0, 100.0, 200.0), 10.0) == FromTopLeft(0.0, 0.0, 100.0, 10.0)
    ensures Right(FromTopLeft(0.0, 0.0, 100.0, 200.0), 10.0) == FromTopLeft(90.0, 0.0, 10.0, 200.0)
    ensures Bottom(FromTopLeft(0.0, 0.0, 100.0, 200.0), 10.0) == FromTopLeft(0.0, 190.0, 100.0, 10.0)
  {
  }

  // ---------------------------------------------------------------------
  // Interpolate

  /** For a fraction in [0, 1] the interpolated value lies between the two
      ends, whichever is larger. */
  lemma LerpBetween(a: real, b: real, p: real)
    requires 0.0 <= p <= 1.0
    ensures a <= b ==> a <= Lerp(a, b, p) <= b
    ensures b <= a ==> b <= Lerp(a, b, p) <= a
  {
    var d := b - a;
    assert Lerp(a, b, p) == a + d * p;
    if a <= b {
      Within(d, p);
    } else {
      var e := a - b;
      Within(e, p);
      assert d * p == -(e * p);
    }
  }

  /** Interpolating from `a` to `b` at `p` is interpolating from `b` to `a`
      at `1 - p`. */
  lemma LerpMirror(a: real, b: real, p: real)
    ensures Lerp(a, b, p) == Lerp(b, a, 1.0 - p)
  {
    assert (b - a) * p == (a - b) * (1.0 - p) - (a - b);
  }

  /** Interpolation starts at `a` and ends at `b`. */
  lemma InterpolateEnds(a: Rect, b: Rect)
    ensures Interpolate(a, b, 0.0) == a
    ensures Interpolate(a, b, 1.0) == b
  {
  }

  /** Halfway is the componentwise midpoint; interpolating a rect with
      itself gives it back; swapping the ends mirrors the fraction. */
  lemma InterpolateLaws(a: Rect, b: Rect, p: real)
    ensures Interpolate(a, b, 0.5)
            == Rect((a.minX + b.minX) / 2.0, (a.minY + b.minY) / 2.0,
                    (a.width + b.width) / 2.0, (a.height + b.height) / 2.0)
    ensures Interpolate(a, a, p) == a
    ensures Interpolate(a, b, p) == Interpolate(b, a, 1.0 - p)
  {
    LerpMirror(a.minX, b.minX, p);
    LerpMirror(a.minY, b.minY, p);
    LerpMirror(a.width, b.width, p);
    LerpMirror(a.height, b.height, p);
  }

  // ---------------------------------------------------------------------
  // PercentX

  /** `percentX` runs from the left edge at 0 through the midpoint at one
      half to the right edge at 1. */
  lemma PercentXLandmarks(r: Rect)
    ensures PercentX(r, 0.0) == r.minX
    ensures PercentX(r, 0.5) == MidX(r)
    ensures PercentX(r, 1.0) == MaxX(r)
  {
  }

  /** `percentX` and `toPercentX` undo each other for a nonzero width. */
  lemma PercentXRoundTrip(r: Rect, p: real, x: real)
    requires r.width != 0.0
    ensures ToPercentX(r, PercentX(r, p)) == p
    ensures PercentX(r, ToPercentX(r, x)) == x
  {
    assert r.minX + r.width * p - r.minX == r.width * p;
    assert r.width * p / r.width == p;
  }

  /** For a positive width `percentX` is strictly increasing. */
  lemma PercentXIncreasing(r: Rect, p: real, q: real)
    requires r.width > 0.0 && p < q
    ensures PercentX(r, p) < PercentX(r, q)
  {
    assert PercentX(r, p) == r.minX + r.width * p;
    StrictScale(p, q, r.width);
    assert p * r.width < q * r.width;
    assert r.width * p < r.width * q;
  }

  /** The worked examples on `(100, 0, 1000, 0)`. */
  lemma PercentXExamples()
    ensures PercentX(FromTopLeft(100.0, 0.0, 1000.0, 0.0), 0.5) == 600.0
    ensures ToPercentX(FromTopLeft(100.0, 0.0, 1000.0, 0.0), 600.0) == 0.5
    ensures ToPercentX(OfSize(1000.0, 0.0), 100.0) == 0.1
  {
  }
}
