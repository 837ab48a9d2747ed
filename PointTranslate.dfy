/** `Point.translate(fromRect, toRect)` (Point.java) and its laws. It sits
    in a module of its own because it needs `Rect`, while `Rect` needs
    `Point` for `contains(Point)` and `center()`, and Dafny modules cannot
    import each other in a cycle. */
module PointTranslation {
  import opened Points
  import opened Rects
  import RectProperties

  /** Re-expresses `p`, given in the space of `fromRect`, in the space of
      `toRect`: its fractional position in `fromRect` on each axis is
      projected onto `toRect`. The source divides by the size of
      `fromRect`, so that size must be nonzero. */
  function Translate(p: Point, fromRect: Rect, toRect: Rect): (q: Point)
    requires fromRect.width != 0.0 && fromRect.height != 0.0
  {
    var xPercent := (p.x - fromRect.minX) / fromRect.width;
    var yPercent := (p.y - fromRect.minY) / fromRect.height;
    var newX := xPercent * toRect.width + toRect.minX;
    var newY := yPercent * toRect.height + toRect.minY;
    At(newX, newY)
  }

  /** On each axis the point lands at the same fraction of the target as
      it had of the source (on the x axis: `percentX` of the target at the
      `toPercentX` of the source); when the target has a nonzero size the
      point keeps its fractional position on both axes. */
  lemma TranslateKeepsFraction(p: Point, a: Rect, b: Rect)
    requires a.width != 0.0 && a.height != 0.0
    ensures Translate(p, a, b).x == PercentX(b, ToPercentX(a, p.x))
    ensures Translate(p, a, b).y == b.minY + b.height * ((p.y - a.minY) / a.height)
    ensures b.width != 0.0 ==> ToPercentX(b, Translate(p, a, b).x) == ToPercentX(a, p.x)
    ensures b.height != 0.0 ==>
              (Translate(p, a, b).y - b.minY) / b.height == (p.y - a.minY) / a.height
  {
    if b.width != 0.0 {
      ScaleCancels((p.x - a.minX) / a.width, b.width, b.minX);
    }
    if b.height != 0.0 {
      ScaleCancels((p.y - a.minY) / a.height, b.height, b.minY);
    }
  }

  /** Scaling by a nonzero `k`, shifting by `m`, and undoing both gives `f`
      back. */
  lemma ScaleCancels(f: real, k: real, m: real)
    requires k != 0.0
    ensures (f * k + m - m) / k == f
  {
    assert f * k + m - m == f * k;
  }

  /** Between two spaces of the same size, `translate` shifts the point by
      the difference of the origins. */
  lemma TranslateShift(p: Point, a: Rect, b: Rect)
    requires a.width != 0.0 && a.height != 0.0
    requires b.width == a.width && b.height == a.height
    ensures Translate(p, a, b) == At(p.x + (b.minX - a.minX), p.y + (b.minY - a.minY))
  {
    var dx, w := p.x - a.minX, a.width;
    var dy, h := p.y - a.minY, a.height;
    DivideThenScale(dx, w);
    DivideThenScale(dy, h);
    var q := Translate(p, a, b);
    assert q.x == dx / w * w + b.minX;
    assert q.y == dy / h * h + b.minY;
  }

  /** Dividing by a nonzero `k` and multiplying back gives `v`. */
  lemma DivideThenScale(v: real, k: real)
    requires k != 0.0
    ensures v / k * k == v
  {
  }

  /** Between two spaces anchored at the origin, `translate` scales each
      coordinate by the ratio of the sizes. */
  lemma TranslateScale(p: Point, a: Rect, b: Rect)
    requires a.width != 0.0 && a.height != 0.0
    requires a.minX == 0.0 && a.minY == 0.0 && b.minX == 0.0 && b.minY == 0.0
    ensures Translate(p, a, b) == At(p.x * (b.width / a.width), p.y * (b.height / a.height))
  {
    assert p.x / a.width * b.width == p.x * (b.width / a.width);
    assert p.y / a.height * b.height == p.y * (b.height / a.height);
  }

  /** The worked examples: `(3, 4)` shifted by `(5, 6)`, and `(3, 4)` scaled
      from a 10-unit space into a 100-unit space. */
  lemma TranslateExamples()
    ensures Translate(At(3.0, 4.0), FromTopLeft(0.0, 0.0, 10.0, 10.0), FromTopLeft(5.0, 6.0, 10.0, 10.0))
            == At(8.0, 10.0)
    ensures Translate(At(3.0, 4.0), OfSize(10.0, 10.0), OfSize(100.0, 100.0)) == At(30.0, 40.0)
  {
    TranslateShift(At(3.0, 4.0), FromTopLeft(0.0, 0.0, 10.0, 10.0), FromTopLeft(5.0, 6.0, 10.0, 10.0));
    TranslateScale(At(3.0, 4.0), OfSize(10.0, 10.0), OfSize(100.0, 100.0));
  }

  /** The corners of the source space go to the corners of the target. */
  lemma TranslateCorners(a: Rect, b: Rect)
    requires a.width != 0.0 && a.height != 0.0
    ensures Translate(At(a.minX, a.minY), a, b) == At(b.minX, b.minY)
    ensures Translate(At(MaxX(a), MaxY(a)), a, b) == At(MaxX(b), MaxY(b))
  {
    assert (MaxX(a) - a.minX) / a.width == 1.0;
    assert (MaxY(a) - a.minY) / a.height == 1.0;
  }

  /** Translating from a space into itself changes nothing. */
  lemma TranslateIdentity(p: Point, r: Rect)
    requires r.width != 0.0 && r.height != 0.0
    ensures Translate(p, r, r) == p
  {
    TranslateShift(p, r, r);
  }

  /** Translating from `a` to `b` and back from `b` to `a` gives the point
      back. */
  lemma TranslateRoundTrip(p: Point, a: Rect, b: Rect)
    requires a.width != 0.0 && a.height != 0.0 && b.width != 0.0 && b.height != 0.0
    ensures Translate(Translate(p, a, b), b, a) == p
  {
    RectProperties.RemapRoundTrip(p.x, a.minX, a.width, b.minX, b.width);
    RectProperties.RemapRoundTrip(p.y, a.minY, a.height, b.minY, b.height);
    var q := Translate(Translate(p, a, b), b, a);
    assert q.x == p.x && q.y == p.y;
  }

  /** `Rect.scale(fromRect, toRect)` agrees with `Point.translate`: the
      scaled rect's two corners are the translated corners of the rect. */
  lemma ScaleBetweenCorners(r: Rect, a: Rect, b: Rect)
    requires a.width != 0.0 && a.height != 0.0
    ensures At(ScaleBetween(r, a, b).minX, ScaleBetween(r, a, b).minY)
            == Translate(At(r.minX, r.minY), a, b)
    ensures At(MaxX(ScaleBetween(r, a, b)), MaxY(ScaleBetween(r, a, b)))
            == Translate(At(MaxX(r), MaxY(r)), a, b)
  {
    FarCorner(r.minX, r.width, a.minX, a.width, b.minX, b.width);
    FarCorner(r.minY, r.height, a.minY, a.height, b.minY, b.height);
  }

  /** On one axis: the scaled origin plus the scaled length is the remap of
      the far edge. */
  lemma FarCorner(lo: real, len: real, fromLo: real, fromLen: real, toLo: real, toLen: real)
    requires fromLen != 0.0
    ensures (lo - fromLo) / fromLen * toLen + toLo + len / fromLen * toLen
            == (lo + len - fromLo) / fromLen * toLen + toLo
  {
    var u := lo - fromLo;
    DivisionSums(u, len, fromLen, toLen);
    assert lo + len - fromLo == u + len;
  }

  /** `u / d * k + v / d * k == (u + v) / d * k`. */
  lemma DivisionSums(u: real, v: real, d: real, k: real)
    requires d != 0.0
    ensures u / d * k + v / d * k == (u + v) / d * k
  {
    assert u / d + v / d == (u + v) / d;
  }

  /** Unlike `Point.translate`, `Rect.translate(fromRect, toRect)` moves the
      origin by `fromRect.min - toRect.min`: between spaces of the same size
      it moves the rect's origin where `Point.translate` with the two
      spaces swapped would move that point. */
  lemma TranslateBetweenAgainstPoint(r: Rect, a: Rect, b: Rect)
    requires a.width != 0.0 && a.height != 0.0
    requires b.width == a.width && b.height == a.height
    ensures At(TranslateBetween(r, a, b).minX, TranslateBetween(r, a, b).minY)
            == Translate(At(r.minX, r.minY), b, a)
  {
    TranslateShift(At(r.minX, r.minY), b, a);
  }
}
