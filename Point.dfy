/** A two-dimensional coordinate (Point.java). Values are immutable; every
    operation builds a new point. Coordinates are exact reals. */
module Points {

  /** The point `(x, y)`; the destructors `x` and `y` are the accessors. */
  datatype Point = Point(x: real, y: real)

  /** The factory `Point.at(x, y)`: its accessors give back exactly the
      coordinates it was built from. */
  function At(x: real, y: real): (p: Point)
    ensures p.x == x && p.y == y
  {
    Point(x, y)
  }

  /** Reading both accessors and rebuilding gives back the same point:
      a point is determined by its two coordinates. */
  lemma AtAccessors(p: Point)
    ensures At(p.x, p.y) == p
  {
  }
}
