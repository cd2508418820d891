/** Plane geometry used by the game: canvas points, squared distances and
    the axis-aligned hitboxes of the cities. Coordinates are exact reals. */
module Geometry {

  datatype Point = Point(x: real, y: real)

  /** The square of the Euclidean distance between two points. */
  function DistSq(a: Point, b: Point): real
  {
    (a.x - b.x) * (a.x - b.x) + (a.y - b.y) * (a.y - b.y)
  }

  /** `Math.sqrt(d2) < r` for a squared distance `d2`, written without the
      square root: since a distance is never negative, it is below `r`
      exactly when `r` is positive and `d2` is below `r * r`. */
  predicate RootBelow(d2: real, r: real)
  {
    r > 0.0 && d2 < r * r
  }

  /** `RootBelow` is the comparison it stands for: for a distance `d`, the
      non-negative root of `d * d`, it holds exactly when `d < r`. */
  lemma RootBelowIsSqrtBelow(d: real, r: real)
    requires d >= 0.0
    ensures RootBelow(d * d, r) <==> d < r
  {
    var gap, sum := r - d, r + d;
    assert r * r - d * d == gap * sum;
    if d < r {
      ProductSign(gap, sum);
    } else if r > 0.0 {
      ProductSign(-gap, sum);
    }
  }

  /** The sign of a product of two non-negative factors. */
  lemma ProductSign(a: real, b: real)
    requires a >= 0.0 && b >= 0.0
    ensures a * b >= 0.0
    ensures a > 0.0 && b > 0.0 ==> a * b > 0.0
  {
  }

  /** The rectangle returned by `City.getHitbox`. */
  datatype Hitbox = Hitbox(x: real, y: real, width: real, height: real)

  /** The city test: the point lies strictly inside the rectangle; points on
      its border do not count. */
  predicate StrictlyInside(p: Point, h: Hitbox)
  {
    h.x < p.x < h.x + h.width && h.y < p.y < h.y + h.height
  }
}
