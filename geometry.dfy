/** The point-in-circle test used by the sensor. */
module Geometry {
  import opened Arena

  function Abs(r: real): real
  {
    if r < 0.0 then -r else r
  }

  /**
   * Three tiers: reject when one axis offset alone exceeds the radius, accept when
   * the Manhattan distance is within it, otherwise compare squared distances.
   */
  function InsideCircle(center: Point, point: Point, radius: real): bool
  {
    var dx := Abs(point.x - center.x);
    var dy := Abs(point.y - center.y);
    if dx > radius then false
    else if dy > radius then false
    else if dx + dy <= radius then true
    else dx * dx + dy * dy <= radius * radius
  }

  /** The squared Euclidean distance between two points. */
  function DistSq(a: Point, b: Point): real
  {
    (a.x - b.x) * (a.x - b.x) + (a.y - b.y) * (a.y - b.y)
  }

  lemma PositiveProduct(a: real, b: real)
    requires 0.0 < a && 0.0 < b
    ensures 0.0 < a * b
  {
  }

  /** The first tier only rejects points the Euclidean test rejects too. */
  lemma AxisRejectSound(dx: real, dy: real, radius: real)
    requires 0.0 <= radius < dx
    ensures dx * dx + dy * dy > radius * radius
  {
    assert dx * dx - radius * radius == (dx - radius) * (dx + radius);
    PositiveProduct(dx - radius, dx + radius);
    assert dy * dy >= 0.0;
  }

  /** The Manhattan shortcut only accepts points the Euclidean test accepts too. */
  lemma ManhattanShortcutSound(dx: real, dy: real, radius: real)
    requires 0.0 <= dx && 0.0 <= dy && dx + dy <= radius
    ensures dx * dx + dy * dy <= radius * radius
  {
    assert dx * dx + dy * dy <= (dx + dy) * (dx + dy) by {
      assert (dx + dy) * (dx + dy) == dx * dx + dy * dy + 2.0 * dx * dy;
      assert dx * dy >= 0.0;
    }
    assert (dx + dy) * (dx + dy) <= radius * (dx + dy) <= radius * radius;
  }

  /**
   * The three tiers together decide exactly the closed disc: a point is inside
   * when its squared distance is at most the squared radius, boundary included,
   * and no point is inside a circle of negative radius.
   */
  lemma InsideCircleIsDisc(center: Point, point: Point, radius: real)
    ensures InsideCircle(center, point, radius) <==>
              0.0 <= radius && DistSq(point, center) <= radius * radius
  {
    var dx := Abs(point.x - center.x);
    var dy := Abs(point.y - center.y);
    assert dx * dx + dy * dy == DistSq(point, center);
    if radius < 0.0 {
      assert dx > radius;
    } else if dx > radius {
      AxisRejectSound(dx, dy, radius);
    } else if dy > radius {
      AxisRejectSound(dy, dx, radius);
    } else if dx + dy <= radius {
      ManhattanShortcutSound(dx, dy, radius);
    }
  }

  /** A point the test accepts is within the radius along each axis. */
  lemma InsideCircleAxisBounds(center: Point, point: Point, radius: real)
    requires InsideCircle(center, point, radius)
    ensures center.x - radius <= point.x <= center.x + radius
    ensures center.y - radius <= point.y <= center.y + radius
  {
  }
}
