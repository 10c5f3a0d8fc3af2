/**
 * Bounding boxes and the coordinate clamp that forces each of their
 * coordinates into the image (crop_pascal_voc.py, lines 98-101).
 */
module Geometry {

  /** An axis-aligned box in integer pixel coordinates, as read from an object's bndbox. */
  datatype Box = Box(xmin: int, ymin: int, xmax: int, ymax: int)

  function Min(a: int, b: int): int { if a <= b then a else b }

  function Max(a: int, b: int): int { if a >= b then a else b }

  /**
   * min(max(v, 0), dim - 1): the point of [0, dim - 1] nearest to v.
   * When dim <= 0 that range is empty and every v lands on dim - 1.
   */
  function Clamp(v: int, dim: int): (r: int)
    ensures r <= dim - 1
    ensures dim >= 1 ==> 0 <= r
    ensures 0 <= v <= dim - 1 ==> r == v
    ensures dim >= 1 && v < 0 ==> r == 0
    ensures v > dim - 1 ==> r == dim - 1
    ensures dim <= 0 ==> r == dim - 1
  {
    Min(Max(v, 0), dim - 1)
  }

  /** Clamping twice is clamping once. */
  lemma ClampIdempotent(v: int, dim: int)
    ensures Clamp(Clamp(v, dim), dim) == Clamp(v, dim)
  {
  }

  /** Clamping keeps the order of two coordinates (but may make them equal). */
  lemma ClampMonotone(a: int, b: int, dim: int)
    requires a <= b
    ensures Clamp(a, dim) <= Clamp(b, dim)
  {
  }

  predicate Ordered(b: Box) {
    b.xmin <= b.xmax && b.ymin <= b.ymax
  }

  /** Every coordinate lies on a pixel of a width x height image. */
  predicate WithinImage(b: Box, width: int, height: int) {
    && 0 <= b.xmin <= width - 1 && 0 <= b.xmax <= width - 1
    && 0 <= b.ymin <= height - 1 && 0 <= b.ymax <= height - 1
  }

  /** The four clamps of lines 98-101: x against the width, y against the height. */
  function ClampBox(b: Box, width: int, height: int): (r: Box)
    ensures width >= 1 && height >= 1 ==> WithinImage(r, width, height)
    ensures WithinImage(b, width, height) ==> r == b
    ensures Ordered(b) ==> Ordered(r)
  {
    Box(Clamp(b.xmin, width), Clamp(b.ymin, height), Clamp(b.xmax, width), Clamp(b.ymax, height))
  }

  /** Clamping a clamped box changes nothing. */
  lemma ClampBoxIdempotent(b: Box, width: int, height: int)
    ensures ClampBox(ClampBox(b, width, height), width, height) == ClampBox(b, width, height)
  {
    ClampIdempotent(b.xmin, width);
    ClampIdempotent(b.ymin, height);
    ClampIdempotent(b.xmax, width);
    ClampIdempotent(b.ymax, height);
  }

  /**
   * The clamp rejects no box: one lying wholly to the right of the image
   * collapses to zero width on the last column (its crop is then empty,
   * and it is the write of that crop that raises).
   */
  lemma OffImageBoxCollapses(b: Box, width: int, height: int)
    requires width >= 1 && Ordered(b) && b.xmin >= width
    ensures ClampBox(b, width, height).xmin == ClampBox(b, width, height).xmax == width - 1
  {
  }

  /** A 100 x 80 image and the box (-5, 10, 120, 70). */
  lemma ClampExample()
    ensures ClampBox(Box(-5, 10, 120, 70), 100, 80) == Box(0, 10, 99, 70)
  {
  }
}
