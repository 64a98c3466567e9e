/**
  A crop box in the form the imaging library's `crop` takes: pixel bounds
  `(left, top, right, bottom)`, with `right` and `bottom` exclusive.
 */
module Geometry {

  datatype Rect = Rect(left: int, top: int, right: int, bottom: int)
  {
    /** Horizontal extent of the box. */
    function Width(): int { right - left }

    /** Vertical extent of the box. */
    function Height(): int { bottom - top }
  }

  /** The box lies inside a `width` x `height` image (it may be empty). */
  predicate InBounds(r: Rect, width: int, height: int)
  {
    0 <= r.left <= r.right <= width && 0 <= r.top <= r.bottom <= height
  }

  /** The box keeps at least one pixel. */
  predicate NonEmpty(r: Rect)
  {
    r.left < r.right && r.top < r.bottom
  }
}
