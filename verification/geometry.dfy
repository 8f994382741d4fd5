/**
 The geometry test of `DefaultImpressionState.onLayoutCoordinatesChange`: the
 element's window-relative bounds are intersected with the window-relative
 viewport, and the element counts as visible when the overlap covers at least
 `visibleRatio` of the element's own pixel area.

 `Rect` coordinates and the ratio are Kotlin `Float`s, modelled as `real`
 (rounding is not modelled); `IntSize` holds two Kotlin `Int`s, whose product
 wraps modulo 2^32.
 */
module Geometry {

  /** A Kotlin `Int`. */
  type Int32 = x: int | -0x8000_0000 <= x < 0x8000_0000

  /** Two's-complement truncation of an integer to a Kotlin `Int`. */
  function WrapInt32(x: int): (r: Int32)
    ensures (r - x) % 0x1_0000_0000 == 0
    ensures -0x8000_0000 <= x < 0x8000_0000 ==> r == x
  {
    var m := x % 0x1_0000_0000;
    if m < 0x8000_0000 then m else m - 0x1_0000_0000
  }

  /** Compose `IntSize`: the element's measured size in pixels. */
  datatype IntSize = IntSize(width: Int32, height: Int32)

  /** Compose `Rect`, in window coordinates (y grows downwards). */
  datatype Rect = Rect(left: real, top: real, right: real, bottom: real)

  function Max(a: real, b: real): real { if a >= b then a else b }

  function Min(a: real, b: real): real { if a <= b then a else b }

  /** `size.width * size.height`, evaluated in 32-bit `Int` arithmetic. */
  function ComponentArea(size: IntSize): (r: Int32)
    ensures (r - size.width * size.height) % 0x1_0000_0000 == 0
    ensures -0x8000_0000 <= size.width * size.height < 0x8000_0000 ==> r == size.width * size.height
  {
    WrapInt32(size.width * size.height)
  }

  /** Height of the overlap of the two rectangles; negative when they miss vertically. */
  function VisibleHeight(bounds: Rect, view: Rect): real
  {
    Min(bounds.bottom, view.bottom) - Max(bounds.top, view.top)
  }

  /** Width of the overlap of the two rectangles; negative when they miss horizontally. */
  function VisibleWidth(bounds: Rect, view: Rect): real
  {
    Min(bounds.right, view.right) - Max(bounds.left, view.left)
  }

  /**
   `visibleArea / componentArea >= visibleRatio` as Kotlin evaluates it. A
   zero divisor does not trap on `Float`: a positive area over zero is
   +Infinity, which passes every finite threshold, and zero over zero is NaN,
   which fails every comparison.
   */
  predicate RatioAtLeast(visibleArea: real, componentArea: int, visibleRatio: real)
  {
    if componentArea == 0 then visibleArea > 0.0
    else visibleArea / componentArea as real >= visibleRatio
  }

  /** The test on the computed overlap extents and the element's pixel area. */
  predicate OverlapSufficient(visibleHeight: real, visibleWidth: real, componentArea: int, visibleRatio: real)
  {
    && visibleHeight >= 0.0
    && visibleWidth >= 0.0
    && RatioAtLeast(visibleWidth * visibleHeight, componentArea, visibleRatio)
  }

  /** The element passes the geometry test of `onLayoutCoordinatesChange`. */
  predicate SufficientlyVisible(size: IntSize, bounds: Rect, view: Rect, visibleRatio: real)
  {
    OverlapSufficient(VisibleHeight(bounds, view), VisibleWidth(bounds, view), ComponentArea(size), visibleRatio)
  }

  /** A rectangle's own area, independent of the element's pixel size. */
  function RectArea(r: Rect): real
  {
    (r.right - r.left) * (r.bottom - r.top)
  }

  /**
   For an element of positive area the ratio test is the division-free
   inequality `visibleArea >= visibleRatio * componentArea`.
   */
  lemma VisibleIffOverlapCoversRatio(size: IntSize, bounds: Rect, view: Rect, visibleRatio: real)
    requires ComponentArea(size) > 0
    ensures SufficientlyVisible(size, bounds, view, visibleRatio)
        <==> && VisibleHeight(bounds, view) >= 0.0
             && VisibleWidth(bounds, view) >= 0.0
             && VisibleWidth(bounds, view) * VisibleHeight(bounds, view)
                  >= visibleRatio * ComponentArea(size) as real
  {
    var a := VisibleWidth(bounds, view) * VisibleHeight(bounds, view);
    var c := ComponentArea(size) as real;
    DivisionThreshold(a, c, visibleRatio);
  }

  /** `a / c >= t` exactly when `a >= t * c`, for a positive divisor. */
  lemma DivisionThreshold(a: real, c: real, t: real)
    requires c > 0.0
    ensures a / c >= t <==> a >= t * c
  {
    assert a == (a / c) * c;
    if a / c >= t {
      assert (a / c) * c >= t * c;
    } else {
      assert (a / c) * c < t * c;
    }
  }

  /** An element missing the viewport on either axis is never visible. */
  lemma NoOverlapNotVisible(size: IntSize, bounds: Rect, view: Rect, visibleRatio: real)
    requires VisibleHeight(bounds, view) < 0.0 || VisibleWidth(bounds, view) < 0.0
    ensures !SufficientlyVisible(size, bounds, view, visibleRatio)
  {
  }

  /**
   The threshold is inclusive: an overlap covering exactly `visibleRatio` of a
   positive-area element counts as visible, and anything strictly less does not.
   */
  lemma RatioBoundaryInclusive(size: IntSize, bounds: Rect, view: Rect, visibleRatio: real)
    requires ComponentArea(size) > 0
    requires VisibleHeight(bounds, view) >= 0.0 && VisibleWidth(bounds, view) >= 0.0
    ensures (VisibleWidth(bounds, view) * VisibleHeight(bounds, view) == visibleRatio * ComponentArea(size) as real)
            ==> SufficientlyVisible(size, bounds, view, visibleRatio)
    ensures (VisibleWidth(bounds, view) * VisibleHeight(bounds, view) < visibleRatio * ComponentArea(size) as real)
            ==> !SufficientlyVisible(size, bounds, view, visibleRatio)
  {
    VisibleIffOverlapCoversRatio(size, bounds, view, visibleRatio);
  }

  /** Lowering the threshold never turns a visible element invisible. */
  lemma VisibleMonotoneInRatio(size: IntSize, bounds: Rect, view: Rect, high: real, low: real)
    requires low <= high
    requires SufficientlyVisible(size, bounds, view, high)
    ensures SufficientlyVisible(size, bounds, view, low)
  {
  }

  /** Only the overlap matters: swapping the element and viewport rectangles changes nothing. */
  lemma VisibleSymmetric(size: IntSize, bounds: Rect, view: Rect, visibleRatio: real)
    ensures SufficientlyVisible(size, bounds, view, visibleRatio)
        <==> SufficientlyVisible(size, view, bounds, visibleRatio)
  {
    assert VisibleHeight(bounds, view) == VisibleHeight(view, bounds);
    assert VisibleWidth(bounds, view) == VisibleWidth(view, bounds);
  }

  /**
   An element whose bounds coincide with the viewport and whose pixel area is
   the rectangle's area is visible at every threshold up to 1.
   */
  lemma FullOverlapVisible(size: IntSize, rect: Rect, visibleRatio: real)
    requires ComponentArea(size) > 0
    requires rect.left <= rect.right && rect.top <= rect.bottom
    requires RectArea(rect) == ComponentArea(size) as real
    requires visibleRatio <= 1.0
    ensures SufficientlyVisible(size, rect, rect, visibleRatio)
  {
    VisibleIffOverlapCoversRatio(size, rect, rect, visibleRatio);
    assert VisibleWidth(rect, rect) * VisibleHeight(rect, rect) == RectArea(rect);
    assert visibleRatio * ComponentArea(size) as real <= ComponentArea(size) as real;
  }

  /**
   With a zero pixel area the verdict depends only on whether the overlap has
   positive area: Float division yields +Infinity or NaN, not an error.
   */
  lemma ZeroAreaVisibleIffOverlapPositive(size: IntSize, bounds: Rect, view: Rect, visibleRatio: real)
    requires ComponentArea(size) == 0
    ensures SufficientlyVisible(size, bounds, view, visibleRatio)
        <==> && VisibleHeight(bounds, view) >= 0.0
             && VisibleWidth(bounds, view) >= 0.0
             && VisibleWidth(bounds, view) * VisibleHeight(bounds, view) > 0.0
  {
  }

  /** A 65536 x 65536 element wraps to a zero `Int` area. */
  lemma HugeElementAreaWrapsToZero()
    ensures ComponentArea(IntSize(0x1_0000, 0x1_0000)) == 0
  {
  }

}
