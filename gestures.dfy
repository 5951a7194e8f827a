/** Pure gesture and viewport logic: the horizontal swipe classifier of the
    touch-end handler and the "fully visible" test of the mobile visibility
    check. Pixel coordinates are modelled as integers: only signs and threshold
    comparisons matter. */
module Gestures {

  /** A swipe must travel more than this many pixels horizontally. */
  const SwipeThresholdPx: int := 40

  function Abs(x: int): (r: nat)
    ensures r == x || r == -x
  {
    if x < 0 then -x else x
  }

  /** The slide step a completed touch (displacement `dx`, `dy` between touch
      start and touch end) asks for: +1 for a left swipe, -1 for a right swipe,
      0 when the touch was not a long, mostly horizontal swipe. */
  function SwipeStep(dx: int, dy: int): (r: int)
    ensures r == 0 || r == 1 || r == -1
    ensures r != 0 <==> Abs(dx) > Abs(dy) && Abs(dx) > SwipeThresholdPx
    ensures r == 1 ==> dx < -SwipeThresholdPx
    ensures r == -1 ==> dx > SwipeThresholdPx
  {
    if Abs(dx) > Abs(dy) && Abs(dx) > SwipeThresholdPx then
      (if dx < 0 then 1 else -1)
    else
      0
  }

  /** Mirroring a swipe left-to-right reverses its step. */
  lemma SwipeMirror(dx: int, dy: int)
    ensures SwipeStep(-dx, dy) == -SwipeStep(dx, dy)
  {
  }

  /** The vertical direction of a touch never decides its step. */
  lemma SwipeIgnoresVerticalDirection(dx: int, dy: int)
    ensures SwipeStep(dx, -dy) == SwipeStep(dx, dy)
  {
  }

  /** A touch that travels at least as far vertically as horizontally is left to
      the page as a scroll, however long it is. */
  lemma VerticalTouchIsNoSwipe(dx: int, dy: int)
    requires Abs(dy) >= Abs(dx)
    ensures SwipeStep(dx, dy) == 0
  {
  }

  /** The mobile visibility test: the element's bounding box lies entirely
      inside the viewport, of height `innerHeight`. */
  predicate FullyVisible(top: int, bottom: int, innerHeight: int): (r: bool)
    ensures r ==> bottom - top <= innerHeight
  {
    top >= 0 && bottom <= innerHeight
  }

  /** An element taller than the viewport never counts as visible. */
  lemma TallElementNeverVisible(top: int, bottom: int, innerHeight: int)
    requires bottom - top > innerHeight
    ensures !FullyVisible(top, bottom, innerHeight)
  {
  }
}
