/** Slide navigation of the feature showcase: the fixed number of slides, the
    clamped `go(delta)` primitive that is the only way the active slide changes,
    the prev/next buttons and the list items that jump straight to a slide. */
module Navigation {

  /** Number of feature slides (the length of the static feature list). Only the
      count matters to navigation; titles, bullets and images are content. */
  const FeatureCount: int := 5

  /** The highest valid slide index. */
  const LastIndex: int := FeatureCount - 1

  predicate InRange(i: int) {
    0 <= i < FeatureCount
  }

  function Min(a: int, b: int): (r: int)
    ensures r <= a && r <= b && (r == a || r == b)
  {
    if a <= b then a else b
  }

  function Max(a: int, b: int): (r: int)
    ensures r >= a && r >= b && (r == a || r == b)
  {
    if a >= b then a else b
  }

  function Dist(a: int, b: int): nat {
    if a <= b then b - a else a - b
  }

  /** The state updater of `go(delta)`: move the index by `delta` and clamp to
      the slide range. The result is the valid index nearest to `i + delta`, and
      is `i + delta` itself whenever that is already valid. */
  function Clamp(i: int, delta: int): (r: int)
    ensures InRange(r)
    ensures forall k :: InRange(k) ==> Dist(r, i + delta) <= Dist(k, i + delta)
    ensures InRange(i + delta) ==> r == i + delta
  {
    Min(FeatureCount - 1, Max(0, i + delta))
  }

  /** Clamping never wraps around: an overshoot past either end stops at that end. */
  lemma ClampNeverWraps(i: int, delta: int)
    ensures i + delta < 0 ==> Clamp(i, delta) == 0
    ensures i + delta > LastIndex ==> Clamp(i, delta) == LastIndex
  {
  }

  /** `go(0)` leaves a valid index where it is; `go(-1)` at the first slide and
      `go(1)` at the last slide do nothing. */
  lemma GoNoops(i: int)
    requires InRange(i)
    ensures Clamp(i, 0) == i
    ensures Clamp(0, -1) == 0
    ensures Clamp(LastIndex, 1) == LastIndex
  {
  }

  /** Activating list item `item` while slide `current` is shown calls
      `go(item - current)`, which lands exactly on `item` in one step. */
  lemma JumpLandsOnItem(current: int, item: int)
    requires InRange(item)
    ensures Clamp(current, item - current) == item
  {
  }

  /** The "Previous" button is disabled at the first slide. */
  predicate PrevDisabled(i: int): (r: bool)
    ensures InRange(i) ==> (r <==> Clamp(i, -1) == i)
  {
    i == 0
  }

  /** The "Next" button is disabled at the last slide. */
  predicate NextDisabled(i: int): (r: bool)
    ensures InRange(i) ==> (r <==> Clamp(i, 1) == i)
  {
    i == LastIndex
  }

  /** For a valid index, a button is disabled exactly when the step it would take
      is swallowed by the clamp, and otherwise it moves by exactly one slide. */
  lemma DisabledExactlyWhenStepIsNoop(i: int)
    requires InRange(i)
    ensures PrevDisabled(i) <==> Clamp(i, -1) == i
    ensures NextDisabled(i) <==> Clamp(i, 1) == i
    ensures !PrevDisabled(i) ==> Clamp(i, -1) == i - 1
    ensures !NextDisabled(i) ==> Clamp(i, 1) == i + 1
  {
  }

  /** The keys that activate a focused list item, like a click does. */
  predicate ActivatesItem(key: string) {
    key == "Enter" || key == " "
  }
}
