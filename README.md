# Feature showcase gesture model

This project models the slide-navigation core of the Scrollify `FeatureShowcase`
component. The component is a pinned section that shows one of five feature
slides. The active slide changes only through a clamped step, `go(delta)`. Four
kinds of input lead to that step:

- the Previous/Next buttons;
- clicking a feature list item, or pressing Enter or Space on it;
- a wheel handler, which is throttled to one accepted gesture per 250 ms and
  lets the page scroll on at either end;
- a horizontal-swipe classifier on touch end.

The wheel handler only acts while the section is "in view". On mobile that flag
comes from a geometry check. On desktop it comes from an intersection observer.

The model has four modules:

- `Navigation` (`navigation.dfy`) holds the slide count (5), the clamp behind
  `go`, the disabled conditions of the buttons and the keys that activate a list
  item.
- `Gestures` (`gestures.dfy`) holds the pure swipe classifier and the
  "fully visible" test.
- `Transitions` (`transitions.dfy`) is the component as a state machine over
  values. `State` holds the active index, the last accepted wheel time, the
  in-view flag and the touch closure variables. `Event` lists every input. `Step`
  gives the reaction to one event: the new state and whether `preventDefault`
  was called. `Run` gives the state after a trace of events. The lemmas here
  state the throttle, pass-through and range properties, for one event and for
  whole traces.
- `Showcase` (`showcase.dfy`) is the component as an object. The class
  `FeatureShowcase` has one field per piece of React state, ref or closure
  variable. Its handlers assign those fields in place. Each handler's `ensures`
  says that it performs exactly the `Step` transition for its event.

Only the wheel handler checks `inView` (`src/FeatureShowcase.js:113`). The
touch-end swipe handler (`src/FeatureShowcase.js:147-157`) moves the slide
whether or not the section is in view, and so does the model's `TouchEndStep`
(stated by `Transitions.SwipeIgnoresVisibility`).

## Model

| member | source | states |
|---|---|---|
| Navigation.Min | src/FeatureShowcase.js:106 | `Math.min`: the result is at most both arguments and is one of them |
| Navigation.Max | src/FeatureShowcase.js:106 | `Math.max`: the result is at least both arguments and is one of them |
| Navigation.Clamp | src/FeatureShowcase.js:105-107 | the `go` updater always gives a valid index; that index is the valid one nearest to `i + delta`; it is exactly `i + delta` when that is valid |
| Navigation.ClampNeverWraps | src/FeatureShowcase.js:106 | overshooting below 0 stops at 0 and overshooting above N-1 stops at N-1, so the index never wraps |
| Navigation.GoNoops | src/FeatureShowcase.js:106 | `go(0)` keeps a valid index; `go(-1)` at 0 and `go(1)` at N-1 are no-ops |
| Navigation.JumpLandsOnItem | src/FeatureShowcase.js:198-200 | `go(item - current)` with a valid `item` lands exactly on `item`, from any current index |
| Navigation.PrevDisabled | src/FeatureShowcase.js:184 | the Previous button's `disabled` condition; for a valid index it holds iff `go(-1)` would be a no-op |
| Navigation.NextDisabled | src/FeatureShowcase.js:186 | the Next button's `disabled` condition; for a valid index it holds iff `go(1)` would be a no-op |
| Navigation.ActivatesItem | src/FeatureShowcase.js:200 | the keys that activate a focused list item: Enter and Space |
| Navigation.DisabledExactlyWhenStepIsNoop | src/FeatureShowcase.js:184-186 | for a valid index, Previous/Next is disabled iff its step is swallowed by the clamp; an enabled button moves exactly one slide |
| Gestures.Abs | src/FeatureShowcase.js:153 | `Math.abs`: a non-negative value equal to `x` or `-x` |
| Gestures.SwipeStep | src/FeatureShowcase.js:149-155 | the step is -1, 0 or +1; it is non-zero iff the horizontal travel beats the vertical travel and exceeds 40 px; +1 only for a left swipe of more than 40 px, -1 only for a right one |
| Gestures.SwipeMirror | src/FeatureShowcase.js:153-154 | mirroring a touch left-to-right negates its step |
| Gestures.SwipeIgnoresVerticalDirection | src/FeatureShowcase.js:153-154 | flipping the vertical direction of a touch never changes its step |
| Gestures.VerticalTouchIsNoSwipe | src/FeatureShowcase.js:152-153 | a touch with at least as much vertical as horizontal travel never moves a slide |
| Gestures.FullyVisible | src/FeatureShowcase.js:56 | the visibility test `top >= 0 && bottom <= innerHeight`; when it holds, the element fits within the viewport height |
| Gestures.TallElementNeverVisible | src/FeatureShowcase.js:56 | an element taller than the viewport is never fully visible |
| Transitions.Wheel | src/FeatureShowcase.js:112-129 | the wheel handler keeps the index valid and changes only index and last-wheel time; the index changes iff the timestamp changes; a change is cancelled, records `now`, happens only more than 250 ms after the last one, and moves at most one slide; `preventDefault` is called iff in view and either throttled or moving |
| Transitions.TouchEndStep | src/FeatureShowcase.js:147-157 | touch end always clears `active`; without a touch start nothing changes; otherwise only the index changes, to `go(SwipeStep(dx, dy))` |
| Transitions.Step | src/FeatureShowcase.js:53-200 | the reaction to any event (wheel :112-129, touch start :141-145, touch end :147-157, visibility check :56-57, observer :94, buttons :184/:186, list item :200); it keeps the index valid, only the wheel listener cancels an event, only the visibility signals change `inView`, and only an accepted wheel gesture, which moves the slide, changes the last-wheel time |
| Transitions.StepKeepsIndexInRange | src/FeatureShowcase.js:105-107 | every handler keeps the active index within [0, N-1] |
| Transitions.WheelIgnoredOutOfView | src/FeatureShowcase.js:113 | out of view, a wheel event changes nothing and is not cancelled |
| Transitions.WheelThrottled | src/FeatureShowcase.js:116-118 | in view, an event with `now - lastWheel <= 250` is cancelled and changes nothing; exactly 250 ms is still rejected |
| Transitions.WheelAdvances | src/FeatureShowcase.js:119-122 | past the throttle, scrolling down below the last slide gives index + 1, `lastWheel = now`, cancelled |
| Transitions.WheelRetreats | src/FeatureShowcase.js:123-126 | past the throttle, scrolling up above slide 0 gives index - 1, `lastWheel = now`, cancelled |
| Transitions.WheelPassesThroughAtEdges | src/FeatureShowcase.js:119-128 | past the throttle, down at the last slide, up at slide 0, or `deltaY == 0` changes nothing and is not cancelled |
| Transitions.TouchEndResetsSwipe | src/FeatureShowcase.js:147-157 | after any touch end no touch is active; a touch end with no touch start leaves the state unchanged |
| Transitions.SwipeMovesOneSlide | src/FeatureShowcase.js:153-154 | a qualifying swipe to the left calls `go(1)`, one to the right calls `go(-1)` |
| Transitions.SwipeIgnoresVisibility | src/FeatureShowcase.js:147-157 | a touch end moves the slide the same way whether or not the showcase is in view |
| Transitions.HiddenCheckDisablesWheel | src/FeatureShowcase.js:53-58 | after a visibility check that finds the element not fully visible, a wheel event changes nothing |
| Transitions.ItemActivationJumps | src/FeatureShowcase.js:198-200 | clicking item `i`, or Enter/Space on it, sets the index to `i` in one step; any other key changes nothing |
| Transitions.TwoQuickWheelsAdvanceOnce | src/FeatureShowcase.js:116-122 | two downward wheel events at most 250 ms apart, the first accepted, advance exactly one slide |
| Transitions.TwoSpacedWheelsAdvanceTwice | src/FeatureShowcase.js:116-122 | two downward wheel events more than 250 ms apart, both past the throttle, advance two slides when there is room |
| Transitions.RunKeepsIndexInRange | src/FeatureShowcase.js:105-107 | after any trace of events the active index is still within [0, N-1] |
| Transitions.RunLastWheelNeverDecreases | src/FeatureShowcase.js:117-125 | over any trace, the last accepted wheel time never goes back |
| Transitions.WheelsOutOfViewChangeNothing | src/FeatureShowcase.js:113 | out of view, any sequence of wheel events leaves the whole state unchanged |
| Transitions.BurstAfterAcceptanceIsInert | src/FeatureShowcase.js:116-118 | once a gesture at time `t` or later has been accepted, a burst of wheel events in [t, t + 250] changes nothing |
| Transitions.WheelBurstMovesAtMostOnce | src/FeatureShowcase.js:116-127 | any number of wheel events within one 250 ms window moves the slide by at most one |
| Showcase.FeatureShowcase.constructor | src/FeatureShowcase.js:39-43 | on mount: slide 0, not in view, last wheel time 0, no touch active |
| Showcase.FeatureShowcase.Go | src/FeatureShowcase.js:105-107 | `go(delta)` assigns the clamped index and nothing else |
| Showcase.FeatureShowcase.CheckVisibility | src/FeatureShowcase.js:53-58 | `inView` becomes `top >= 0 && bottom <= innerHeight`; nothing else changes |
| Showcase.FeatureShowcase.OnIntersection | src/FeatureShowcase.js:94 | `inView` becomes the observer's `isIntersecting`; nothing else changes |
| Showcase.FeatureShowcase.OnWheel | src/FeatureShowcase.js:112-129 | the in-place wheel handler makes exactly the `Wheel` transition and returns whether it called `preventDefault` |
| Showcase.FeatureShowcase.OnTouchStart | src/FeatureShowcase.js:141-145 | marks a touch active and records its start point |
| Showcase.FeatureShowcase.OnTouchEnd | src/FeatureShowcase.js:147-157 | the in-place touch-end handler makes exactly the `TouchEndStep` transition |
| Showcase.FeatureShowcase.OnPrevClick | src/FeatureShowcase.js:184 | the Previous button calls `go(-1)` unless disabled at slide 0 |
| Showcase.FeatureShowcase.OnNextClick | src/FeatureShowcase.js:186 | the Next button calls `go(1)` unless disabled at the last slide |
| Showcase.FeatureShowcase.OnItemClick | src/FeatureShowcase.js:200 | clicking item `i` calls `go(i - activeIndex)` |
| Showcase.FeatureShowcase.OnItemKeyDown | src/FeatureShowcase.js:200 | Enter or Space on item `i` calls `go(i - activeIndex)`; other keys do nothing |

## Left out

- Rendering is not modelled: the JSX tree, the feature strings, the image URLs
  and React's `useState`/`useRef`/`useEffect` lifecycle. State updates are plain
  field assignments, and only the slide count (5) is kept.
- Listener registration and teardown are not modelled, because they are browser
  I/O. The `IntersectionObserver` with threshold 1.0 is reduced to the boolean
  it reports (`OnIntersection`).
- The user-agent test that chooses between the geometry check and the observer
  is a regular expression over a platform string. The model offers both
  visibility inputs and the caller picks one.
- `Date.now()`, `getBoundingClientRect()` and `window.innerHeight` are platform
  calls. Their values are passed in as integer parameters.
- Wheel deltas and pixel coordinates are floats in the browser. They are `int`
  here, because only signs and threshold comparisons matter.
- The document-level touch-move re-check of visibility (more than 10 px of
  vertical travel) is not modelled. It only decides when to call the visibility
  check, and `CheckVisibility` models that check itself.
- Touch events are reduced to their first touch point. Multi-touch is not
  modelled.
- Stale closures are not modelled. The wheel handler reads `inView` and
  `activeIndex` as captured at the last render; the model reads the current
  values.
- Only `src/FeatureShowcase.js` is modelled.
