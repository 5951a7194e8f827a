/** The showcase as a state machine over values: the component's mutable state,
    the events its handlers receive, the reaction to one event and the state
    after a whole trace of events. The class in module Showcase is proved to
    follow `Step` event by event; the properties of the machine are proved here. */
module Transitions {
  import opened Navigation
  import opened Gestures

  /** Minimum time, in milliseconds, between two accepted wheel gestures. */
  const ThrottleMs: int := 250

  /** Everything the handlers read and write: the active slide, the time of the
      last accepted wheel gesture, the visibility flag, and the touch handlers'
      closure variables. */
  datatype State = State(
    index: int,
    lastWheel: int,
    inView: bool,
    swipeActive: bool,
    startX: int,
    startY: int)

  /** The state right after mounting. */
  const Initial: State := State(0, 0, false, false, 0, 0)

  /** The inputs: a wheel event (its `deltaY` and the clock reading `now`),
      touch start and end (the first touch point), the two visibility signals
      (the mobile geometry check and the desktop intersection observer), and
      the navigation controls. */
  datatype Event =
    | WheelEvent(deltaY: int, now: int)
    | TouchStart(x: int, y: int)
    | TouchEnd(x: int, y: int)
    | VisibilityCheck(top: int, bottom: int, innerHeight: int)
    | Intersection(isIntersecting: bool)
    | PrevClick
    | NextClick
    | ItemClick(item: int)
    | ItemKeyDown(item: int, key: string)

  /** The state after an event, and whether the handler cancelled the event's
      default action (only the wheel listener is not passive). */
  datatype Reaction = Reaction(next: State, prevented: bool)

  /** The wheel handler: ignored out of view; suppressed inside the throttle
      window; otherwise one step in the wheel's direction, except that a step
      off either end is not intercepted so that the page scrolls on. */
  function Wheel(s: State, deltaY: int, now: int): (r: Reaction)
    ensures InRange(s.index) ==> InRange(r.next.index)
    ensures r.next == s.(index := r.next.index, lastWheel := r.next.lastWheel)
    ensures r.next.index != s.index <==> r.next.lastWheel != s.lastWheel
    ensures r.next.index != s.index ==>
              r.prevented && r.next.lastWheel == now && now - s.lastWheel > ThrottleMs
    ensures InRange(s.index) ==> Dist(r.next.index, s.index) <= 1
    ensures r.prevented <==> s.inView && (now - s.lastWheel <= ThrottleMs || r.next.index != s.index)
  {
    if !s.inView then Reaction(s, false)
    else if now - s.lastWheel <= ThrottleMs then Reaction(s, true)
    else if deltaY > 0 && s.index != LastIndex then
      Reaction(s.(index := Clamp(s.index, 1), lastWheel := now), true)
    else if deltaY < 0 && s.index != 0 then
      Reaction(s.(index := Clamp(s.index, -1), lastWheel := now), true)
    else Reaction(s, false)
  }

  /** The touch-end handler: without a preceding touch start nothing happens;
      otherwise the swipe is classified, `go` is called for a real swipe, and
      the touch is over. */
  function TouchEndStep(s: State, x: int, y: int): (t: State)
    ensures !t.swipeActive
    ensures !s.swipeActive ==> t == s
    ensures t == s.(index := t.index, swipeActive := false)
    ensures InRange(s.index) ==> InRange(t.index)
    ensures s.swipeActive && InRange(s.index) ==>
              t.index == Clamp(s.index, SwipeStep(x - s.startX, y - s.startY))
  {
    if !s.swipeActive then s
    else
      var step := SwipeStep(x - s.startX, y - s.startY);
      s.(index := if step != 0 then Clamp(s.index, step) else s.index, swipeActive := false)
  }

  /** The reaction of the component to one event. Only the wheel listener can
      cancel an event, only the visibility signals change `inView`, and only an
      accepted wheel gesture moves the last-wheel time. */
  function Step(s: State, e: Event): (r: Reaction)
    ensures InRange(s.index) ==> InRange(r.next.index)
    ensures r.prevented ==> e.WheelEvent?
    ensures r.next.inView != s.inView ==> e.VisibilityCheck? || e.Intersection?
    ensures r.next.lastWheel != s.lastWheel ==> e.WheelEvent? && r.next.index != s.index
  {
    match e
    case WheelEvent(deltaY, now) => Wheel(s, deltaY, now)
    case TouchStart(x, y) => Reaction(s.(swipeActive := true, startX := x, startY := y), false)
    case TouchEnd(x, y) => Reaction(TouchEndStep(s, x, y), false)
    case VisibilityCheck(top, bottom, innerHeight) =>
      Reaction(s.(inView := FullyVisible(top, bottom, innerHeight)), false)
    case Intersection(isIntersecting) => Reaction(s.(inView := isIntersecting), false)
    case PrevClick =>
      Reaction(if PrevDisabled(s.index) then s else s.(index := Clamp(s.index, -1)), false)
    case NextClick =>
      Reaction(if NextDisabled(s.index) then s else s.(index := Clamp(s.index, 1)), false)
    case ItemClick(item) => Reaction(s.(index := Clamp(s.index, item - s.index)), false)
    case ItemKeyDown(item, key) =>
      Reaction(if ActivatesItem(key) then s.(index := Clamp(s.index, item - s.index)) else s, false)
  }

  /** The state after handling `events` in order. */
  function Run(s: State, events: seq<Event>): State
    decreases |events|
  {
    if events == [] then s else Run(Step(s, events[0]).next, events[1..])
  }

  // ---- One event ----

  /** Every handler keeps the active slide valid. */
  lemma StepKeepsIndexInRange(s: State, e: Event)
    requires InRange(s.index)
    ensures InRange(Step(s, e).next.index)
  {
  }

  /** Out of view, a wheel event changes nothing and is not cancelled. */
  lemma WheelIgnoredOutOfView(s: State, deltaY: int, now: int)
    requires !s.inView
    ensures Step(s, WheelEvent(deltaY, now)) == Reaction(s, false)
  {
  }

  /** In view, a wheel event no more than 250 ms after the last accepted one is
      cancelled and changes nothing (exactly 250 ms is still too soon). */
  lemma WheelThrottled(s: State, deltaY: int, now: int)
    requires s.inView && now - s.lastWheel <= ThrottleMs
    ensures Step(s, WheelEvent(deltaY, now)) == Reaction(s, true)
  {
  }

  /** Past the throttle window, scrolling down away from the last slide
      advances one slide, records `now` and cancels the page scroll. */
  lemma WheelAdvances(s: State, deltaY: int, now: int)
    requires s.inView && now - s.lastWheel > ThrottleMs
    requires deltaY > 0 && InRange(s.index) && s.index != LastIndex
    ensures Step(s, WheelEvent(deltaY, now)) == Reaction(s.(index := s.index + 1, lastWheel := now), true)
  {
  }

  /** Past the throttle window, scrolling up away from the first slide goes
      back one slide, records `now` and cancels the page scroll. */
  lemma WheelRetreats(s: State, deltaY: int, now: int)
    requires s.inView && now - s.lastWheel > ThrottleMs
    requires deltaY < 0 && InRange(s.index) && s.index != 0
    ensures Step(s, WheelEvent(deltaY, now)) == Reaction(s.(index := s.index - 1, lastWheel := now), true)
  {
  }

  /** Past the throttle window, scrolling down on the last slide, up on the
      first, or with no vertical delta changes nothing and is not cancelled,
      so the page scrolls past the pinned section. */
  lemma WheelPassesThroughAtEdges(s: State, deltaY: int, now: int)
    requires now - s.lastWheel > ThrottleMs
    requires (deltaY > 0 && s.index == LastIndex) || (deltaY < 0 && s.index == 0) || deltaY == 0
    ensures Step(s, WheelEvent(deltaY, now)) == Reaction(s, false)
  {
  }

  /** A touch end always leaves no touch in progress; one without a touch start
      does nothing at all. */
  lemma TouchEndResetsSwipe(s: State, x: int, y: int)
    ensures !Step(s, TouchEnd(x, y)).next.swipeActive
    ensures !s.swipeActive ==> Step(s, TouchEnd(x, y)).next == s
  {
  }

  /** A long, mostly horizontal swipe moves one slide: a left swipe forward, a
      right swipe back, clamped at the ends. */
  lemma SwipeMovesOneSlide(s: State, x: int, y: int)
    requires s.swipeActive && InRange(s.index)
    requires SwipeStep(x - s.startX, y - s.startY) != 0
    ensures x < s.startX ==> Step(s, TouchEnd(x, y)).next.index == Clamp(s.index, 1)
    ensures x > s.startX ==> Step(s, TouchEnd(x, y)).next.index == Clamp(s.index, -1)
  {
  }

  /** The swipe handler does not consult `inView`: a touch end moves the slide
      the same way whether or not the showcase is in view. */
  lemma SwipeIgnoresVisibility(s: State, x: int, y: int)
    ensures Step(s.(inView := false), TouchEnd(x, y)).next ==
            Step(s.(inView := true), TouchEnd(x, y)).next.(inView := false)
  {
  }

  /** Clicking list item `item`, or pressing Enter or Space on it, shows that
      item's slide directly. */
  lemma ItemActivationJumps(s: State, item: int, key: string)
    requires InRange(item)
    ensures Step(s, ItemClick(item)).next.index == item
    ensures ActivatesItem(key) ==> Step(s, ItemKeyDown(item, key)).next.index == item
    ensures !ActivatesItem(key) ==> Step(s, ItemKeyDown(item, key)).next == s
  {
    JumpLandsOnItem(s.index, item);
  }

  /** A visibility check that finds the element not fully visible turns the
      wheel handler off: a wheel event right after it changes nothing and the
      page scrolls normally. */
  lemma {:induction false} HiddenCheckDisablesWheel(s: State, top: int, bottom: int, innerHeight: int, deltaY: int, now: int)
    requires !FullyVisible(top, bottom, innerHeight)
    ensures Run(s, [VisibilityCheck(top, bottom, innerHeight), WheelEvent(deltaY, now)]) == s.(inView := false)
  {
    var events := [VisibilityCheck(top, bottom, innerHeight), WheelEvent(deltaY, now)];
    var s1 := Step(s, events[0]).next;
    assert s1 == s.(inView := false);
    assert events[1..] == [WheelEvent(deltaY, now)];
    assert Run(s1, [WheelEvent(deltaY, now)]) == Run(s1, []) == s1;
  }

  // ---- Two wheel events ----

  /** Two downward wheel events within 250 ms of each other, the first one
      accepted, advance exactly one slide. */
  lemma TwoQuickWheelsAdvanceOnce(s: State, now1: int, now2: int)
    requires s.inView && InRange(s.index) && s.index != LastIndex
    requires now1 - s.lastWheel > ThrottleMs && now2 - now1 <= ThrottleMs
    ensures Run(s, [WheelEvent(1, now1), WheelEvent(1, now2)]).index == s.index + 1
  {
    var s1 := Step(s, WheelEvent(1, now1)).next;
    var s2 := Step(s1, WheelEvent(1, now2)).next;
    assert [WheelEvent(1, now1), WheelEvent(1, now2)][1..] == [WheelEvent(1, now2)];
    assert Run(s1, [WheelEvent(1, now2)]) == Run(s2, []) == s2;
  }

  /** Two downward wheel events more than 250 ms apart, both past the throttle
      window, advance two slides when there is room. */
  lemma TwoSpacedWheelsAdvanceTwice(s: State, now1: int, now2: int)
    requires s.inView && 0 <= s.index < LastIndex - 1
    requires now1 - s.lastWheel > ThrottleMs && now2 - now1 > ThrottleMs
    ensures Run(s, [WheelEvent(1, now1), WheelEvent(1, now2)]).index == s.index + 2
  {
    var s1 := Step(s, WheelEvent(1, now1)).next;
    var s2 := Step(s1, WheelEvent(1, now2)).next;
    assert [WheelEvent(1, now1), WheelEvent(1, now2)][1..] == [WheelEvent(1, now2)];
    assert Run(s1, [WheelEvent(1, now2)]) == Run(s2, []) == s2;
  }

  // ---- Whole traces ----

  /** Whatever events arrive, the active slide stays valid. */
  lemma {:induction false} RunKeepsIndexInRange(s: State, events: seq<Event>)
    requires InRange(s.index)
    ensures InRange(Run(s, events).index)
    decreases |events|
  {
    if events != [] {
      StepKeepsIndexInRange(s, events[0]);
      RunKeepsIndexInRange(Step(s, events[0]).next, events[1..]);
    }
  }

  /** The time of the last accepted wheel gesture never goes back. */
  lemma {:induction false} RunLastWheelNeverDecreases(s: State, events: seq<Event>)
    ensures s.lastWheel <= Run(s, events).lastWheel
    decreases |events|
  {
    if events != [] {
      RunLastWheelNeverDecreases(Step(s, events[0]).next, events[1..]);
    }
  }

  predicate AllWheel(events: seq<Event>) {
    forall k :: 0 <= k < |events| ==> events[k].WheelEvent?
  }

  /** While the showcase is out of view, no sequence of wheel events changes
      anything. */
  lemma {:induction false} WheelsOutOfViewChangeNothing(s: State, events: seq<Event>)
    requires !s.inView && AllWheel(events)
    ensures Run(s, events) == s
    decreases |events|
  {
    if events != [] {
      assert events[0].WheelEvent?;
      assert AllWheel(events[1..]) by {
        forall k | 0 <= k < |events[1..]| ensures events[1..][k].WheelEvent? {
          assert events[1..][k] == events[k + 1];
        }
      }
      WheelsOutOfViewChangeNothing(s, events[1..]);
    }
  }

  /** All events are wheel events whose clock readings lie in [t, t + 250]. */
  predicate WheelBurst(events: seq<Event>, t: int) {
    forall k :: 0 <= k < |events| ==>
      events[k].WheelEvent? && t <= events[k].now <= t + ThrottleMs
  }

  lemma WheelBurstTail(events: seq<Event>, t: int)
    requires events != [] && WheelBurst(events, t)
    ensures WheelBurst(events[1..], t)
  {
    forall k | 0 <= k < |events[1..]|
      ensures events[1..][k].WheelEvent? && t <= events[1..][k].now <= t + ThrottleMs
    {
      assert events[1..][k] == events[k + 1];
    }
  }

  /** Once a gesture at or after time t has been accepted, the rest of a burst
      within [t, t + 250] is throttled away entirely. */
  lemma {:induction false} BurstAfterAcceptanceIsInert(s: State, events: seq<Event>, t: int)
    requires s.lastWheel >= t && WheelBurst(events, t)
    ensures Run(s, events) == s
    decreases |events|
  {
    if events != [] {
      assert events[0].WheelEvent? && events[0].now <= t + ThrottleMs;
      WheelBurstTail(events, t);
      BurstAfterAcceptanceIsInert(s, events[1..], t);
    }
  }

  /** The throttle at work: however many wheel events arrive within one 250 ms
      window, the active slide moves by at most one. */
  lemma {:induction false} WheelBurstMovesAtMostOnce(s: State, events: seq<Event>, t: int)
    requires InRange(s.index) && WheelBurst(events, t)
    ensures Dist(Run(s, events).index, s.index) <= 1
    decreases |events|
  {
    if events != [] {
      var e := events[0];
      assert e.WheelEvent? && t <= e.now;
      var s' := Step(s, e).next;
      WheelBurstTail(events, t);
      if s'.index == s.index {
        assert s' == s;
        WheelBurstMovesAtMostOnce(s, events[1..], t);
      } else {
        assert s'.lastWheel == e.now >= t;
        BurstAfterAcceptanceIsInert(s', events[1..], t);
      }
    }
  }
}
