/** The feature showcase component as an object: the React state and refs become
    fields that the event handlers assign in place. Each handler is proved to
    perform exactly the transition `Transitions.Step` describes for its event,
    so every property proved of the state machine holds of the object. The clock,
    the element's bounding box and the viewport height are parameters. */
module Showcase {
  import opened Navigation
  import opened Gestures
  import opened Transitions

  class FeatureShowcase {
    /** The slide on display. */
    var activeIndex: int
    /** Clock reading of the last accepted wheel gesture. */
    var lastWheel: int
    /** Whether the showcase is the user's scroll focus. */
    var inView: bool
    /** Closure variables of the touch handlers. */
    var swipeActive: bool
    var startX: int
    var startY: int

    ghost predicate Valid()
      reads this
    {
      InRange(activeIndex)
    }

    /** The object's state as a value of the state machine. */
    function Snapshot(): State
      reads this
    {
      State(activeIndex, lastWheel, inView, swipeActive, startX, startY)
    }

    constructor ()
      ensures Valid() && Snapshot() == Initial
    {
      activeIndex, lastWheel, inView := 0, 0, false;
      swipeActive, startX, startY := false, 0, 0;
    }

    /** `go(delta)`: the only assignment to the active slide. */
    method Go(delta: int)
      modifies this
      ensures Valid()
      ensures Snapshot() == old(Snapshot()).(index := Clamp(old(activeIndex), delta))
    {
      activeIndex := Min(FeatureCount - 1, Max(0, activeIndex + delta));
    }

    /** The mobile visibility check, fed the element's bounding box and the
        viewport height. */
    method CheckVisibility(top: int, bottom: int, innerHeight: int)
      requires Valid()
      modifies this
      ensures Valid()
      ensures Snapshot() == Step(old(Snapshot()), VisibilityCheck(top, bottom, innerHeight)).next
    {
      inView := top >= 0 && bottom <= innerHeight;
    }

    /** The desktop intersection observer's callback. */
    method OnIntersection(isIntersecting: bool)
      requires Valid()
      modifies this
      ensures Valid()
      ensures Snapshot() == Step(old(Snapshot()), Intersection(isIntersecting)).next
    {
      inView := isIntersecting;
    }

    /** The wheel listener; `prevented` tells whether it cancelled the page
        scroll. */
    method OnWheel(deltaY: int, now: int) returns (prevented: bool)
      requires Valid()
      modifies this
      ensures Valid()
      ensures Reaction(Snapshot(), prevented) == Step(old(Snapshot()), WheelEvent(deltaY, now))
    {
      prevented := false;
      if !inView {
        return;
      }
      var atStart := activeIndex == 0;
      var atEnd := activeIndex == FeatureCount - 1;
      var throttleOk := now - lastWheel > ThrottleMs;
      if !throttleOk {
        prevented := true;
        return;
      }
      if deltaY > 0 && !atEnd {
        prevented := true;
        lastWheel := now;
        Go(1);
      } else if deltaY < 0 && !atStart {
        prevented := true;
        lastWheel := now;
        Go(-1);
      }
    }

    method OnTouchStart(x: int, y: int)
      requires Valid()
      modifies this
      ensures Valid()
      ensures Snapshot() == Step(old(Snapshot()), TouchStart(x, y)).next
    {
      swipeActive := true;
      startX := x;
      startY := y;
    }

    method OnTouchEnd(x: int, y: int)
      requires Valid()
      modifies this
      ensures Valid()
      ensures Snapshot() == Step(old(Snapshot()), TouchEnd(x, y)).next
    {
      if !swipeActive {
        return;
      }
      var dx := x - startX;
      var dy := y - startY;
      if Abs(dx) > Abs(dy) && Abs(dx) > SwipeThresholdPx {
        Go(if dx < 0 then 1 else -1);
      }
      swipeActive := false;
    }

    /** The "Previous" button; a disabled button receives no click. */
    method OnPrevClick()
      requires Valid()
      modifies this
      ensures Valid()
      ensures Snapshot() == Step(old(Snapshot()), PrevClick).next
    {
      if activeIndex != 0 {
        Go(-1);
      }
    }

    /** The "Next" button; a disabled button receives no click. */
    method OnNextClick()
      requires Valid()
      modifies this
      ensures Valid()
      ensures Snapshot() == Step(old(Snapshot()), NextClick).next
    {
      if activeIndex != FeatureCount - 1 {
        Go(1);
      }
    }

    /** A click on list item `item`. */
    method OnItemClick(item: int)
      requires Valid()
      modifies this
      ensures Valid()
      ensures Snapshot() == Step(old(Snapshot()), ItemClick(item)).next
    {
      Go(item - activeIndex);
    }

    /** A key press on list item `item`: Enter and Space act as a click. */
    method OnItemKeyDown(item: int, key: string)
      requires Valid()
      modifies this
      ensures Valid()
      ensures Snapshot() == Step(old(Snapshot()), ItemKeyDown(item, key)).next
    {
      if key == "Enter" || key == " " {
        Go(item - activeIndex);
      }
    }
  }

  /** A client: the object follows the state machine event by event, so the
      throttle, the pass-through at the last slide and the direct jump hold of
      it as proved for `Step`. */
  method Scenario(t: int)
    requires t > ThrottleMs
  {
    var show := new FeatureShowcase();
    show.OnIntersection(true);
    var p := show.OnWheel(120, t);
    assert p && show.activeIndex == 1;
    p := show.OnWheel(120, t + ThrottleMs);
    assert p && show.activeIndex == 1;
    show.OnItemClick(LastIndex);
    assert show.activeIndex == LastIndex;
    p := show.OnWheel(120, t + 2 * ThrottleMs + 1);
    assert !p && show.activeIndex == LastIndex;
    show.OnTouchStart(300, 100);
    show.OnTouchEnd(200, 110);
    assert show.activeIndex == LastIndex && !show.swipeActive;
    show.OnTouchStart(100, 100);
    show.OnTouchEnd(200, 110);
    assert show.activeIndex == LastIndex - 1;
  }
}
