/**
 The pet stays put while its window changes size: the anchor's screen point, followed
 through any run of overlapping `apply_bounds` calls, moves by no more than the
 rounding of the changes that were accepted.
 */
module PetDrift {
  import opened Prelude
  import opened Numbers
  import opened Displays
  import opened PetGeometry
  import opened PetBounds

  /** The screen coordinate of an anchor in a window at the given origin, on one axis. */
  type Screen = (int, real) -> real

  predicate MidCommit(d: Desk) {
    d.lock.Some? && d.lock.value < |d.calls| && d.calls[d.lock.value].Resized? && Valid(d.calls[d.lock.value].req)
  }

  predicate MidResize(d: Desk) {
    d.lock.Some? && d.lock.value < |d.calls| && d.calls[d.lock.value].Admitted?
  }

  /** The anchor the frame on screen belongs to; between the native calls and the commit it is the request's. */
  function ShownAnchor(d: Desk): (real, real) {
    if MidCommit(d) then
      (d.calls[d.lock.value].req.nextAnchorX.value, d.calls[d.lock.value].req.nextAnchorY.value)
    else (d.layout.anchorX, d.layout.anchorY)
  }

  /** How many accepted changes have reached the screen. */
  function Shown(d: Desk): int {
    |d.accepted| - if MidResize(d) then 1 else 0
  }

  /** A step without drags and recreations, whose resize moves the anchor by half a pixel at most, and whose failure moves nothing. */
  ghost predicate Gentle(d: Desk, a: Action, screen: Screen)
    requires Enabled(d, a)
  {
    match a
    case Arrive(_) => true
    case Enter(_) => true
    case Commit(_) => true
    case Resize(i) =>
      var call, frame := d.calls[i], Next(d, a).frame;
      && AbsReal(screen(frame.x, call.req.nextAnchorX.value) - screen(d.frame.x, call.anchorX)) <= 0.5
      && AbsReal(screen(frame.y, call.req.nextAnchorY.value) - screen(d.frame.y, call.anchorY)) <= 0.5
    case Fail(_, left) => left == d.frame
    case _ => false
  }

  ghost predicate AllGentle(d: Desk, run: seq<Action>, screen: Screen)
    requires Possible(d, run)
    decreases |run|
  {
    run == [] || (Gentle(d, run[0], screen) && AllGentle(Next(d, run[0]), run[1..], screen))
  }

  /** Whoever was admitted computes with the anchor that is still committed. */
  ghost predicate AnchorsCurrent(d: Desk) {
    forall i :: 0 <= i < |d.calls| && d.calls[i].Admitted? ==>
                  d.calls[i].anchorX == d.layout.anchorX && d.calls[i].anchorY == d.layout.anchorY
  }

  /** The shown anchor is within half a pixel per shown change of where it began. */
  ghost predicate Near(d: Desk, screen: Screen, x: real, y: real) {
    var (ax, ay) := ShownAnchor(d);
    && 2.0 * AbsReal(screen(d.frame.x, ax) - x) <= Shown(d) as real
    && 2.0 * AbsReal(screen(d.frame.y, ay) - y) <= Shown(d) as real
  }

  lemma NextKeepsAnchorsCurrent(d: Desk, a: Action, screen: Screen)
    requires Enabled(d, a) && Ordered(d) && AnchorsCurrent(d) && Gentle(d, a, screen)
    ensures AnchorsCurrent(Next(d, a))
  {
    // Only a commit changes the layout's anchor, and then its own call is the lock holder.
    assert a.Commit? ==> d.lock == Some(a.call);
  }

  lemma ResizeStaysNear(d: Desk, i: nat, screen: Screen, x: real, y: real)
    requires Enabled(d, Resize(i)) && Ordered(d) && AnchorsCurrent(d) && Gentle(d, Resize(i), screen) && Near(d, screen, x, y)
    ensures Near(Next(d, Resize(i)), screen, x, y)
  {
    var e := Next(d, Resize(i));
    assert d.lock == Some(i);
    assert MidResize(d) && MidCommit(e);
    assert Shown(e) == Shown(d) + 1;
  }

  lemma NextStaysNear(d: Desk, a: Action, screen: Screen, x: real, y: real)
    requires Enabled(d, a) && Ordered(d) && AnchorsCurrent(d) && Gentle(d, a, screen) && Near(d, screen, x, y)
    ensures Near(Next(d, a), screen, x, y)
  {
    if a.Resize? {
      ResizeStaysNear(d, a.call, screen, x, y);
    } else {
      var e := Next(d, a);
      assert e.frame == d.frame;
      assert a.Commit? ==> d.lock == Some(a.call) && MidCommit(d);
      assert a.Fail? ==> d.lock == Some(a.call) && MidResize(d);
      assert ShownAnchor(e) == ShownAnchor(d);
      assert Shown(d) <= Shown(e);
    }
  }

  lemma {:induction false} RunStaysNear(d: Desk, run: seq<Action>, screen: Screen, x: real, y: real)
    requires Possible(d, run) && AllGentle(d, run, screen)
    requires Ordered(d) && AnchorsCurrent(d) && Near(d, screen, x, y)
    ensures Near(After(d, run), screen, x, y)
    decreases |run|
  {
    if run != [] {
      NextKeepsOrdered(d, run[0]);
      NextKeepsAnchorsCurrent(d, run[0], screen);
      NextStaysNear(d, run[0], screen, x, y);
      RunStaysNear(Next(d, run[0]), run[1..], screen, x, y);
    }
  }

  // ------------------------------------------------------------ main result

  /**
   The pixel nearest to where the frame must begin for the anchor's screen point to stay
   put is a 32-bit number and, on a monitor, leaves the frame inside the safe area:
   neither the cast nor the clamp has anything to do.
   */
  predicate Free(axis: Axis) {
    var aim := Round(axis.position as real + axis.before - axis.next);
    && I32_MIN <= aim <= I32_MAX
    && (axis.area.Some? ==> InsideSafe(aim, axis.area.value.0, axis.area.value.1, axis.margin, axis.size))
  }

  /** The anchor's screen point moves by no more than half a pixel. */
  predicate KeepsPoint(axis: Axis, placed: int) {
    -0.5 <= (placed as real + axis.next) - (axis.position as real + axis.before) <= 0.5
  }

  lemma FreeAxisKeepsPoint(axis: Axis)
    requires Free(axis)
    ensures KeepsPoint(axis, PlacedOn(axis))
  {
    if axis.area.Some? {
      ClampLandsInside(Round(axis.position as real + axis.before - axis.next),
                       axis.area.value.0, axis.area.value.1, axis.margin, axis.size);
    }
  }

  /**
   What one change computes: the next anchor in the new frame is where the committed
   anchor was in the old one, to within half a pixel on each axis that is free.
   */
  lemma PlacedKeepsTheAnchor(frame: Frame, anchorX: real, anchorY: real, req: ValidRequest, scale: real, monitor: Option<Monitor>)
    ensures var (x, y) := Placed(frame, anchorX, anchorY, req, scale, monitor);
            && (Free(AxisX(frame, anchorX, req, scale, monitor)) ==> KeepsPoint(AxisX(frame, anchorX, req, scale, monitor), x))
            && (Free(AxisY(frame, anchorY, req, scale, monitor)) ==> KeepsPoint(AxisY(frame, anchorY, req, scale, monitor), y))
  {
    if Free(AxisX(frame, anchorX, req, scale, monitor)) {
      FreeAxisKeepsPoint(AxisX(frame, anchorX, req, scale, monitor));
    }
    if Free(AxisY(frame, anchorY, req, scale, monitor)) {
      FreeAxisKeepsPoint(AxisY(frame, anchorY, req, scale, monitor));
    }
  }

  lemma KeptPointOnScreen(axis: Axis, placed: int, anchor: real, next: real, scale: real)
    requires axis.before == anchor * scale && axis.next == next * scale && KeepsPoint(axis, placed)
    ensures AbsReal(AnchorOnScreen(placed, next, scale) - AnchorOnScreen(axis.position, anchor, scale)) <= 0.5
  {
  }

  /** Both axes of the placement of an admitted call are free. */
  predicate BothFree(frame: Frame, call: Call, scale: real, monitor: Option<Monitor>)
    requires call.Admitted? && Valid(call.req)
  {
    Free(AxisX(frame, call.anchorX, call.req, scale, monitor)) && Free(AxisY(frame, call.anchorY, call.req, scale, monitor))
  }

  lemma ResizePlaces(d: Desk, i: nat, scale: real, monitor: Option<Monitor>)
    requires Enabled(d, Resize(i)) && d.geometry == PetArithmetic(scale, monitor)
    ensures var call, frame := d.calls[i], Next(d, Resize(i)).frame;
            (frame.x, frame.y) == Placed(d.frame, call.anchorX, call.anchorY, call.req, scale, monitor)
  {
  }

  lemma ResizeKeepsPoints(d: Desk, i: nat, scale: real, monitor: Option<Monitor>)
    requires Enabled(d, Resize(i)) && d.geometry == PetArithmetic(scale, monitor)
    requires BothFree(d.frame, d.calls[i], scale, monitor)
    ensures var call, frame := d.calls[i], Next(d, Resize(i)).frame;
            && KeepsPoint(AxisX(d.frame, call.anchorX, call.req, scale, monitor), frame.x)
            && KeepsPoint(AxisY(d.frame, call.anchorY, call.req, scale, monitor), frame.y)
  {
    var call := d.calls[i];
    ResizePlaces(d, i, scale, monitor);
    PlacedKeepsTheAnchor(d.frame, call.anchorX, call.anchorY, call.req, scale, monitor);
  }

  /** The same of a step of the protocol, in screen coordinates. */
  lemma ResizeKeepsTheAnchor(d: Desk, i: nat, scale: real, monitor: Option<Monitor>)
    requires Enabled(d, Resize(i)) && d.geometry == PetArithmetic(scale, monitor)
    requires BothFree(d.frame, d.calls[i], scale, monitor)
    ensures var call, frame := d.calls[i], Next(d, Resize(i)).frame;
            && AbsReal(AnchorOnScreen(frame.x, call.req.nextAnchorX.value, scale)
                       - AnchorOnScreen(d.frame.x, call.anchorX, scale)) <= 0.5
            && AbsReal(AnchorOnScreen(frame.y, call.req.nextAnchorY.value, scale)
                       - AnchorOnScreen(d.frame.y, call.anchorY, scale)) <= 0.5
  {
    var call, frame := d.calls[i], Next(d, Resize(i)).frame;
    ResizeKeepsPoints(d, i, scale, monitor);
    PointsOnScreen(d.frame, call, scale, monitor, frame.x, frame.y);
  }

  lemma PointsOnScreen(frame: Frame, call: Call, scale: real, monitor: Option<Monitor>, x: int, y: int)
    requires call.Admitted? && Valid(call.req)
    requires KeepsPoint(AxisX(frame, call.anchorX, call.req, scale, monitor), x)
    requires KeepsPoint(AxisY(frame, call.anchorY, call.req, scale, monitor), y)
    ensures AbsReal(AnchorOnScreen(x, call.req.nextAnchorX.value, scale) - AnchorOnScreen(frame.x, call.anchorX, scale)) <= 0.5
    ensures AbsReal(AnchorOnScreen(y, call.req.nextAnchorY.value, scale) - AnchorOnScreen(frame.y, call.anchorY, scale)) <= 0.5
  {
    KeptPointOnScreen(AxisX(frame, call.anchorX, call.req, scale, monitor), x, call.anchorX, call.req.nextAnchorX.value, scale);
    KeptPointOnScreen(AxisY(frame, call.anchorY, call.req, scale, monitor), y, call.anchorY, call.req.nextAnchorY.value, scale);
  }

  /** No drags or recreations, failures that move nothing, and resizes on which neither clamp nor cast acts. */
  ghost predicate Unclamped(d: Desk, a: Action, scale: real, monitor: Option<Monitor>)
    requires Enabled(d, a)
  {
    match a
    case Arrive(_) => true
    case Enter(_) => true
    case Commit(_) => true
    case Resize(i) => BothFree(d.frame, d.calls[i], scale, monitor)
    case Fail(_, left) => left == d.frame
    case _ => false
  }

  ghost predicate AllUnclamped(d: Desk, run: seq<Action>, scale: real, monitor: Option<Monitor>)
    requires Possible(d, run)
    decreases |run|
  {
    run == [] || (Unclamped(d, run[0], scale, monitor) && AllUnclamped(Next(d, run[0]), run[1..], scale, monitor))
  }

  function ScreenAt(scale: real): Screen {
    (position: int, anchor: real) => AnchorOnScreen(position, anchor, scale)
  }

  lemma UnclampedIsGentle(d: Desk, a: Action, scale: real, monitor: Option<Monitor>)
    requires Enabled(d, a) && d.geometry == PetArithmetic(scale, monitor) && Unclamped(d, a, scale, monitor)
    ensures Gentle(d, a, ScreenAt(scale))
  {
    if a.Resize? {
      ResizeKeepsTheAnchor(d, a.call, scale, monitor);
    }
  }

  lemma {:induction false} UnclampedRunIsGentle(d: Desk, run: seq<Action>, scale: real, monitor: Option<Monitor>)
    requires Possible(d, run) && d.geometry == PetArithmetic(scale, monitor) && AllUnclamped(d, run, scale, monitor)
    ensures AllGentle(d, run, ScreenAt(scale))
    decreases |run|
  {
    if run != [] {
      UnclampedIsGentle(d, run[0], scale, monitor);
      UnclampedRunIsGentle(Next(d, run[0]), run[1..], scale, monitor);
    }
  }

  /**
   However calls overlap, whichever of them are refused and whichever fail without
   moving the window, the anchor shown on screen
   is never further from where it began than half a pixel per accepted change, on
   either axis, as long as nothing but the program moves the window and the clamp
   does not act. What the renderer believed the previous anchor to be plays no part.
   */
  lemma AnchorDriftsHalfAPixelPerChange(start: Desk, frame: Frame, scale: real, monitor: Option<Monitor>, run: seq<Action>)
    requires start == Start(frame, PetArithmetic(scale, monitor))
    requires Possible(start, run) && AllUnclamped(start, run, scale, monitor)
    ensures var d := After(start, run);
            var (ax, ay) := ShownAnchor(d);
            && 2.0 * AbsReal(AnchorOnScreen(d.frame.x, ax, scale) - AnchorOnScreen(frame.x, PET_ONLY_ANCHOR_X, scale))
               <= |d.accepted| as real
            && 2.0 * AbsReal(AnchorOnScreen(d.frame.y, ay, scale) - AnchorOnScreen(frame.y, PET_ONLY_ANCHOR_Y, scale))
               <= |d.accepted| as real
  {
    var screen := ScreenAt(scale);
    var x, y := screen(frame.x, PET_ONLY_ANCHOR_X), screen(frame.y, PET_ONLY_ANCHOR_Y);
    UnclampedRunIsGentle(start, run, scale, monitor);
    assert Near(start, screen, x, y);
    RunStaysNear(start, run, screen, x, y);
    assert Shown(After(start, run)) <= |After(start, run).accepted|;
  }

  /** And when the clamp acts, an applied change leaves a window that fits wholly inside the safe area. */
  lemma ResizedWindowIsInside(d: Desk, i: nat, scale: real, m: Monitor)
    requires Enabled(d, Resize(i)) && d.geometry == PetArithmetic(scale, Some(m))
    ensures var frame := Next(d, Resize(i)).frame;
            var margin := SafeMargin(MonitorScale(m));
            && (frame.width + 2 * margin <= m.area.width ==>
                  InsideSafe(frame.x, m.area.x, m.area.width, margin, frame.width))
            && (frame.height + 2 * margin <= m.area.height ==>
                  InsideSafe(frame.y, m.area.y, m.area.height, margin, frame.height))
  {
    var call := d.calls[i];
    var x := NextOrigin(d.frame.x, call.anchorX, call.req.nextAnchorX.value, scale);
    var y := NextOrigin(d.frame.y, call.anchorY, call.req.nextAnchorY.value, scale);
    var (width, height) := PhysicalSize(call.req, scale);
    ClampLandsInside(x, m.area.x, m.area.width, SafeMargin(MonitorScale(m)), width);
    ClampLandsInside(y, m.area.y, m.area.height, SafeMargin(MonitorScale(m)), height);
  }
}
