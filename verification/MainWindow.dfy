/**
 Saving and restoring the main window: sizes are logical and bounded, positions
 are physical, and a restored window is brought back into a work area.
 */
module MainWindow {
  import opened Prelude
  import opened Numbers
  import opened Products
  import opened Displays

  const MIN_WIDTH := 840.0
  const MIN_HEIGHT := 520.0
  const MAX_PERSISTED_DIMENSION := 10000.0
  const SCREEN_MARGIN := 24.0

  datatype Position = Position(x: int, y: int)

  datatype WindowState = WindowState(width: real, height: real, x: Option<int>, y: Option<int>)

  predicate PersistableDimension(v: F64) {
    v.Finite? && 0.0 < v.value <= MAX_PERSISTED_DIMENSION
  }

  function New(width: F64, height: F64): Option<WindowState> {
    if !PersistableDimension(width) || !PersistableDimension(height) then None
    else Some(WindowState(MaxReal(Round(width.value) as real, MIN_WIDTH),
                          MaxReal(Round(height.value) as real, MIN_HEIGHT), None, None))
  }

  predicate UsableScale(scale: F64) {
    scale.Finite? && scale.value > 0.0
  }

  function FromSnapshot(width: nat, height: nat, scale: F64, position: Option<Position>): Option<WindowState> {
    if !UsableScale(scale) then None
    else
      match New(Finite(width as real / scale.value), Finite(height as real / scale.value))
      case None => None
      case Some(s) =>
        if position.Some? then Some(s.(x := Some(position.value.x), y := Some(position.value.y))) else Some(s)
  }

  function SavedPosition(s: WindowState): Option<Position> {
    if s.x.Some? && s.y.Some? then Some(Position(s.x.value, s.y.value)) else None
  }

  /** What loading a file makes of the state found in it. */
  function Sanitized(s: WindowState): Option<WindowState> {
    match New(Finite(s.width), Finite(s.height))
    case None => None
    case Some(t) => if s.x.Some? && s.y.Some? then Some(t.(x := s.x, y := s.y)) else Some(t)
  }

  /** A state as the constructors leave it. */
  predicate Sane(s: WindowState) {
    && MIN_WIDTH <= s.width <= MAX_PERSISTED_DIMENSION && s.width.Floor as real == s.width
    && MIN_HEIGHT <= s.height <= MAX_PERSISTED_DIMENSION && s.height.Floor as real == s.height
  }

  lemma NewIsSane(width: F64, height: F64)
    ensures var s := New(width, height);
            s.Some? ==> Sane(s.value) && s.value.x.None? && s.value.y.None?
  {
    if New(width, height).Some? {
      RoundMonotone(width.value, 10000);
      RoundMonotone(height.value, 10000);
    }
  }

  /** A saved snapshot loads as exactly the state that was saved. */
  lemma SaveThenLoad(width: nat, height: nat, scale: F64, position: Option<Position>)
    ensures var s := FromSnapshot(width, height, scale, position);
            s.Some? ==> Sane(s.value) && Sanitized(s.value) == s && SavedPosition(s.value) == position
  {
    if FromSnapshot(width, height, scale, position).Some? {
      var w, h := width as real / scale.value, height as real / scale.value;
      NewIsSane(Finite(w), Finite(h));
      var s := New(Finite(w), Finite(h)).value;
      RoundOfInt(s.width.Floor);
      RoundOfInt(s.height.Floor);
    }
  }

  function ClampSize(s: WindowState, monitor: Option<Monitor>): WindowState {
    if monitor.None? || !UsableScale(monitor.value.scaleFactor) then s
    else
      var scale := monitor.value.scaleFactor.value;
      s.(width := ClampDimension(s.width, monitor.value.area.width, scale, MIN_WIDTH),
         height := ClampDimension(s.height, monitor.value.area.height, scale, MIN_HEIGHT))
  }

  function ClampDimension(value: real, span: nat, scale: real, min: real): real
    requires scale > 0.0
  {
    MaxReal(MinReal(value, MaxReal(span as real / scale - SCREEN_MARGIN, min)), min)
  }

  /** `logical_dimension_to_physical` */
  function ToPhysical(value: real, scale: real): (p: int)
    ensures 1 <= p <= I32_MAX
  {
    Clamp(Round(value * scale), 1, I32_MAX)
  }

  predicate PositionInArea(p: Position, a: WorkArea) {
    a.x <= p.x < a.x + a.width && a.y <= p.y < a.y + a.height
  }

  predicate RectFits(p: Position, width: int, height: int, a: WorkArea) {
    a.x <= p.x && a.y <= p.y && p.x + Max(width, 1) <= a.x + a.width && p.y + Max(height, 1) <= a.y + a.height
  }

  predicate WindowFits(p: Position, s: WindowState, m: Monitor) {
    UsableScale(m.scaleFactor) &&
    RectFits(p, ToPhysical(s.width, m.scaleFactor.value), ToPhysical(s.height, m.scaleFactor.value), m.area)
  }

  function ClampAxis(value: int, start: int, areaSpan: nat, windowSpan: int): int {
    var max := start + areaSpan - Max(windowSpan, 1);
    SaturateI32(if max >= start then Clamp(value, start, max) else start)
  }

  function ClampPosition(p: Position, s: WindowState, m: Monitor): Position {
    if !UsableScale(m.scaleFactor) then p
    else Position(ClampAxis(p.x, m.area.x, m.area.width, ToPhysical(s.width, m.scaleFactor.value)),
                  ClampAxis(p.y, m.area.y, m.area.height, ToPhysical(s.height, m.scaleFactor.value)))
  }

  function FirstContaining(monitors: seq<Monitor>, p: Position): Option<Monitor> {
    if monitors == [] then None
    else if PositionInArea(p, monitors[0].area) then Some(monitors[0])
    else FirstContaining(monitors[1..], p)
  }

  function RestorePosition(p: Position, s: WindowState, target: Option<Monitor>, available: seq<Monitor>): Position {
    if exists m :: m in available && WindowFits(p, s, m) then p
    else if target.Some? then ClampPosition(p, s, target.value)
    else if available != [] then ClampPosition(p, s, available[0])
    else p
  }

  /** The geometry handed to the window; no position means it is centered. */
  datatype Restored = Untouched | Restored(state: WindowState, position: Option<Position>)

  function Target(s: WindowState, current: Option<Monitor>, available: seq<Monitor>): Option<Monitor> {
    var p := SavedPosition(s);
    var holder := if p.Some? then FirstContaining(available, p.value) else None;
    if holder.Some? then holder else current
  }

  /** `restore_main_window_state` on the state a file parsed to, if there was one. */
  function RestoreWindow(file: Option<WindowState>, current: Option<Monitor>, available: seq<Monitor>): Restored {
    match if file.Some? then Sanitized(file.value) else None
    case None => Untouched
    case Some(s) =>
      var target := Target(s, current, available);
      var sized := ClampSize(s, target);
      match SavedPosition(s)
      case None => Restored(sized, None)
      case Some(p) => Restored(sized, Some(RestorePosition(p, sized, target, available)))
  }

  // ------------------------------------------------------------ per axis

  predicate I32(n: int) {
    I32_MIN <= n <= I32_MAX
  }

  /** The last saturating cast never acts, and the clamp lands inside whenever there is room. */
  lemma ClampAxisLandsInside(value: int, start: int, areaSpan: nat, windowSpan: int)
    requires I32(value) && I32(start) && 1 <= windowSpan
    ensures var r := ClampAxis(value, start, areaSpan, windowSpan);
            && start <= r
            && (r + windowSpan <= start + areaSpan <==> windowSpan <= areaSpan)
            && (windowSpan > areaSpan ==> r == start)
            && (start <= value && value + windowSpan <= start + areaSpan ==> r == value)
  {
  }

  lemma ScaleUp(value: real, span: real, scale: real)
    requires scale > 0.0 && value <= span / scale - SCREEN_MARGIN
    ensures value * scale <= span - SCREEN_MARGIN * scale
  {
    var bound := span / scale;
    assert bound * scale == span;
    Monotone(value, bound - SCREEN_MARGIN, scale);
    assert (bound - SCREEN_MARGIN) * scale == bound * scale - SCREEN_MARGIN * scale;
  }

  lemma PhysicalFits(value: real, scale: real, span: nat)
    requires scale > 0.0 && 0.0 < value && value * scale <= span as real
    ensures ToPhysical(value, scale) <= span
  {
    Nonnegative(value, scale);
    RoundMonotone(value * scale, span);
  }

  lemma PhysicalMonotone(a: real, b: real, scale: real)
    requires scale > 0.0 && a <= b
    ensures ToPhysical(a, scale) <= ToPhysical(b, scale)
  {
    Monotone(a, b, scale);
    RoundIsMonotone(a * scale, b * scale);
  }

  lemma RoundIsMonotone(a: real, b: real)
    requires a <= b
    ensures Round(a) <= Round(b)
  {
  }

  /** After the size clamp a dimension fits exactly when the smallest allowed window would. */
  lemma ClampedDimensionFits(value: real, span: nat, scale: real, min: real)
    requires scale > 0.0 && 0.0 < min <= value
    ensures var d := ClampDimension(value, span, scale, min);
            && min <= d <= value
            && (ToPhysical(d, scale) <= span <==> ToPhysical(min, scale) <= span)
  {
    var d := ClampDimension(value, span, scale, min);
    PhysicalMonotone(min, d, scale);
    if d != min {
      ScaleUp(d, span as real, scale);
      assert SCREEN_MARGIN * scale > 0.0;
      PhysicalFits(d, scale, span);
    }
  }

  // ---------------------------------------------------------- main results

  predicate SmallestWindowFits(m: Monitor) {
    UsableScale(m.scaleFactor) &&
    ToPhysical(MIN_WIDTH, m.scaleFactor.value) <= m.area.width &&
    ToPhysical(MIN_HEIGHT, m.scaleFactor.value) <= m.area.height
  }

  /** A work area of at least 864 by 544 logical pixels has room for the smallest window. */
  lemma RoomyMonitor(m: Monitor)
    requires UsableScale(m.scaleFactor)
    requires m.area.width as real >= (MIN_WIDTH + SCREEN_MARGIN) * m.scaleFactor.value
    requires m.area.height as real >= (MIN_HEIGHT + SCREEN_MARGIN) * m.scaleFactor.value
    ensures SmallestWindowFits(m)
  {
    PhysicalFits(MIN_WIDTH, m.scaleFactor.value, m.area.width);
    PhysicalFits(MIN_HEIGHT, m.scaleFactor.value, m.area.height);
  }

  lemma ClampedPositionFits(p: Position, s: WindowState, m: Monitor)
    requires I32(p.x) && I32(p.y) && I32(m.area.x) && I32(m.area.y)
    requires MIN_WIDTH <= s.width && MIN_HEIGHT <= s.height && UsableScale(m.scaleFactor)
    ensures var sized := ClampSize(s, Some(m));
            WindowFits(ClampPosition(p, sized, m), sized, m) <==> SmallestWindowFits(m)
  {
    var scale := m.scaleFactor.value;
    var sized := ClampSize(s, Some(m));
    ClampedDimensionFits(s.width, m.area.width, scale, MIN_WIDTH);
    ClampedDimensionFits(s.height, m.area.height, scale, MIN_HEIGHT);
    ClampAxisLandsInside(p.x, m.area.x, m.area.width, ToPhysical(sized.width, scale));
    ClampAxisLandsInside(p.y, m.area.y, m.area.height, ToPhysical(sized.height, scale));
  }

  /**
   Restoring with a usable target monitor either keeps a saved position that lies
   wholly inside some work area, or moves the window; a moved window lies wholly
   inside the target exactly when the target has room for the smallest window.
   */
  lemma RestoredWindowIsVisible(file: WindowState, current: Option<Monitor>, available: seq<Monitor>, m: Monitor)
    requires Sanitized(file).Some? && SavedPosition(file).Some?
    requires Target(file, current, available) == Some(m) && UsableScale(m.scaleFactor)
    requires I32(file.x.value) && I32(file.y.value) && I32(m.area.x) && I32(m.area.y)
    ensures var r := RestoreWindow(Some(file), current, available);
            && r.Restored? && r.position.Some?
            && r.state.width <= Sanitized(file).value.width && r.state.height <= Sanitized(file).value.height
            && (if exists a :: a in available && WindowFits(SavedPosition(file).value, r.state, a)
                then r.position == SavedPosition(file)
                else WindowFits(r.position.value, r.state, m) <==> SmallestWindowFits(m))
  {
    var s := Sanitized(file).value;
    NewIsSane(Finite(file.width), Finite(file.height));
    assert SavedPosition(s) == SavedPosition(file);
    ClampedPositionFits(SavedPosition(file).value, s, m);
    ClampedDimensionFits(s.width, m.area.width, m.scaleFactor.value, MIN_WIDTH);
    ClampedDimensionFits(s.height, m.area.height, m.scaleFactor.value, MIN_HEIGHT);
  }

  /** On a roomy target the restored window is always wholly inside some attached or target work area. */
  lemma RestoredOnRoomyMonitor(file: WindowState, current: Option<Monitor>, available: seq<Monitor>, m: Monitor)
    requires Sanitized(file).Some? && SavedPosition(file).Some?
    requires Target(file, current, available) == Some(m) && UsableScale(m.scaleFactor)
    requires I32(file.x.value) && I32(file.y.value) && I32(m.area.x) && I32(m.area.y)
    requires m.area.width as real >= (MIN_WIDTH + SCREEN_MARGIN) * m.scaleFactor.value
    requires m.area.height as real >= (MIN_HEIGHT + SCREEN_MARGIN) * m.scaleFactor.value
    ensures var r := RestoreWindow(Some(file), current, available);
            && r.Restored? && r.position.Some?
            && exists a :: (a in available || a == m) && WindowFits(r.position.value, r.state, a)
  {
    RoomyMonitor(m);
    RestoredWindowIsVisible(file, current, available, m);
    var r := RestoreWindow(Some(file), current, available);
    if exists a :: a in available && WindowFits(SavedPosition(file).value, r.state, a) {
      var a :| a in available && WindowFits(SavedPosition(file).value, r.state, a);
      assert WindowFits(r.position.value, r.state, a);
    } else {
      assert WindowFits(r.position.value, r.state, m);
    }
  }

  // ------------------------------------------- the answers, told from the inputs

  /** A snapshot is refused without a usable scale or a size in bounds; otherwise each saved side is the logical one, rounded and at least minimal. */
  lemma SnapshotMeans(width: nat, height: nat, scale: F64, position: Option<Position>)
    ensures var s := FromSnapshot(width, height, scale, position);
            && (s.Some? <==> scale.Finite? && scale.value > 0.0 && width > 0 && height > 0
                             && width as real / scale.value <= 10000.0 && height as real / scale.value <= 10000.0)
            && (s.Some? ==> SavedSide(s.value.width, width as real / scale.value, 840)
                            && SavedSide(s.value.height, height as real / scale.value, 520))
  {
    if UsableScale(scale) {
      if width > 0 {
        PositiveQuotient(width as real, scale.value);
      }
      if height > 0 {
        PositiveQuotient(height as real, scale.value);
      }
    }
    if FromSnapshot(width, height, scale, position).Some? {
      SideIsRounded(width as real / scale.value, 840);
      SideIsRounded(height as real / scale.value, 520);
    }
  }

  predicate SavedSide(saved: real, logical: real, min: int) {
    if logical <= min as real then saved == min as real else -0.5 <= saved - logical <= 0.5 && saved.Floor as real == saved
  }

  lemma PositiveQuotient(a: real, b: real)
    requires a > 0.0 && b > 0.0
    ensures a / b > 0.0
  {
  }

  lemma SideIsRounded(logical: real, min: int)
    ensures SavedSide(MaxReal(Round(logical) as real, min as real), logical, min)
  {
    RoundMonotone(logical, min);
  }

  /** A size that leaves the margin free is kept; any other is cut to exactly the margin, or to the smallest allowed. */
  lemma FittingSizeIsKept(value: real, span: nat, scale: real, min: real)
    requires scale > 0.0 && min <= value
    ensures var d := ClampDimension(value, span, scale, min);
            && ((value + 24.0) * scale <= span as real ==> d == value)
            && (d != value ==> d == min || (d + 24.0) * scale == span as real)
  {
    var bound := span as real / scale;
    assert bound * scale == span as real;
    if (value + 24.0) * scale <= span as real {
      QuotientAtLeast(span as real, scale, value + 24.0);
    }
  }

  /** A file's state is refused unless its size is in bounds, and keeps a position only if it has both parts. */
  lemma SanitizedMeans(s: WindowState)
    ensures var t := Sanitized(s);
            && (t.Some? <==> 0.0 < s.width <= 10000.0 && 0.0 < s.height <= 10000.0)
            && (t.Some? ==> SavedSide(t.value.width, s.width, 840) && SavedSide(t.value.height, s.height, 520))
            && (t.Some? && s.x.Some? && s.y.Some? ==> t.value.x == s.x && t.value.y == s.y)
            && (t.Some? && (s.x.None? || s.y.None?) ==> t.value.x.None? && t.value.y.None?)
  {
    if Sanitized(s).Some? {
      SideIsRounded(s.width, 840);
      SideIsRounded(s.height, 520);
    }
  }

  /** A size is cut to the given monitor, side by side, and only if its scale is known. */
  lemma ClampSizeMeans(s: WindowState, monitor: Option<Monitor>)
    requires 840.0 <= s.width && 520.0 <= s.height
    ensures var t := ClampSize(s, monitor);
            && t.x == s.x && t.y == s.y
            && (monitor.None? || !monitor.value.scaleFactor.Finite? || monitor.value.scaleFactor.value <= 0.0 ==> t == s)
            && (monitor.Some? && monitor.value.scaleFactor.Finite? && monitor.value.scaleFactor.value > 0.0 ==>
                  && CutTo(t.width, s.width, monitor.value.area.width, monitor.value.scaleFactor.value, 840.0)
                  && CutTo(t.height, s.height, monitor.value.area.height, monitor.value.scaleFactor.value, 520.0))
  {
    if monitor.Some? && UsableScale(monitor.value.scaleFactor) {
      var scale, area := monitor.value.scaleFactor.value, monitor.value.area;
      FittingSizeIsKept(s.width, area.width, scale, 840.0);
      FittingSizeIsKept(s.height, area.height, scale, 520.0);
    }
  }

  /** The side is kept if it leaves the margin free, and else cut to the margin or to the smallest allowed. */
  predicate CutTo(side: real, was: real, span: nat, scale: real, min: real) {
    && ((was + 24.0) * scale <= span as real ==> side == was)
    && (side != was ==> side == min || (side + 24.0) * scale == span as real)
  }

  /** On one axis a position is moved as little as possible: into the area where the window fits, to its start where it does not. */
  predicate MovedTo(placed: int, was: int, start: int, span: nat, size: int) {
    if size > span || was < start then placed == start
    else if was + size > start + span then placed == start + span - size
    else placed == was
  }

  lemma AxisMovedTo(was: int, start: int, span: nat, size: int)
    requires I32(was) && I32(start) && size >= 1
    ensures MovedTo(ClampAxis(was, start, span, size), was, start, span, size)
  {
    ClampAxisLandsInside(was, start, span, size);
  }

  lemma ClampPositionMeans(p: Position, s: WindowState, m: Monitor)
    requires I32(p.x) && I32(p.y) && I32(m.area.x) && I32(m.area.y)
    ensures var q := ClampPosition(p, s, m);
            if m.scaleFactor.Finite? && m.scaleFactor.value > 0.0 then
              && MovedTo(q.x, p.x, m.area.x, m.area.width, ToPhysical(s.width, m.scaleFactor.value))
              && MovedTo(q.y, p.y, m.area.y, m.area.height, ToPhysical(s.height, m.scaleFactor.value))
            else q == p
  {
    if UsableScale(m.scaleFactor) {
      AxisMovedTo(p.x, m.area.x, m.area.width, ToPhysical(s.width, m.scaleFactor.value));
      AxisMovedTo(p.y, m.area.y, m.area.height, ToPhysical(s.height, m.scaleFactor.value));
    }
  }

  /** Which window fits where: its rounded physical sides, at the monitor's own scale. */
  lemma WindowFitsMeans(p: Position, s: WindowState, m: Monitor)
    ensures WindowFits(p, s, m) <==>
              && m.scaleFactor.Finite? && m.scaleFactor.value > 0.0
              && RectFits(p, ToPhysical(s.width, m.scaleFactor.value), ToPhysical(s.height, m.scaleFactor.value), m.area)
  {
  }

  /** A window in physical pixels is the rounded logical one, where that is a number of pixels at all. */
  lemma PhysicalIsRounded(value: real, scale: real)
    requires 0.5 <= value * scale <= I32_MAX as real
    ensures -0.5 <= ToPhysical(value, scale) as real - value * scale <= 0.5
  {
    RoundMonotone(value * scale, I32_MAX);
    assert Round(value * scale) >= 1;
  }

  /** Fitting means that every pixel of the window lies in the work area. */
  lemma FittingMeansEveryPixel(p: Position, width: int, height: int, a: WorkArea)
    requires width >= 1 && height >= 1
    ensures RectFits(p, width, height, a) <==>
              forall x, y :: p.x <= x < p.x + width && p.y <= y < p.y + height ==> PositionInArea(Position(x, y), a)
  {
    if forall x, y :: p.x <= x < p.x + width && p.y <= y < p.y + height ==> PositionInArea(Position(x, y), a) {
      assert PositionInArea(Position(p.x, p.y), a);
      assert PositionInArea(Position(p.x + width - 1, p.y + height - 1), a);
    }
  }

  /** The target is the first monitor that holds the saved corner, and the current one if none does. */
  lemma {:induction false} FirstContainingMeans(monitors: seq<Monitor>, p: Position)
    ensures var m := FirstContaining(monitors, p);
            && (m.None? <==> forall i :: 0 <= i < |monitors| ==> !PositionInArea(p, monitors[i].area))
            && (m.Some? ==> exists i :: FirstHolder(monitors, p, i) && m.value == monitors[i])
  {
    if monitors != [] {
      var rest := monitors[1..];
      FirstContainingMeans(rest, p);
      if PositionInArea(p, monitors[0].area) {
        assert FirstHolder(monitors, p, 0);
      } else {
        assert forall i :: 0 < i < |monitors| ==> monitors[i] == rest[i - 1];
        if FirstContaining(rest, p).Some? {
          var i :| FirstHolder(rest, p, i) && FirstContaining(rest, p).value == rest[i];
          assert FirstHolder(monitors, p, i + 1);
        }
      }
    }
  }

  ghost predicate FirstHolder(monitors: seq<Monitor>, p: Position, i: int) {
    && 0 <= i < |monitors| && PositionInArea(p, monitors[i].area)
    && forall j :: 0 <= j < i ==> !PositionInArea(p, monitors[j].area)
  }

  lemma TargetMeans(s: WindowState, current: Option<Monitor>, available: seq<Monitor>)
    ensures var target := Target(s, current, available);
            if s.x.Some? && s.y.Some? && exists i :: 0 <= i < |available| && PositionInArea(Position(s.x.value, s.y.value), available[i].area)
            then target.Some? && exists i :: FirstHolder(available, Position(s.x.value, s.y.value), i) && target.value == available[i]
            else target == current
  {
    if s.x.Some? && s.y.Some? {
      FirstContainingMeans(available, Position(s.x.value, s.y.value));
    }
  }

  /**
   The rest of what restoring does: without a usable file nothing; without a saved
   position the window is centered, its size clamped to the current monitor; and a
   position that fits nowhere, with no target, goes into the first monitor there is.
   */
  lemma RestoringMeans(file: Option<WindowState>, current: Option<Monitor>, available: seq<Monitor>)
    ensures var r := RestoreWindow(file, current, available);
            && (r.Untouched? <==> file.None? || !(0.0 < file.value.width <= 10000.0) || !(0.0 < file.value.height <= 10000.0))
            && (r.Restored? ==>
                  && (r.position.None? <==> file.value.x.None? || file.value.y.None?)
                  && r.state.width == ClampSize(Sanitized(file.value).value, Target(file.value, current, available)).width
                  && r.state.height == ClampSize(Sanitized(file.value).value, Target(file.value, current, available)).height)
            && (r.Restored? && r.position.Some? ==>
                  var p := Position(file.value.x.value, file.value.y.value);
                  var target := Target(file.value, current, available);
                  var fits := exists m :: m in available && WindowFits(p, r.state, m);
                  && (fits || (target.None? && available == []) ==> r.position.value == p)
                  && (!fits && target.None? && available != [] ==> r.position.value == ClampPosition(p, r.state, available[0]))
                  && (!fits && target.Some? ==> r.position.value == ClampPosition(p, r.state, target.value)))
  {
  }
}
