/**
 The arithmetic of the pet window: its frame is placed so that an anchor point
 (the pet's feet) keeps its screen position, clamped into the work area; the
 anchor is persisted as a fraction of the work area and restored from it.
 Doubles are exact reals here; every rounding to whole pixels is modelled.
 */
module PetGeometry {
  import opened Prelude
  import opened Numbers
  import opened Displays
  import opened Products

  const PET_ONLY_WIDTH := 120.0
  const PET_ONLY_HEIGHT := 128.0
  const PET_ONLY_ANCHOR_X := 60.0
  const PET_ONLY_ANCHOR_Y := 116.0
  const SAFE_MARGIN_LOGICAL := 12.0

  function MonitorScale(m: Monitor): (scale: real)
    ensures scale > 0.0
  {
    if m.scaleFactor.Finite? && m.scaleFactor.value > 0.0 then m.scaleFactor.value else 1.0
  }

  function SafeMargin(scale: real): int {
    RoundToI32(SAFE_MARGIN_LOGICAL * scale)
  }

  lemma ScaleMeans(m: Monitor)
    ensures MonitorScale(m) == if m.scaleFactor.Finite? && m.scaleFactor.value > 0.0 then m.scaleFactor.value else 1.0
    ensures 12.0 * MonitorScale(m) <= 1000000.0 ==> -0.5 <= SafeMargin(MonitorScale(m)) as real - 12.0 * MonitorScale(m) <= 0.5
  {
  }

  /** One axis of `clamp_position_to_monitor`. */
  function ClampToSafe(v: int, start: int, span: nat, margin: int, size: int): int {
    var left := start + margin;
    Clamp(v, left, Max(start + span - margin - size, left))
  }

  function ClampToMonitor(m: Monitor, scale: real, x: int, y: int, width: int, height: int): (int, int) {
    var margin := SafeMargin(scale);
    (ClampToSafe(x, m.area.x, m.area.width, margin, width),
     ClampToSafe(y, m.area.y, m.area.height, margin, height))
  }

  /** The span `[v, v + size)` keeps the margin to both ends of the work area. */
  predicate InsideSafe(v: int, start: int, span: nat, margin: int, size: int) {
    start + margin <= v && v + size <= start + span - margin
  }

  /** Clamping always lands inside when there is room, and moves no further than it must. */
  lemma ClampLandsInside(v: int, start: int, span: nat, margin: int, size: int)
    ensures var r := ClampToSafe(v, start, span, margin, size);
            && start + margin <= r
            && (InsideSafe(r, start, span, margin, size) <==> size + 2 * margin <= span)
            && (InsideSafe(v, start, span, margin, size) ==> r == v)
            && (forall q :: InsideSafe(q, start, span, margin, size) ==> Abs(r - v) <= Abs(q - v))
  {
  }

  // ------------------------------------------------------- bounds changes

  /** The pixel to begin at so that a point `before` pixels into the old frame is `next` pixels into the new one. */
  function Aim(position: int, before: real, next: real): int {
    RoundToI32(position as real + before - next)
  }

  /** One axis of the new window origin, before clamping. */
  function NextOrigin(position: int, committed: real, next: real, scale: real): int {
    Aim(position, committed * scale, next * scale)
  }

  function AnchorOnScreen(position: int, anchor: real, scale: real): real {
    position as real + anchor * scale
  }

  predicate Representable(position: int, committed: real, next: real, scale: real) {
    I32_MIN <= Round(position as real + committed * scale - next * scale) <= I32_MAX
  }

  lemma OneChangeDrift(position: int, committed: real, next: real, scale: real)
    requires Representable(position, committed, next, scale)
    ensures var moved := NextOrigin(position, committed, next, scale);
            AbsReal(AnchorOnScreen(moved, next, scale) - AnchorOnScreen(position, committed, scale)) <= 0.5
  {
  }

  /** The window origin after a series of unclamped changes to the given anchors. */
  function OriginAfter(position: int, committed: real, anchors: seq<real>, scale: real): int
    decreases |anchors|
  {
    if anchors == [] then position
    else OriginAfter(NextOrigin(position, committed, anchors[0], scale), anchors[0], anchors[1..], scale)
  }

  predicate AllRepresentable(position: int, committed: real, anchors: seq<real>, scale: real)
    decreases |anchors|
  {
    anchors == [] ||
    (Representable(position, committed, anchors[0], scale) &&
     AllRepresentable(NextOrigin(position, committed, anchors[0], scale), anchors[0], anchors[1..], scale))
  }

  /** Rounding errors add up to at most half a pixel per change. */
  lemma {:induction false} ManyChangesDrift(position: int, committed: real, anchors: seq<real>, scale: real)
    requires AllRepresentable(position, committed, anchors, scale)
    ensures var last := if anchors == [] then committed else anchors[|anchors| - 1];
            2.0 * AbsReal(AnchorOnScreen(OriginAfter(position, committed, anchors, scale), last, scale)
                          - AnchorOnScreen(position, committed, scale)) <= |anchors| as real
    decreases |anchors|
  {
    if anchors != [] {
      OneChangeDrift(position, committed, anchors[0], scale);
      ManyChangesDrift(NextOrigin(position, committed, anchors[0], scale), anchors[0], anchors[1..], scale);
      assert |anchors| as real == |anchors[1..]| as real + 1.0;
    }
  }

  predicate HalfInteger(d: real) {
    (d - 0.5).Floor as real == d - 0.5
  }

  lemma HalfIntegerRoundsByHalf(position: int, d: real)
    requires HalfInteger(d)
    ensures var e := Round(position as real + d) as real - (position as real + d);
            e == 0.5 || e == -0.5
  {
    var h := position + (d - 0.5).Floor;
    assert position as real + d == h as real + 0.5;
    RoundIsUnique(h as real + 0.5, if h >= 0 then h + 1 else h);
  }

  /** The way back undoes a rounding error `e` that is not a tie. */
  lemma NoTieRoundsBack(position: int, e: real)
    requires -0.5 < e < 0.5
    ensures Round(position as real + e) == position
  {
    RoundIsUnique(position as real + e, position);
  }

  lemma TieRoundsAway(position: int)
    ensures Round(position as real + 0.5) == if position >= 0 then position + 1 else position
    ensures Round(position as real - 0.5) == if position <= 0 then position - 1 else position
  {
    RoundIsUnique(position as real + 0.5, if position >= 0 then position + 1 else position);
    RoundIsUnique(position as real - 0.5, if position <= 0 then position - 1 else position);
  }

  lemma TieMeansHalfInteger(position: int, there: int, d: real, e: real)
    requires there as real == position as real + d + e && (e == 0.5 || e == -0.5)
    ensures HalfInteger(d)
  {
    var k := there - position - (if e == 0.5 then 1 else 0);
    assert d - 0.5 == k as real;
  }

  lemma RoundTripOfOffset(position: int, d: real)
    ensures var there := Round(position as real + d);
            var back := Round(there as real - d);
            && -1 <= back - position <= 1
            && (back == position <==>
                  !(HalfInteger(d) && ((position as real + d > 0.0 && position >= 0)
                                       || (position as real + d < 0.0 && position <= 0))))
  {
    var there := Round(position as real + d);
    var e := there as real - (position as real + d);
    assert there as real - d == position as real + e;
    if e == 0.5 || e == -0.5 {
      TieMeansHalfInteger(position, there, d, e);
      TieRoundsAway(position);
    } else {
      NoTieRoundsBack(position, e);
      if HalfInteger(d) {
        HalfIntegerRoundsByHalf(position, d);
      }
    }
  }

  /**
   Growing a bubble and shrinking it again puts the pet back on the same pixel,
   with one exception: the anchors are a half-integer number of pixels apart and
   both roundings go the same way. Even then it is off by a single pixel.
   */
  lemma ThereAndBackAgain(position: int, here: real, other: real, scale: real)
    requires Representable(position, here, other, scale)
    requires Representable(NextOrigin(position, here, other, scale), other, here, scale)
    ensures var there := NextOrigin(position, here, other, scale);
            var back := NextOrigin(there, other, here, scale);
            var d := here * scale - other * scale;
            && Abs(back - position) <= 1
            && (back == position <==>
                  !(HalfInteger(d) && ((position as real + d > 0.0 && position >= 0)
                                       || (position as real + d < 0.0 && position <= 0))))
  {
    var d := here * scale - other * scale;
    RoundTripOfOffset(position, d);
    var there := NextOrigin(position, here, other, scale);
    assert position as real + here * scale - other * scale == position as real + d;
    assert there as real + other * scale - here * scale == there as real - d;
  }

  // ------------------------------------------------- saving and restoring

  datatype SavedState = SavedState(schemaVersion: nat, monitorName: Option<string>, workArea: Option<WorkArea>,
                                   scaleFactor: Option<real>, anchorX: F64, anchorY: F64)

  function Clamp01(r: real): real {
    if r < 0.0 then 0.0 else if r > 1.0 then 1.0 else r
  }

  /** `(offset / span).clamp(0, 1)` in doubles: a zero span gives an infinity, or NaN for 0/0. */
  function Fraction(offset: real, span: nat): F64 {
    if span > 0 then Finite(Clamp01(offset / span as real))
    else if offset > 0.0 then Finite(1.0)
    else if offset < 0.0 then Finite(0.0)
    else NonFinite
  }

  /** Saved fractions stop at the edges: zero for an anchor at or before the area's start, one at or past its end; no number for 0/0. */
  lemma FractionStopsAtEdges(offset: real, span: nat)
    ensures var f := Fraction(offset, span);
            && (f == NonFinite <==> span == 0 && offset == 0.0)
            && (f.Finite? ==> 0.0 <= f.value <= 1.0)
            && (f.Finite? && offset < 0.0 ==> f.value == 0.0)
            && (f.Finite? && offset > span as real ==> f.value == 1.0)
  {
    if span > 0 {
      var q := offset / span as real;
      assert q * span as real == offset;
      if offset < 0.0 {
        QuotientBelow(offset, span as real, 0.0);
      }
      if offset > span as real {
        QuotientAtLeast(offset, span as real, 1.0);
      }
    }
  }

  function Persist(x: int, y: int, anchorX: real, anchorY: real, m: Monitor): SavedState {
    var scale := MonitorScale(m);
    SavedState(1, m.name, Some(m.area), Some(scale),
               Fraction(AnchorOnScreen(x, anchorX, scale) - m.area.x as real, m.area.width),
               Fraction(AnchorOnScreen(y, anchorY, scale) - m.area.y as real, m.area.height))
  }

  predicate UnitFraction(f: F64) {
    f.Finite? && 0.0 <= f.value <= 1.0
  }

  function Accepted(file: Option<SavedState>): Option<SavedState> {
    match file
    case Some(s) =>
      if s.schemaVersion == 1 && UnitFraction(s.anchorX) && UnitFraction(s.anchorY) then file else None
    case None => None
  }

  function AreaDistance(a: WorkArea, saved: Option<WorkArea>): int {
    match saved
    case None => 0
    case Some(b) => Abs(a.x - b.x) + Abs(a.y - b.y) + Abs(a.width - b.width) + Abs(a.height - b.height)
  }

  function Named(monitors: seq<Monitor>, name: string): (r: seq<Monitor>)
    ensures forall m :: m in r <==> m in monitors && m.name == Some(name)
  {
    if monitors == [] then []
    else (if monitors[0].name == Some(name) then [monitors[0]] else []) + Named(monitors[1..], name)
  }

  /** `min_by_key`: the first of the candidates closest to the saved work area. */
  function Nearest(candidates: seq<Monitor>, saved: Option<WorkArea>): (best: Monitor)
    requires candidates != []
    ensures best in candidates
    ensures forall m :: m in candidates ==> AreaDistance(best.area, saved) <= AreaDistance(m.area, saved)
  {
    if |candidates| == 1 then candidates[0]
    else
      var rest := Nearest(candidates[1..], saved);
      if AreaDistance(candidates[0].area, saved) <= AreaDistance(rest.area, saved) then candidates[0] else rest
  }

  function PickMonitor(state: Option<SavedState>, monitors: seq<Monitor>, primary: Option<Monitor>): Option<Monitor> {
    var named := if state.Some? && state.value.monitorName.Some? then Named(monitors, state.value.monitorName.value) else [];
    if named != [] then Some(Nearest(named, state.value.workArea))
    else if primary.Some? then primary
    else if monitors != [] then Some(monitors[0])
    else None
  }

  /** One axis of the origin aimed at before clamping. */
  function RestoreTarget(start: int, span: nat, fraction: real, anchor: real, scale: real): int {
    RoundToI32(start as real + Times(span, fraction) - anchor * scale)
  }

  function Restore(file: Option<SavedState>, monitors: seq<Monitor>, primary: Option<Monitor>): Option<(int, int)> {
    var state := Accepted(file);
    match PickMonitor(state, monitors, primary)
    case None => None
    case Some(m) =>
      var scale := MonitorScale(m);
      var fx := if state.Some? then state.value.anchorX.value else 0.92;
      var fy := if state.Some? then state.value.anchorY.value else 0.88;
      Some(ClampToMonitor(m, scale,
                          RestoreTarget(m.area.x, m.area.width, fx, PET_ONLY_ANCHOR_X, scale),
                          RestoreTarget(m.area.y, m.area.height, fy, PET_ONLY_ANCHOR_Y, scale),
                          RoundToI32(PET_ONLY_WIDTH * scale), RoundToI32(PET_ONLY_HEIGHT * scale)))
  }

  /** Whatever was on disk, a pet that fits on the chosen monitor ends inside its safe area. */
  lemma RestoredPetIsInside(file: Option<SavedState>, monitors: seq<Monitor>, primary: Option<Monitor>, m: Monitor)
    requires PickMonitor(Accepted(file), monitors, primary) == Some(m)
    ensures var margin := SafeMargin(MonitorScale(m));
            var width := RoundToI32(PET_ONLY_WIDTH * MonitorScale(m));
            var height := RoundToI32(PET_ONLY_HEIGHT * MonitorScale(m));
            var place := Restore(file, monitors, primary);
            && place.Some?
            && (width + 2 * margin <= m.area.width ==>
                  InsideSafe(place.value.0, m.area.x, m.area.width, margin, width))
            && (height + 2 * margin <= m.area.height ==>
                  InsideSafe(place.value.1, m.area.y, m.area.height, margin, height))
  {
  }

  lemma FractionRestoresOffset(offset: real, span: nat)
    requires span > 0 && 0.0 <= offset <= span as real
    ensures UnitFraction(Fraction(offset, span))
    ensures Times(span, Fraction(offset, span).value) == offset
  {
    TimesIsProduct(span, Fraction(offset, span).value);
    assert span as real * (offset / span as real) == offset;
    assert 0.0 <= offset / span as real <= 1.0;
  }

  /** The monitor is attached: under its name, or, if it has none, as the one restoring falls back on. */
  predicate Attached(m: Monitor, monitors: seq<Monitor>, primary: Option<Monitor>) {
    if m.name.Some? then m in monitors
    else primary == Some(m) || (primary.None? && monitors != [] && monitors[0] == m)
  }

  /** The saved monitor is found again, or another one of the same name and the same work area. */
  lemma SavedMonitorIsFound(file: SavedState, m: Monitor, monitors: seq<Monitor>, primary: Option<Monitor>)
    requires Attached(m, monitors, primary)
    requires file.monitorName == m.name && file.workArea == Some(m.area)
    ensures var c := PickMonitor(Some(file), monitors, primary);
            && c.Some? && c.value.name == m.name && c.value.area == m.area
            && (if m.name.Some? then c.value in monitors else c.value == m)
  {
    if m.name.Some? {
      var named := Named(monitors, m.name.value);
      assert m in named;
      var c := Nearest(named, Some(m.area));
      assert AreaDistance(c.area, Some(m.area)) <= AreaDistance(m.area, Some(m.area)) == 0;
    }
  }

  predicate AnchorInArea(position: int, anchor: real, scale: real, start: int, span: nat) {
    start as real <= AnchorOnScreen(position, anchor, scale) <= (start + span) as real
  }

  /** The aimed-at origin needs neither the saturating cast nor the safe margin. */
  predicate TargetUndisturbed(screen: real, anchor: real, scale: real, start: int, span: nat, size: int) {
    var aim := Round(screen - anchor * scale);
    I32_MIN <= aim <= I32_MAX && InsideSafe(aim, start, span, SafeMargin(scale), size)
  }

  /** Where one axis of a restored pet has its anchor, given the screen point the saved fraction stands for. */
  predicate AxisComesBack(place: int, screen: real, anchor: real, scale: real, start: int, span: nat, size: int) {
    TargetUndisturbed(screen, anchor, scale, start, span, size) ==>
      AbsReal(AnchorOnScreen(place, anchor, scale) - screen) <= 0.5
  }

  ghost predicate AnchorComesBack(place: Option<(int, int)>, screenX: real, screenY: real, chosen: Monitor) {
    var scale := MonitorScale(chosen);
    var area := chosen.area;
    && place.Some?
    && AxisComesBack(place.value.0, screenX, PET_ONLY_ANCHOR_X, scale, area.x, area.width, RoundToI32(PET_ONLY_WIDTH * scale))
    && AxisComesBack(place.value.1, screenY, PET_ONLY_ANCHOR_Y, scale, area.y, area.height, RoundToI32(PET_ONLY_HEIGHT * scale))
  }

  lemma RestoredAxis(screen: real, fraction: real, anchor: real, scale: real, start: int, span: nat, size: int)
    requires Times(span, fraction) == screen - start as real
    ensures AxisComesBack(ClampToSafe(RestoreTarget(start, span, fraction, anchor, scale), start, span, SafeMargin(scale), size),
                          screen, anchor, scale, start, span, size)
  {
    var aim := screen - anchor * scale;
    assert start as real + Times(span, fraction) - anchor * scale == aim;
    assert RestoreTarget(start, span, fraction, anchor, scale) == RoundToI32(aim);
  }

  lemma RestoredPlace(file: SavedState, chosen: Monitor, monitors: seq<Monitor>, primary: Option<Monitor>)
    requires Accepted(Some(file)) == Some(file)
    requires PickMonitor(Some(file), monitors, primary) == Some(chosen)
    ensures var scale := MonitorScale(chosen);
            var area := chosen.area;
            Restore(Some(file), monitors, primary)
            == Some((ClampToSafe(RestoreTarget(area.x, area.width, file.anchorX.value, PET_ONLY_ANCHOR_X, scale),
                                 area.x, area.width, SafeMargin(scale), RoundToI32(PET_ONLY_WIDTH * scale)),
                     ClampToSafe(RestoreTarget(area.y, area.height, file.anchorY.value, PET_ONLY_ANCHOR_Y, scale),
                                 area.y, area.height, SafeMargin(scale), RoundToI32(PET_ONLY_HEIGHT * scale))))
  {
  }

  lemma RestoreFromFileX(file: SavedState, screen: real, chosen: Monitor, monitors: seq<Monitor>, primary: Option<Monitor>)
    requires Accepted(Some(file)) == Some(file) && PickMonitor(Some(file), monitors, primary) == Some(chosen)
    requires Times(chosen.area.width, file.anchorX.value) == screen - chosen.area.x as real
    ensures var scale := MonitorScale(chosen);
            var place := Restore(Some(file), monitors, primary);
            && place.Some?
            && AxisComesBack(place.value.0, screen, PET_ONLY_ANCHOR_X, scale,
                             chosen.area.x, chosen.area.width, RoundToI32(PET_ONLY_WIDTH * scale))
  {
    var scale := MonitorScale(chosen);
    RestoredPlace(file, chosen, monitors, primary);
    RestoredAxis(screen, file.anchorX.value, PET_ONLY_ANCHOR_X, scale,
                 chosen.area.x, chosen.area.width, RoundToI32(PET_ONLY_WIDTH * scale));
  }

  lemma RestoreFromFileY(file: SavedState, screen: real, chosen: Monitor, monitors: seq<Monitor>, primary: Option<Monitor>)
    requires Accepted(Some(file)) == Some(file) && PickMonitor(Some(file), monitors, primary) == Some(chosen)
    requires Times(chosen.area.height, file.anchorY.value) == screen - chosen.area.y as real
    ensures var scale := MonitorScale(chosen);
            var place := Restore(Some(file), monitors, primary);
            && place.Some?
            && AxisComesBack(place.value.1, screen, PET_ONLY_ANCHOR_Y, scale,
                             chosen.area.y, chosen.area.height, RoundToI32(PET_ONLY_HEIGHT * scale))
  {
    var scale := MonitorScale(chosen);
    RestoredPlace(file, chosen, monitors, primary);
    RestoredAxis(screen, file.anchorY.value, PET_ONLY_ANCHOR_Y, scale,
                 chosen.area.y, chosen.area.height, RoundToI32(PET_ONLY_HEIGHT * scale));
  }

  /** An anchor inside the work area is saved as fractions that pass the check on reading and give its point back. */
  lemma SavedFractions(x: int, y: int, anchorX: real, anchorY: real, m: Monitor)
    requires m.area.width > 0 && m.area.height > 0
    requires AnchorInArea(x, anchorX, MonitorScale(m), m.area.x, m.area.width)
    requires AnchorInArea(y, anchorY, MonitorScale(m), m.area.y, m.area.height)
    ensures var file := Persist(x, y, anchorX, anchorY, m);
            && Accepted(Some(file)) == Some(file)
            && Times(m.area.width, file.anchorX.value) == AnchorOnScreen(x, anchorX, MonitorScale(m)) - m.area.x as real
            && Times(m.area.height, file.anchorY.value) == AnchorOnScreen(y, anchorY, MonitorScale(m)) - m.area.y as real
  {
    FractionRestoresOffset(AnchorOnScreen(x, anchorX, MonitorScale(m)) - m.area.x as real, m.area.width);
    FractionRestoresOffset(AnchorOnScreen(y, anchorY, MonitorScale(m)) - m.area.y as real, m.area.height);
  }

  /**
   Saving from any layout (any committed anchor) and restoring with the saved
   monitor still attached brings the bare pet's anchor back to within half a
   pixel on each axis, provided neither the 0..1 clamp nor the safe margin acts.
   */
  lemma SaveThenRestore(x: int, y: int, anchorX: real, anchorY: real, m: Monitor,
                        monitors: seq<Monitor>, primary: Option<Monitor>)
    requires Attached(m, monitors, primary) && m.area.width > 0 && m.area.height > 0
    requires AnchorInArea(x, anchorX, MonitorScale(m), m.area.x, m.area.width)
    requires AnchorInArea(y, anchorY, MonitorScale(m), m.area.y, m.area.height)
    ensures var file := Persist(x, y, anchorX, anchorY, m);
            var chosen := PickMonitor(Accepted(Some(file)), monitors, primary);
            && chosen.Some? && chosen.value.name == m.name && chosen.value.area == m.area
            && AnchorComesBack(Restore(Some(file), monitors, primary),
                               AnchorOnScreen(x, anchorX, MonitorScale(m)),
                               AnchorOnScreen(y, anchorY, MonitorScale(m)), chosen.value)
  {
    var file := Persist(x, y, anchorX, anchorY, m);
    var screenX := AnchorOnScreen(x, anchorX, MonitorScale(m));
    var screenY := AnchorOnScreen(y, anchorY, MonitorScale(m));
    SavedFractions(x, y, anchorX, anchorY, m);
    SavedMonitorIsFound(file, m, monitors, primary);
    var chosen := PickMonitor(Some(file), monitors, primary).value;
    RestoreFromFileX(file, screenX, chosen, monitors, primary);
    RestoreFromFileY(file, screenY, chosen, monitors, primary);
  }

  // ------------------------------------------- the choices, told from the inputs

  /** A file counts only with version 1 and both fractions between zero and one. */
  lemma AcceptedMeans(file: Option<SavedState>)
    ensures Accepted(file) == if file.Some? && file.value.schemaVersion == 1
                                 && file.value.anchorX.Finite? && 0.0 <= file.value.anchorX.value <= 1.0
                                 && file.value.anchorY.Finite? && 0.0 <= file.value.anchorY.value <= 1.0 then file else None
  {
  }

  /** Number `i` is the first of the candidates that no other is closer than. */
  ghost predicate FirstNearest(candidates: seq<Monitor>, saved: Option<WorkArea>, i: int) {
    && 0 <= i < |candidates|
    && (forall j :: 0 <= j < |candidates| ==> AreaDistance(candidates[i].area, saved) <= AreaDistance(candidates[j].area, saved))
    && (forall j :: 0 <= j < i ==> AreaDistance(candidates[i].area, saved) < AreaDistance(candidates[j].area, saved))
  }

  lemma {:induction false} NearestIsTheFirst(candidates: seq<Monitor>, saved: Option<WorkArea>)
    requires candidates != []
    ensures exists i :: FirstNearest(candidates, saved, i) && Nearest(candidates, saved) == candidates[i]
  {
    if |candidates| == 1 {
      assert FirstNearest(candidates, saved, 0);
    } else {
      var rest := candidates[1..];
      NearestIsTheFirst(rest, saved);
      var i :| FirstNearest(rest, saved, i) && Nearest(rest, saved) == rest[i];
      assert forall j :: 0 < j < |candidates| ==> candidates[j] == rest[j - 1];
      if AreaDistance(candidates[0].area, saved) <= AreaDistance(rest[i].area, saved) {
        assert FirstNearest(candidates, saved, 0);
      } else {
        assert FirstNearest(candidates, saved, i + 1);
      }
    }
  }

  /** A work area is as far from a saved one as its corner and its sides are, and none is far from nothing. */
  lemma DistanceMeans(a: WorkArea, b: WorkArea, d: nat)
    ensures AreaDistance(a, Some(b)) >= 0 && (AreaDistance(a, Some(b)) == 0 <==> a == b)
    ensures AreaDistance(a, Some(b)) == AreaDistance(b, Some(a))
    ensures AreaDistance(a, Some(a.(x := a.x + d))) == AreaDistance(a, Some(a.(y := a.y + d))) == d
    ensures AreaDistance(a, Some(a.(width := a.width + d))) == AreaDistance(a, Some(a.(height := a.height + d))) == d
    ensures AreaDistance(a, None) == AreaDistance(b, None)
  {
  }

  /** The named monitors nearest to the saved area first, then the primary one, then the first there is. */
  lemma MonitorIsPicked(state: Option<SavedState>, monitors: seq<Monitor>, primary: Option<Monitor>)
    ensures var m := PickMonitor(state, monitors, primary);
            if state.Some? && state.value.monitorName.Some? && exists c :: c in monitors && c.name == state.value.monitorName
            then m.Some? && m.value in monitors && m.value.name == state.value.monitorName
                 && forall c :: c in monitors && c.name == state.value.monitorName ==>
                                  AreaDistance(m.value.area, state.value.workArea) <= AreaDistance(c.area, state.value.workArea)
            else if primary.Some? then m == primary
            else if monitors == [] then m.None? else m == Some(monitors[0])
  {
  }

  lemma NothingToRestoreOn(file: Option<SavedState>)
    ensures Restore(file, [], None) == None
  {
  }

  lemma DefaultPlace(file: Option<SavedState>, monitors: seq<Monitor>, primary: Option<Monitor>, m: Monitor)
    requires Accepted(file) == None && PickMonitor(None, monitors, primary) == Some(m)
    ensures var scale := MonitorScale(m);
            Restore(file, monitors, primary)
            == Some((ClampToSafe(RestoreTarget(m.area.x, m.area.width, 0.92, PET_ONLY_ANCHOR_X, scale),
                                 m.area.x, m.area.width, SafeMargin(scale), RoundToI32(PET_ONLY_WIDTH * scale)),
                     ClampToSafe(RestoreTarget(m.area.y, m.area.height, 0.88, PET_ONLY_ANCHOR_Y, scale),
                                 m.area.y, m.area.height, SafeMargin(scale), RoundToI32(PET_ONLY_HEIGHT * scale))))
  {
  }

  /** Without a usable file the anchor aims at 92 and 88 hundredths of the chosen monitor's work area. */
  lemma DefaultAnchorX(file: Option<SavedState>, monitors: seq<Monitor>, primary: Option<Monitor>, m: Monitor)
    requires Accepted(file) == None && PickMonitor(None, monitors, primary) == Some(m)
    ensures Restore(file, monitors, primary).Some?
    ensures var scale := MonitorScale(m);
            AxisComesBack(Restore(file, monitors, primary).value.0, m.area.x as real + Times(m.area.width, 0.92),
                          PET_ONLY_ANCHOR_X, scale, m.area.x, m.area.width, RoundToI32(PET_ONLY_WIDTH * scale))
  {
    var scale := MonitorScale(m);
    DefaultPlace(file, monitors, primary, m);
    RestoredAxis(m.area.x as real + Times(m.area.width, 0.92), 0.92, PET_ONLY_ANCHOR_X, scale,
                 m.area.x, m.area.width, RoundToI32(PET_ONLY_WIDTH * scale));
  }

  lemma DefaultAnchorY(file: Option<SavedState>, monitors: seq<Monitor>, primary: Option<Monitor>, m: Monitor)
    requires Accepted(file) == None && PickMonitor(None, monitors, primary) == Some(m)
    ensures Restore(file, monitors, primary).Some?
    ensures var scale := MonitorScale(m);
            AxisComesBack(Restore(file, monitors, primary).value.1, m.area.y as real + Times(m.area.height, 0.88),
                          PET_ONLY_ANCHOR_Y, scale, m.area.y, m.area.height, RoundToI32(PET_ONLY_HEIGHT * scale))
  {
    var scale := MonitorScale(m);
    DefaultPlace(file, monitors, primary, m);
    RestoredAxis(m.area.y as real + Times(m.area.height, 0.88), 0.88, PET_ONLY_ANCHOR_Y, scale,
                 m.area.y, m.area.height, RoundToI32(PET_ONLY_HEIGHT * scale));
  }
}
