/**
 `apply_bounds`: resize requests from the renderer overlap freely, but everything
 from the revision check to the anchor commit happens under one async lock. The
 native calls in between can fail, the user can drag the window at any moment,
 and the window can be closed and created again.
 */
module PetBounds {
  import opened Prelude
  import opened Numbers
  import opened Displays
  import opened PetGeometry

  datatype Request = Request(revision: nat, width: F64, height: F64,
                             previousAnchorX: F64, previousAnchorY: F64,
                             nextAnchorX: F64, nextAnchorY: F64)

  predicate ValidDimension(v: F64, min: real, max: real) {
    v.Finite? && min <= v.value <= max
  }

  predicate Valid(req: Request) {
    && ValidDimension(req.width, 112.0, 440.0)
    && ValidDimension(req.height, 120.0, 640.0)
    && req.previousAnchorX.Finite? && req.previousAnchorY.Finite?
    && req.nextAnchorX.Finite? && req.nextAnchorY.Finite?
  }

  type ValidRequest = req: Request | Valid(req)
    witness Request(1, Finite(120.0), Finite(128.0), Finite(0.0), Finite(0.0), Finite(0.0), Finite(0.0))

  datatype Layout = Layout(revision: nat, anchorX: real, anchorY: real)

  const FRESH_LAYOUT := Layout(0, PET_ONLY_ANCHOR_X, PET_ONLY_ANCHOR_Y)

  /** The native window: physical origin and physical size. */
  datatype Frame = Frame(x: int, y: int, width: int, height: int)

  /** How a request turns into native geometry; the protocol below works with any such rule. */
  datatype Geometry = Geometry(width: ValidRequest -> int, height: ValidRequest -> int,
                               origin: (Frame, real, real, ValidRequest) -> (int, int))

  function NextFrame(g: Geometry, frame: Frame, anchorX: real, anchorY: real, req: ValidRequest): Frame {
    var (x, y) := g.origin(frame, anchorX, anchorY, req);
    Frame(x, y, g.width(req), g.height(req))
  }

  /** The rule the program uses: the committed anchor's screen point stays put, then the clamp. */
  function PetArithmetic(scale: real, monitor: Option<Monitor>): Geometry {
    Geometry((req: ValidRequest) => PhysicalSize(req, scale).0,
             (req: ValidRequest) => PhysicalSize(req, scale).1,
             (frame: Frame, anchorX: real, anchorY: real, req: ValidRequest) =>
               Placed(frame, anchorX, anchorY, req, scale, monitor))
  }

  function PhysicalSize(req: ValidRequest, scale: real): (int, int) {
    (RoundToI32(req.width.value * scale), RoundToI32(req.height.value * scale))
  }

  /** One axis of a placement: where the frame is, the anchor's distance from it before and after, and the room there is. */
  datatype Axis = Axis(position: int, before: real, next: real, area: Option<(int, nat)>, margin: int, size: int)

  function AxisX(frame: Frame, anchorX: real, req: ValidRequest, scale: real, monitor: Option<Monitor>): Axis {
    Axis(frame.x, anchorX * scale, req.nextAnchorX.value * scale,
         if monitor.Some? then Some((monitor.value.area.x, monitor.value.area.width)) else None,
         if monitor.Some? then SafeMargin(MonitorScale(monitor.value)) else 0, RoundToI32(req.width.value * scale))
  }

  function AxisY(frame: Frame, anchorY: real, req: ValidRequest, scale: real, monitor: Option<Monitor>): Axis {
    Axis(frame.y, anchorY * scale, req.nextAnchorY.value * scale,
         if monitor.Some? then Some((monitor.value.area.y, monitor.value.area.height)) else None,
         if monitor.Some? then SafeMargin(MonitorScale(monitor.value)) else 0, RoundToI32(req.height.value * scale))
  }

  function PlacedOn(axis: Axis): int {
    var aim := Aim(axis.position, axis.before, axis.next);
    if axis.area.Some? then ClampToSafe(aim, axis.area.value.0, axis.area.value.1, axis.margin, axis.size) else aim
  }

  function Placed(frame: Frame, anchorX: real, anchorY: real, req: ValidRequest,
                  scale: real, monitor: Option<Monitor>): (int, int)
  {
    (PlacedOn(AxisX(frame, anchorX, req, scale, monitor)), PlacedOn(AxisY(frame, anchorY, req, scale, monitor)))
  }

  datatype Outcome = Invalid | Refused(current: nat) | NativeFailed | Applied

  /** One call of `apply_bounds`; the parameters of a finished call are kept for the record. */
  datatype Call =
    | Waiting(req: Request)                                 // validated, queued on the lock
    | Admitted(req: Request, anchorX: real, anchorY: real)  // revision taken, anchor read, lock held
    | Resized(req: Request)                                 // native frame applied, lock held
    | Finished(req: Request, outcome: Outcome)

  /** `accepted` records the revisions written to the layout state, in order. */
  datatype Desk = Desk(layout: Layout, frame: Frame, geometry: Geometry,
                       lock: Option<nat>, calls: seq<Call>, accepted: seq<nat>)

  datatype Action =
    | Arrive(req: Request)
    | Enter(call: nat)                 // take the lock, compare and take the revision
    | Resize(call: nat)                // the native calls succeed
    | Fail(call: nat, left: Frame)     // the native calls fail and leave some frame behind
    | Commit(call: nat)                // write the anchor, release the lock
    | Drag(x: int, y: int)
    | Recreate(frame: Frame)           // close and ensure_window: the layout state starts over

  predicate CallIs(d: Desk, i: nat) {
    i < |d.calls| && !d.calls[i].Finished? && Valid(d.calls[i].req)
  }

  predicate Enabled(d: Desk, a: Action) {
    match a
    case Arrive(_) => true
    case Enter(i) => CallIs(d, i) && d.calls[i].Waiting? && d.lock.None?
    case Resize(i) => CallIs(d, i) && d.calls[i].Admitted?
    case Fail(i, _) => CallIs(d, i) && d.calls[i].Admitted?
    case Commit(i) => CallIs(d, i) && d.calls[i].Resized?
    case Drag(_, _) => true
    case Recreate(_) => true
  }

  function Next(d: Desk, a: Action): Desk
    requires Enabled(d, a)
  {
    match a
    case Arrive(req) =>
      d.(calls := d.calls + [if Valid(req) then Waiting(req) else Finished(req, Invalid)])
    case Enter(i) =>
      var req := d.calls[i].req;
      if req.revision <= d.layout.revision then
        d.(calls := d.calls[i := Finished(req, Refused(d.layout.revision))])
      else
        d.(layout := d.layout.(revision := req.revision), lock := Some(i), accepted := d.accepted + [req.revision],
           calls := d.calls[i := Admitted(req, d.layout.anchorX, d.layout.anchorY)])
    case Resize(i) =>
      var call := d.calls[i];
      d.(frame := NextFrame(d.geometry, d.frame, call.anchorX, call.anchorY, call.req),
         calls := d.calls[i := Resized(call.req)])
    case Fail(i, left) =>
      d.(frame := left, lock := None, calls := d.calls[i := Finished(d.calls[i].req, NativeFailed)])
    case Commit(i) =>
      var req := d.calls[i].req;
      d.(layout := d.layout.(anchorX := req.nextAnchorX.value, anchorY := req.nextAnchorY.value), lock := None,
         calls := d.calls[i := Finished(req, Applied)])
    case Drag(x, y) => d.(frame := d.frame.(x := x, y := y))
    case Recreate(frame) => d.(layout := FRESH_LAYOUT, frame := frame)
  }

  predicate Possible(d: Desk, run: seq<Action>)
    decreases |run|
  {
    run == [] || (Enabled(d, run[0]) && Possible(Next(d, run[0]), run[1..]))
  }

  function After(d: Desk, run: seq<Action>): Desk
    requires Possible(d, run)
    decreases |run|
  {
    if run == [] then d else After(Next(d, run[0]), run[1..])
  }

  function Start(frame: Frame, geometry: Geometry): Desk {
    Desk(FRESH_LAYOUT, frame, geometry, None, [], [])
  }

  // ---------------------------------------------------------------- invariant

  ghost predicate Increasing(s: seq<nat>) {
    forall i, j :: 0 <= i < j < |s| ==> s[i] < s[j]
  }

  predicate SizedFor(d: Desk, req: Request) {
    && Valid(req)
    && d.frame.width == d.geometry.width(req)
    && d.frame.height == d.geometry.height(req)
  }

  predicate AnchoredFor(d: Desk, req: Request) {
    && Valid(req)
    && d.layout.anchorX == req.nextAnchorX.value
    && d.layout.anchorY == req.nextAnchorY.value
  }

  /** Holds of every run without a recreation, whether or not native calls fail. */
  ghost predicate Ordered(d: Desk) {
    && Increasing(d.accepted)
    && d.layout.revision == (if d.accepted == [] then 0 else d.accepted[|d.accepted| - 1])
    && (forall i | 0 <= i < |d.accepted| :: 0 < d.accepted[i] <= d.layout.revision)
    && (d.lock.Some? ==> d.lock.value < |d.calls|)
    && (forall i | 0 <= i < |d.calls| ::
          var c := d.calls[i];
          && ((c.Admitted? || c.Resized?) <==> d.lock == Some(i))
          && (c.Admitted? || c.Resized? ==> c.req.revision == d.layout.revision)
          && (c.Waiting? || c.Admitted? || c.Resized? ==> Valid(c.req))
          && (c.Finished? && Valid(c.req) ==> c.req.revision <= d.layout.revision))
  }

  /** The call that took the newest revision has got as far as its state says. */
  ghost predicate Carries(d: Desk, i: nat) {
    && i < |d.calls| && d.calls[i].req.revision == d.layout.revision && Valid(d.calls[i].req)
    && match d.calls[i]
       case Waiting(_) => false
       case Admitted(_, _, _) => d.lock == Some(i)
       case Resized(req) => d.lock == Some(i) && SizedFor(d, req)
       case Finished(req, outcome) => d.lock.None? && outcome == Applied && SizedFor(d, req) && AnchoredFor(d, req)
  }

  ghost predicate InStep(d: Desk) {
    if d.accepted == [] then d.lock.None? else exists i :: Carries(d, i)
  }

  predicate Undisturbed(run: seq<Action>) {
    forall k :: 0 <= k < |run| ==> !run[k].Recreate?
  }

  predicate NativeSucceeds(run: seq<Action>) {
    forall k :: 0 <= k < |run| ==> !run[k].Fail?
  }

  lemma NextKeepsOrdered(d: Desk, a: Action)
    requires Enabled(d, a) && Ordered(d) && !a.Recreate?
    ensures Ordered(Next(d, a))
    ensures d.layout.revision <= Next(d, a).layout.revision
  {
  }

  lemma EnterCarries(d: Desk, i: nat)
    requires Enabled(d, Enter(i)) && Ordered(d) && InStep(d)
    ensures InStep(Next(d, Enter(i)))
  {
    var e := Next(d, Enter(i));
    if e.lock.Some? {
      assert Carries(e, i);
    } else if e.accepted != [] {
      var k :| Carries(d, k);
      assert Carries(e, k);
    }
  }

  lemma ResizeCarries(d: Desk, i: nat)
    requires Enabled(d, Resize(i)) && Ordered(d)
    ensures Carries(Next(d, Resize(i)), i)
  {
  }

  lemma CommitCarries(d: Desk, i: nat)
    requires Enabled(d, Commit(i)) && Ordered(d) && InStep(d)
    ensures Carries(Next(d, Commit(i)), i)
  {
    assert d.lock == Some(i);
    var k :| Carries(d, k);
    assert k == i;
  }

  lemma BystandersCarry(d: Desk, a: Action)
    requires Ordered(d) && InStep(d) && (a.Arrive? || a.Drag?)
    ensures InStep(Next(d, a))
  {
    if d.accepted != [] {
      var k :| Carries(d, k);
      assert Carries(Next(d, a), k);
    }
  }

  lemma NextKeepsInStep(d: Desk, a: Action)
    requires Enabled(d, a) && Ordered(d) && InStep(d) && !a.Recreate? && !a.Fail?
    ensures InStep(Next(d, a))
  {
    match a
    case Enter(i) => EnterCarries(d, i);
    case Resize(i) => ResizeCarries(d, i);
    case Commit(i) => CommitCarries(d, i);
    case Arrive(_) => BystandersCarry(d, a);
    case Drag(_, _) => BystandersCarry(d, a);
  }

  lemma {:induction false} RunKeepsOrdered(d: Desk, run: seq<Action>)
    requires Possible(d, run) && Undisturbed(run) && Ordered(d)
    ensures Ordered(After(d, run))
    ensures NativeSucceeds(run) && InStep(d) ==> InStep(After(d, run))
    decreases |run|
  {
    if run != [] {
      assert !run[0].Recreate?;
      NextKeepsOrdered(d, run[0]);
      if NativeSucceeds(run) && InStep(d) {
        assert !run[0].Fail?;
        NextKeepsInStep(d, run[0]);
      }
      RunKeepsOrdered(Next(d, run[0]), run[1..]);
    }
  }

  // ------------------------------------------------------------- main results

  /** Without a recreation, accepted revisions strictly increase, even when native calls fail. */
  lemma AcceptedRevisionsIncrease(frame: Frame, geometry: Geometry, run: seq<Action>)
    requires Possible(Start(frame, geometry), run) && Undisturbed(run)
    ensures Increasing(After(Start(frame, geometry), run).accepted)
  {
    RunKeepsOrdered(Start(frame, geometry), run);
  }

  /**
   Whatever the order of arrival, once every call has returned the window has the
   size and the layout state has the anchor of a request with the largest
   revision any valid request carried. (Revision 0 never counts: the state
   starts there.)
   */
  lemma LargestRevisionWins(frame: Frame, geometry: Geometry, run: seq<Action>)
    requires Possible(Start(frame, geometry), run) && Undisturbed(run) && NativeSucceeds(run)
    requires forall i :: 0 <= i < |After(Start(frame, geometry), run).calls|
                         ==> After(Start(frame, geometry), run).calls[i].Finished?
    ensures var d := After(Start(frame, geometry), run);
            && (forall i | 0 <= i < |d.calls| && Valid(d.calls[i].req) :: d.calls[i].req.revision <= d.layout.revision)
            && (d.layout.revision > 0 ==>
                  exists i | 0 <= i < |d.calls| ::
                    && d.calls[i] == Finished(d.calls[i].req, Applied)
                    && d.calls[i].req.revision == d.layout.revision
                    && SizedFor(d, d.calls[i].req) && AnchoredFor(d, d.calls[i].req))
  {
    RunKeepsOrdered(Start(frame, geometry), run);
    var d := After(Start(frame, geometry), run);
    if d.layout.revision > 0 {
      var i: nat :| Carries(d, i);
      assert d.calls[i].Finished?;
    }
  }

  /** The same with the arithmetic of the program: the size is the largest revision's, in physical pixels. */
  lemma LargestRevisionSizesTheWindow(start: Desk, frame: Frame, scale: real, monitor: Option<Monitor>, run: seq<Action>)
    requires start == Start(frame, PetArithmetic(scale, monitor))
    requires Possible(start, run) && Undisturbed(run) && NativeSucceeds(run)
    requires forall i :: 0 <= i < |After(start, run).calls| ==> After(start, run).calls[i].Finished?
    requires After(start, run).layout.revision > 0
    ensures var d := After(start, run);
            exists req: ValidRequest ::
              && Finished(req, Applied) in d.calls && req.revision == d.layout.revision
              && d.frame.width == RoundToI32(req.width.value * scale)
              && d.frame.height == RoundToI32(req.height.value * scale)
              && d.layout.anchorX == req.nextAnchorX.value && d.layout.anchorY == req.nextAnchorY.value
  {
    LargestRevisionWins(frame, start.geometry, run);
    RunKeepsGeometry(start, run);
    var d := After(start, run);
    var i :| 0 <= i < |d.calls| && d.calls[i] == Finished(d.calls[i].req, Applied)
             && d.calls[i].req.revision == d.layout.revision
             && SizedFor(d, d.calls[i].req) && AnchoredFor(d, d.calls[i].req);
    var req: ValidRequest := d.calls[i].req;
    SizesArePhysical(scale, monitor, req);
    assert Finished(req, Applied) in d.calls;
  }

  lemma SizesArePhysical(scale: real, monitor: Option<Monitor>, req: ValidRequest)
    ensures var g := PetArithmetic(scale, monitor);
            g.width(req) == RoundToI32(req.width.value * scale) && g.height(req) == RoundToI32(req.height.value * scale)
  {
  }

  lemma {:induction false} RunKeepsGeometry(d: Desk, run: seq<Action>)
    requires Possible(d, run)
    ensures After(d, run).geometry == d.geometry
    decreases |run|
  {
    if run != [] {
      RunKeepsGeometry(Next(d, run[0]), run[1..]);
    }
  }

  // ------------------------------------------- what a recreation takes away

  function Ask(revision: nat): Request {
    Request(revision, Finite(200.0), Finite(300.0), Finite(0.0), Finite(0.0), Finite(100.0), Finite(280.0))
  }

  /**
   The order is relative to one window: after a close and a fresh
   `ensure_window`, a revision older than one already accepted is accepted.
   */
  lemma RecreationForgetsTheOrder(frame: Frame, geometry: Geometry)
    ensures exists run :: Possible(Start(frame, geometry), run)
                          && After(Start(frame, geometry), run).accepted == [5, 3]
  {
    var d0 := Start(frame, geometry);
    var d1 := Next(d0, Arrive(Ask(5)));
    var d2 := Next(d1, Enter(0));
    var d3 := Next(d2, Resize(0));
    var d4 := Next(d3, Commit(0));
    var r5 := [Arrive(Ask(3))] + ([Enter(1)] + []);
    OlderRevisionInNewWindow(frame, geometry, r5);
    assert Next(d4, Recreate(frame)) == Recreated(frame, geometry);
    RunOfOne(d4, Recreate(frame), r5);
    var r4 := [Recreate(frame)] + r5;
    RunOfOne(d3, Commit(0), r4);
    var r3 := [Commit(0)] + r4;
    RunOfOne(d2, Resize(0), r3);
    var r2 := [Resize(0)] + r3;
    RunOfOne(d1, Enter(0), r2);
    var r1 := [Enter(0)] + r2;
    RunOfOne(d0, Arrive(Ask(5)), r1);
    assert After(d0, [Arrive(Ask(5))] + r1).accepted == [5, 3];
  }

  /** A window recreated after revision 5 was applied. */
  function Recreated(frame: Frame, geometry: Geometry): Desk {
    Desk(FRESH_LAYOUT, frame, geometry, None, [Finished(Ask(5), Applied)], [5])
  }

  lemma OlderRevisionInNewWindow(frame: Frame, geometry: Geometry, run: seq<Action>)
    requires run == [Arrive(Ask(3))] + ([Enter(1)] + [])
    ensures Possible(Recreated(frame, geometry), run) && After(Recreated(frame, geometry), run).accepted == [5, 3]
  {
    var d6 := Next(Recreated(frame, geometry), Arrive(Ask(3)));
    RunOfOne(d6, Enter(1), []);
    RunOfOne(Recreated(frame, geometry), Arrive(Ask(3)), [Enter(1)] + []);
  }

  /**
   A call still in flight across the recreation commits its anchor to the new
   window's layout state, although the new window keeps its own size.
   */
  lemma RecreationCanMismatchTheAnchor(frame: Frame, geometry: Geometry)
    ensures exists run :: Possible(Start(frame, geometry), run)
                          && var d := After(Start(frame, geometry), run);
                             d.frame == frame && d.layout.revision == 0 && AnchoredFor(d, Ask(5))
                             && d.calls == [Finished(Ask(5), Applied)]
  {
    var d0 := Start(frame, geometry);
    var d1 := Next(d0, Arrive(Ask(5)));
    var d2 := Next(d1, Enter(0));
    var d3 := Next(d2, Resize(0));
    var d4 := Next(d3, Recreate(frame));
    RunOfOne(d4, Commit(0), []);
    RunOfOne(d3, Recreate(frame), [Commit(0)]);
    RunOfOne(d2, Resize(0), [Recreate(frame), Commit(0)]);
    RunOfOne(d1, Enter(0), [Resize(0), Recreate(frame), Commit(0)]);
    RunOfOne(d0, Arrive(Ask(5)), [Enter(0), Resize(0), Recreate(frame), Commit(0)]);
    assert Next(d4, Commit(0)).calls == [Finished(Ask(5), Applied)];
  }

  lemma RunOfOne(d: Desk, a: Action, rest: seq<Action>)
    requires Enabled(d, a) && Possible(Next(d, a), rest)
    ensures Possible(d, [a] + rest) && After(d, [a] + rest) == After(Next(d, a), rest)
  {
    assert ([a] + rest)[1..] == rest;
  }

  predicate Between(v: F64, low: real, high: real) {
    v.Finite? && low <= v.value <= high
  }

  /** A call is turned away at once exactly if its size is not within 112 to 440 by 120 to 640, or one of its anchors is no number. */
  lemma InvalidExactlyWhen(d: Desk, req: Request)
    ensures var call := Next(d, Arrive(req)).calls[|d.calls|];
            && (call == Finished(req, Invalid) <==>
                  !(Between(req.width, 112.0, 440.0) && Between(req.height, 120.0, 640.0)
                    && req.previousAnchorX.Finite? && req.previousAnchorY.Finite?
                    && req.nextAnchorX.Finite? && req.nextAnchorY.Finite?))
            && (call != Finished(req, Invalid) ==> call == Waiting(req))
  {
  }

  /** Dragging moves the frame and does nothing else. */
  lemma DragMeans(d: Desk, x: int, y: int)
    ensures Next(d, Drag(x, y)) == d.(frame := Frame(x, y, d.frame.width, d.frame.height))
  {
  }

  // --------------------------------------------------- one call on its own

  /** The statics and the native window as one call of `apply_bounds` updates them. */
  class PetWindow {
    var layout: Layout
    var frame: Frame
    const geometry: Geometry

    constructor (frame: Frame, scale: real, monitor: Option<Monitor>)
      ensures layout == FRESH_LAYOUT && this.frame == frame && geometry == PetArithmetic(scale, monitor)
    {
      layout := FRESH_LAYOUT;
      this.frame := frame;
      geometry := PetArithmetic(scale, monitor);
    }

    function AsDesk(): Desk
      reads this
    {
      Desk(layout, frame, geometry, None, [], [])
    }

    /** `nativeLeaves` is the frame left behind when the native calls fail. */
    method ApplyBounds(req: Request, nativeLeaves: Option<Frame>) returns (outcome: Outcome)
      modifies this
      ensures var run := SoloRun(req, old(layout.revision), nativeLeaves);
              && Possible(old(AsDesk()), run)
              && var d := After(old(AsDesk()), run);
                 layout == d.layout && frame == d.frame && d.calls == [Finished(req, outcome)] && d.lock.None?
    {
      SoloRunState(AsDesk(), req, nativeLeaves);
      if !Valid(req) {
        return Invalid;
      }
      if req.revision <= layout.revision {
        return Refused(layout.revision);
      }
      layout := layout.(revision := req.revision);
      var committedX, committedY := layout.anchorX, layout.anchorY;
      var width, height := geometry.width(req), geometry.height(req);
      var (x, y) := geometry.origin(frame, committedX, committedY, req);
      if nativeLeaves.Some? {
        frame := nativeLeaves.value;
        return NativeFailed;
      }
      frame := Frame(x, y, width, height);
      layout := layout.(anchorX := req.nextAnchorX.value, anchorY := req.nextAnchorY.value);
      return Applied;
    }
  }

  /** The steps of a call nobody interferes with. */
  function SoloRun(req: Request, revision: nat, nativeLeaves: Option<Frame>): seq<Action> {
    [Arrive(req)] +
    if !Valid(req) then []
    else [Enter(0)] +
         if req.revision <= revision then []
         else if nativeLeaves.Some? then [Fail(0, nativeLeaves.value)] + []
         else [Resize(0)] + ([Commit(0)] + [])
  }

  lemma SoloRunState(d: Desk, req: Request, nativeLeaves: Option<Frame>)
    requires d.calls == [] && d.lock.None?
    ensures var run := SoloRun(req, d.layout.revision, nativeLeaves);
            && Possible(d, run)
            && After(d, run) ==
               if !Valid(req) then d.(calls := [Finished(req, Invalid)])
               else if req.revision <= d.layout.revision then d.(calls := [Finished(req, Refused(d.layout.revision))])
               else
                 var taken := d.(accepted := d.accepted + [req.revision]);
                 if nativeLeaves.Some? then
                   taken.(layout := d.layout.(revision := req.revision), frame := nativeLeaves.value,
                          calls := [Finished(req, NativeFailed)])
                 else
                   taken.(layout := Layout(req.revision, req.nextAnchorX.value, req.nextAnchorY.value),
                          frame := NextFrame(d.geometry, d.frame, d.layout.anchorX, d.layout.anchorY, req),
                          calls := [Finished(req, Applied)])
  {
    var d1 := Next(d, Arrive(req));
    if !Valid(req) {
      RunOfOne(d, Arrive(req), []);
    } else {
      var d2 := Next(d1, Enter(0));
      if req.revision <= d.layout.revision {
        RunOfOne(d1, Enter(0), []);
        RunOfOne(d, Arrive(req), [Enter(0)] + []);
      } else if nativeLeaves.Some? {
        var fail := Fail(0, nativeLeaves.value);
        RunOfOne(d2, fail, []);
        RunOfOne(d1, Enter(0), [fail] + []);
        RunOfOne(d, Arrive(req), [Enter(0)] + ([fail] + []));
      } else {
        var d3 := Next(d2, Resize(0));
        RunOfOne(d3, Commit(0), []);
        RunOfOne(d2, Resize(0), [Commit(0)] + []);
        RunOfOne(d1, Enter(0), [Resize(0)] + ([Commit(0)] + []));
        RunOfOne(d, Arrive(req), [Enter(0)] + ([Resize(0)] + ([Commit(0)] + [])));
      }
    }
  }
}
