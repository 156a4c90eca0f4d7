/**
 What closing the pet window and creating it again does to the order of resizes and
 to the committed anchor: both belong to one window, and these are the exact
 conditions under which they carry over.
 */
module PetRecreation {
  import opened Prelude
  import opened Numbers
  import opened PetGeometry
  import opened PetBounds

  // ------------------------------------------------- the order of revisions

  /** How many revisions had been accepted at each recreation of a run. */
  function Cuts(d: Desk, run: seq<Action>): set<nat>
    requires Possible(d, run)
    decreases |run|
  {
    if run == [] then {}
    else (if run[0].Recreate? then {|d.accepted|} else {}) + Cuts(Next(d, run[0]), run[1..])
  }

  /** Between the cuts revisions rise, and the layout state knows the last one accepted since the last cut. */
  ghost predicate RisesBetween(d: Desk, cuts: set<nat>) {
    && (forall k :: 0 < k < |d.accepted| && k !in cuts ==> d.accepted[k - 1] < d.accepted[k])
    && (forall c :: c in cuts ==> c <= |d.accepted|)
    && d.layout.revision == if |d.accepted| == 0 || |d.accepted| in cuts then 0 else d.accepted[|d.accepted| - 1]
  }

  lemma NextRisesBetween(d: Desk, a: Action, cuts: set<nat>)
    requires Enabled(d, a) && RisesBetween(d, cuts)
    ensures RisesBetween(Next(d, a), cuts + if a.Recreate? then {|d.accepted|} else {})
  {
  }

  lemma {:induction false} RunRisesBetween(d: Desk, run: seq<Action>, cuts: set<nat>)
    requires Possible(d, run) && RisesBetween(d, cuts)
    ensures RisesBetween(After(d, run), cuts + Cuts(d, run))
    decreases |run|
  {
    if run == [] {
      assert cuts + {} == cuts;
    } else {
      var now: set<nat> := if run[0].Recreate? then {|d.accepted|} else {};
      NextRisesBetween(d, run[0], cuts);
      RunRisesBetween(Next(d, run[0]), run[1..], cuts + now);
      assert cuts + now + Cuts(Next(d, run[0]), run[1..]) == cuts + Cuts(d, run);
    }
  }

  lemma {:induction false} StepsMakeIncreasing(s: seq<nat>, from: nat, i: nat, j: nat)
    requires from <= i < j < |s| && forall k :: from < k < |s| ==> s[k - 1] < s[k]
    ensures s[i] < s[j]
  {
    if i < j - 1 {
      StepsMakeIncreasing(s, from, i, j - 1);
    }
  }

  /**
   In every run, native failures, drags and recreations included: the revisions
   accepted since the last recreation strictly increase, and the layout state holds
   the last of them, or zero while there is none.
   */
  lemma EachWindowAcceptsInOrder(frame: Frame, geometry: Geometry, run: seq<Action>, base: nat)
    requires Possible(Start(frame, geometry), run)
    requires forall c :: c in Cuts(Start(frame, geometry), run) ==> c <= base
    requires base == 0 || base in Cuts(Start(frame, geometry), run)
    ensures var d := After(Start(frame, geometry), run);
            && base <= |d.accepted| && Increasing(d.accepted[base..])
            && d.layout.revision == if base == |d.accepted| then 0 else d.accepted[|d.accepted| - 1]
  {
    var d := After(Start(frame, geometry), run);
    var cuts := Cuts(Start(frame, geometry), run);
    RunRisesBetween(Start(frame, geometry), run, {});
    assert {} + cuts == cuts;
    assert forall k :: base < k < |d.accepted| ==> k !in cuts;
    SuffixIncreases(d.accepted, base);
  }

  lemma SuffixIncreases(s: seq<nat>, from: nat)
    requires from <= |s| && forall k :: from < k < |s| ==> s[k - 1] < s[k]
    ensures Increasing(s[from..])
  {
    forall i, j | 0 <= i < j < |s[from..]|
      ensures s[from..][i] < s[from..][j]
    {
      StepsMakeIncreasing(s, from, from + i, from + j);
    }
  }

  /**
   So the order holds across recreations exactly when, at each of them, the first
   revision accepted afterwards exceeds the last one accepted before.
   */
  lemma OrderSurvivesRecreations(frame: Frame, geometry: Geometry, run: seq<Action>)
    requires Possible(Start(frame, geometry), run)
    ensures var accepted := After(Start(frame, geometry), run).accepted;
            Increasing(accepted) <==>
              forall c :: c in Cuts(Start(frame, geometry), run) && 0 < c < |accepted| ==> accepted[c - 1] < accepted[c]
  {
    var accepted := After(Start(frame, geometry), run).accepted;
    var cuts := Cuts(Start(frame, geometry), run);
    RunRisesBetween(Start(frame, geometry), run, {});
    assert {} + cuts == cuts;
    if forall c :: c in cuts && 0 < c < |accepted| ==> accepted[c - 1] < accepted[c] {
      forall i, j | 0 <= i < j < |accepted|
        ensures accepted[i] < accepted[j]
      {
        StepsMakeIncreasing(accepted, 0, i, j);
      }
    }
  }

  // ---------------------------------------------------------- the fresh anchor

  /** Whoever is past the check holds the lock, and nobody else does. */
  ghost predicate Locking(d: Desk) {
    && (d.lock.Some? ==> d.lock.value < |d.calls|)
    && forall i :: 0 <= i < |d.calls| ==>
         var c := d.calls[i];
         && (c.Admitted? || c.Resized? <==> d.lock == Some(i))
         && (!c.Finished? ==> Valid(c.req))
  }

  lemma NextKeepsLocking(d: Desk, a: Action)
    requires Enabled(d, a) && Locking(d)
    ensures Locking(Next(d, a))
  {
  }

  lemma {:induction false} RunKeepsLocking(d: Desk, run: seq<Action>)
    requires Possible(d, run) && Locking(d)
    ensures Locking(After(d, run))
    decreases |run|
  {
    if run != [] {
      NextKeepsLocking(d, run[0]);
      RunKeepsLocking(Next(d, run[0]), run[1..]);
    }
  }

  /**
   What can still happen on behalf of the window that was closed, `calls` calls having
   arrived for it: calls waiting for the lock enter, but no native call succeeds any
   more; a call past its native step may commit. Calls for the new window only arrive.
   */
  predicate OldCallsOnly(run: seq<Action>, calls: nat) {
    forall k :: 0 <= k < |run| ==> !run[k].Recreate? && !run[k].Resize? && (run[k].Enter? ==> run[k].call < calls)
  }

  predicate Commits(run: seq<Action>) {
    exists k :: 0 <= k < |run| && run[k].Commit?
  }

  lemma TailIsOld(run: seq<Action>, calls: nat)
    requires run != [] && OldCallsOnly(run, calls)
    ensures !run[0].Recreate? && !run[0].Resize? && OldCallsOnly(run[1..], calls)
    ensures Commits(run) <==> run[0].Commit? || Commits(run[1..])
  {
    var rest := run[1..];
    assert forall k :: 0 <= k < |rest| ==> rest[k] == run[k + 1];
    if k :| 0 <= k < |run| && run[k].Commit? && k > 0 {
      assert rest[k - 1].Commit?;
    }
  }

  predicate HasFreshAnchor(layout: Layout) {
    layout.anchorX == PET_ONLY_ANCHOR_X && layout.anchorY == PET_ONLY_ANCHOR_Y
  }

  /** The request would commit the very anchor a new window starts with. */
  predicate AsksForFreshAnchor(req: Request) {
    req.nextAnchorX == Finite(PET_ONLY_ANCHOR_X) && req.nextAnchorY == Finite(PET_ONLY_ANCHOR_Y)
  }

  /** Somebody's native calls have succeeded and the commit is to come. */
  predicate CommitPending(d: Desk) {
    d.lock.Some? && d.lock.value < |d.calls| && d.calls[d.lock.value].Resized?
  }

  lemma {:induction false} NobodyCommits(d: Desk, run: seq<Action>, calls: nat)
    requires Locking(d) && !CommitPending(d) && Possible(d, run) && OldCallsOnly(run, calls)
    ensures !Commits(run)
    ensures After(d, run).layout.anchorX == d.layout.anchorX && After(d, run).layout.anchorY == d.layout.anchorY
    decreases |run|
  {
    if run != [] {
      TailIsOld(run, calls);
      NextKeepsLocking(d, run[0]);
      NobodyCommits(Next(d, run[0]), run[1..], calls);
    }
  }

  lemma {:induction false} TheHolderDecides(d: Desk, run: seq<Action>, calls: nat)
    requires Locking(d) && CommitPending(d) && Possible(d, run) && OldCallsOnly(run, calls) && HasFreshAnchor(d.layout)
    ensures HasFreshAnchor(After(d, run).layout) <==> !Commits(run) || AsksForFreshAnchor(d.calls[d.lock.value].req)
    decreases |run|
  {
    if run != [] {
      var e := Next(d, run[0]);
      TailIsOld(run, calls);
      NextKeepsLocking(d, run[0]);
      if run[0].Commit? {
        assert d.lock == Some(run[0].call);
        NobodyCommits(e, run[1..], calls);
      } else {
        assert e.lock == d.lock && e.calls[e.lock.value] == d.calls[d.lock.value] by {
          assert !run[0].Enter? && !run[0].Fail?;
        }
        TheHolderDecides(e, run[1..], calls);
      }
    }
  }

  /**
   A recreation leaves its window the fresh anchor, until the new window's own first
   call enters and whatever calls for the closed window still do, exactly when nobody
   is between native step and commit at that moment, or asks for that very anchor.
   */
  lemma FreshAnchorIsSafe(start: Desk, frame: Frame, geometry: Geometry, run: seq<Action>, newFrame: Frame)
    requires start == Start(frame, geometry) && Possible(start, run)
    ensures var d := After(start, run);
            var e := Next(d, Recreate(newFrame));
            (forall rest :: Possible(e, rest) && OldCallsOnly(rest, |d.calls|) ==> HasFreshAnchor(After(e, rest).layout))
            <==> (CommitPending(d) ==> AsksForFreshAnchor(d.calls[d.lock.value].req))
  {
    var d := After(start, run);
    RunKeepsLocking(start, run);
    var e := Next(d, Recreate(newFrame));
    NextKeepsLocking(d, Recreate(newFrame));
    forall rest | Possible(e, rest) && OldCallsOnly(rest, |d.calls|)
      ensures HasFreshAnchor(After(e, rest).layout) <==>
                (CommitPending(d) && Commits(rest) ==> AsksForFreshAnchor(d.calls[d.lock.value].req))
    {
      FreshAnchorStays(start, frame, geometry, run, newFrame, rest);
    }
    if CommitPending(d) {
      var rest := [Commit(d.lock.value)];
      assert rest[1..] == [] && rest[0].Commit? && Enabled(e, rest[0]);
      assert Possible(e, rest) && OldCallsOnly(rest, |d.calls|) && Commits(rest);
    }
  }

  /** And in one such continuation: exactly when that call does not get to its commit, or commits the same anchor. */
  lemma FreshAnchorStays(start: Desk, frame: Frame, geometry: Geometry, run: seq<Action>, newFrame: Frame, rest: seq<Action>)
    requires start == Start(frame, geometry) && Possible(start, run)
    requires var d := After(start, run);
             Possible(Next(d, Recreate(newFrame)), rest) && OldCallsOnly(rest, |d.calls|)
    ensures var d := After(start, run);
            HasFreshAnchor(After(Next(d, Recreate(newFrame)), rest).layout)
            <==> (CommitPending(d) && Commits(rest) ==> AsksForFreshAnchor(d.calls[d.lock.value].req))
  {
    var d := After(start, run);
    RunKeepsLocking(start, run);
    NextKeepsLocking(d, Recreate(newFrame));
    if CommitPending(d) {
      TheHolderDecides(Next(d, Recreate(newFrame)), rest, |d.calls|);
    } else {
      NobodyCommits(Next(d, Recreate(newFrame)), rest, |d.calls|);
    }
  }

  // ----------------------------------------- the largest revision, once again

  /**
   A run after a recreation by which time `calls` calls had arrived: native calls fail
   for these, whose window is gone, and succeed for the others.
   */
  predicate NewWindowRun(run: seq<Action>, calls: nat) {
    forall k :: 0 <= k < |run| ==> NewWindowStep(run[k], calls)
  }

  predicate NewWindowStep(a: Action, calls: nat) {
    !a.Recreate? && (a.Resize? ==> a.call >= calls) && (a.Fail? ==> a.call < calls)
  }

  /** Calls for the new window follow the order of revisions; calls still waiting from before carry none. */
  ghost predicate NewOrdered(d: Desk, calls: nat, revisions: nat) {
    && Locking(d) && calls <= |d.calls| && revisions <= |d.accepted|
    && (forall i :: 0 <= i < calls && d.calls[i].Waiting? ==> d.calls[i].req.revision == 0)
    && (forall i :: calls <= i < |d.calls| && (d.calls[i].Admitted? || d.calls[i].Resized?) ==>
                      d.calls[i].req.revision == d.layout.revision)
    && (forall i :: calls <= i < |d.calls| && d.calls[i].Finished? && Valid(d.calls[i].req) ==>
                      d.calls[i].req.revision <= d.layout.revision)
  }

  ghost predicate NewInStep(d: Desk, calls: nat, revisions: nat) {
    if |d.accepted| == revisions then d.layout.revision == 0 && (d.lock.Some? ==> d.lock.value < calls)
    else exists i :: calls <= i && Carries(d, i)
  }

  lemma NextKeepsNewOrdered(d: Desk, a: Action, calls: nat, revisions: nat)
    requires Enabled(d, a) && NewWindowStep(a, calls) && NewOrdered(d, calls, revisions)
    ensures NewOrdered(Next(d, a), calls, revisions)
  {
    NextKeepsLocking(d, a);
  }

  lemma NextKeepsNewInStep(d: Desk, a: Action, calls: nat, revisions: nat)
    requires Enabled(d, a) && NewWindowStep(a, calls) && NewOrdered(d, calls, revisions) && NewInStep(d, calls, revisions)
    ensures NewInStep(Next(d, a), calls, revisions)
  {
    var e := Next(d, a);
    if |e.accepted| > |d.accepted| {
      assert Carries(e, a.call);
    } else if |d.accepted| > revisions {
      var k: nat :| calls <= k && Carries(d, k);
      assert Carries(e, k);
    }
  }

  lemma {:induction false} RunKeepsNew(d: Desk, run: seq<Action>, calls: nat, revisions: nat)
    requires Possible(d, run) && NewWindowRun(run, calls)
    requires NewOrdered(d, calls, revisions) && NewInStep(d, calls, revisions)
    ensures NewOrdered(After(d, run), calls, revisions) && NewInStep(After(d, run), calls, revisions)
    decreases |run|
  {
    if run != [] {
      assert NewWindowStep(run[0], calls);
      assert forall k :: 0 <= k < |run[1..]| ==> run[1..][k] == run[k + 1];
      NextKeepsNewOrdered(d, run[0], calls, revisions);
      NextKeepsNewInStep(d, run[0], calls, revisions);
      RunKeepsNew(Next(d, run[0]), run[1..], calls, revisions);
    }
  }

  predicate Wins(d: Desk, c: Call) {
    c == Finished(c.req, Applied) && c.req.revision == d.layout.revision && SizedFor(d, c.req) && AnchoredFor(d, c.req)
  }

  /** Size and anchor are those of a largest valid revision among the calls from number `from` on. */
  ghost predicate LargestWins(d: Desk, from: nat) {
    && from <= |d.calls|
    && (forall i :: from <= i < |d.calls| && Valid(d.calls[i].req) ==> d.calls[i].req.revision <= d.layout.revision)
    && (d.layout.revision > 0 ==> exists i :: from <= i < |d.calls| && Wins(d, d.calls[i]))
  }

  /** Nothing is under way any more, but for calls of the closed window that may still wait. */
  predicate AtRest(d: Desk, calls: nat) {
    d.lock.None? && forall i :: calls <= i < |d.calls| ==> d.calls[i].Finished?
  }

  lemma AtRestLargestWins(d: Desk, calls: nat, revisions: nat)
    requires NewOrdered(d, calls, revisions) && NewInStep(d, calls, revisions) && AtRest(d, calls)
    ensures LargestWins(d, calls)
  {
    if d.layout.revision > 0 {
      var k: nat :| calls <= k && Carries(d, k);
      assert Wins(d, d.calls[k]);
    }
  }

  /** A call of the closed window takes revision `r`; a request of the new window for revision 1 comes too late. */
  function Blocking(i: nat, frame: Frame, calls: nat): seq<Action> {
    [Enter(i)] + ([Fail(i, frame)] + ([Arrive(Ask(1))] + ([Enter(calls)] + [])))
  }

  lemma BlockedByWaitingCall(d: Desk, i: nat)
    requires Locking(d) && d.lock.None? && d.layout.revision == 0
    requires i < |d.calls| && d.calls[i].Waiting? && d.calls[i].req.revision > 0
    ensures var run := Blocking(i, d.frame, |d.calls|);
            && Possible(d, run) && NewWindowRun(run, |d.calls|)
            && AtRest(After(d, run), |d.calls|) && !LargestWins(After(d, run), |d.calls|)
  {
    var n := |d.calls|;
    var d1 := Next(d, Enter(i));
    var d2 := Next(d1, Fail(i, d.frame));
    var d3 := Next(d2, Arrive(Ask(1)));
    var d4 := Next(d3, Enter(n));
    RunOfOne(d3, Enter(n), []);
    RunOfOne(d2, Arrive(Ask(1)), [Enter(n)] + []);
    RunOfOne(d1, Fail(i, d.frame), [Arrive(Ask(1))] + ([Enter(n)] + []));
    RunOfOne(d, Enter(i), [Fail(i, d.frame)] + ([Arrive(Ask(1))] + ([Enter(n)] + [])));
    assert |d4.calls| == n + 1 && d4.calls[n] == Finished(Ask(1), Refused(d.calls[i].req.revision));
  }

  /** The holder of the lock, if there is one, lets go. */
  function Releasing(d: Desk): seq<Action> {
    if d.lock.None? || d.lock.value >= |d.calls| then []
    else if d.calls[d.lock.value].Admitted? then [Fail(d.lock.value, d.frame)]
    else [Commit(d.lock.value)]
  }

  lemma HolderLetsGo(d: Desk)
    requires Locking(d) && d.layout.revision == 0
    ensures Possible(d, Releasing(d)) && NewWindowRun(Releasing(d), |d.calls|)
    ensures var e := After(d, Releasing(d));
            && Locking(e) && e.lock.None? && e.layout.revision == 0 && |e.calls| == |d.calls|
            && forall i :: 0 <= i < |d.calls| && d.calls[i].Waiting? ==> e.calls[i] == d.calls[i]
  {
    if d.lock.Some? {
      var a := Releasing(d)[0];
      assert Releasing(d)[1..] == [] && Enabled(d, a);
      NextKeepsLocking(d, a);
    }
  }

  lemma {:induction false} RunsCompose(d: Desk, first: seq<Action>, second: seq<Action>)
    requires Possible(d, first) && Possible(After(d, first), second)
    ensures Possible(d, first + second) && After(d, first + second) == After(After(d, first), second)
    decreases |first|
  {
    if first == [] {
      assert first + second == second;
    } else {
      assert (first + second)[1..] == first[1..] + second;
      RunsCompose(Next(d, first[0]), first[1..], second);
    }
  }

  lemma WaitingCallSpoils(d: Desk, i: nat) returns (run: seq<Action>)
    requires Locking(d) && d.layout.revision == 0
    requires i < |d.calls| && d.calls[i].Waiting? && d.calls[i].req.revision > 0
    ensures Possible(d, run) && NewWindowRun(run, |d.calls|)
    ensures AtRest(After(d, run), |d.calls|) && !LargestWins(After(d, run), |d.calls|)
  {
    HolderLetsGo(d);
    var e := After(d, Releasing(d));
    BlockedByWaitingCall(e, i);
    RunsCompose(d, Releasing(d), Blocking(i, e.frame, |e.calls|));
    run := Releasing(d) + Blocking(i, e.frame, |e.calls|);
    forall k | 0 <= k < |run|
      ensures NewWindowStep(run[k], |d.calls|)
    {
      if k >= |Releasing(d)| {
        assert run[k] == Blocking(i, e.frame, |e.calls|)[k - |Releasing(d)|];
      }
    }
  }

  lemma NothingWaitingNewOrdered(e: Desk)
    requires Locking(e) && e.layout == FRESH_LAYOUT
    requires forall i :: 0 <= i < |e.calls| && e.calls[i].Waiting? ==> e.calls[i].req.revision == 0
    ensures NewOrdered(e, |e.calls|, |e.accepted|) && NewInStep(e, |e.calls|, |e.accepted|)
  {
  }

  /**
   The largest revision wins in the new window, too: whatever was accepted before and
   whoever was in flight, once everything has come to rest, size and anchor are those
   of a largest valid revision requested for the new window; exactly if, at the
   recreation, no call for the closed one was waiting with a revision above zero.
   */
  lemma LargestRevisionWinsInNewWindow(start: Desk, frame: Frame, geometry: Geometry, run: seq<Action>, newFrame: Frame)
    requires start == Start(frame, geometry) && Possible(start, run)
    ensures var d := After(start, run);
            var e := Next(d, Recreate(newFrame));
            (forall rest :: Possible(e, rest) && NewWindowRun(rest, |d.calls|) && AtRest(After(e, rest), |d.calls|) ==>
                              LargestWins(After(e, rest), |d.calls|))
            <==> forall i :: 0 <= i < |d.calls| && d.calls[i].Waiting? ==> d.calls[i].req.revision == 0
  {
    var d := After(start, run);
    var e := Next(d, Recreate(newFrame));
    RunKeepsLocking(start, run);
    NextKeepsLocking(d, Recreate(newFrame));
    if i: nat :| i < |d.calls| && d.calls[i].Waiting? && d.calls[i].req.revision != 0 {
      var rest := WaitingCallSpoils(e, i);
    } else {
      NothingWaitingNewOrdered(e);
      forall rest | Possible(e, rest) && NewWindowRun(rest, |d.calls|) && AtRest(After(e, rest), |d.calls|)
        ensures LargestWins(After(e, rest), |d.calls|)
      {
        RunKeepsNew(e, rest, |d.calls|, |d.accepted|);
        AtRestLargestWins(After(e, rest), |d.calls|, |d.accepted|);
      }
    }
  }

  /**
   With a call still waiting at the recreation it need not: that call takes the lock
   later, raises the new window's revision, fails on the window that is gone, and the
   new window's own request is refused.
   */
  lemma WaitingCallBlocksNewWindow(frame: Frame, geometry: Geometry)
    ensures exists run :: Possible(Start(frame, geometry), run)
                          && After(Start(frame, geometry), run).calls
                             == [Finished(Ask(5), NativeFailed), Finished(Ask(3), Refused(5))]
  {
    var d0 := Start(frame, geometry);
    var d1 := Next(d0, Arrive(Ask(5)));
    var d2 := Next(d1, Recreate(frame));
    var d3 := Next(d2, Enter(0));
    var d4 := Next(d3, Fail(0, frame));
    var d5 := Next(d4, Arrive(Ask(3)));
    RunOfOne(d5, Enter(1), []);
    var r5 := [Enter(1)] + [];
    RunOfOne(d4, Arrive(Ask(3)), r5);
    var r4 := [Arrive(Ask(3))] + r5;
    RunOfOne(d3, Fail(0, frame), r4);
    var r3 := [Fail(0, frame)] + r4;
    RunOfOne(d2, Enter(0), r3);
    var r2 := [Enter(0)] + r3;
    RunOfOne(d1, Recreate(frame), r2);
    var r1 := [Recreate(frame)] + r2;
    RunOfOne(d0, Arrive(Ask(5)), r1);
    assert After(d0, [Arrive(Ask(5))] + r1).calls == [Finished(Ask(5), NativeFailed), Finished(Ask(3), Refused(5))];
  }
}
