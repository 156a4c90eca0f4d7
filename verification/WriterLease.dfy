/**
 The writer lease of the automation control plane: one file naming the run that
 may write. Nobody's lease times out; it goes away only when its owner releases it.
 */
module WriterLease {
  import opened Prelude

  datatype Lease = Lease(owner: string, taskId: string, acquiredAt: int)

  datatype RunState = Prepared | Retained | Completed | OtherState

  /** One `lease` call, with what the run's manifest, the worktree and the file lock say at that time. */
  datatype Call = Call(owner: string, release: bool, state: RunState, taskId: string,
                       worktreeIntact: bool, lockFree: bool, now: int)

  datatype Answer = Raised | Busy(holder: string) | NothingToRelease | Released | Acquired

  predicate Admissible(tasks: set<string>, c: Call) {
    && (c.state.Prepared? || c.state.Retained? || c.release)
    && c.taskId in tasks
    && (c.state.Completed? || c.worktreeIntact)
    && c.lockFree
  }

  function Respond(tasks: set<string>, lease: Option<Lease>, c: Call): (Option<Lease>, Answer) {
    if !Admissible(tasks, c) then (lease, Raised)
    else if lease.Some? && lease.value.owner != c.owner then (lease, Busy(lease.value.owner))
    else if c.release then (None, if lease.None? then NothingToRelease else Released)
    else (Some(Lease(c.owner, c.taskId, if lease.Some? then lease.value.acquiredAt else c.now)), Acquired)
  }

  /**
   What a call answers, told from the call: it raises for a closed run that does not
   release, an unknown task, a broken worktree unless the run is completed, or a lock
   that is taken; then a foreign lease makes it busy; then it releases, or acquires.
   */
  lemma AnswersTold(tasks: set<string>, lease: Option<Lease>, c: Call)
    ensures var (after, answer) := Respond(tasks, lease, c);
            && (answer == Raised <==>
                  || (!c.release && (c.state.Completed? || c.state.OtherState?))
                  || c.taskId !in tasks
                  || (!c.worktreeIntact && !c.state.Completed?)
                  || !c.lockFree)
            && (answer.Busy? ==> lease.Some? && answer.holder == lease.value.owner != c.owner)
            && (answer.Busy? <==> answer != Raised && lease.Some? && lease.value.owner != c.owner)
            && (answer == Released <==> answer != Raised && c.release && lease.Some? && lease.value.owner == c.owner)
            && (answer == NothingToRelease <==> answer != Raised && c.release && lease.None?)
            && (answer == Released || answer == NothingToRelease ==> after.None?)
            && (answer == Acquired ==> after.Some? && after.value.owner == c.owner && after.value.taskId == c.taskId)
  {
  }

  /** The lease file before call `n` of a run of calls that began without a lease. */
  function LeaseBefore(tasks: set<string>, calls: seq<Call>, n: nat): Option<Lease>
    requires n <= |calls|
  {
    if n == 0 then None else Respond(tasks, LeaseBefore(tasks, calls, n - 1), calls[n - 1]).0
  }

  function AnswerTo(tasks: set<string>, calls: seq<Call>, n: nat): Answer
    requires n < |calls|
  {
    Respond(tasks, LeaseBefore(tasks, calls, n), calls[n]).1
  }

  /** Whoever is not the holder changes nothing, whether acquiring or releasing. */
  lemma ForeignersChangeNothing(tasks: set<string>, lease: Lease, c: Call)
    requires c.owner != lease.owner
    ensures var (after, answer) := Respond(tasks, Some(lease), c);
            after == Some(lease) && (answer == Raised || answer == Busy(lease.owner))
  {
  }

  /** A lease stays with its holder up to call `j` unless the holder released it on the way. */
  lemma {:induction false} HolderKeepsLease(tasks: set<string>, calls: seq<Call>, i: nat, j: nat)
    requires i < j <= |calls| && AnswerTo(tasks, calls, i) == Acquired
    ensures (exists k | i < k < j :: calls[k].owner == calls[i].owner && AnswerTo(tasks, calls, k) == Released)
            || (LeaseBefore(tasks, calls, j).Some?
                && LeaseBefore(tasks, calls, j).value.owner == calls[i].owner
                && LeaseBefore(tasks, calls, j).value.acquiredAt == LeaseBefore(tasks, calls, i + 1).value.acquiredAt)
    decreases j
  {
    if j > i + 1 {
      HolderKeepsLease(tasks, calls, i, j - 1);
      if LeaseBefore(tasks, calls, j - 1).Some? && LeaseBefore(tasks, calls, j - 1).value.owner == calls[i].owner {
        if AnswerTo(tasks, calls, j - 1) == Released {
          assert calls[j - 1].owner == calls[i].owner;
        }
      }
    }
  }

  /**
   No stealing: between two acquisitions by different owners the first owner
   released the lease itself. However much time passes, nothing else ends it.
   */
  lemma NoStealing(tasks: set<string>, calls: seq<Call>, i: nat, j: nat)
    requires i < j < |calls|
    requires AnswerTo(tasks, calls, i) == Acquired && AnswerTo(tasks, calls, j) == Acquired
    requires calls[i].owner != calls[j].owner
    ensures exists k | i < k < j :: calls[k].owner == calls[i].owner && AnswerTo(tasks, calls, k) == Released
  {
    HolderKeepsLease(tasks, calls, i, j);
  }

  /** Call `i` acquired a lease that was free, and up to call `n` it has stood ever since. */
  ghost predicate HeldSince(tasks: set<string>, calls: seq<Call>, i: nat, n: nat) {
    && i < n <= |calls|
    && LeaseBefore(tasks, calls, i).None? && AnswerTo(tasks, calls, i) == Acquired
    && forall k | i < k < n :: LeaseBefore(tasks, calls, k).Some? && AnswerTo(tasks, calls, k) != Released
  }

  /** A standing lease carries the time of the acquisition that found no lease; renewals never move it. */
  lemma {:induction false} LeaseDatesFromItsFirstAcquisition(tasks: set<string>, calls: seq<Call>, n: nat) returns (i: nat)
    requires n <= |calls| && LeaseBefore(tasks, calls, n).Some?
    ensures HeldSince(tasks, calls, i, n)
    ensures calls[i].owner == LeaseBefore(tasks, calls, n).value.owner
    ensures calls[i].now == LeaseBefore(tasks, calls, n).value.acquiredAt
  {
    if LeaseBefore(tasks, calls, n - 1).Some? {
      i := LeaseDatesFromItsFirstAcquisition(tasks, calls, n - 1);
      assert AnswerTo(tasks, calls, n - 1) != Released;
    } else {
      i := n - 1;
    }
  }

  /** Call `i` acquired and its owner has not released before call `n`. */
  ghost predicate StillHolds(tasks: set<string>, calls: seq<Call>, i: nat, n: nat) {
    && i < n <= |calls| && AnswerTo(tasks, calls, i) == Acquired
    && forall k | i < k < n :: !(calls[k].owner == calls[i].owner && AnswerTo(tasks, calls, k) == Released)
  }

  /**
   Who gets the lease, told from the answers alone: a call that asks for it properly
   acquires it exactly when nobody else has acquired it without releasing it since.
   */
  lemma AcquiresUnlessHeld(tasks: set<string>, calls: seq<Call>, n: nat)
    requires n < |calls| && Admissible(tasks, calls[n]) && !calls[n].release
    ensures AnswerTo(tasks, calls, n) == Acquired <==>
            !exists i: nat :: StillHolds(tasks, calls, i, n) && calls[i].owner != calls[n].owner
  {
    if AnswerTo(tasks, calls, n) == Acquired {
      forall i: nat | StillHolds(tasks, calls, i, n)
        ensures calls[i].owner == calls[n].owner
      {
        HolderKeepsLease(tasks, calls, i, n);
      }
    } else {
      var i := LeaseDatesFromItsFirstAcquisition(tasks, calls, n);
      assert StillHolds(tasks, calls, i, n) && calls[i].owner != calls[n].owner;
    }
  }

  /** A closed run can give its lease back but never take one. */
  lemma ClosedRunsOnlyRelease(tasks: set<string>, lease: Option<Lease>, c: Call)
    requires c.state.Completed? || c.state.OtherState?
    ensures Respond(tasks, lease, c).1 != Acquired
    ensures c.state.Completed? && c.release && c.taskId in tasks && c.lockFree
            && lease.Some? && lease.value.owner == c.owner ==>
              Respond(tasks, lease, c) == (None, Released)
  {
  }

  class Control {
    const tasks: set<string>
    var lease: Option<Lease>  // writer-lease.json, if it exists

    constructor (tasks: set<string>)
      ensures this.tasks == tasks && lease == None
    {
      this.tasks := tasks;
      lease := None;
    }

    method LeaseFor(c: Call) returns (answer: Answer)
      modifies this`lease
      ensures (lease, answer) == Respond(tasks, old(lease), c)
    {
      if !(c.state.Prepared? || c.state.Retained?) && !c.release {
        return Raised;
      }
      if c.taskId !in tasks {
        return Raised;
      }
      if !c.state.Completed? && !c.worktreeIntact {
        return Raised;
      }
      if !c.lockFree {
        return Raised;
      }
      var prior := lease;
      if prior.Some? && prior.value.owner != c.owner {
        return Busy(prior.value.owner);
      }
      if c.release {
        if prior.None? {
          return NothingToRelease;
        }
        lease := None;
        return Released;
      }
      lease := Some(Lease(c.owner, c.taskId, if prior.Some? then prior.value.acquiredAt else c.now));
      return Acquired;
    }
  }
}
