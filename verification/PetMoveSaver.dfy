/**
 The debounced position saver of the pet window. Every `Moved` event runs a
 handler that counts a revision and then tries to take the worker slot with one
 atomic swap; whoever takes it starts a thread that waits for the revision to
 stay still for 300 ms, persists the position, gives the slot back, and looks
 once more for a revision it might have missed.

 Each atomic operation is one step, and steps of all handlers and threads
 interleave in any order (sequential consistency).
 */
module PetMoveSaver {

  /** Where one handler, and afterwards the thread it may start, has got to. */
  datatype Agent =
    | Counted                    // revision counted, swap still to run
    | Spawning                   // swap returned false, thread not started yet
    | Loading                    // top of the worker loop
    | Sleeping(observed: nat)    // revision loaded; debounce, then compare again
    | Confirmed(observed: nat)   // comparison matched, persist not begun
    | Persisting(observed: nat)  // inside persist_state
    | Persisted(observed: nat)   // persist_state returned, slot not released
    | Released(observed: nat)    // slot released, last comparison still to run
    | Reclaiming                 // last comparison differed, compare-exchange still to run
    | Done

  /** `attempts` records, for every persist begun so far, the revision counted when it began. */
  datatype Saver = Saver(revision: nat, running: bool, agents: seq<Agent>, attempts: seq<nat>)

  /** A new event arrives, or one agent executes its next atomic operation. */
  datatype Action = Moved | Step(agent: nat)

  const INITIAL := Saver(0, false, [], [])

  predicate Owns(a: Agent) {
    a.Spawning? || a.Loading? || a.Sleeping? || a.Confirmed? || a.Persisting? || a.Persisted?
  }

  predicate Enabled(s: Saver, action: Action) {
    action.Moved? || (action.agent < |s.agents| && !s.agents[action.agent].Done?)
  }

  predicate Quiescent(s: Saver) {
    forall i :: 0 <= i < |s.agents| ==> s.agents[i].Done?
  }

  function Next(s: Saver, action: Action): Saver
    requires Enabled(s, action)
  {
    match action
    case Moved => s.(revision := s.revision + 1, agents := s.agents + [Counted])
    case Step(i) =>
      match s.agents[i]
      case Counted =>
        if s.running then Set(s, i, Done) else Set(s.(running := true), i, Spawning)
      case Spawning => Set(s, i, Loading)
      case Loading => Set(s, i, Sleeping(s.revision))
      case Sleeping(o) => if s.revision != o then Set(s, i, Loading) else Set(s, i, Confirmed(o))
      case Confirmed(o) => Set(s.(attempts := s.attempts + [s.revision]), i, Persisting(o))
      case Persisting(o) => Set(s, i, Persisted(o))
      case Persisted(o) => Set(s.(running := false), i, Released(o))
      case Released(o) => if s.revision == o then Set(s, i, Done) else Set(s, i, Reclaiming)
      case Reclaiming =>
        if s.running then Set(s, i, Done) else Set(s.(running := true), i, Loading)
  }

  function Set(s: Saver, i: nat, a: Agent): Saver
    requires i < |s.agents|
  {
    s.(agents := s.agents[i := a])
  }

  /** `run` is a possible interleaving from `s`: every action is enabled when it is taken. */
  predicate Possible(s: Saver, run: seq<Action>)
    decreases |run|
  {
    run == [] || (Enabled(s, run[0]) && Possible(Next(s, run[0]), run[1..]))
  }

  function After(s: Saver, run: seq<Action>): Saver
    requires Possible(s, run)
    decreases |run|
  {
    if run == [] then s else After(Next(s, run[0]), run[1..])
  }

  // ---------------------------------------------------------------- invariant

  function LastAttempt(s: Saver): nat {
    if s.attempts == [] then 0 else s.attempts[|s.attempts| - 1]
  }

  ghost predicate ExclusiveSlot(s: Saver) {
    && (forall i, j | 0 <= i < |s.agents| && 0 <= j < |s.agents| && Owns(s.agents[i]) && Owns(s.agents[j]) :: i == j)
    && (s.running <==> exists i :: 0 <= i < |s.agents| && Owns(s.agents[i]))
  }

  /** What an agent remembers is never newer than what has been counted or saved. */
  predicate Remembers(s: Saver, a: Agent) {
    match a
    case Sleeping(o) => o <= s.revision
    case Confirmed(o) => o <= s.revision
    case Persisting(o) => o <= LastAttempt(s)
    case Persisted(o) => o <= LastAttempt(s)
    case Released(o) => o <= LastAttempt(s)
    case _ => true
  }

  /** An agent outside the slot that is still going to look at the slot. */
  predicate WillLook(a: Agent) {
    a.Counted? || a.Released? || a.Reclaiming?
  }

  /** An unsaved revision always has somebody left who will act on it. */
  ghost predicate Covered(s: Saver) {
    LastAttempt(s) < s.revision ==>
      s.running || exists i :: 0 <= i < |s.agents| && WillLook(s.agents[i])
  }

  ghost predicate Inv(s: Saver) {
    && ExclusiveSlot(s)
    && LastAttempt(s) <= s.revision
    && (forall i :: 0 <= i < |s.agents| ==> Remembers(s, s.agents[i]))
    && Covered(s)
  }

  lemma NextKeepsExclusiveSlot(s: Saver, action: Action)
    requires Enabled(s, action) && ExclusiveSlot(s)
    ensures ExclusiveSlot(Next(s, action))
  {
    var t := Next(s, action);
    if action.Moved? {
      assert forall j :: 0 <= j < |t.agents| && Owns(t.agents[j]) ==> j < |s.agents| && Owns(s.agents[j]);
      if s.running {
        var i :| 0 <= i < |s.agents| && Owns(s.agents[i]);
        assert Owns(t.agents[i]);
      }
    } else {
      var i := action.agent;
      assert forall j :: 0 <= j < |t.agents| && j != i ==> t.agents[j] == s.agents[j];
      if Owns(t.agents[i]) {
        assert t.running;
      } else if t.running {
        var k :| 0 <= k < |s.agents| && Owns(s.agents[k]);
        assert Owns(t.agents[k]);
      }
    }
  }

  lemma NextKeepsCovered(s: Saver, action: Action)
    requires Enabled(s, action) && Inv(s)
    ensures Covered(Next(s, action))
  {
    var t := Next(s, action);
    if action.Moved? {
      assert WillLook(t.agents[|s.agents|]);
    } else if LastAttempt(t) < t.revision && !t.running {
      var i := action.agent;
      assert WillLook(t.agents[i]);  // giving the slot back, or finding it free, leaves one look to come
    }
  }

  lemma NextKeepsInv(s: Saver, action: Action)
    requires Enabled(s, action) && Inv(s)
    ensures Inv(Next(s, action))
  {
    NextKeepsExclusiveSlot(s, action);
    NextKeepsCovered(s, action);
    var t := Next(s, action);
    assert LastAttempt(s) <= LastAttempt(t) <= t.revision;
  }

  lemma {:induction false} RunKeepsInv(s: Saver, run: seq<Action>)
    requires Inv(s) && Possible(s, run)
    ensures Inv(After(s, run))
    decreases |run|
  {
    if run != [] {
      NextKeepsInv(s, run[0]);
      RunKeepsInv(Next(s, run[0]), run[1..]);
    }
  }

  // ------------------------------------------------------------- main results

  /** At most one agent is ever between taking the worker slot and giving it back. */
  lemma AtMostOneOwner(run: seq<Action>, i: nat, j: nat)
    requires Possible(INITIAL, run)
    requires i < |After(INITIAL, run).agents| && Owns(After(INITIAL, run).agents[i])
    requires j < |After(INITIAL, run).agents| && Owns(After(INITIAL, run).agents[j])
    ensures i == j && After(INITIAL, run).running
  {
    RunKeepsInv(INITIAL, run);
  }

  /** Once nobody is mid-flight the last persist began after the last move was counted. */
  lemma NoMoveIsLost(run: seq<Action>)
    requires Possible(INITIAL, run)
    requires Quiescent(After(INITIAL, run))
    ensures var s := After(INITIAL, run);
            !s.running && (s.revision > 0 ==> s.attempts != [] && LastAttempt(s) == s.revision)
  {
    RunKeepsInv(INITIAL, run);
  }

  // -------------------------------------------------------- the debounce

  predicate HasMove(run: seq<Action>) {
    exists k :: 0 <= k < |run| && run[k].Moved?
  }

  function Moves(run: seq<Action>): nat {
    if run == [] then 0 else Moves(run[..|run| - 1]) + if run[|run| - 1].Moved? then 1 else 0
  }

  lemma {:induction false} MovesSince(run: seq<Action>, k: nat)
    requires k <= |run|
    ensures Moves(run[..k]) <= Moves(run)
    ensures Moves(run) == Moves(run[..k]) <==> !HasMove(run[k..])
    decreases |run| - k
  {
    if k == |run| {
      assert run[..k] == run && run[k..] == [];
    } else {
      MovesSince(run, k + 1);
      assert run[..k + 1][..k] == run[..k];
      assert run[k..] == [run[k]] + run[k + 1..];
      if HasMove(run[k + 1..]) {
        var m :| 0 <= m < |run[k + 1..]| && run[k + 1..][m].Moved?;
        assert run[k..][m + 1].Moved?;
      }
      if run[k].Moved? {
        assert run[k..][0].Moved?;
      }
    }
  }

  /** The number of steps up to and including the agent's last one; zero if it took none. */
  function UpToLastStep(run: seq<Action>, i: nat): (k: nat)
    ensures k <= |run|
    ensures k > 0 ==> run[k - 1] == Step(i)
    ensures forall m :: k <= m < |run| ==> run[m] != Step(i)
  {
    if run == [] then 0 else if run[|run| - 1] == Step(i) then |run| else UpToLastStep(run[..|run| - 1], i)
  }

  lemma {:induction false} LastStepOf(s: Saver, run: seq<Action>)
    requires run != [] && Possible(s, run)
    ensures var init := run[..|run| - 1];
            Possible(s, init) && Enabled(After(s, init), run[|run| - 1])
            && After(s, run) == Next(After(s, init), run[|run| - 1])
    decreases |run|
  {
    if |run| > 1 {
      LastStepOf(Next(s, run[0]), run[1..]);
      assert run[1..][..|run| - 2] == run[..|run| - 1][1..];
    } else {
      assert run[1..] == [] && run[..0] == [];
    }
  }

  lemma {:induction false} PrefixPossible(s: Saver, run: seq<Action>, k: nat)
    requires Possible(s, run) && k <= |run|
    ensures Possible(s, run[..k])
    decreases |run| - k
  {
    if k == |run| {
      assert run[..k] == run;
    } else {
      PrefixPossible(s, run, k + 1);
      LastStepOf(s, run[..k + 1]);
      assert run[..k + 1][..k] == run[..k];
    }
  }

  /** What an agent carries, told from the actions: the moves before its own last step, or none yet. */
  ghost predicate RemembersRun(run: seq<Action>, i: nat)
    requires Possible(INITIAL, run) && i < |After(INITIAL, run).agents|
  {
    var a, k := After(INITIAL, run).agents[i], UpToLastStep(run, i);
    a.Sleeping? ==> k > 0 && a.observed == Moves(run[..k - 1])
  }

  lemma {:induction false} SleeperRemembersRun(run: seq<Action>, i: nat)
    requires Possible(INITIAL, run) && i < |After(INITIAL, run).agents|
    ensures After(INITIAL, run).revision == Moves(run)
    ensures RemembersRun(run, i)
    decreases |run|
  {
    if run != [] {
      var init, a := run[..|run| - 1], run[|run| - 1];
      LastStepOf(INITIAL, run);
      RevisionCountsMoves(init);
      RevisionCountsMoves(run);
      if i < |After(INITIAL, init).agents| {
        SleeperRemembersRun(init, i);
        var k := UpToLastStep(init, i);
        if a != Step(i) && k > 0 {
          assert run[..k - 1] == init[..k - 1];
        }
      }
    }
  }

  lemma {:induction false} RevisionCountsMoves(run: seq<Action>)
    requires Possible(INITIAL, run)
    ensures After(INITIAL, run).revision == Moves(run)
    decreases |run|
  {
    if run != [] {
      LastStepOf(INITIAL, run);
      RevisionCountsMoves(run[..|run| - 1]);
    }
  }

  lemma Extend(run: seq<Action>, a: Action)
    requires Possible(INITIAL, run) && Enabled(After(INITIAL, run), a)
    ensures Possible(INITIAL, run + [a]) && After(INITIAL, run + [a]) == Next(After(INITIAL, run), a)
  {
    assert [a][1..] == [];
    assert Possible(After(INITIAL, run), [a]);
    RunsCompose(INITIAL, run, [a]);
  }

  /**
   The debounce, in every run: an agent that wakes goes on to persist exactly when no
   move has come since it went to sleep, and goes back to sleep otherwise. When it
   went to sleep is told from the actions: it is its own last step.
   */
  lemma WakesToPersistExactlyWhen(run: seq<Action>, i: nat)
    requires Possible(INITIAL, run) && i < |After(INITIAL, run).agents| && After(INITIAL, run).agents[i].Sleeping?
    ensures Enabled(After(INITIAL, run), Step(i))
    ensures var next, quiet := Next(After(INITIAL, run), Step(i)).agents[i], !HasMove(run[UpToLastStep(run, i)..]);
            next == if quiet then Confirmed(After(INITIAL, run).revision) else Loading
  {
    var k := UpToLastStep(run, i);
    SleeperRemembersRun(run, i);
    MovesSince(run, k - 1);
    assert run[k - 1..] == [run[k - 1]] + run[k..];
    if HasMove(run[k - 1..]) {
      var m :| 0 <= m < |run[k - 1..]| && run[k - 1..][m].Moved?;
      assert run[k..][m - 1].Moved?;
    }
    if HasMove(run[k..]) {
      var m :| 0 <= m < |run[k..]| && run[k..][m].Moved?;
      assert run[k - 1..][m + 1].Moved?;
    }
  }

  /** Agent `i` fell asleep at step `j` of the run and woke at step `m`, and nothing moved in between. */
  ghost predicate SleptThrough(run: seq<Action>, i: nat, j: nat, m: nat) {
    && j < m < |run| && run[j] == run[m] == Step(i)
    && (forall k :: j < k < m ==> !run[k].Moved? && run[k] != Step(i))
    && (forall k :: m < k < |run| ==> run[k] != Step(i))
  }

  lemma OnlySleepersConfirm(s: Saver, a: Action, i: nat)
    requires Enabled(s, a) && i < |Next(s, a).agents| && Next(s, a).agents[i].Confirmed?
    ensures i < |s.agents| && if a == Step(i) then s.agents[i].Sleeping? else s.agents[i].Confirmed?
  {
  }

  lemma JustWoken(init: seq<Action>, i: nat) returns (j: nat)
    requires Possible(INITIAL, init) && i < |After(INITIAL, init).agents| && After(INITIAL, init).agents[i].Sleeping?
    requires !HasMove(init[UpToLastStep(init, i)..])
    ensures SleptThrough(init + [Step(i)], i, j, |init|)
  {
    var k, run := UpToLastStep(init, i), init + [Step(i)];
    SleeperRemembersRun(init, i);
    j := k - 1;
    forall n | j < n < |init|
      ensures !run[n].Moved? && run[n] != Step(i)
    {
      assert init[k..][n - k] == run[n];
    }
  }

  lemma StillSlept(init: seq<Action>, a: Action, i: nat, j: nat, m: nat)
    requires SleptThrough(init, i, j, m) && a != Step(i)
    ensures SleptThrough(init + [a], i, j, m)
  {
  }

  lemma {:induction false} ConfirmedHasSlept(run: seq<Action>, i: nat) returns (j: nat, m: nat)
    requires Possible(INITIAL, run) && i < |After(INITIAL, run).agents| && After(INITIAL, run).agents[i].Confirmed?
    ensures SleptThrough(run, i, j, m)
    decreases |run|
  {
    var init, a := run[..|run| - 1], run[|run| - 1];
    LastStepOf(INITIAL, run);
    OnlySleepersConfirm(After(INITIAL, init), a, i);
    assert run == init + [a];
    if a == Step(i) {
      WakesToPersistExactlyWhen(init, i);
      m := |init|;
      j := JustWoken(init, i);
    } else {
      j, m := ConfirmedHasSlept(init, i);
      StillSlept(init, a, i, j, m);
    }
  }

  /**
   So however fast moves come, no position is persisted before a whole sleep without
   a move: each attempt is begun by an agent whose last two steps fell asleep and woke
   with no move in between.
   */
  lemma AttemptsFollowQuietSleeps(run: seq<Action>, a: Action)
    requires Possible(INITIAL, run) && Enabled(After(INITIAL, run), a)
    requires Next(After(INITIAL, run), a).attempts != After(INITIAL, run).attempts
    ensures a.Step? && exists j: nat, m: nat :: SleptThrough(run, a.agent, j, m)
  {
    var j, m := ConfirmedHasSlept(run, a.agent);
  }

  // ------------------------------------------------------------ it ends, too

  /** How many steps one agent can still take when no further event arrives. */
  function Remaining(revision: nat, a: Agent): nat {
    match a
    case Counted => 8
    case Spawning => 7
    case Loading => 6
    case Sleeping(o) => if o == revision then 5 else 7
    case Confirmed(o) => if o == revision then 4 else 11
    case Persisting(o) => if o == revision then 3 else 10
    case Persisted(o) => if o == revision then 2 else 9
    case Released(o) => if o == revision then 1 else 8
    case Reclaiming => 7
    case Done => 0
  }

  function Work(revision: nat, agents: seq<Agent>): nat {
    if agents == [] then 0 else Remaining(revision, agents[0]) + Work(revision, agents[1..])
  }

  lemma {:induction false} WorkOfUpdate(revision: nat, agents: seq<Agent>, i: nat, a: Agent)
    requires i < |agents|
    ensures Work(revision, agents[i := a])
         == Work(revision, agents) - Remaining(revision, agents[i]) + Remaining(revision, a)
  {
    if i == 0 {
      assert agents[i := a][1..] == agents[1..];
    } else {
      assert agents[i := a][1..] == agents[1..][i - 1 := a];
      WorkOfUpdate(revision, agents[1..], i - 1, a);
    }
  }

  lemma {:induction false} WorkBound(revision: nat, agents: seq<Agent>)
    ensures Work(revision, agents) <= 11 * |agents|
  {
    if agents != [] {
      WorkBound(revision, agents[1..]);
    }
  }

  ghost predicate NoEvents(run: seq<Action>) {
    forall k :: 0 <= k < |run| ==> run[k].Step?
  }

  lemma StepSpendsWork(s: Saver, i: nat)
    requires Enabled(s, Step(i))
    ensures Next(s, Step(i)).revision == s.revision
    ensures Work(s.revision, Next(s, Step(i)).agents) < Work(s.revision, s.agents)
  {
    WorkOfUpdate(s.revision, s.agents, i, Next(s, Step(i)).agents[i]);
  }

  lemma {:induction false} QuietRunSpendsWork(s: Saver, run: seq<Action>)
    requires Possible(s, run) && NoEvents(run)
    ensures After(s, run).revision == s.revision
    ensures |run| + Work(s.revision, After(s, run).agents) <= Work(s.revision, s.agents)
    decreases |run|
  {
    if run != [] {
      assert run[0].Step?;
      StepSpendsWork(s, run[0].agent);
      QuietRunSpendsWork(Next(s, run[0]), run[1..]);
    }
  }

  lemma {:induction false} RunsCompose(s: Saver, first: seq<Action>, second: seq<Action>)
    requires Possible(s, first) && Possible(After(s, first), second)
    ensures Possible(s, first + second) && After(s, first + second) == After(After(s, first), second)
    decreases |first|
  {
    if first == [] {
      assert first + second == second;
    } else {
      assert (first + second)[1..] == first[1..] + second;
      RunsCompose(Next(s, first[0]), first[1..], second);
    }
  }

  /**
   Once events stop arriving, no scheduling can run on for ever: every
   continuation is at most eleven steps per agent long, and one that cannot be
   continued has persisted a position at least as new as the last event.
   */
  lemma QuietRunsEndSaved(history: seq<Action>, drain: seq<Action>)
    requires Possible(INITIAL, history)
    requires Possible(After(INITIAL, history), drain) && NoEvents(drain)
    ensures |drain| <= 11 * |After(INITIAL, history).agents|
    ensures var s, t := After(INITIAL, history), After(After(INITIAL, history), drain);
            (forall action :: Enabled(t, action) ==> action.Moved?) && s.revision > 0 ==>
              !t.running && t.attempts != [] && LastAttempt(t) == s.revision
  {
    var s := After(INITIAL, history);
    var t := After(s, drain);
    QuietRunSpendsWork(s, drain);
    WorkBound(s.revision, s.agents);
    if forall action :: Enabled(t, action) ==> action.Moved? {
      forall i | 0 <= i < |t.agents|
        ensures t.agents[i].Done?
      {
        assert !Enabled(t, Step(i));
      }
      RunsCompose(INITIAL, history, drain);
      NoMoveIsLost(history + drain);
    }
  }
}
