/**
 Chord shortcuts step by step. A press works in three steps: under the lock it ends
 the pending chord, then without the lock it registers the new second parts, then it
 sets the new chord. Reloads and pauses clear the chord, unregister every key and
 register a configuration, or none; resumes do so without clearing. They come from
 several threads at once. Timers take the pending chord in one step under the lock.
 All of these interleave.
 */
module ChordRaces {
  import opened Prelude
  import opened ChordShortcuts

  /** Where the press being handled has got to; presses are delivered one at a time. */
  datatype Handler =
    | Idle
    | Started(started: seq<Completion>, at: int)     // pending chord ended, second parts not registered
    | Registered(started: seq<Completion>, at: int)  // second parts registered, chord not set

  /**
   `cleared` threads have cleared the chord and not unregistered the keys yet, `swept`
   threads have unregistered and not registered a configuration yet. `permanent` is
   what configurations have registered since all keys were last unregistered.
   */
  datatype World = World(config: seq<Binding>, pending: Option<Pending>, registered: set<Key>, permanent: set<Key>,
                         timers: seq<int>, handler: Handler, cleared: nat, swept: nat)

  datatype Step =
    | BeginPress(key: Key, at: int)
    | RegisterSeconds
    | SetChord
    | WakeTimer(index: nat, at: int)
    | EditConfig(bindings: seq<Binding>)
    | ClearChord
    | UnregisterAll
    | UnregisterToResume
    | RegisterConfig(loaded: Option<seq<Binding>>)

  function Begin(bindings: seq<Binding>): World {
    World(bindings, None, Permanent(bindings), Permanent(bindings), [], Idle, 0, 0)
  }

  function PendingKeys(w: World): set<Key> {
    if w.pending.Some? then Seconds(w.pending.value.completions) else {}
  }

  function Ended(w: World): World {
    w.(pending := None, registered := w.registered - PendingKeys(w))
  }

  predicate CanStep(w: World, step: Step) {
    match step
    case BeginPress(key, _) => w.handler.Idle? && key in w.registered
    case RegisterSeconds => w.handler.Started?
    case SetChord => w.handler.Registered?
    case WakeTimer(i, at) => i < |w.timers| && w.timers[i] <= at
    case EditConfig(_) => true
    case ClearChord => true
    case UnregisterAll => w.cleared > 0
    case UnregisterToResume => true
    case RegisterConfig(_) => w.swept > 0
  }

  function Stepped(w: World, step: Step): World
    requires CanStep(w, step)
  {
    match step
    case BeginPress(key, at) =>
      var completed := w.pending.Some? && at < w.pending.value.deadline
                       && FindCompletion(w.pending.value.completions, key).Some?;
      var started := ChordsStartedBy(w.config, key);
      Ended(w).(handler := if completed || started == [] then Idle else Started(started, at))
    case RegisterSeconds =>
      w.(registered := w.registered + Seconds(w.handler.started), handler := Registered(w.handler.started, w.handler.at))
    case SetChord =>
      w.(pending := Some(Pending(w.handler.started, w.handler.at + CHORD_TIMEOUT_MS)), handler := Idle,
         timers := w.timers + [w.handler.at + CHORD_TIMEOUT_MS + 50])
    case WakeTimer(i, _) => Ended(w.(timers := w.timers[..i] + w.timers[i + 1..]))
    case EditConfig(bindings) => w.(config := bindings)
    case ClearChord => w.(pending := None, cleared := w.cleared + 1)
    case UnregisterAll => Emptied(w.(cleared := w.cleared - 1))
    case UnregisterToResume => Emptied(w)
    case RegisterConfig(loaded) =>
      var keys := if loaded.Some? then Permanent(loaded.value) else {};
      w.(registered := w.registered + keys, permanent := w.permanent + keys, swept := w.swept - 1)
  }

  function Emptied(w: World): World {
    w.(registered := {}, permanent := {}, swept := w.swept + 1)
  }

  /** The step unregisters every key. */
  predicate Sweeps(step: Step) {
    step.UnregisterAll? || step.UnregisterToResume?
  }

  predicate CanRun(w: World, run: seq<Step>)
    decreases |run|
  {
    run == [] || (CanStep(w, run[0]) && CanRun(Stepped(w, run[0]), run[1..]))
  }

  function Ran(w: World, run: seq<Step>): World
    requires CanRun(w, run)
    decreases |run|
  {
    if run == [] then w else Ran(Stepped(w, run[0]), run[1..])
  }

  // ------------------------------------------ uninterrupted, they are the atomic steps

  function AsMachine(w: World): Machine {
    Machine(w.config, w.pending, w.registered, w.permanent, w.timers)
  }

  /** The steps of a press. */
  function PressSteps(w: World, key: Key, at: int): seq<Step>
    requires CanStep(w, BeginPress(key, at))
  {
    [BeginPress(key, at)] + if Stepped(w, BeginPress(key, at)).handler.Idle? then [] else [RegisterSeconds] + ([SetChord] + [])
  }

  /** A press nobody interrupts is the one-step press, and likewise a reload, a pause and a resume. */
  lemma UninterruptedPress(w: World, key: Key, at: int)
    requires CanStep(w, BeginPress(key, at))
    ensures CanRun(w, PressSteps(w, key, at))
    ensures var after := Ran(w, PressSteps(w, key, at));
            AsMachine(after) == Pressed(AsMachine(w), key, at).0 && after.handler.Idle? && after.cleared == w.cleared && after.swept == w.swept
  {
    var w1 := Stepped(w, BeginPress(key, at));
    if w1.handler.Idle? {
      OneStep(w, BeginPress(key, at), []);
    } else {
      var w2 := Stepped(w1, RegisterSeconds);
      OneStep(w2, SetChord, []);
      OneStep(w1, RegisterSeconds, [SetChord] + []);
      OneStep(w, BeginPress(key, at), [RegisterSeconds] + ([SetChord] + []));
    }
  }

  predicate Settled(w: World) {
    w.cleared == 0 && w.swept == 0
  }

  lemma UninterruptedReload(w: World, loaded: Option<seq<Binding>>)
    requires Settled(w)
    ensures var steps := [ClearChord] + ([UnregisterAll] + ([RegisterConfig(loaded)] + []));
            && CanRun(w, steps) && Settled(Ran(w, steps)) && Ran(w, steps).handler == w.handler
            && AsMachine(Ran(w, steps)) == Next(AsMachine(w), Reload(loaded)).0
            && (loaded.None? ==> AsMachine(Ran(w, steps)) == Next(AsMachine(w), Pause).0)
  {
    var w1 := Stepped(w, ClearChord);
    var w2 := Stepped(w1, UnregisterAll);
    OneStep(w2, RegisterConfig(loaded), []);
    OneStep(w1, UnregisterAll, [RegisterConfig(loaded)] + []);
    OneStep(w, ClearChord, [UnregisterAll] + ([RegisterConfig(loaded)] + []));
  }

  lemma UninterruptedResume(w: World, bindings: seq<Binding>)
    requires Settled(w)
    ensures var steps := [UnregisterToResume] + ([RegisterConfig(Some(bindings))] + []);
            && CanRun(w, steps) && Settled(Ran(w, steps)) && Ran(w, steps).handler == w.handler
            && AsMachine(Ran(w, steps)) == Next(AsMachine(w), Resume(bindings)).0
  {
    var w1 := Stepped(w, UnregisterToResume);
    OneStep(w1, RegisterConfig(Some(bindings)), []);
    OneStep(w, UnregisterToResume, [RegisterConfig(Some(bindings))] + []);
  }

  // ------------------------------------------------ which keys are registered

  /** Every key was unregistered after second parts were last registered. */
  function SweptSince(run: seq<Step>, swept: bool): bool {
    if run == [] then swept
    else SweptSince(run[1..], if Sweeps(run[0]) then true else if run[0].RegisterSeconds? then false else swept)
  }

  /** The second parts of the chord that is pending or about to be set. */
  function ActiveKeys(w: World): set<Key> {
    if w.handler.Registered? then Seconds(w.handler.started) else PendingKeys(w)
  }

  /** Second parts are never permanent keys, in any configuration of the run. */
  ghost predicate SeparatedStep(step: Step, seconds: set<Key>) {
    match step
    case EditConfig(bindings) => Separated(bindings, seconds)
    case RegisterConfig(loaded) => loaded.Some? ==> Separated(loaded.value, seconds)
    case _ => true
  }

  ghost predicate Kept(w: World, seconds: set<Key>, swept: bool) {
    && Separated(w.config, seconds) && w.permanent !! seconds
    && PendingKeys(w) <= seconds
    && (!w.handler.Idle? ==> w.pending.None? && Seconds(w.handler.started) <= seconds)
    && w.permanent <= w.registered <= w.permanent + seconds
    && (w.cleared > 0 || w.registered == w.permanent + if swept then {} else ActiveKeys(w))
  }

  lemma StepKeeps(w: World, step: Step, seconds: set<Key>, swept: bool)
    requires CanStep(w, step) && Kept(w, seconds, swept) && SeparatedStep(step, seconds)
    ensures Kept(Stepped(w, step), seconds, SweptSince([step], swept))
  {
    var after := if Sweeps(step) then true else if step.RegisterSeconds? then false else swept;
    assert [step][1..] == [] && SweptSince([step], swept) == SweptSince([], after);
  }

  lemma {:induction false} RunKeeps(w: World, run: seq<Step>, seconds: set<Key>, swept: bool)
    requires CanRun(w, run) && Kept(w, seconds, swept)
    requires forall k :: 0 <= k < |run| ==> SeparatedStep(run[k], seconds)
    ensures Kept(Ran(w, run), seconds, SweptSince(run, swept))
    decreases |run|
  {
    if run != [] {
      StepKeeps(w, run[0], seconds, swept);
      assert SweptSince([run[0]], swept)
          == if Sweeps(run[0]) then true else if run[0].RegisterSeconds? then false else swept by {
        assert [run[0]][1..] == [];
      }
      RunKeeps(Stepped(w, run[0]), run[1..], seconds, SweptSince([run[0]], swept));
    }
  }

  predicate AtRest(w: World) {
    w.handler.Idle? && Settled(w)
  }

  /**
   In every interleaving of presses, timers, edits and any number of reloads, pauses and
   resumes, whenever none of them is under way: exactly the permanent keys and the
   pending second parts are registered, if and only if no chord with second parts is
   pending or nobody unregistered everything since they were registered.
   */
  lemma RightKeysUnlessSwept(bindings: seq<Binding>, run: seq<Step>, seconds: set<Key>)
    requires Separated(bindings, seconds) && CanRun(Begin(bindings), run) && AtRest(Ran(Begin(bindings), run))
    requires forall k :: 0 <= k < |run| ==> SeparatedStep(run[k], seconds)
    ensures var w := Ran(Begin(bindings), run);
            w.registered == w.permanent + PendingKeys(w) <==> PendingKeys(w) == {} || !SweptSince(run, false)
  {
    RunKeeps(Begin(bindings), run, seconds, false);
    var w := Ran(Begin(bindings), run);
    if PendingKeys(w) != {} && SweptSince(run, false) {
      var key :| key in PendingKeys(w);
      assert key !in w.registered;
    }
  }

  /** One chord, pressed as far as its second part being registered. */
  function InTheGap(bindings: seq<Binding>): World {
    World(bindings, None, {1, 2}, {1}, [], Registered([Completion("chord", Some(2))], 0), 0, 0)
  }

  lemma ReachesTheGap(bindings: seq<Binding>)
    requires bindings == [Binding("chord", true, [Some(1), Some(2)])]
    ensures Permanent(bindings) == {1} && Seconds([Completion("chord", Some(2))]) == {2}
    ensures CanStep(Begin(bindings), BeginPress(1, 0))
    ensures Stepped(Begin(bindings), BeginPress(1, 0)).handler.Started?
    ensures Stepped(Stepped(Begin(bindings), BeginPress(1, 0)), RegisterSeconds) == InTheGap(bindings)
  {
    assert bindings[1..] == [] && Permanent(bindings) == {1};
    assert ChordsStartedBy(bindings, 1) == [Completion("chord", Some(2))];
    assert Seconds([Completion("chord", Some(2))]) == {2};
  }

  lemma ReloadsInTheGap(bindings: seq<Binding>, run: seq<Step>)
    requires Permanent(bindings) == {1} && Seconds([Completion("chord", Some(2))]) == {2}
    requires run == [ClearChord] + ([UnregisterAll] + ([RegisterConfig(Some(bindings))] + ([SetChord] + [])))
    ensures CanRun(InTheGap(bindings), run)
    ensures var w := Ran(InTheGap(bindings), run);
            AtRest(w) && PendingKeys(w) == {2} && w.registered == {1}
  {
    var w3 := Stepped(InTheGap(bindings), ClearChord);
    var w4 := Stepped(w3, UnregisterAll);
    var w5 := Stepped(w4, RegisterConfig(Some(bindings)));
    OneStep(w5, SetChord, []);
    OneStep(w4, RegisterConfig(Some(bindings)), [SetChord] + []);
    OneStep(w3, UnregisterAll, [RegisterConfig(Some(bindings))] + ([SetChord] + []));
    OneStep(InTheGap(bindings), ClearChord, [UnregisterAll] + ([RegisterConfig(Some(bindings))] + ([SetChord] + [])));
  }

  /** A reload in the gap between registering the second parts and setting the chord leaves a chord that cannot be completed. */
  lemma ReloadInTheGap()
    ensures var bindings := [Binding("chord", true, [Some(1), Some(2)])];
            exists run :: CanRun(Begin(bindings), run)
                          && var w := Ran(Begin(bindings), run);
                             AtRest(w) && PendingKeys(w) == {2} && w.registered == {1}
  {
    var bindings := [Binding("chord", true, [Some(1), Some(2)])];
    var reload := [ClearChord] + ([UnregisterAll] + ([RegisterConfig(Some(bindings))] + ([SetChord] + [])));
    ReachesTheGap(bindings);
    ReloadsInTheGap(bindings, reload);
    OneStep(Stepped(Begin(bindings), BeginPress(1, 0)), RegisterSeconds, reload);
    OneStep(Begin(bindings), BeginPress(1, 0), [RegisterSeconds] + reload);
  }

  lemma OneStep(w: World, step: Step, rest: seq<Step>)
    requires CanStep(w, step) && CanRun(Stepped(w, step), rest)
    ensures CanRun(w, [step] + rest) && Ran(w, [step] + rest) == Ran(Stepped(w, step), rest)
  {
    assert ([step] + rest)[1..] == rest;
  }
}
