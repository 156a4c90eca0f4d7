/**
 Global shortcuts with two-part chords. Pressing a chord's first part registers
 the second parts for a while; the next press completes, cancels or replaces the
 chord, and a timer thread cleans up. Each handler, timer and reload is one step,
 and a step carries the time it happens at; `ChordRaces` takes the steps apart.
 */
module ChordShortcuts {
  import opened Prelude

  const CHORD_TIMEOUT_MS := 1500

  /** A key combination the shortcut parser accepts. */
  type Key = nat

  /** A configured binding, its keys split at white space; `None` is a part that does not parse. */
  datatype Binding = Binding(id: string, enabled: bool, parts: seq<Option<Key>>)

  datatype Completion = Completion(id: string, second: Option<Key>)

  datatype Pending = Pending(completions: seq<Completion>, deadline: int)

  /** `permanent` is the set the last registration of the configuration asked for. */
  datatype Machine = Machine(config: seq<Binding>, pending: Option<Pending>, registered: set<Key>,
                             permanent: set<Key>, timers: seq<int>)

  datatype Action =
    | Press(key: Key, at: int)
    | Timer(index: nat, at: int)
    | Edit(bindings: seq<Binding>)               // the cached configuration changes
    | Reload(loaded: Option<seq<Binding>>)       // config:changed; loading may fail
    | Pause
    | Resume(bindings: seq<Binding>)

  datatype Effect = Nothing | ChordArmed | ChordFired(id: string) | SingleFired(id: string) | Unbound | TimedOut

  function Parsed(p: Option<Key>): set<Key> {
    match p
    case Some(k) => {k}
    case None => {}
  }

  /** What registering a configuration registers: single keys and first parts of enabled bindings. */
  function Permanent(bindings: seq<Binding>): set<Key> {
    if bindings == [] then {}
    else
      (if bindings[0].enabled && bindings[0].parts != [] then Parsed(bindings[0].parts[0]) else {})
      + Permanent(bindings[1..])
  }

  function Seconds(completions: seq<Completion>): set<Key> {
    if completions == [] then {} else Parsed(completions[0].second) + Seconds(completions[1..])
  }

  /** The chords a key starts. A binding of three parts is a chord, but starts nothing. */
  function ChordsStartedBy(bindings: seq<Binding>, key: Key): seq<Completion> {
    if bindings == [] then []
    else
      var b := bindings[0];
      (if b.enabled && |b.parts| == 2 && b.parts[0] == Some(key) then [Completion(b.id, b.parts[1])] else [])
      + ChordsStartedBy(bindings[1..], key)
  }

  function FindCompletion(completions: seq<Completion>, key: Key): Option<string> {
    if completions == [] then None
    else if completions[0].second == Some(key) then Some(completions[0].id)
    else FindCompletion(completions[1..], key)
  }

  function FindSingle(bindings: seq<Binding>, key: Key): Option<string> {
    if bindings == [] then None
    else if bindings[0].enabled && bindings[0].parts == [Some(key)] then Some(bindings[0].id)
    else FindSingle(bindings[1..], key)
  }

  function PendingSeconds(m: Machine): set<Key> {
    if m.pending.Some? then Seconds(m.pending.value.completions) else {}
  }

  /** Forget the pending chord and unregister its second parts. */
  function Cancelled(m: Machine): Machine {
    m.(pending := None, registered := m.registered - PendingSeconds(m))
  }

  function Pressed(m: Machine, key: Key, at: int): (Machine, Effect) {
    var done := if m.pending.Some? && at < m.pending.value.deadline then FindCompletion(m.pending.value.completions, key) else None;
    var idle := Cancelled(m);
    if done.Some? then (idle, ChordFired(done.value))
    else
      var started := ChordsStartedBy(m.config, key);
      if started != [] then
        (idle.(pending := Some(Pending(started, at + CHORD_TIMEOUT_MS)), registered := idle.registered + Seconds(started),
               timers := idle.timers + [at + CHORD_TIMEOUT_MS + 50]), ChordArmed)
      else
        var single := FindSingle(m.config, key);
        (idle, if single.Some? then SingleFired(single.value) else Unbound)
  }

  predicate Enabled(m: Machine, a: Action) {
    match a
    case Press(key, _) => key in m.registered
    case Timer(i, at) => i < |m.timers| && m.timers[i] <= at
    case _ => true
  }

  function Next(m: Machine, a: Action): (Machine, Effect)
    requires Enabled(m, a)
  {
    match a
    case Press(key, at) => Pressed(m, key, at)
    case Timer(i, _) =>
      (Cancelled(m.(timers := m.timers[..i] + m.timers[i + 1..])), if m.pending.Some? then TimedOut else Nothing)
    case Edit(bindings) => (m.(config := bindings), Nothing)
    case Reload(loaded) =>
      var keys := if loaded.Some? then Permanent(loaded.value) else {};
      (m.(pending := None, registered := keys, permanent := keys), Nothing)
    case Pause => (m.(pending := None, registered := {}, permanent := {}), Nothing)
    case Resume(bindings) => (m.(registered := Permanent(bindings), permanent := Permanent(bindings)), Nothing)
  }

  predicate Possible(m: Machine, run: seq<Action>)
    decreases |run|
  {
    run == [] || (Enabled(m, run[0]) && Possible(Next(m, run[0]).0, run[1..]))
  }

  function After(m: Machine, run: seq<Action>): Machine
    requires Possible(m, run)
    decreases |run|
  {
    if run == [] then m else After(Next(m, run[0]).0, run[1..])
  }

  function Start(bindings: seq<Binding>): Machine {
    Machine(bindings, None, Permanent(bindings), Permanent(bindings), [])
  }

  // --------------------------------------------------- chords and presses

  /** A pending chord stems from the press that armed it, the last press so far. */
  ghost predicate ArmedBy(m: Machine, key: Key, at: int, config: seq<Binding>) {
    m.pending.Some? ==> m.pending == Some(Pending(ChordsStartedBy(config, key), at + CHORD_TIMEOUT_MS))
  }

  /** The last press of a run that has one, with the configuration cached at that moment. */
  function LastPress(m: Machine, run: seq<Action>, none: Option<(Key, int, seq<Binding>)>): Option<(Key, int, seq<Binding>)>
    requires Possible(m, run)
    decreases |run|
  {
    if run == [] then none
    else LastPress(Next(m, run[0]).0, run[1..], if run[0].Press? then Some((run[0].key, run[0].at, m.config)) else none)
  }

  ghost predicate Attributed(m: Machine, last: Option<(Key, int, seq<Binding>)>) {
    m.pending.Some? ==> last.Some? && ArmedBy(m, last.value.0, last.value.1, last.value.2)
  }

  lemma {:induction false} PendingIsTheLastPress(m: Machine, run: seq<Action>, last: Option<(Key, int, seq<Binding>)>)
    requires Possible(m, run) && Attributed(m, last)
    ensures Attributed(After(m, run), LastPress(m, run, last))
    decreases |run|
  {
    if run != [] {
      var now := if run[0].Press? then Some((run[0].key, run[0].at, m.config)) else last;
      PendingIsTheLastPress(Next(m, run[0]).0, run[1..], now);
    }
  }

  predicate Matches(b: Binding, parts: seq<Option<Key>>) {
    b.enabled && b.parts == parts
  }

  /** Number `k` is the first enabled binding with these parts. */
  ghost predicate FirstMatch(bindings: seq<Binding>, parts: seq<Option<Key>>, k: nat) {
    k < |bindings| && Matches(bindings[k], parts) && forall j :: 0 <= j < k ==> !Matches(bindings[j], parts)
  }

  lemma FirstMatchInTail(bindings: seq<Binding>, parts: seq<Option<Key>>, k: nat)
    requires bindings != [] && !Matches(bindings[0], parts) && FirstMatch(bindings[1..], parts, k)
    ensures FirstMatch(bindings, parts, k + 1)
  {
    assert forall j :: 0 < j < |bindings| ==> bindings[j] == bindings[1..][j - 1];
  }

  /** The chord that is found is the first one configured. */
  lemma {:induction false} FoundCompletion(bindings: seq<Binding>, first: Key, second: Key) returns (k: nat)
    requires FindCompletion(ChordsStartedBy(bindings, first), second).Some?
    ensures FirstMatch(bindings, [Some(first), Some(second)], k)
    ensures FindCompletion(ChordsStartedBy(bindings, first), second) == Some(bindings[k].id)
  {
    var b, rest := bindings[0], ChordsStartedBy(bindings[1..], first);
    if b.enabled && |b.parts| == 2 && b.parts[0] == Some(first) {
      assert ChordsStartedBy(bindings, first) == [Completion(b.id, b.parts[1])] + rest;
      assert ChordsStartedBy(bindings, first)[1..] == rest;
      if b.parts[1] == Some(second) {
        assert b.parts == [Some(first), Some(second)];
        return 0;
      }
    } else {
      assert ChordsStartedBy(bindings, first) == rest;
    }
    k := FoundCompletion(bindings[1..], first, second);
    FirstMatchInTail(bindings, [Some(first), Some(second)], k);
    k := k + 1;
  }

  lemma {:induction false} FoundSingle(bindings: seq<Binding>, key: Key) returns (k: nat)
    requires FindSingle(bindings, key).Some?
    ensures FirstMatch(bindings, [Some(key)], k) && FindSingle(bindings, key) == Some(bindings[k].id)
  {
    if Matches(bindings[0], [Some(key)]) {
      return 0;
    }
    k := FoundSingle(bindings[1..], key);
    FirstMatchInTail(bindings, [Some(key)], k);
    k := k + 1;
  }

  lemma {:induction false} NoSingleFound(bindings: seq<Binding>, key: Key)
    ensures FindSingle(bindings, key).None? <==> forall b :: b in bindings ==> !Matches(b, [Some(key)])
  {
    if bindings != [] {
      NoSingleFound(bindings[1..], key);
      assert bindings == [bindings[0]] + bindings[1..];
      assert FindSingle(bindings, key).None? <==> !Matches(bindings[0], [Some(key)]) && FindSingle(bindings[1..], key).None?;
    }
  }

  lemma {:induction false} StartsSomething(bindings: seq<Binding>, key: Key)
    ensures ChordsStartedBy(bindings, key) != [] <==> exists b :: b in bindings && StartsWith(b, key)
  {
    if bindings != [] {
      StartsSomething(bindings[1..], key);
      assert bindings == [bindings[0]] + bindings[1..];
      assert ChordsStartedBy(bindings, key) != [] <==> StartsWith(bindings[0], key) || ChordsStartedBy(bindings[1..], key) != [];
    }
  }

  predicate StartsWith(b: Binding, key: Key) {
    b.enabled && |b.parts| == 2 && b.parts[0] == Some(key)
  }

  lemma {:induction false} FindsWhatIsThere(completions: seq<Completion>, key: Key)
    ensures FindCompletion(completions, key).Some? <==> exists c :: c in completions && c.second == Some(key)
  {
    if completions != [] {
      FindsWhatIsThere(completions[1..], key);
      assert forall c :: c in completions <==> c == completions[0] || c in completions[1..];
    }
  }

  /** A chord is pending, its time is not up, and the key is one of its second parts. */
  ghost predicate Completing(m: Machine, key: Key, at: int) {
    m.pending.Some? && at < m.pending.value.deadline && exists c :: c in m.pending.value.completions && c.second == Some(key)
  }

  /**
   What a press does, told from the configuration: a chord is completed before anything
   else; then a key that begins a two-part binding arms it; then the first binding that
   is just this key fires; and a key with none of these is unbound.
   */
  lemma PressEffects(m: Machine, key: Key, at: int)
    requires Enabled(m, Press(key, at))
    ensures var effect := Next(m, Press(key, at)).1;
            var starting := exists b :: b in m.config && StartsWith(b, key);
            var plain := !Completing(m, key, at) && !starting;
            && (effect.ChordFired? <==> Completing(m, key, at))
            && (effect == ChordArmed <==> !Completing(m, key, at) && starting)
            && (effect.SingleFired? ==> exists k: nat :: FirstMatch(m.config, [Some(key)], k) && effect == SingleFired(m.config[k].id))
            && (effect.SingleFired? <==> plain && exists b :: b in m.config && Matches(b, [Some(key)]))
            && (effect == Unbound <==> plain && forall b :: b in m.config ==> !Matches(b, [Some(key)]))
  {
    if m.pending.Some? {
      FindsWhatIsThere(m.pending.value.completions, key);
    }
    StartsSomething(m.config, key);
    NoSingleFound(m.config, key);
    if FindSingle(m.config, key).Some? {
      var k := FoundSingle(m.config, key);
    }
  }

  /** A timer that wakes reports a timeout exactly if it takes a chord, and is gone itself. */
  lemma TimerEffects(m: Machine, index: nat, at: int)
    requires Enabled(m, Timer(index, at))
    ensures var (after, effect) := Next(m, Timer(index, at));
            && (effect == TimedOut <==> m.pending.Some?) && (effect == Nothing <==> m.pending.None?)
            && after.pending.None? && after.timers == m.timers[..index] + m.timers[index + 1..]
            && after.config == m.config && after.permanent == m.permanent
  {
  }

  /**
   The steps that fire nothing: an edit changes the cached configuration only; a reload
   and a pause forget the chord and leave exactly the loaded keys, or none, registered;
   a resume leaves exactly its keys registered and the chord pending.
   */
  lemma QuietSteps(m: Machine, a: Action)
    requires Enabled(m, a) && !a.Press? && !a.Timer?
    ensures var (after, effect) := Next(m, a);
            && effect == Nothing && after.timers == m.timers
            && after.config == (if a.Edit? then a.bindings else m.config)
            && after.pending == (if a.Edit? || a.Resume? then m.pending else None)
            && (a.Edit? ==> after.registered == m.registered && after.permanent == m.permanent)
            && (!a.Edit? ==> after.registered == after.permanent)
            && (a.Reload? ==> after.permanent == if a.loaded.Some? then Permanent(a.loaded.value) else {})
            && (a.Pause? ==> after.permanent == {})
            && (a.Resume? ==> after.permanent == Permanent(a.bindings))
  {
  }

  /** What registering a configuration registers: what its enabled bindings begin with. */
  lemma {:induction false} PermanentMeans(bindings: seq<Binding>, key: Key)
    ensures key in Permanent(bindings) <==>
              exists b :: b in bindings && b.enabled && b.parts != [] && b.parts[0] == Some(key)
  {
    if bindings != [] {
      PermanentMeans(bindings[1..], key);
      assert forall b :: b in bindings <==> b == bindings[0] || b in bindings[1..];
    }
  }

  /** What arming a chord registers: the second parts of the two-part bindings that begin with the key. */
  lemma {:induction false} SecondsMean(bindings: seq<Binding>, first: Key, key: Key)
    ensures key in Seconds(ChordsStartedBy(bindings, first)) <==>
              exists b :: b in bindings && Matches(b, [Some(first), Some(key)])
  {
    if bindings != [] {
      var b, rest := bindings[0], ChordsStartedBy(bindings[1..], first);
      SecondsMean(bindings[1..], first, key);
      assert forall c :: c in bindings <==> c == b || c in bindings[1..];
      if StartsWith(b, first) {
        assert ChordsStartedBy(bindings, first) == [Completion(b.id, b.parts[1])] + rest;
        assert ChordsStartedBy(bindings, first)[1..] == rest;
        assert Matches(b, [Some(first), Some(key)]) <==> b.parts[1] == Some(key);
      } else {
        assert ChordsStartedBy(bindings, first) == rest;
      }
    }
  }

  /**
   Whenever a chord action fires, the previous delivered press was the first part
   of a binding with that action, the first one configured with these parts, the
   present press is its second part, and less than 1500 ms lie between them.
   */
  lemma ChordsFireInSequence(bindings: seq<Binding>, run: seq<Action>, press: Action)
    requires Possible(Start(bindings), run) && press.Press? && Enabled(After(Start(bindings), run), press)
    requires Next(After(Start(bindings), run), press).1.ChordFired?
    ensures var last := LastPress(Start(bindings), run, None);
            && last.Some?
            && press.at - last.value.1 < 1500
            && exists k: nat :: FirstMatch(last.value.2, [Some(last.value.0), Some(press.key)], k)
                                && Next(After(Start(bindings), run), press).1 == ChordFired(last.value.2[k].id)
  {
    PendingIsTheLastPress(Start(bindings), run, None);
    var last := LastPress(Start(bindings), run, None);
    var k := FoundCompletion(last.value.2, last.value.0, press.key);
  }

  // ------------------------------------------------- how long a chord lives

  /** Anything may happen but a press. */
  predicate Interlude(run: seq<Action>) {
    forall k :: 0 <= k < |run| ==> !run[k].Press?
  }

  /** The actions that take the pending chord, whatever it is. */
  predicate TakesChord(a: Action) {
    a.Timer? || a.Reload? || a.Pause?
  }

  predicate ChordTaken(run: seq<Action>) {
    exists k :: 0 <= k < |run| && TakesChord(run[k])
  }

  /** The configuration most recently registered anew by `Resume`. */
  function LastResumed(run: seq<Action>): Option<seq<Binding>> {
    if run == [] then None
    else
      var last := run[|run| - 1];
      if last.Resume? then Some(last.bindings) else LastResumed(run[..|run| - 1])
  }

  /** The press is delivered and completes a chord. */
  predicate Completes(m: Machine, press: Action)
    requires press.Press?
  {
    Enabled(m, press) && Next(m, press).1.ChordFired?
  }

  lemma {:induction false} RunsSplit(m: Machine, run: seq<Action>, k: nat)
    requires Possible(m, run) && k <= |run|
    ensures Possible(m, run[..k]) && Possible(After(m, run[..k]), run[k..])
    ensures After(m, run) == After(After(m, run[..k]), run[k..])
    decreases k
  {
    if k == 0 {
      assert run[..k] == [] && run[k..] == run;
    } else {
      RunsSplit(Next(m, run[0]).0, run[1..], k - 1);
      assert run[..k][1..] == run[1..][..k - 1] && run[k..] == run[1..][k - 1..];
    }
  }

  lemma LastStep(m: Machine, run: seq<Action>)
    requires Possible(m, run) && run != []
    ensures var init, last := run[..|run| - 1], run[|run| - 1];
            Possible(m, init) && Enabled(After(m, init), last) && After(m, run) == Next(After(m, init), last).0
  {
    var n := |run| - 1;
    RunsSplit(m, run, n);
    assert run[n..] == [run[n]] && [run[n]][1..] == [];
  }

  /** What an interlude leaves of the pending chord and, while it is there, of the registered keys. */
  lemma {:induction false} InterludeDecides(m: Machine, run: seq<Action>)
    requires Possible(m, run) && Interlude(run)
    ensures After(m, run).pending == if ChordTaken(run) then None else m.pending
    ensures !ChordTaken(run) ==>
              After(m, run).registered == if LastResumed(run).Some? then Permanent(LastResumed(run).value) else m.registered
    decreases |run|
  {
    if run != [] {
      var init, last := run[..|run| - 1], run[|run| - 1];
      LastStep(m, run);
      InterludeDecides(m, init);
      assert ChordTaken(run) <==> ChordTaken(init) || TakesChord(last) by {
        if k :| 0 <= k < |run| && TakesChord(run[k]) && k < |init| { assert TakesChord(init[k]); }
        if k :| 0 <= k < |init| && TakesChord(init[k]) { assert TakesChord(run[k]); }
      }
    }
  }

  /** The press of `first` arms a chord that `b` belongs to. */
  ghost predicate Arms(m: Machine, b: Binding, first: Key, second: Key, at: int) {
    && b in m.config && b.enabled && b.parts == [Some(first), Some(second)]
    && Enabled(m, Press(first, at)) && Next(m, Press(first, at)).1 == ChordArmed
  }

  /**
   What lies between the two parts of a chord: over any timers, edits, reloads, pauses
   and resumes, the second part pressed before the deadline fires exactly when no
   timer, reload or pause has taken the chord, and the last resume, if there was one,
   registered the second part as a key of its own.
   */
  lemma ChordFiresExactlyWhen(m: Machine, b: Binding, first: Key, second: Key, at: int, run: seq<Action>, later: int)
    requires Arms(m, b, first, second, at) && later < at + 1500
    requires Possible(Next(m, Press(first, at)).0, run) && Interlude(run)
    ensures Completes(After(Next(m, Press(first, at)).0, run), Press(second, later)) <==>
              !ChordTaken(run) && (LastResumed(run).Some? ==> second in Permanent(LastResumed(run).value))
  {
    CompletionIsFound(m.config, b, first, second);
    InterludeDecides(Next(m, Press(first, at)).0, run);
  }

  /** Nobody reloads or pauses, resumes keep the second part registered, and timers wake by `later`. */
  predicate Calm(run: seq<Action>, second: Key, later: int) {
    forall k :: 0 <= k < |run| ==>
                  match run[k]
                  case Edit(_) => true
                  case Resume(bindings) => second in Permanent(bindings)
                  case Timer(_, at) => at <= later
                  case _ => false
  }

  lemma {:induction false} CalmResumes(run: seq<Action>, second: Key, later: int)
    requires Calm(run, second, later)
    ensures LastResumed(run).Some? ==> second in Permanent(LastResumed(run).value)
  {
    if run != [] {
      var init, last := run[..|run| - 1], run[|run| - 1];
      assert forall k :: 0 <= k < |init| ==> init[k] == run[k];
      CalmResumes(init, second, later);
      assert last == run[|run| - 1];
    }
  }

  lemma {:induction false} SleepersStayAsleep(m: Machine, run: seq<Action>, second: Key, later: int)
    requires Possible(m, run) && Calm(run, second, later)
    requires forall i :: 0 <= i < |m.timers| ==> later < m.timers[i]
    ensures !ChordTaken(run)
    decreases |run|
  {
    if run != [] {
      var rest := run[1..];
      assert !TakesChord(run[0]);
      assert forall k :: 0 <= k < |rest| ==> rest[k] == run[k + 1];
      SleepersStayAsleep(Next(m, run[0]).0, rest, second, later);
      forall k | 0 <= k < |run|
        ensures !TakesChord(run[k])
      {
        if k > 0 {
          assert run[k] == rest[k - 1];
        }
      }
    }
  }

  /**
   The same for the one who presses: as long as nobody reloads, pauses or resumes
   without the second part, pressing it at `later` is certain to fire the chord
   exactly when every thread already asleep at the first press wakes after `later`.
   The chord's own timer never matters before its deadline.
   */
  lemma ChordIsSafeFromOlderTimers(m: Machine, b: Binding, first: Key, second: Key, at: int, later: int)
    requires Arms(m, b, first, second, at) && later < at + 1500
    ensures var armed := Next(m, Press(first, at)).0;
            (forall run :: Possible(armed, run) && Calm(run, second, later) ==> Completes(After(armed, run), Press(second, later)))
            <==> forall i :: 0 <= i < |m.timers| ==> later < m.timers[i]
  {
    var armed := Next(m, Press(first, at)).0;
    assert armed.timers == m.timers + [at + CHORD_TIMEOUT_MS + 50];
    forall run | Possible(armed, run) && Calm(run, second, later)
      ensures Completes(After(armed, run), Press(second, later)) <==> !ChordTaken(run)
    {
      CalmResumes(run, second, later);
      ChordFiresExactlyWhen(m, b, first, second, at, run, later);
    }
    if forall i :: 0 <= i < |m.timers| ==> later < m.timers[i] {
      forall run | Possible(armed, run) && Calm(run, second, later)
        ensures !ChordTaken(run)
      {
        SleepersStayAsleep(armed, run, second, later);
      }
    } else {
      var i: nat :| i < |m.timers| && m.timers[i] <= later;
      var run := [Timer(i, later)];
      assert run[1..] == [] && TakesChord(run[0]) && Enabled(armed, run[0]);
      assert Possible(armed, run) && Calm(run, second, later) && ChordTaken(run);
    }
  }

  // -------------------------------------------------- what is registered

  lemma {:induction false} EditsKeepPending(m: Machine, run: seq<Action>)
    requires forall k :: 0 <= k < |run| ==> run[k].Edit?
    ensures Possible(m, run)
    ensures After(m, run).pending == m.pending && After(m, run).registered == m.registered
    decreases |run|
  {
    if run != [] {
      assert run[0].Edit?;
      EditsKeepPending(Next(m, run[0]).0, run[1..]);
    }
  }

  lemma {:induction false} CompletionIsFound(bindings: seq<Binding>, b: Binding, first: Key, second: Key)
    requires b in bindings && b.enabled && b.parts == [Some(first), Some(second)]
    ensures FindCompletion(ChordsStartedBy(bindings, first), second).Some?
    ensures second in Seconds(ChordsStartedBy(bindings, first))
  {
    var rest := ChordsStartedBy(bindings[1..], first);
    var head := bindings[0];
    if b != head {
      CompletionIsFound(bindings[1..], b, first, second);
    }
    if head.enabled && |head.parts| == 2 && head.parts[0] == Some(first) {
      assert ChordsStartedBy(bindings, first) == [Completion(head.id, head.parts[1])] + rest;
      assert ChordsStartedBy(bindings, first)[1..] == rest;
    } else {
      assert ChordsStartedBy(bindings, first) == rest;
    }
  }

  /**
   The converse: pressing the first part of a binding with no chord pending, and
   then its second part less than 1500 ms later, fires the action of a binding
   with these two parts, whatever edits of the configuration come in between.
   */
  lemma ChordsComplete(m: Machine, b: Binding, first: Key, second: Key, at: int, edits: seq<Action>, later: int)
    requires m.pending.None? && Enabled(m, Press(first, at))
    requires b in m.config && b.enabled && b.parts == [Some(first), Some(second)]
    requires (forall k :: 0 <= k < |edits| ==> edits[k].Edit?) && later < at + 1500
    ensures var armed := Next(m, Press(first, at));
            && armed.1 == ChordArmed && Possible(armed.0, edits)
            && Enabled(After(armed.0, edits), Press(second, later))
            && var effect := Next(After(armed.0, edits), Press(second, later)).1;
               exists k: nat :: FirstMatch(m.config, b.parts, k) && effect == ChordFired(m.config[k].id)
  {
    CompletionIsFound(m.config, b, first, second);
    var k := FoundCompletion(m.config, first, second);
    EditsKeepPending(Next(m, Press(first, at)).0, edits);
  }

  /** A configuration in which no second part is also a single key or a first part. */
  ghost predicate Separated(bindings: seq<Binding>, seconds: set<Key>) {
    && Permanent(bindings) !! seconds
    && forall key :: Seconds(ChordsStartedBy(bindings, key)) <= seconds
  }

  ghost predicate SeparatedAction(a: Action, seconds: set<Key>) {
    match a
    case Edit(bindings) => Separated(bindings, seconds)
    case Reload(loaded) => loaded.Some? ==> Separated(loaded.value, seconds)
    case Resume(bindings) => Separated(bindings, seconds)
    case _ => true
  }

  /** Exactly the permanent keys and the pending second parts are registered. */
  predicate RightKeys(m: Machine) {
    m.registered == m.permanent + PendingSeconds(m)
  }

  ghost predicate Inv(m: Machine, seconds: set<Key>) {
    && Separated(m.config, seconds)
    && m.permanent !! seconds && PendingSeconds(m) <= seconds
    && RightKeys(m)
    && (m.pending.Some? ==> m.pending.value.deadline + 50 in m.timers)
  }

  /** Resuming is harmless exactly when no pending chord has a second part to lose. */
  lemma ResumeKeepsRightKeys(m: Machine, bindings: seq<Binding>, seconds: set<Key>)
    requires Inv(m, seconds) && Separated(bindings, seconds)
    ensures RightKeys(Next(m, Resume(bindings)).0) <==> PendingSeconds(m) == {}
  {
    var after := Next(m, Resume(bindings)).0;
    if PendingSeconds(m) != {} {
      var k :| k in PendingSeconds(m);
      assert k !in after.registered;
    }
  }

  lemma NextKeepsInv(m: Machine, a: Action, seconds: set<Key>)
    requires Enabled(m, a) && Inv(m, seconds) && SeparatedAction(a, seconds)
    requires a.Resume? ==> m.pending.None?
    ensures Inv(Next(m, a).0, seconds)
  {
    assert Cancelled(m).registered == m.permanent;
    if a.Press? {
      var started := ChordsStartedBy(m.config, a.key);
      assert Seconds(started) <= seconds;
    }
  }

  /** No registration of the configuration by `Resume` meets a pending chord. */
  predicate ResumesIdle(m: Machine, run: seq<Action>)
    requires Possible(m, run)
    decreases |run|
  {
    run == [] || ((run[0].Resume? ==> m.pending.None?) && ResumesIdle(Next(m, run[0]).0, run[1..]))
  }

  lemma {:induction false} RunKeepsInv(m: Machine, run: seq<Action>, seconds: set<Key>)
    requires Possible(m, run) && ResumesIdle(m, run) && Inv(m, seconds)
    requires forall k :: 0 <= k < |run| ==> SeparatedAction(run[k], seconds)
    ensures Inv(After(m, run), seconds)
    decreases |run|
  {
    if run != [] {
      assert SeparatedAction(run[0], seconds);
      NextKeepsInv(m, run[0], seconds);
      RunKeepsInv(Next(m, run[0]).0, run[1..], seconds);
    }
  }

  /**
   Through completion, mismatch, expiry, stale timers, edits and reloads, the
   registered keys are the permanent ones plus the pending second parts, and a
   pending chord always has its own timer still to come; when all timers have
   fired nothing temporary is left.
   */
  lemma RegisteredKeysAreRight(bindings: seq<Binding>, run: seq<Action>, seconds: set<Key>)
    requires Separated(bindings, seconds) && Possible(Start(bindings), run) && ResumesIdle(Start(bindings), run)
    requires forall k :: 0 <= k < |run| ==> SeparatedAction(run[k], seconds)
    ensures var m := After(Start(bindings), run);
            && RightKeys(m)
            && (m.pending.Some? ==> m.pending.value.deadline + 50 in m.timers)
            && (m.timers == [] ==> m.pending.None? && m.registered == m.permanent)
  {
    StartsRight(bindings, seconds);
    RunKeepsInv(Start(bindings), run, seconds);
    InvMeans(After(Start(bindings), run), seconds);
  }

  lemma StartsRight(bindings: seq<Binding>, seconds: set<Key>)
    requires Separated(bindings, seconds)
    ensures Inv(Start(bindings), seconds)
  {
  }

  lemma InvMeans(m: Machine, seconds: set<Key>)
    requires Inv(m, seconds)
    ensures RightKeys(m)
    ensures m.pending.Some? ==> m.pending.value.deadline + 50 in m.timers
    ensures m.timers == [] ==> m.pending.None? && m.registered == m.permanent
  {
  }

  // ------------------------------------------------------------- in all runs

  /** The step registers the key: as a second part, or as a permanent key. */
  predicate Registers(m: Machine, a: Action, key: Key)
    requires Enabled(m, a)
  {
    match a
    case Press(_, _) => Next(m, a).1 == ChordArmed && key in PendingSeconds(Next(m, a).0)
    case Reload(loaded) => loaded.Some? && key in Permanent(loaded.value)
    case Resume(bindings) => key in Permanent(bindings)
    case _ => false
  }

  /** The step unregisters the key: with the chord it ends, or with all others. */
  predicate Unregisters(m: Machine, a: Action, key: Key) {
    match a
    case Press(_, _) => key in PendingSeconds(m)
    case Timer(_, _) => key in PendingSeconds(m)
    case Edit(_) => false
    case _ => true
  }

  /** The last step that touched the key unregistered it. */
  predicate Dead(m: Machine, run: seq<Action>, key: Key, dead: bool)
    requires Possible(m, run)
    decreases |run|
  {
    if run == [] then dead
    else Dead(Next(m, run[0]).0, run[1..], key,
              if Registers(m, run[0], key) then false else if Unregisters(m, run[0], key) then true else dead)
  }

  predicate Wanted(m: Machine, key: Key) {
    key in m.permanent || key in PendingSeconds(m)
  }

  /** A wanted key is registered unless it is dead; no other key is registered. */
  predicate Tracks(m: Machine, key: Key, dead: bool) {
    key in m.registered <==> Wanted(m, key) && !dead
  }

  lemma StepTracks(m: Machine, a: Action, key: Key, dead: bool)
    requires Enabled(m, a) && Tracks(m, key, dead)
    ensures Tracks(Next(m, a).0, key, if Registers(m, a, key) then false else if Unregisters(m, a, key) then true else dead)
  {
  }

  lemma {:induction false} RunTracks(m: Machine, run: seq<Action>, key: Key, dead: bool)
    requires Possible(m, run) && Tracks(m, key, dead)
    ensures Tracks(After(m, run), key, Dead(m, run, key, dead))
    decreases |run|
  {
    if run != [] {
      StepTracks(m, run[0], key, dead);
      RunTracks(Next(m, run[0]).0, run[1..], key,
                if Registers(m, run[0], key) then false else if Unregisters(m, run[0], key) then true else dead);
    }
  }

  /**
   In every run, whatever keys are shared and whenever shortcuts are resumed: no key is
   registered but permanent keys and pending second parts, and one of these is missing
   exactly when the last step that touched it unregistered it, be it the end of a
   chord it was a second part of, or an unregistering of all keys.
   */
  lemma KeysAreRightUnlessDead(bindings: seq<Binding>, run: seq<Action>)
    requires Possible(Start(bindings), run)
    ensures var m := After(Start(bindings), run);
            && m.registered <= m.permanent + PendingSeconds(m)
            && (forall key :: key in m.permanent + PendingSeconds(m) ==>
                  (key !in m.registered <==> Dead(Start(bindings), run, key, false)))
            && (RightKeys(m) <==>
                  forall key :: key in m.permanent + PendingSeconds(m) ==> !Dead(Start(bindings), run, key, false))
  {
    var m := After(Start(bindings), run);
    forall key
      ensures key in m.registered <==> Wanted(m, key) && !Dead(Start(bindings), run, key, false)
    {
      RunTracks(Start(bindings), run, key, false);
    }
    RightMeansNoneMissing(m);
  }

  lemma RightMeansNoneMissing(m: Machine)
    requires m.registered <= m.permanent + PendingSeconds(m)
    ensures RightKeys(m) <==> forall key :: key in m.permanent + PendingSeconds(m) ==> key in m.registered
  {
  }

  lemma RunOfOne(m: Machine, a: Action, rest: seq<Action>)
    requires Enabled(m, a) && Possible(Next(m, a).0, rest)
    ensures Possible(m, [a] + rest) && After(m, [a] + rest) == After(Next(m, a).0, rest)
  {
    assert ([a] + rest)[1..] == rest;
  }

  /**
   The proviso on `Resume` is needed. A reload while shortcuts are paused makes
   them live again, so a chord can be pending when recording ends; resuming then
   drops its second part although the chord is still waiting for it.
   */
  lemma ResumeCanDropSecondParts()
    ensures var bindings := [Binding("chord", true, [Some(1), Some(2)])];
            exists run :: Possible(Start(bindings), run) && !RightKeys(After(Start(bindings), run))
  {
    var bindings := [Binding("chord", true, [Some(1), Some(2)])];
    assert bindings[1..] == [] && Permanent(bindings) == {1};
    assert ChordsStartedBy(bindings, 1) == [Completion("chord", Some(2))];
    assert Seconds([Completion("chord", Some(2))]) == {2};
    var m0 := Start(bindings);
    var m1 := Next(m0, Pause).0;
    var m2 := Next(m1, Reload(Some(bindings))).0;
    var m3 := Next(m2, Press(1, 0)).0;
    var m4 := Next(m3, Resume(bindings)).0;
    assert 2 in PendingSeconds(m4) && 2 !in m4.registered;
    RunOfOne(m3, Resume(bindings), []);
    RunOfOne(m2, Press(1, 0), [Resume(bindings)] + []);
    RunOfOne(m1, Reload(Some(bindings)), [Press(1, 0)] + ([Resume(bindings)] + []));
    RunOfOne(m0, Pause, [Reload(Some(bindings))] + ([Press(1, 0)] + ([Resume(bindings)] + [])));
  }

  /** Ending a chord keeps the right keys registered exactly when no pending second part is a permanent key as well. */
  lemma CancelKeepsRightKeys(m: Machine)
    requires RightKeys(m)
    ensures RightKeys(Cancelled(m)) <==> m.permanent !! PendingSeconds(m)
  {
    assert Cancelled(m).registered == m.permanent - PendingSeconds(m);
    if m.permanent !! PendingSeconds(m) {
      assert m.permanent - PendingSeconds(m) == m.permanent;
    } else {
      var key :| key in m.permanent && key in PendingSeconds(m);
      assert key !in Cancelled(m).registered;
    }
  }

  /** So the separation is needed: a key that is a binding of its own and also ends a chord goes dead after a timeout. */
  lemma SharedKeyGoesDead()
    ensures var bindings := [Binding("chord", true, [Some(1), Some(2)]), Binding("single", true, [Some(2)])];
            exists run :: Possible(Start(bindings), run)
                          && var m := After(Start(bindings), run);
                             m.timers == [] && m.permanent == {1, 2} && m.registered == {1}
  {
    var single := [Binding("single", true, [Some(2)])];
    var bindings := [Binding("chord", true, [Some(1), Some(2)]), Binding("single", true, [Some(2)])];
    assert bindings[1..] == single && single[1..] == [];
    assert Permanent(single) == {2} && Permanent(bindings) == {1, 2};
    assert ChordsStartedBy(single, 1) == [] && ChordsStartedBy(bindings, 1) == [Completion("chord", Some(2))];
    assert Seconds([Completion("chord", Some(2))]) == {2};
    var armed := Next(Start(bindings), Press(1, 0)).0;
    assert armed.registered == {1, 2} && armed.timers == [1550];
    var after := Next(armed, Timer(0, 1550)).0;
    assert after.registered == {1} && after.timers == [];
    RunOfOne(armed, Timer(0, 1550), []);
    RunOfOne(Start(bindings), Press(1, 0), [Timer(0, 1550)] + []);
    var run := [Press(1, 0)] + ([Timer(0, 1550)] + []);
    assert After(Start(bindings), run) == After(after, []);
    assert After(after, []) == after;
    assert after.permanent == {1, 2};
  }

  /** A pending chord need not live out its deadline: an older timer takes whatever is pending. */
  lemma OlderTimerCutsChordShort()
    ensures var bindings := [Binding("chord", true, [Some(1), Some(2)])];
            exists run :: Possible(Start(bindings), run + [Timer(0, 1550)])
                          && Possible(Start(bindings), run)
                          && After(Start(bindings), run).pending == Some(Pending([Completion("chord", Some(2))], 3000))
                          && After(Start(bindings), run + [Timer(0, 1550)]).pending.None?
  {
    var bindings := [Binding("chord", true, [Some(1), Some(2)])];
    assert bindings[1..] == [] && Permanent(bindings) == {1};
    assert ChordsStartedBy(bindings, 1) == [Completion("chord", Some(2))];
    assert Seconds([Completion("chord", Some(2))]) == {2};
    var m0 := Start(bindings);
    var m1 := Next(m0, Press(1, 0)).0;
    var m2 := Next(m1, Press(1, 1500)).0;
    var timer := Timer(0, 1550);
    var run := [Press(1, 0)] + ([Press(1, 1500)] + []);
    RunOfOne(m1, Press(1, 1500), []);
    RunOfOne(m0, Press(1, 0), [Press(1, 1500)] + []);
    RunOfOne(m2, timer, []);
    RunOfOne(m1, Press(1, 1500), [timer] + []);
    RunOfOne(m0, Press(1, 0), [Press(1, 1500)] + ([timer] + []));
    assert run + [timer] == [Press(1, 0)] + ([Press(1, 1500)] + ([timer] + []));
  }

  // ------------------------------------------------------------ the program

  class Shortcuts {
    var config: seq<Binding>
    var pending: Option<Pending>   // CHORD_STATE
    var registered: set<Key>       // the operating system's side
    var timers: seq<int>           // sleeping timeout threads
    ghost var permanent: set<Key>

    constructor (bindings: seq<Binding>)
      ensures View() == Start(bindings)
    {
      config, pending, registered, timers := bindings, None, Permanent(bindings), [];
      permanent := Permanent(bindings);
    }

    ghost function View(): Machine
      reads this
    {
      Machine(config, pending, registered, permanent, timers)
    }

    method Unregister(completions: seq<Completion>)
      modifies this`registered
      ensures registered == old(registered) - Seconds(completions)
    {
      for k := 0 to |completions|
        invariant registered == old(registered) - Seconds(completions[..k])
      {
        SecondsAppend(completions[..k], completions[k]);
        assert completions[..k + 1] == completions[..k] + [completions[k]];
        if completions[k].second.Some? {
          registered := registered - {completions[k].second.value};
        }
      }
      assert completions[..|completions|] == completions;
    }

    method Register(completions: seq<Completion>)
      modifies this`registered
      ensures registered == old(registered) + Seconds(completions)
    {
      for k := 0 to |completions|
        invariant registered == old(registered) + Seconds(completions[..k])
      {
        SecondsAppend(completions[..k], completions[k]);
        assert completions[..k + 1] == completions[..k] + [completions[k]];
        if completions[k].second.Some? {
          registered := registered + {completions[k].second.value};
        }
      }
      assert completions[..|completions|] == completions;
    }

    /** `handle_shortcut`; releases are ignored. */
    method HandleShortcut(key: Key, pressed: bool, at: int) returns (effect: Effect)
      modifies this
      ensures !pressed ==> View() == old(View()) && effect == Nothing
      ensures pressed ==> (View(), effect) == Pressed(old(View()), key, at)
    {
      if !pressed {
        return Nothing;
      }
      if pending.Some? {
        var waiting := pending.value;
        if at < waiting.deadline {
          var done := FindCompletion(waiting.completions, key);
          if done.Some? {
            Unregister(waiting.completions);
            pending := None;
            return ChordFired(done.value);
          }
        }
        Unregister(waiting.completions);
        pending := None;
      }
      assert registered == Cancelled(old(View())).registered;
      var started := ChordsStartedBy(config, key);
      if started != [] {
        Register(started);
        pending := Some(Pending(started, at + CHORD_TIMEOUT_MS));
        timers := timers + [at + CHORD_TIMEOUT_MS + 50];
        return ChordArmed;
      }
      var single := FindSingle(config, key);
      effect := if single.Some? then SingleFired(single.value) else Unbound;
    }

    /** A timeout thread wakes: it takes whatever is pending. */
    method TimeoutThread(index: nat, at: int) returns (effect: Effect)
      requires index < |timers| && timers[index] <= at
      modifies this
      ensures (View(), effect) == Next(old(View()), Timer(index, at))
    {
      timers := timers[..index] + timers[index + 1..];
      if pending.Some? {
        var taken := pending.value;
        pending := None;
        Unregister(taken.completions);
        return TimedOut;
      }
      assert registered == registered - {};
      effect := Nothing;
    }

    method RegisterBindings(bindings: seq<Binding>)
      modifies this`registered
      ensures registered == old(registered) + Permanent(bindings)
    {
      for k := 0 to |bindings|
        invariant registered == old(registered) + Permanent(bindings[..k])
      {
        var b := bindings[k];
        PermanentAppend(bindings[..k], b);
        assert bindings[..k + 1] == bindings[..k] + [b];
        if b.enabled && b.parts != [] && b.parts[0].Some? {
          registered := registered + {b.parts[0].value};
        }
      }
      assert bindings[..|bindings|] == bindings;
    }

    /** The reload on `config:changed`: clear the chord, unregister everything, register anew. */
    method ReloadShortcuts(loaded: Option<seq<Binding>>)
      modifies this
      ensures View() == Next(old(View()), Reload(loaded)).0
    {
      pending := None;
      registered := {};
      permanent := if loaded.Some? then Permanent(loaded.value) else {};
      if loaded.Some? {
        RegisterBindings(loaded.value);
      }
    }
  }

  lemma {:induction false} SecondsAppend(completions: seq<Completion>, last: Completion)
    ensures Seconds(completions + [last]) == Seconds(completions) + Parsed(last.second)
  {
    if completions == [] {
      assert completions + [last] == [last] && Seconds([last][1..]) == {};
    } else {
      assert (completions + [last])[1..] == completions[1..] + [last];
      SecondsAppend(completions[1..], last);
    }
  }

  lemma {:induction false} PermanentAppend(bindings: seq<Binding>, last: Binding)
    ensures Permanent(bindings + [last])
         == Permanent(bindings) + if last.enabled && last.parts != [] then Parsed(last.parts[0]) else {}
  {
    if bindings == [] {
      assert bindings + [last] == [last] && Permanent([last][1..]) == {};
    } else {
      assert (bindings + [last])[1..] == bindings[1..] + [last];
      PermanentAppend(bindings[1..], last);
    }
  }
}
