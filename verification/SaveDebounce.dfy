/**
 The main window's debounced save. Every resize or move takes a new generation
 from a shared token and starts a task that sleeps, compares its generation with
 the token and, if it is still the newest, saves its snapshot: it writes one
 temporary file, which all tasks share, and renames it over the state file. Closing
 takes a generation too and saves at once. Comparison, write and rename are separate
 steps, and tasks run on several threads.
 */
module SaveDebounce {
  import opened Prelude

  datatype Task =
    | Sleeping   // not compared yet
    | Cleared    // was the newest generation when it compared; the write is to come
    | Written    // wrote the temporary file; the rename is to come
    | Finished

  /**
   Task `i` carries generation `i + 1`. `temp` is the generation in the temporary file,
   while it exists; `file` is the generation in the state file.
   */
  datatype Saver = Saver(tasks: seq<Task>, temp: Option<nat>, file: nat)

  datatype Action = Schedule | Close | Wake(task: nat) | Write(task: nat) | Rename(task: nat)

  const INITIAL := Saver([], None, 0)

  function Token(s: Saver): nat {
    |s.tasks|
  }

  predicate Enabled(s: Saver, a: Action) {
    match a
    case Schedule => true
    case Close => true
    case Wake(i) => i < |s.tasks| && s.tasks[i].Sleeping?
    case Write(i) => i < |s.tasks| && s.tasks[i].Cleared?
    case Rename(i) => i < |s.tasks| && s.tasks[i].Written?
  }

  /** A rename installs whatever the temporary file holds, and fails if another task has renamed it away. */
  function Next(s: Saver, a: Action): Saver
    requires Enabled(s, a)
  {
    match a
    case Schedule => s.(tasks := s.tasks + [Sleeping])
    case Close => s.(tasks := s.tasks + [Cleared])
    case Wake(i) => s.(tasks := s.tasks[i := if Token(s) == i + 1 then Cleared else Finished])
    case Write(i) => s.(tasks := s.tasks[i := Written], temp := Some(i + 1))
    case Rename(i) => Saver(s.tasks[i := Finished], None, if s.temp.Some? then s.temp.value else s.file)
  }

  predicate Possible(s: Saver, run: seq<Action>)
    decreases |run|
  {
    run == [] || (Enabled(s, run[0]) && Possible(Next(s, run[0]), run[1..]))
  }

  function After(s: Saver, run: seq<Action>): Saver
    requires Possible(s, run)
    decreases |run|
  {
    if run == [] then s else After(Next(s, run[0]), run[1..])
  }

  predicate Quiescent(s: Saver) {
    forall i :: 0 <= i < |s.tasks| ==> s.tasks[i].Finished?
  }

  /** Some task has compared but not written. */
  predicate WritePending(s: Saver) {
    exists i :: 0 <= i < |s.tasks| && s.tasks[i].Cleared?
  }

  lemma {:induction false} TokenNeverFalls(s: Saver, run: seq<Action>)
    requires Possible(s, run)
    ensures Token(s) <= Token(After(s, run))
    decreases |run|
  {
    if run != [] {
      TokenNeverFalls(Next(s, run[0]), run[1..]);
    }
  }

  /** The newest generation is never skipped: while it is the newest, it is waiting, due or written. */
  lemma {:induction false} NewestIsNeverSkipped(run: seq<Action>)
    requires Possible(INITIAL, run)
    ensures var s := After(INITIAL, run);
            Token(s) > 0 && s.tasks[Token(s) - 1].Finished? ==>
              exists k | 0 <= k < |run| :: run[k] == Write(Token(s) - 1)
  {
    NewestWasWritten(INITIAL, run);
  }

  predicate PastWrite(s: Saver, i: int) {
    0 <= i < |s.tasks| && (s.tasks[i].Written? || s.tasks[i].Finished?)
  }

  lemma {:induction false} NewestWasWritten(s: Saver, run: seq<Action>)
    requires Possible(s, run)
    ensures var t := After(s, run);
            PastWrite(t, Token(t) - 1) ==>
              (Token(s) == Token(t) && PastWrite(s, Token(s) - 1))
              || exists k | 0 <= k < |run| :: run[k] == Write(Token(t) - 1)
    decreases |run|
  {
    if run != [] {
      var s' := Next(s, run[0]);
      var t := After(s, run);
      NewestWasWritten(s', run[1..]);
      TokenNeverFalls(s', run[1..]);
      if PastWrite(t, Token(t) - 1) {
        if exists k | 0 <= k < |run[1..]| :: run[1..][k] == Write(Token(t) - 1) {
          var k :| 0 <= k < |run[1..]| && run[1..][k] == Write(Token(t) - 1);
          assert run[k + 1] == Write(Token(t) - 1);
        } else if Token(s) == Token(t) && !PastWrite(s, Token(s) - 1) {
          assert run[0] == Write(Token(t) - 1);
        }
      }
    }
  }

  lemma LastStep(run: seq<Action>)
    requires Possible(INITIAL, run) && run != []
    ensures var init, last := run[..|run| - 1], run[|run| - 1];
            Possible(INITIAL, init) && Enabled(After(INITIAL, init), last) && After(INITIAL, run) == Next(After(INITIAL, init), last)
  {
    var init, last := run[..|run| - 1], [run[|run| - 1]];
    assert run == init + last && last[1..] == [];
    RunsCompose(INITIAL, init, last);
  }

  /** Step `m` let task `i` write: it woke as the newest one, or came from closing. */
  ghost predicate ClearedAt(run: seq<Action>, i: nat, m: nat) {
    && m < |run| && Possible(INITIAL, run[..m])
    && (run[m] == Wake(i) || run[m].Close?)
    && Token(After(INITIAL, run[..m])) == if run[m].Close? then i else i + 1
  }

  lemma {:induction false} WhoeverWritesWasNewest(run: seq<Action>, i: nat) returns (m: nat)
    requires Possible(INITIAL, run) && i < |After(INITIAL, run).tasks|
    requires After(INITIAL, run).tasks[i].Cleared? || After(INITIAL, run).tasks[i].Written?
    ensures ClearedAt(run, i, m)
    decreases |run|
  {
    var init, last := run[..|run| - 1], run[|run| - 1];
    LastStep(run);
    var s := After(INITIAL, init);
    if i < |s.tasks| && (s.tasks[i].Cleared? || s.tasks[i].Written?) {
      m := WhoeverWritesWasNewest(init, i);
      assert run[..m] == init[..m];
    } else {
      m := |run| - 1;
    }
  }

  /**
   The debounce, in every run: a task that wakes goes on to save exactly if no later
   generation has been taken, and is over otherwise, leaving both files as they are;
   and whoever writes either woke as the newest or is a closing save.
   */
  lemma OnlyTheNewestSaves(run: seq<Action>, i: nat)
    requires Possible(INITIAL, run) && i < |After(INITIAL, run).tasks|
    ensures var s := After(INITIAL, run);
            && (s.tasks[i].Sleeping? ==>
                  var t := Next(s, Wake(i));
                  && t.file == s.file && t.temp == s.temp && |t.tasks| == |s.tasks|
                  && (t.tasks[i] == Cleared <==> i == |s.tasks| - 1) && (t.tasks[i] == Finished <==> i < |s.tasks| - 1)
                  && forall j :: 0 <= j < |s.tasks| && j != i ==> t.tasks[j] == s.tasks[j])
            && (s.tasks[i].Cleared? || s.tasks[i].Written? ==> exists m: nat :: ClearedAt(run, i, m))
  {
    var s := After(INITIAL, run);
    if s.tasks[i].Cleared? || s.tasks[i].Written? {
      var m := WhoeverWritesWasNewest(run, i);
    }
  }

  /** The temporary file is there only while the one who wrote it last has its rename to come. */
  predicate TempIsOwned(s: Saver) {
    s.temp.Some? ==> 0 < s.temp.value <= |s.tasks| && s.tasks[s.temp.value - 1].Written?
  }

  /** What the next successful rename installs, or else what is installed. */
  function Latest(s: Saver): nat {
    if s.temp.Some? then s.temp.value else s.file
  }

  /** Renames never change what is saved in the end; only writes do. */
  lemma {:induction false} TailDecides(s: Saver, run: seq<Action>)
    requires Possible(s, run) && Quiescent(After(s, run)) && TempIsOwned(s)
    requires Token(After(s, run)) == Token(s) && PastWrite(s, Token(s) - 1)
    ensures After(s, run).file == Token(s) <==> Latest(s) == Token(s) && !WritePending(s)
    decreases |run|
  {
    if run != [] {
      var t := Next(s, run[0]);
      TokenNeverFalls(t, run[1..]);
      assert !run[0].Schedule? && !run[0].Close?;
      TailDecides(t, run[1..]);
      if run[0].Write? {
        assert s.tasks[run[0].task].Cleared?;
        assert Latest(t) == run[0].task + 1 < Token(s);
      } else {
        if WritePending(s) {
          var i :| 0 <= i < |s.tasks| && s.tasks[i].Cleared?;
          assert t.tasks[i].Cleared?;
        }
        if WritePending(t) {
          var i :| 0 <= i < |t.tasks| && t.tasks[i].Cleared?;
          assert s.tasks[i].Cleared?;
        }
      }
    }
  }

  lemma {:induction false} RunsCompose(s: Saver, first: seq<Action>, second: seq<Action>)
    requires Possible(s, first + second)
    ensures Possible(s, first) && Possible(After(s, first), second)
    ensures After(s, first + second) == After(After(s, first), second)
    decreases |first|
  {
    if first == [] {
      assert first + second == second;
    } else {
      assert (first + second)[1..] == first[1..] + second;
      RunsCompose(Next(s, first[0]), first[1..], second);
    }
  }

  /**
   When everything has come to rest, the file holds the newest snapshot exactly
   when no older task was between its comparison and its write at the moment
   the newest one wrote the temporary file. Whose rename installs it does not
   matter: an older task caught between its write and its rename does no harm, and
   the newest task's own rename may even fail.
   */
  lemma NewestSurvives(before: seq<Action>, newest: nat, rest: seq<Action>)
    requires Possible(INITIAL, before + ([Write(newest)] + rest))
    requires var end := After(INITIAL, before + ([Write(newest)] + rest));
             Quiescent(end) && Token(end) == newest + 1
    ensures Possible(INITIAL, before)
    ensures var s := After(INITIAL, before);
            var end := After(INITIAL, before + ([Write(newest)] + rest));
            end.file == Token(end) <==>
              forall i | 0 <= i < |s.tasks| && i != newest :: !s.tasks[i].Cleared?
  {
    RunsCompose(INITIAL, before, [Write(newest)] + rest);
    var s := After(INITIAL, before);
    var t := Next(s, Write(newest));
    assert ([Write(newest)] + rest)[1..] == rest;
    TokenNeverFalls(t, rest);
    TailDecides(t, rest);
    if i :| 0 <= i < |s.tasks| && i != newest && s.tasks[i].Cleared? {
      assert t.tasks[i].Cleared?;
    }
  }

  lemma RunOfOne(s: Saver, a: Action, rest: seq<Action>)
    requires Enabled(s, a) && Possible(Next(s, a), rest)
    ensures Possible(s, [a] + rest) && After(s, [a] + rest) == After(Next(s, a), rest)
  {
    assert ([a] + rest)[1..] == rest;
  }

  /** So the file can end up older than the newest snapshot, even older than the closing one. */
  lemma ClosingSnapshotCanBeOverwritten()
    ensures exists run :: Possible(INITIAL, run) && Quiescent(After(INITIAL, run))
                          && Token(After(INITIAL, run)) == 2 && After(INITIAL, run).file == 1
  {
    var s1 := Next(INITIAL, Schedule);
    var s2 := Next(s1, Wake(0));
    var s3 := Next(s2, Close);
    var s4 := Next(s3, Write(1));
    var s5 := Next(s4, Rename(1));
    var s6 := Next(s5, Write(0));
    RunOfOne(s6, Rename(0), []);
    RunOfOne(s5, Write(0), [Rename(0)] + []);
    RunOfOne(s4, Rename(1), [Write(0)] + ([Rename(0)] + []));
    RunOfOne(s3, Write(1), [Rename(1)] + ([Write(0)] + ([Rename(0)] + [])));
    var r3 := [Write(1)] + ([Rename(1)] + ([Write(0)] + ([Rename(0)] + [])));
    RunOfOne(s2, Close, r3);
    RunOfOne(s1, Wake(0), [Close] + r3);
    RunOfOne(INITIAL, Schedule, [Wake(0)] + ([Close] + r3));
  }
}
