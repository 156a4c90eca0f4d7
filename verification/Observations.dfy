/**
 Remote observations of the control plane: `preflight` probes and stores what it
 saw, `acknowledge` turns a stored observation into the record that later probes
 are compared with. Observation files are plain files that anybody could edit.
 */
module Observations {
  import opened Prelude

  datatype Observation = Observation(taskId: string, observedAt: int, fingerprint: string, data: string)

  datatype Verdict = NoChange | Waiting | Blocked | Handled | Unsupported

  datatype Record = Record(source: Observation, verdict: Verdict, acknowledgedAt: int, nextProbeAt: int)

  /** Where an observation file lies: the task directory it is in, and its own name. */
  datatype Location = Location(task: string, name: string)

  datatype Store = Store(records: map<string, Record>, files: map<Location, Observation>)

  const EMPTY := Store(map[], map[])

  const HOUR := 3600

  datatype Reply =
    | Raised
    | Backoff(nextProbeAt: int)
    | Probed(changed: bool, at: Location, fingerprint: string)
    | Acknowledged

  datatype Action =
    | Preflight(task: string, force: bool, now: int, remote: Option<string>, name: string)
    | Acknowledge(task: string, at: Location, verdict: Verdict, now: int)
    | Tamper(at: Location, content: Option<Observation>)  // somebody edits or deletes a file

  function HoursUntilNextProbe(v: Verdict): int {
    if v.Handled? then 2 else 6
  }

  function Next(digest: string -> string, tasks: set<string>, s: Store, a: Action): (Store, Reply) {
    match a
    case Preflight(task, force, now, remote, name) =>
      if task !in tasks then (s, Raised)
      else if !force && task in s.records && now < s.records[task].nextProbeAt then
        (s, Backoff(s.records[task].nextProbeAt))
      else if remote.None? then (s, Raised)
      else
        var at := Location(task, name);
        var fingerprint := digest(remote.value);
        (s.(files := s.files[at := Observation(task, now, fingerprint, remote.value)]),
         Probed(task !in s.records || fingerprint != s.records[task].source.fingerprint, at, fingerprint))
    case Acknowledge(task, at, verdict, now) =>
      if task !in tasks || at.task != task || at !in s.files then (s, Raised)
      else
        var source := s.files[at];
        if source.taskId != task || digest(source.data) != source.fingerprint then (s, Raised)
        else if verdict.Unsupported? then (s, Raised)
        else if task in s.records && s.records[task].source.observedAt > source.observedAt then (s, Raised)
        else
          (s.(records := s.records[task := Record(source, verdict, now, now + HoursUntilNextProbe(verdict) * HOUR)]),
           Acknowledged)
    case Tamper(at, content) =>
      (if content.Some? then s.(files := s.files[at := content.value]) else s.(files := s.files - {at}), Acknowledged)
  }

  /**
   What a probe answers, told from the store: it raises for an unknown task; it backs off
   until the recorded time unless forced; it raises when observing fails; else it stores
   one observation of that moment and says whether it differs from the record.
   */
  lemma PreflightTold(digest: string -> string, tasks: set<string>, s: Store, probe: Action)
    requires probe.Preflight?
    ensures var (after, reply) := Next(digest, tasks, s, probe);
            var early := !probe.force && probe.task in s.records && probe.now < s.records[probe.task].nextProbeAt;
            && (reply == Raised <==> probe.task !in tasks || (!early && probe.remote.None?))
            && (reply.Backoff? <==> probe.task in tasks && early)
            && (reply.Backoff? ==> reply.nextProbeAt == s.records[probe.task].nextProbeAt)
            && (reply.Probed? ==>
                  var stored := Observation(probe.task, probe.now, digest(probe.remote.value), probe.remote.value);
                  && after.files == s.files[reply.at := stored] && reply.at == Location(probe.task, probe.name)
                  && reply.fingerprint == stored.fingerprint)
            && (!reply.Probed? ==> after == s)
            && after.records == s.records && reply != Acknowledged
  {
  }

  /** What is stored under an acknowledgement, and what must hold for one. */
  lemma AcknowledgeTold(digest: string -> string, tasks: set<string>, s: Store, task: string, at: Location, verdict: Verdict, now: int)
    ensures var (after, reply) := Next(digest, tasks, s, Acknowledge(task, at, verdict, now));
            && (reply == Acknowledged <==>
                  && task in tasks && at.task == task && at in s.files && verdict != Unsupported
                  && s.files[at].taskId == task && s.files[at].fingerprint == digest(s.files[at].data)
                  && (task in s.records ==> s.records[task].source.observedAt <= s.files[at].observedAt))
            && (reply == Acknowledged ==>
                  && after.files == s.files && task in after.records
                  && after.records == s.records[task := after.records[task]]
                  && after.records[task] == Record(s.files[at], verdict, now, now + if verdict == Handled then 7200 else 21600))
            && (reply != Acknowledged ==> after == s && reply == Raised)
  {
  }

  function After(digest: string -> string, tasks: set<string>, s: Store, run: seq<Action>): Store
    decreases |run|
  {
    if run == [] then s else After(digest, tasks, Next(digest, tasks, s, run[0]).0, run[1..])
  }

  ghost predicate Injective(digest: string -> string) {
    forall x, y :: digest(x) == digest(y) ==> x == y
  }

  ghost predicate Genuine(digest: string -> string, tasks: set<string>, s: Store) {
    forall t :: t in s.records ==>
      && t in tasks && s.records[t].source.taskId == t
      && s.records[t].source.fingerprint == digest(s.records[t].source.data)
      && s.records[t].nextProbeAt == s.records[t].acknowledgedAt + HoursUntilNextProbe(s.records[t].verdict) * HOUR
      && !s.records[t].verdict.Unsupported?
  }

  /** Records only move forward in observation time, and never disappear. */
  ghost predicate Advances(before: Store, after: Store) {
    forall t :: t in before.records ==>
      t in after.records && before.records[t].source.observedAt <= after.records[t].source.observedAt
  }

  /** However files are edited in between, records stay genuine and never move back. */
  lemma {:induction false} RecordsStayGenuine(digest: string -> string, tasks: set<string>, s: Store, run: seq<Action>)
    requires Genuine(digest, tasks, s)
    ensures Genuine(digest, tasks, After(digest, tasks, s, run))
    ensures Advances(s, After(digest, tasks, s, run))
    decreases |run|
  {
    if run != [] {
      RecordsStayGenuine(digest, tasks, Next(digest, tasks, s, run[0]).0, run[1..]);
    }
  }

  /**
   The `changed` flag of a probe is exact: it is false precisely when the remote
   state equals the one most recently acknowledged for that task.
   */
  lemma ChangedIsExact(digest: string -> string, tasks: set<string>, run: seq<Action>, probe: Action)
    requires Injective(digest) && probe.Preflight?
    requires Next(digest, tasks, After(digest, tasks, EMPTY, run), probe).1.Probed?
    ensures var s := After(digest, tasks, EMPTY, run);
            probe.remote.Some? &&
            (Next(digest, tasks, s, probe).1.changed <==>
               probe.task !in s.records || s.records[probe.task].source.data != probe.remote.value)
  {
    RecordsStayGenuine(digest, tasks, EMPTY, run);
  }

  /**
   A fresh probe can be acknowledged, unless a record newer than it was taken
   first; an unforced probe then backs off until exactly the recorded time, and
   the next one that goes out reports no change if the remote state stayed put.
   */
  lemma ProbeAcknowledgeProbe(digest: string -> string, tasks: set<string>, s: Store, probe: Action,
                              verdict: Verdict, now: int, again: Action)
    requires probe.Preflight? && Next(digest, tasks, s, probe).1.Probed? && !verdict.Unsupported?
    requires again.Preflight? && again.task == probe.task
    ensures var (s1, reply) := Next(digest, tasks, s, probe);
            var (s2, answer) := Next(digest, tasks, s1, Acknowledge(probe.task, reply.at, verdict, now));
            && (answer == Raised <==>
                  probe.task in s.records && s.records[probe.task].source.observedAt > probe.now)
            && (answer == Acknowledged ==>
                  var (s3, second) := Next(digest, tasks, s2, again);
                  var due := now + if verdict == Handled then 2 * 3600 else 6 * 3600;
                  && (second == Backoff(due) <==> !again.force && again.now < due)
                  && (second.Probed? <==> (again.force || again.now >= due) && again.remote.Some?)
                  && (second.Probed? && again.remote == probe.remote ==> !second.changed)
                  && (!second.Probed? ==> s3 == s2))
  {
  }

  /** Editing only the data of a stored observation, or filing it under another task, makes it unusable. */
  lemma ForgeriesAreRefused(digest: string -> string, tasks: set<string>, s: Store, at: Location, task: string,
                            forged: string, verdict: Verdict, now: int)
    requires Injective(digest) && at in s.files && digest(s.files[at].data) == s.files[at].fingerprint
    requires forged != s.files[at].data || task != s.files[at].taskId || task != at.task
    ensures var edited := s.(files := s.files[at := s.files[at].(data := forged)]);
            Next(digest, tasks, edited, Acknowledge(task, at, verdict, now)) == (edited, Raised)
  {
  }

  /**
   The fingerprint is no signature, though: an edited observation is accepted exactly
   where the original would be and the editor has put the fingerprint of the new data
   beside it; the record then carries the edited data.
   */
  lemma EditsPassExactlyWithTheirFingerprint(digest: string -> string, tasks: set<string>, s: Store, at: Location, task: string,
                                             forged: string, fingerprint: string, verdict: Verdict, now: int)
    requires at in s.files && digest(s.files[at].data) == s.files[at].fingerprint
    ensures var edited := s.(files := s.files[at := s.files[at].(data := forged, fingerprint := fingerprint)]);
            var acknowledge := Acknowledge(task, at, verdict, now);
            var (after, answer) := Next(digest, tasks, edited, acknowledge);
            && (answer == Acknowledged <==>
                  Next(digest, tasks, s, acknowledge).1 == Acknowledged && fingerprint == digest(forged))
            && (answer == Acknowledged ==> task in after.records && after.records[task].source.data == forged)
  {
  }

  /**
   The fingerprint does not cover the date. An observation whose `observedAt` alone was
   edited is accepted exactly where the original is sound and the new date is not
   older than the record's; so a stale one can be made acceptable.
   */
  lemma EditedDatePasses(digest: string -> string, tasks: set<string>, s: Store, at: Location, task: string,
                         date: int, verdict: Verdict, now: int)
    requires task in tasks && at in s.files && at.task == task == s.files[at].taskId && !verdict.Unsupported?
    requires digest(s.files[at].data) == s.files[at].fingerprint
    ensures var edited := s.(files := s.files[at := s.files[at].(observedAt := date)]);
            var (after, answer) := Next(digest, tasks, edited, Acknowledge(task, at, verdict, now));
            && (answer == Acknowledged <==> (task in s.records ==> s.records[task].source.observedAt <= date))
            && (answer == Acknowledged ==> task in after.records && after.records[task].source.observedAt == date)
  {
  }

  /** And one with a date ahead of the clock, once acknowledged, locks out every earlier-dated one for ever after. */
  lemma FutureDateLocksOut(digest: string -> string, tasks: set<string>, s: Store, run: seq<Action>, at: Location, task: string,
                           verdict: Verdict, now: int)
    requires Genuine(digest, tasks, s) && task in s.records
    requires var later := After(digest, tasks, s, run);
             at in later.files && later.files[at].observedAt < s.records[task].source.observedAt
    ensures var later := After(digest, tasks, s, run);
            Next(digest, tasks, later, Acknowledge(task, at, verdict, now)) == (later, Raised)
  {
    RecordsStayGenuine(digest, tasks, s, run);
  }

  class ObservationControl {
    const tasks: set<string>
    const digest: string -> string
    var records: map<string, Record>
    var files: map<Location, Observation>

    constructor (tasks: set<string>, digest: string -> string)
      ensures this.tasks == tasks && this.digest == digest && View() == EMPTY
    {
      this.tasks := tasks;
      this.digest := digest;
      records := map[];
      files := map[];
    }

    function View(): Store
      reads this
    {
      Store(records, files)
    }

    /** `remote` is the observed state, absent when observing it raises; `name` is the unused file name drawn. */
    method RunPreflight(task: string, force: bool, now: int, remote: Option<string>, name: string) returns (reply: Reply)
      modifies this
      ensures (View(), reply) == Next(digest, tasks, old(View()), Preflight(task, force, now, remote, name))
    {
      if task !in tasks {
        return Raised;
      }
      var prior := if task in records then Some(records[task]) else None;
      if !force && prior.Some? && now < prior.value.nextProbeAt {
        return Backoff(prior.value.nextProbeAt);
      }
      if remote.None? {
        return Raised;
      }
      var fingerprint := digest(remote.value);
      var at := Location(task, name);
      files := files[at := Observation(task, now, fingerprint, remote.value)];
      return Probed(prior.None? || fingerprint != prior.value.source.fingerprint, at, fingerprint);
    }

    method RunAcknowledge(task: string, at: Location, verdict: Verdict, now: int) returns (reply: Reply)
      modifies this
      ensures (View(), reply) == Next(digest, tasks, old(View()), Acknowledge(task, at, verdict, now))
    {
      if task !in tasks || at.task != task || at !in files {
        return Raised;
      }
      var source := files[at];
      if source.taskId != task || digest(source.data) != source.fingerprint {
        return Raised;
      }
      if verdict.Unsupported? {
        return Raised;
      }
      if task in records && records[task].source.observedAt > source.observedAt {
        return Raised;
      }
      var hours := if verdict.NoChange? || verdict.Waiting? || verdict.Blocked? then 6 else 2;
      records := records[task := Record(source, verdict, now, now + hours * HOUR)];
      return Acknowledged;
    }
  }
}
