/**
 `normalize_archives`: a legacy index is replaced by full copies of the immutable
 pair it names. Both copies are staged in scratch files first, then renamed over
 LATEST.md and LATEST.json in that order, and the result is read back; any
 exception restores both LATEST files from a backup. A crash can also stop the
 program between any two of these steps, with no rollback at all.
 */
module ArchivePromotion {
  import opened Prelude
  import opened Octets
  import opened ReportArchive

  /** Which operation first raises an I/O error; `FirstRead` and `ReadBack` are the two calls of `archive_state`. */
  datatype Fault = Nowhere | FirstRead | Backup | StageReport | StageData | ReplaceReport | ReplaceData | ReadBack

  /** `Raised` is an exception leaving the promotion of this archive. */
  datatype Outcome = Skipped | Raised | Promoted(entry: Entry)

  /** The scratch names one run draws; `mkstemp` never returns an existing name. */
  datatype Scratch = Scratch(report: Path, data: Path)

  predicate Fresh(files: Files, s: Scratch) {
    IsScratch(s.report) && IsScratch(s.data) && s.report != s.data && s.report !in files && s.data !in files
  }

  /** `os.replace(from, to)` */
  function Replace(files: Files, from: Path, to: Path): Files
    requires from in files
  {
    files[to := files[from]] - {from}
  }

  /** The disk after each step of a promotion that meets no fault, from before it to the last rename. */
  function Staged(files: Files, e: Entry, s: Scratch): Files {
    files[s.report := e.reportBytes][s.data := e.dataBytes]
  }

  function HalfPromoted(files: Files, e: Entry, s: Scratch): Files
    requires Fresh(files, s)
  {
    Replace(Staged(files, e, s), s.report, LATEST_MD)
  }

  function FullyPromoted(files: Files, e: Entry, s: Scratch): Files
    requires Fresh(files, s)
  {
    Replace(HalfPromoted(files, e, s), s.data, LATEST_JSON)
  }

  /** Staging failed half way: the scratch file being written, if there is one, is not unlinked and stays behind. */
  function Littered(files: Files, scratch: Path, partial: Option<Bytes>): Files {
    if partial.Some? then files[scratch := partial.value] else files
  }

  function Promote(env: Environment, files: Files, s: Scratch, fault: Fault, partial: Option<Bytes>): (Files, Outcome)
    requires Fresh(files, s)
  {
    if fault.FirstRead? then (files, Raised)
    else
      match ArchiveState(env, files)
      case Missing => (files, Skipped)
      case Rejected => (files, Raised)
      case Valid(_) => (files, Skipped)
      case LegacyIndex(e) =>
        match fault
        case Nowhere =>
          var promoted := FullyPromoted(files, e, s);
          var verified := ArchiveState(env, promoted);
          if verified.Valid? then (promoted, Promoted(verified.entry)) else (files, Raised)
        case StageReport => (Littered(files, s.report, partial), Raised)
        case StageData => (Littered(files, s.data, partial), Raised)
        case _ => (files, Raised)
  }

  /** The contents of the named pair occur nowhere else among the immutable files. */
  predicate UniqueContents(files: Files, e: Entry) {
    Copies(files, "data", ".json", e.dataBytes) == {e.data} && Copies(files, "reports", ".md", e.reportBytes) == {e.report}
  }

  /** Apart from LATEST.md, LATEST.json and scratch files nothing differs. */
  ghost predicate SameImmutable(f: Files, g: Files) {
    forall p :: p != LATEST_JSON && p != LATEST_MD && !IsScratch(p) ==> (p in f <==> p in g) && (p in f ==> f[p] == g[p])
  }

  // --------------------------------------------------------- reading midway

  lemma LegacyIndexFacts(env: Environment, files: Files, e: Entry)
    requires ArchiveState(env, files) == LegacyIndex(e)
    ensures LATEST_JSON in files && LATEST_MD in files
    ensures e.data in files && files[e.data] == e.dataBytes && InYearLayout(e.data, "data", ".json")
    ensures e.report in files && files[e.report] == e.reportBytes && InYearLayout(e.report, "reports", ".md")
    ensures env.safeJson(e.dataBytes) && env.safeReport(e.reportBytes)
    ensures CheckPair(env, files, e.data, e.report, Some(e.generatedAt)) == Some(e)
    ensures env.parse(e.dataBytes).Some? && env.parse(e.dataBytes).value.Complete?
    ensures env.parse(e.dataBytes).value.generatedAt == e.generatedAt
  {
  }

  lemma SamePairSameCheck(env: Environment, f: Files, g: Files, data: Path, report: Path, at: Option<Stamp>)
    requires SameImmutable(f, g)
    ensures CheckPair(env, f, data, report, at) == CheckPair(env, g, data, report, at)
  {
  }

  /** With only the new LATEST.md in place the archive still reads as the same legacy index. */
  lemma MixedPairStillReads(env: Environment, files: Files, e: Entry, g: Files)
    requires ArchiveState(env, files) == LegacyIndex(e)
    requires SameImmutable(files, g) && LATEST_JSON in g && g[LATEST_JSON] == files[LATEST_JSON]
    requires LATEST_MD in g && (g[LATEST_MD] == files[LATEST_MD] || g[LATEST_MD] == e.reportBytes)
    ensures ArchiveState(env, g) == LegacyIndex(e)
  {
    LegacyIndexFacts(env, files, e);
    var index := env.parse(files[LATEST_JSON]).value;
    SamePairSameCheck(env, files, g, index.data.value, index.report.value, index.indexedAt);
  }

  /** With both in place it reads as valid exactly when the contents are unique. */
  lemma FullPairReads(env: Environment, files: Files, e: Entry, g: Files)
    requires ArchiveState(env, files) == LegacyIndex(e)
    requires SameImmutable(files, g) && LATEST_JSON in g && LATEST_MD in g
    requires g[LATEST_JSON] == e.dataBytes && g[LATEST_MD] == e.reportBytes
    ensures ArchiveState(env, g) == if UniqueContents(files, e) then Valid(e) else Rejected
  {
    LegacyIndexFacts(env, files, e);
    var d := Copies(g, "data", ".json", e.dataBytes);
    var r := Copies(g, "reports", ".md", e.reportBytes);
    assert d == Copies(files, "data", ".json", e.dataBytes);
    assert r == Copies(files, "reports", ".md", e.reportBytes);
    assert e.data in d && e.report in r;
    if |d| == 1 && |r| == 1 {
      assert d == {e.data} by { assert e.data in {TheOne(d)}; }
      assert r == {e.report} by { assert e.report in {TheOne(r)}; }
      SamePairSameCheck(env, files, g, e.data, e.report, Some(e.generatedAt));
    }
  }

  // ----------------------------------------------------------- main results

  /** Reading the archive fails, it is broken, or it is an index that cannot be promoted. */
  predicate StopsTheRun(env: Environment, files: Files, fault: Fault) {
    var status := ArchiveState(env, files);
    || fault.FirstRead?
    || status.Rejected?
    || (status.LegacyIndex? && (!fault.Nowhere? || !UniqueContents(files, status.entry)))
  }

  /**
   All or nothing. A promotion succeeds exactly when the archive was a legacy
   index with unique contents and nothing failed, and then LATEST is the valid
   pair the index named; otherwise both LATEST files are what they were. The
   immutable files are the same either way. An archive that is missing or valid already
   is passed over; everything else raises.
   */
  lemma PromotionIsAllOrNothing(env: Environment, files: Files, s: Scratch, fault: Fault, partial: Option<Bytes>)
    requires Fresh(files, s)
    ensures var (after, outcome) := Promote(env, files, s, fault, partial);
            var status := ArchiveState(env, files);
            && SameImmutable(files, after)
            && (outcome.Promoted? <==> status.LegacyIndex? && fault.Nowhere? && UniqueContents(files, status.entry))
            && (if outcome.Promoted?
                then outcome.entry == status.entry && ArchiveState(env, after) == Valid(status.entry)
                else SameButScratch(files, after) && ArchiveState(env, after) == status)
            && (outcome.Skipped? <==> !fault.FirstRead? && (status.Missing? || status.Valid?))
            && (outcome.Raised? <==> StopsTheRun(env, files, fault))
            && (!outcome.Promoted? && !fault.StageReport? && !fault.StageData? ==> after == files)
  {
    var status := ArchiveState(env, files);
    var (after, outcome) := Promote(env, files, s, fault, partial);
    if status.LegacyIndex? {
      FullPairReads(env, files, status.entry, FullyPromoted(files, status.entry, s));
    }
    if !outcome.Promoted? {
      ScratchIsInvisible(env, files, after);
    }
  }

  /** A staging step that fails leaves the file it was writing, as far as it got, and nothing else. */
  lemma FailedStagingLitters(env: Environment, files: Files, s: Scratch, partial: Option<Bytes>)
    requires Fresh(files, s) && ArchiveState(env, files).LegacyIndex?
    ensures var report, data := Promote(env, files, s, StageReport, partial).0, Promote(env, files, s, StageData, partial).0;
            && (partial.None? ==> report == files && data == files)
            && (partial.Some? ==>
                  && report.Keys == files.Keys + {s.report} && report[s.report] == partial.value && report - {s.report} == files
                  && data.Keys == files.Keys + {s.data} && data[s.data] == partial.value && data - {s.data} == files)
  {
  }

  /** The disk and the scratch files on the `staged` list when the try block is left. */
  function LeavingTry(files: Files, e: Entry, s: Scratch, fault: Fault, partial: Option<Bytes>): (Files, set<Path>)
    requires Fresh(files, s)
  {
    match fault
    case StageReport => (Littered(files, s.report, partial), {})
    case StageData => (Littered(files[s.report := e.reportBytes], s.data, partial), {s.report})
    case ReplaceData => (HalfPromoted(files, e, s), {s.report, s.data})
    case Nowhere => (FullyPromoted(files, e, s), {s.report, s.data})
    case ReadBack => (FullyPromoted(files, e, s), {s.report, s.data})
    case ReplaceReport => (Staged(files, e, s), {s.report, s.data})
    case Backup => (files, {})
    case FirstRead => (files, {})
  }

  /** What a rollback has done when it stops: LATEST.md copied back, then LATEST.json too; some staged files unlinked. */
  datatype Restored = Restored(report: bool, data: bool, unlinked: set<Path>)

  type RestoredInOrder = r: Restored | r.data ==> r.report witness Restored(false, false, {})

  /** How one attempt ends: it runs to completion, or the process dies, or a copy of the rollback fails. */
  datatype Ending =
    | Completes(fault: Fault, partial: Option<Bytes>)
    | DiesStaging(reportSoFar: Option<Bytes>, dataSoFar: Option<Bytes>)
    | DiesAfterReport                                                  // between the two renames
    | DiesAfterData                                                    // both renamed, no rollback begun
    | StopsInRollback(fault: Fault, partial: Option<Bytes>, restored: RestoredInOrder)

  datatype Attempt = Attempt(scratch: Scratch, ending: Ending)

  /** The disk when the rollback from a failure that left `disk` and the `staged` files behind stops. */
  function InRollback(disk: Files, staged: set<Path>, before: Files, restored: Restored): Files
    requires LATEST_MD in before && LATEST_JSON in before
  {
    var report := if restored.report then disk[LATEST_MD := before[LATEST_MD]] else disk;
    var both := if restored.data then report[LATEST_JSON := before[LATEST_JSON]] else report;
    both - staged * restored.unlinked
  }

  /** The disk one attempt leaves. Dying matters only while a legacy index is being promoted. */
  function AfterAttempt(env: Environment, files: Files, a: Attempt): Files
    requires Fresh(files, a.scratch)
  {
    var s := a.scratch;
    match ArchiveState(env, files)
    case LegacyIndex(e) =>
      (match a.ending
       case Completes(fault, partial) => Promote(env, files, s, fault, partial).0
       case DiesStaging(r, d) =>
         var f := if r.Some? then files[s.report := r.value] else files;
         if d.Some? then f[s.data := d.value] else f
       case DiesAfterReport => HalfPromoted(files, e, s)
       case DiesAfterData => FullyPromoted(files, e, s)
       case StopsInRollback(fault, partial, restored) =>
         var (disk, staged) := LeavingTry(files, e, s, fault, partial);
         // Without a failure there is a rollback only if the read-back does not find a valid pair.
         if fault.FirstRead? || fault.Backup? || (fault.Nowhere? && ArchiveState(env, disk).Valid?) then disk
         else InRollback(disk, staged, files, restored))
    case _ => files
  }

  predicate Playable(env: Environment, files: Files, attempts: seq<Attempt>)
    decreases |attempts|
  {
    attempts == [] ||
    (Fresh(files, attempts[0].scratch) && Playable(env, AfterAttempt(env, files, attempts[0]), attempts[1..]))
  }

  function AfterAttempts(env: Environment, files: Files, attempts: seq<Attempt>): Files
    requires Playable(env, files, attempts)
    decreases |attempts|
  {
    if attempts == [] then files else AfterAttempts(env, AfterAttempt(env, files, attempts[0]), attempts[1..])
  }

  /** The new LATEST.json is in place and has not been copied back. */
  predicate LeavesNewIndex(ending: Ending) {
    ending.DiesAfterData?
    || (ending.StopsInRollback? && (ending.fault.Nowhere? || ending.fault.ReadBack?) && !ending.restored.data)
  }

  /** Both renames succeed and nothing fails up to the read-back's verdict. */
  predicate ReachesVerdict(ending: Ending) {
    (ending.Completes? || ending.StopsInRollback?) && ending.fault.Nowhere?
  }

  /** The old LATEST.md stands beside the new LATEST.json although the pair was good: only an I/O error in the read-back does that. */
  predicate CrossesGoodPair(ending: Ending) {
    ending.StopsInRollback? && ending.fault.ReadBack? && ending.restored.report && !ending.restored.data
  }

  /**
   Whether an attempt is unsafe, from its ending, the uniqueness of contents and the
   LATEST.md it started with.
   */
  predicate Unsafe(files: Files, e: Entry, ending: Ending)
    requires LATEST_MD in files
  {
    if UniqueContents(files, e) then CrossesGoodPair(ending) && files[LATEST_MD] != e.reportBytes
    else LeavesNewIndex(ending)
  }

  /** The old LATEST.md beside the new LATEST.json reads as neither kind of archive, unless the contents are unique and it is the new one. */
  lemma CrossedPairIsRejected(env: Environment, files: Files, e: Entry, g: Files)
    requires ArchiveState(env, files) == LegacyIndex(e)
    requires SameImmutable(files, g) && LATEST_JSON in g && LATEST_MD in g
    requires g[LATEST_JSON] == e.dataBytes && g[LATEST_MD] == files[LATEST_MD]
    ensures ArchiveState(env, g)
         == if UniqueContents(files, e) && files[LATEST_MD] == e.reportBytes then Valid(e) else Rejected
  {
    LegacyIndexFacts(env, files, e);
    if files[LATEST_MD] == e.reportBytes {
      FullPairReads(env, files, e, g);
    } else {
      OtherReportIsRejected(env, files, e, g);
    }
  }

  lemma OtherReportIsRejected(env: Environment, files: Files, e: Entry, g: Files)
    requires ArchiveState(env, files) == LegacyIndex(e) && LATEST_MD in files && files[LATEST_MD] != e.reportBytes
    requires SameImmutable(files, g) && LATEST_JSON in g && LATEST_MD in g
    requires g[LATEST_JSON] == e.dataBytes && g[LATEST_MD] == files[LATEST_MD]
    ensures ArchiveState(env, g) == Rejected
  {
    LegacyIndexFacts(env, files, e);
    var d := Copies(g, "data", ".json", e.dataBytes);
    var r := Copies(g, "reports", ".md", files[LATEST_MD]);
    assert d == Copies(files, "data", ".json", e.dataBytes);
    assert r == Copies(files, "reports", ".md", files[LATEST_MD]);
    assert e.data in d;
    if |d| == 1 && |r| == 1 {
      assert d == {e.data} by { assert e.data in {TheOne(d)}; }
      var q := TheOne(r);
      // Only the named report has the place a pair needs, and its content is not that of the old LATEST.md.
      assert q.dirs == [q.dirs[0], q.dirs[1]] && e.report.dirs == [e.report.dirs[0], e.report.dirs[1]];
    }
  }

  /** Whether the try block got past both renames. */
  predicate BothRenamed(fault: Fault) {
    fault.Nowhere? || fault.ReadBack?
  }

  lemma LeavingTryFacts(files: Files, e: Entry, s: Scratch, fault: Fault, partial: Option<Bytes>)
    requires Fresh(files, s) && LATEST_MD in files && LATEST_JSON in files
    ensures var (disk, staged) := LeavingTry(files, e, s, fault, partial);
            && SameImmutable(files, disk) && LATEST_MD in disk && LATEST_JSON in disk
            && staged <= {s.report, s.data}
            && disk[LATEST_JSON] == (if BothRenamed(fault) then e.dataBytes else files[LATEST_JSON])
            && (BothRenamed(fault) ==> disk[LATEST_MD] == e.reportBytes)
            && (disk[LATEST_MD] == files[LATEST_MD] || disk[LATEST_MD] == e.reportBytes)
  {
  }

  /** Which operation failed shows on the disk: what has been renamed into place, and which scratch files stand. */
  lemma LeavingTryMeans(files: Files, e: Entry, s: Scratch, fault: Fault, partial: Option<Bytes>)
    requires Fresh(files, s) && LATEST_MD in files && LATEST_JSON in files
    ensures var (disk, staged) := LeavingTry(files, e, s, fault, partial);
            && disk[LATEST_MD] == (if fault in {ReplaceData, ReadBack, Nowhere} then e.reportBytes else files[LATEST_MD])
            && disk[LATEST_JSON] == (if fault in {ReadBack, Nowhere} then e.dataBytes else files[LATEST_JSON])
            && (s.report in disk <==> fault in {StageData, ReplaceReport} || (fault.StageReport? && partial.Some?))
            && (s.data in disk <==> fault in {ReplaceReport, ReplaceData} || (fault.StageData? && partial.Some?))
            && (s.report in staged <==> fault !in {FirstRead, Backup, StageReport})
            && (s.data in staged <==> fault !in {FirstRead, Backup, StageReport, StageData})
  {
  }

  lemma InRollbackFacts(disk: Files, s: Scratch, staged: set<Path>, before: Files, restored: Restored)
    requires LATEST_MD in before && LATEST_JSON in before && LATEST_JSON in disk && LATEST_MD in disk
    requires SameImmutable(before, disk)
    requires IsScratch(s.report) && IsScratch(s.data) && staged <= {s.report, s.data}
    ensures var g := InRollback(disk, staged, before, restored);
            && SameImmutable(before, g) && LATEST_MD in g && LATEST_JSON in g
            && g[LATEST_MD] == (if restored.report then before[LATEST_MD] else disk[LATEST_MD])
            && g[LATEST_JSON] == (if restored.data then before[LATEST_JSON] else disk[LATEST_JSON])
  {
  }

  lemma StoppedRollbackReads(env: Environment, files: Files, e: Entry, a: Attempt)
    requires ArchiveState(env, files) == LegacyIndex(e) && Fresh(files, a.scratch) && a.ending.StopsInRollback?
    ensures LATEST_MD in files
    ensures var g := AfterAttempt(env, files, a);
            && SameImmutable(files, g) && ArchiveState(env, g) == ReadsAfter(files, e, a.ending)
  {
    LegacyIndexFacts(env, files, e);
    var fault, restored := a.ending.fault, a.ending.restored;
    var (disk, staged) := LeavingTry(files, e, a.scratch, fault, a.ending.partial);
    LeavingTryFacts(files, e, a.scratch, fault, a.ending.partial);
    InRollbackFacts(disk, a.scratch, staged, files, restored);
    RollbackDiskReads(env, files, e, disk, fault, restored, InRollback(disk, staged, files, restored));
  }

  lemma RollbackDiskReads(env: Environment, files: Files, e: Entry, disk: Files, fault: Fault, restored: RestoredInOrder, g: Files)
    requires ArchiveState(env, files) == LegacyIndex(e)
    requires SameImmutable(files, disk) && LATEST_JSON in disk && LATEST_MD in disk && LATEST_JSON in files && LATEST_MD in files
    requires disk[LATEST_JSON] == if BothRenamed(fault) then e.dataBytes else files[LATEST_JSON]
    requires disk[LATEST_MD] == files[LATEST_MD] || disk[LATEST_MD] == e.reportBytes
    requires BothRenamed(fault) ==> disk[LATEST_MD] == e.reportBytes
    requires SameImmutable(files, g) && LATEST_MD in g && LATEST_JSON in g
    requires g[LATEST_MD] == if restored.report then files[LATEST_MD] else disk[LATEST_MD]
    requires g[LATEST_JSON] == if restored.data then files[LATEST_JSON] else disk[LATEST_JSON]
    ensures BothRenamed(fault) ==> ArchiveState(env, disk) == if UniqueContents(files, e) then Valid(e) else Rejected
    ensures !BothRenamed(fault) ==> ArchiveState(env, disk) == LegacyIndex(e)
    ensures !BothRenamed(fault) || restored.data ==> ArchiveState(env, g) == LegacyIndex(e)
    ensures BothRenamed(fault) && !restored.data ==>
              ArchiveState(env, g) == if UniqueContents(files, e) && (restored.report ==> files[LATEST_MD] == e.reportBytes)
                                      then Valid(e) else Rejected
  {
    if BothRenamed(fault) {
      FullPairReads(env, files, e, disk);
    } else {
      MixedPairStillReads(env, files, e, disk);
    }
    if !BothRenamed(fault) || restored.data {
      MixedPairStillReads(env, files, e, g);
    } else if restored.report {
      CrossedPairIsRejected(env, files, e, g);
    } else {
      FullPairReads(env, files, e, g);
    }
  }

  /** What the archive reads as after one attempt, told from its ending. */
  function ReadsAfter(files: Files, e: Entry, ending: Ending): Status
    requires LATEST_MD in files
  {
    if Unsafe(files, e, ending) then Rejected
    else if UniqueContents(files, e) && (LeavesNewIndex(ending) || ReachesVerdict(ending)) then Valid(e)
    else LegacyIndex(e)
  }

  lemma AttemptReads(env: Environment, files: Files, e: Entry, a: Attempt)
    requires ArchiveState(env, files) == LegacyIndex(e) && Fresh(files, a.scratch)
    ensures LATEST_MD in files
    ensures var g := AfterAttempt(env, files, a);
            SameImmutable(files, g) && ArchiveState(env, g) == ReadsAfter(files, e, a.ending)
  {
    LegacyIndexFacts(env, files, e);
    var g := AfterAttempt(env, files, a);
    match a.ending {
      case Completes(fault, partial) => PromotionIsAllOrNothing(env, files, a.scratch, fault, partial);
      case DiesStaging(_, _) => ScratchIsInvisible(env, files, g);
      case DiesAfterReport => MixedPairStillReads(env, files, e, g);
      case DiesAfterData => FullPairReads(env, files, e, g);
      case StopsInRollback(_, _, _) => StoppedRollbackReads(env, files, e, a);
    }
  }

  lemma SameUniqueness(files: Files, e: Entry, g: Files)
    requires SameImmutable(files, g)
    ensures UniqueContents(files, e) <==> UniqueContents(g, e)
  {
    assert Copies(g, "data", ".json", e.dataBytes) == Copies(files, "data", ".json", e.dataBytes);
    assert Copies(g, "reports", ".md", e.reportBytes) == Copies(files, "reports", ".md", e.reportBytes);
  }

  lemma {:induction false} RejectedForGood(env: Environment, disk: Files, attempts: seq<Attempt>)
    requires ArchiveState(env, disk) == Rejected && Playable(env, disk, attempts)
    ensures AfterAttempts(env, disk, attempts) == disk
    decreases |attempts|
  {
    if attempts != [] {
      RejectedForGood(env, disk, attempts[1..]);
    }
  }

  /**
   An unsafe attempt leaves an archive that is rejected, and that every later run
   leaves as it is, raising.
   */
  lemma UnsafeIsFinal(env: Environment, files: Files, e: Entry, a: Attempt)
    requires ArchiveState(env, files) == LegacyIndex(e) && Fresh(files, a.scratch)
    requires LATEST_MD in files && Unsafe(files, e, a.ending)
    ensures var disk := AfterAttempt(env, files, a);
            && ArchiveState(env, disk) == Rejected
            && (forall later :: Playable(env, disk, later) ==> AfterAttempts(env, disk, later) == disk)
            && forall again, fault, partial :: Fresh(disk, again) ==> Promote(env, disk, again, fault, partial) == (disk, Raised)
  {
    AttemptReads(env, files, e, a);
    var disk := AfterAttempt(env, files, a);
    forall later | Playable(env, disk, later)
      ensures AfterAttempts(env, disk, later) == disk
    {
      RejectedForGood(env, disk, later);
    }
  }

  /** No attempt was unsafe on the disk it started from; once the pair is valid, attempts do nothing. */
  predicate AllSafe(env: Environment, files: Files, e: Entry, attempts: seq<Attempt>)
    requires Playable(env, files, attempts)
    decreases |attempts|
  {
    attempts == [] ||
    ((ArchiveState(env, files) == LegacyIndex(e) ==> LATEST_MD in files && !Unsafe(files, e, attempts[0].ending))
     && AllSafe(env, AfterAttempt(env, files, attempts[0]), e, attempts[1..]))
  }

  /**
   The exact boundary, over any sequence of attempts with any endings: the archive
   still stands for the pair the index named, if and only if no attempt was unsafe.
   */
  lemma {:induction false} CrashesAreSafeExactlyWhen(env: Environment, files: Files, e: Entry, attempts: seq<Attempt>)
    requires ArchiveState(env, files) == LegacyIndex(e) || (ArchiveState(env, files) == Valid(e) && UniqueContents(files, e))
    requires Playable(env, files, attempts)
    ensures var g := AfterAttempts(env, files, attempts);
            && SameImmutable(files, g)
            && ArchiveState(env, g) in {LegacyIndex(e), Valid(e), Rejected}
            && (ArchiveState(env, g) == Valid(e) ==> UniqueContents(files, e))
            && (ArchiveState(env, g) != Rejected <==> AllSafe(env, files, e, attempts))
    decreases |attempts|
  {
    if attempts != [] {
      var g, rest := AfterAttempt(env, files, attempts[0]), attempts[1..];
      if ArchiveState(env, files) == LegacyIndex(e) {
        AttemptReads(env, files, e, attempts[0]);
      }
      SameUniqueness(files, e, g);
      if ArchiveState(env, g) == Rejected {
        RejectedForGood(env, g, rest);
      } else {
        CrashesAreSafeExactlyWhen(env, g, e, rest);
      }
    }
  }

  /**
   Crash safety. After any number of attempts that failed, or died or failed again at
   any step, rollback included, one undisturbed rerun leaves the valid pair that the
   index named, if and only if its contents are unique and no attempt was unsafe.
   */
  lemma RerunCompletesExactlyWhen(env: Environment, files: Files, e: Entry, attempts: seq<Attempt>, s: Scratch)
    requires ArchiveState(env, files) == LegacyIndex(e)
    requires Playable(env, files, attempts) && Fresh(AfterAttempts(env, files, attempts), s)
    ensures var after := Promote(env, AfterAttempts(env, files, attempts), s, Nowhere, None).0;
            && SameImmutable(files, after)
            && (ArchiveState(env, after) == Valid(e) <==> UniqueContents(files, e) && AllSafe(env, files, e, attempts))
  {
    CrashesAreSafeExactlyWhen(env, files, e, attempts);
    var disk := AfterAttempts(env, files, attempts);
    SameUniqueness(files, e, disk);
    PromotionIsAllOrNothing(env, disk, s, Nowhere, None);
  }

  /**
   With unique contents one thing alone is unsafe: an I/O error in the read-back, and a
   rollback from it that stops between its two copies. Where no attempt ends like
   that, all are safe; nor is that unsafe while LATEST.md is the report already.
   */
  lemma {:induction false} UniqueContentsAreSafe(env: Environment, files: Files, e: Entry, attempts: seq<Attempt>)
    requires ArchiveState(env, files) == LegacyIndex(e) || ArchiveState(env, files) == Valid(e)
    requires UniqueContents(files, e) && Playable(env, files, attempts) && LATEST_MD in files
    requires (forall k :: 0 <= k < |attempts| ==> !CrossesGoodPair(attempts[k].ending)) || files[LATEST_MD] == e.reportBytes
    ensures AllSafe(env, files, e, attempts)
    decreases |attempts|
  {
    if attempts != [] {
      var g, rest := AfterAttempt(env, files, attempts[0]), attempts[1..];
      if ArchiveState(env, files) == LegacyIndex(e) {
        AttemptReads(env, files, e, attempts[0]);
        LatestStaysReport(env, files, e, attempts[0]);
      }
      SameUniqueness(files, e, g);
      assert forall k :: 0 <= k < |rest| ==> rest[k] == attempts[k + 1];
      UniqueContentsAreSafe(env, g, e, rest);
    }
  }

  const DATA := Path(["data", "2024"], "report", ".json")
  const REPORT := Path(["reports", "2024"], "report", ".md")
  const STAMP := Text("2024-05-06", Some("2024"))

  /** Byte strings stand for documents: 1 is an index of the pair, 2 the data. */
  function TinyEnvironment(): Environment {
    Environment(b => if b == [1] then Some(Partial(Some(DATA), Some(REPORT), Some(STAMP)))
                     else if b == [2] then Some(Complete(STAMP, true, Some(0))) else None,
                _ => true, _ => true)
  }

  lemma TinyArchiveIsAnIndex(files: Files)
    requires files == map[LATEST_JSON := [1], LATEST_MD := [9], DATA := [2], REPORT := [3]]
    ensures var e := Entry(STAMP, DATA, REPORT, [2], [3], 0);
            ArchiveState(TinyEnvironment(), files) == LegacyIndex(e) && UniqueContents(files, e)
  {
    var e := Entry(STAMP, DATA, REPORT, [2], [3], 0);
    assert TinyEnvironment().parse([1]) == Some(Partial(Some(DATA), Some(REPORT), Some(STAMP)));
    assert CheckPair(TinyEnvironment(), files, DATA, REPORT, Some(STAMP)) == Some(e);
    assert Copies(files, "data", ".json", [2]) == {DATA} && Copies(files, "reports", ".md", [3]) == {REPORT};
  }

  /** A legacy index with unique contents that one attempt turns into an archive nobody accepts. */
  ghost predicate LosesGoodPair(env: Environment, files: Files, e: Entry, a: Attempt) {
    && ArchiveState(env, files) == LegacyIndex(e) && UniqueContents(files, e)
    && Fresh(files, a.scratch) && ArchiveState(env, AfterAttempt(env, files, a)) == Rejected
  }

  lemma CrossingLosesGoodPair(env: Environment, files: Files, e: Entry, a: Attempt)
    requires ArchiveState(env, files) == LegacyIndex(e) && UniqueContents(files, e) && Fresh(files, a.scratch)
    requires CrossesGoodPair(a.ending) && LATEST_MD in files && files[LATEST_MD] != e.reportBytes
    ensures LosesGoodPair(env, files, e, a)
  {
    AttemptReads(env, files, e, a);
  }

  /** So even a good pair can be lost: the read-back raises, LATEST.md is copied back, and that is all. */
  lemma GoodPairCanBeLost() returns (env: Environment, files: Files, e: Entry, a: Attempt)
    ensures LosesGoodPair(env, files, e, a)
  {
    env := TinyEnvironment();
    files := map[LATEST_JSON := [1], LATEST_MD := [9], DATA := [2], REPORT := [3]];
    e := Entry(STAMP, DATA, REPORT, [2], [3], 0);
    a := Attempt(Scratch(Path([], ".promote-a", ""), Path([], ".promote-b", "")),
                 StopsInRollback(ReadBack, None, Restored(true, false, {})));
    TinyArchiveIsAnIndex(files);
    CrossingLosesGoodPair(env, files, e, a);
  }

  /** Where LATEST.md is the report already, no attempt changes it. */
  lemma LatestStaysReport(env: Environment, files: Files, e: Entry, a: Attempt)
    requires ArchiveState(env, files) == LegacyIndex(e) && Fresh(files, a.scratch) && LATEST_MD in files
    ensures LATEST_MD in AfterAttempt(env, files, a)
    ensures files[LATEST_MD] == e.reportBytes ==> AfterAttempt(env, files, a)[LATEST_MD] == e.reportBytes
  {
    LegacyIndexFacts(env, files, e);
    if a.ending.StopsInRollback? {
      var (disk, staged) := LeavingTry(files, e, a.scratch, a.ending.fault, a.ending.partial);
      LeavingTryFacts(files, e, a.scratch, a.ending.fault, a.ending.partial);
      InRollbackFacts(disk, a.scratch, staged, files, a.ending.restored);
    }
  }

  // ------------------------------------------------------------ the program

  function Cleanup(files: Files, before: Files, staged: set<Path>): Files
    requires LATEST_MD in before && LATEST_JSON in before
  {
    files[LATEST_MD := before[LATEST_MD]][LATEST_JSON := before[LATEST_JSON]] - staged
  }

  lemma CleanupRestores(files: Files, e: Entry, s: Scratch, fault: Fault, partial: Option<Bytes>)
    requires Fresh(files, s) && LATEST_MD in files && LATEST_JSON in files && !fault.Backup? && !fault.FirstRead?
    ensures var (disk, staged) := LeavingTry(files, e, s, fault, partial);
            Cleanup(disk, files, staged) ==
              match fault
              case StageReport => Littered(files, s.report, partial)
              case StageData => Littered(files, s.data, partial)
              case _ => files
  {
    match fault
    case StageReport =>
      assert Cleanup(Littered(files, s.report, partial), files, {}) == Littered(files, s.report, partial);
    case StageData =>
      assert Cleanup(Littered(files[s.report := e.reportBytes], s.data, partial), files, {s.report})
          == Littered(files, s.data, partial);
    case ReplaceData => assert Cleanup(HalfPromoted(files, e, s), files, {s.report, s.data}) == files;
    case Nowhere => assert Cleanup(FullyPromoted(files, e, s), files, {s.report, s.data}) == files;
    case ReadBack => assert Cleanup(FullyPromoted(files, e, s), files, {s.report, s.data}) == files;
    case ReplaceReport => assert Cleanup(Staged(files, e, s), files, {s.report, s.data}) == files;
  }

  /** One archive directory on disk. */
  class Archive {
    var files: Files

    constructor (files: Files)
      ensures this.files == files
    {
      this.files := files;
    }

    /** The try block: stage both copies, rename both; the first refused operation ends it. */
    method StageAndRename(e: Entry, s: Scratch, fault: Fault, partial: Option<Bytes>) returns (staged: set<Path>, failed: bool)
      requires Fresh(files, s) && !fault.Backup? && !fault.FirstRead?
      modifies this
      ensures files == LeavingTry(old(files), e, s, fault, partial).0
      ensures staged == LeavingTry(old(files), e, s, fault, partial).1
      ensures failed <==> !BothRenamed(fault)
    {
      staged, failed := {}, true;
      if fault.StageReport? {
        files := Littered(files, s.report, partial);
        return;
      }
      files := files[s.report := e.reportBytes];
      staged := staged + {s.report};
      if fault.StageData? {
        files := Littered(files, s.data, partial);
        return;
      }
      files := files[s.data := e.dataBytes];
      staged := staged + {s.data};
      if fault.ReplaceReport? {
        return;
      }
      files := Replace(files, s.report, LATEST_MD);
      if fault.ReplaceData? {
        return;
      }
      files := Replace(files, s.data, LATEST_JSON);
      failed := false;
    }

    method PromoteLatest(env: Environment, s: Scratch, fault: Fault, partial: Option<Bytes>) returns (outcome: Outcome)
      requires Fresh(files, s)
      modifies this
      ensures (files, outcome) == Promote(env, old(files), s, fault, partial)
    {
      if fault.FirstRead? {
        return Raised;
      }
      var state := ArchiveState(env, files);
      if state.Rejected? || (state.LegacyIndex? && fault.Backup?) {
        return Raised;
      }
      if !state.LegacyIndex? {
        return Skipped;
      }
      var backup := map[LATEST_MD := files[LATEST_MD], LATEST_JSON := files[LATEST_JSON]];
      var staged, failed := StageAndRename(state.entry, s, fault, partial);
      var verified := if failed || fault.ReadBack? then Missing else ArchiveState(env, files);
      if !verified.Valid? {
        CleanupRestores(old(files), state.entry, s, fault, partial);
        files := files[LATEST_MD := backup[LATEST_MD]];
        files := files[LATEST_JSON := backup[LATEST_JSON]];
        files := files - staged;
        return Raised;
      }
      assert files - staged == files;
      files := files - staged;
      return Promoted(verified.entry);
    }
  }

  /** What the run draws and meets at one archive. */
  datatype Plan = Plan(scratch: Scratch, fault: Fault, partial: Option<Bytes>)

  /** Each archive promoted by itself: the disk and the outcome. */
  function Results(env: Environment, disks: seq<Files>, plans: seq<Plan>): (results: seq<(Files, Outcome)>)
    requires |disks| == |plans| && forall i :: 0 <= i < |disks| ==> Fresh(disks[i], plans[i].scratch)
    ensures |results| == |disks|
  {
    if disks == [] then []
    else
      var n := |disks| - 1;
      Results(env, disks[..n], plans[..n])
      + [Promote(env, disks[n], plans[n].scratch, plans[n].fault, plans[n].partial)]
  }

  lemma {:induction false} ResultAt(env: Environment, disks: seq<Files>, plans: seq<Plan>, i: nat)
    requires |disks| == |plans| && forall i :: 0 <= i < |disks| ==> Fresh(disks[i], plans[i].scratch)
    requires i < |disks|
    ensures Results(env, disks, plans)[i] == Promote(env, disks[i], plans[i].scratch, plans[i].fault, plans[i].partial)
    decreases |disks|
  {
    if i < |disks| - 1 {
      ResultAt(env, disks[..|disks| - 1], plans[..|disks| - 1], i);
    }
  }

  /** The entries promoted, in order. */
  function EntriesPromoted(results: seq<(Files, Outcome)>): seq<Entry> {
    if results == [] then []
    else
      EntriesPromoted(results[..|results| - 1])
      + match results[|results| - 1].1
        case Promoted(entry) => [entry]
        case _ => []
  }

  /** The entries legacy indexes name, in the order of the archives. */
  function LegacyEntries(env: Environment, disks: seq<Files>): seq<Entry> {
    if disks == [] then []
    else
      LegacyEntries(env, disks[..|disks| - 1])
      + match ArchiveState(env, disks[|disks| - 1])
        case LegacyIndex(entry) => [entry]
        case _ => []
  }

  lemma {:induction false} PromotedAreLegacy(env: Environment, disks: seq<Files>, plans: seq<Plan>, n: nat)
    requires |disks| == |plans| && forall i :: 0 <= i < |disks| ==> Fresh(disks[i], plans[i].scratch)
    requires n <= |disks| && forall i :: 0 <= i < n ==> !StopsTheRun(env, disks[i], plans[i].fault)
    ensures EntriesPromoted(Results(env, disks, plans)[..n]) == LegacyEntries(env, disks[..n])
  {
    if n > 0 {
      var results := Results(env, disks, plans);
      PromotedAreLegacy(env, disks, plans, n - 1);
      assert results[..n][..n - 1] == results[..n - 1] && disks[..n][..n - 1] == disks[..n - 1];
      ResultAt(env, disks, plans, n - 1);
      PromotionIsAllOrNothing(env, disks[n - 1], plans[n - 1].scratch, plans[n - 1].fault, plans[n - 1].partial);
    }
  }

  lemma ResultRaises(env: Environment, disks: seq<Files>, plans: seq<Plan>, i: nat)
    requires |disks| == |plans| && forall i :: 0 <= i < |disks| ==> Fresh(disks[i], plans[i].scratch)
    requires i < |disks|
    ensures Results(env, disks, plans)[i].1.Raised? <==> StopsTheRun(env, disks[i], plans[i].fault)
  {
    ResultAt(env, disks, plans, i);
    PromotionIsAllOrNothing(env, disks[i], plans[i].scratch, plans[i].fault, plans[i].partial);
  }

  /**
   What a run over all archives answers, told from what they read as before it: it raises
   exactly if some archive stops it, and then at the first such; it returns the entries
   named by the legacy indexes it has passed.
   */
  ghost predicate Told(env: Environment, disks: seq<Files>, plans: seq<Plan>, promoted: seq<Entry>, raised: bool, visited: nat)
    requires |disks| == |plans|
  {
    var through := if raised then visited - 1 else visited;
    && 0 <= through <= visited <= |disks|
    && (raised <==> exists i :: 0 <= i < |disks| && StopsTheRun(env, disks[i], plans[i].fault))
    && (raised ==> StopsTheRun(env, disks[through], plans[through].fault))
    && (forall i :: 0 <= i < through ==> !StopsTheRun(env, disks[i], plans[i].fault))
    && promoted == LegacyEntries(env, disks[..through])
  }

  lemma RunTold(env: Environment, disks: seq<Files>, plans: seq<Plan>, promoted: seq<Entry>, raised: bool, visited: nat)
    requires |disks| == |plans| && forall i :: 0 <= i < |disks| ==> Fresh(disks[i], plans[i].scratch)
    requires visited <= |disks| && (!raised ==> visited == |disks|) && (raised ==> visited > 0)
    requires var results := Results(env, disks, plans);
             && (forall i :: 0 <= i < visited ==> (results[i].1.Raised? <==> raised && i == visited - 1))
             && promoted == EntriesPromoted(results[..visited])
    ensures Told(env, disks, plans, promoted, raised, visited)
  {
    forall i | 0 <= i < |disks|
      ensures Results(env, disks, plans)[i].1.Raised? <==> StopsTheRun(env, disks[i], plans[i].fault)
    {
      ResultRaises(env, disks, plans, i);
    }
    var through := if raised then visited - 1 else visited;
    PromotedAreLegacy(env, disks, plans, through);
    if raised {
      var results := Results(env, disks, plans);
      assert results[..visited][..through] == results[..through];
    }
  }

  /** The archive directories of the configured tasks. */
  class ArchiveRoot {
    var disks: seq<Files>

    constructor (disks: seq<Files>)
      ensures this.disks == disks
    {
      this.disks := disks;
    }

    /** One turn of the loop. */
    method PromoteNext(env: Environment, ghost before: seq<Files>, plans: seq<Plan>, i: nat) returns (outcome: Outcome)
      requires |before| == |plans| && forall k :: 0 <= k < |before| ==> Fresh(before[k], plans[k].scratch)
      requires i < |disks| == |before| && disks[i] == before[i]
      modifies this
      ensures disks == old(disks)[i := Results(env, before, plans)[i].0] && outcome == Results(env, before, plans)[i].1
    {
      ResultAt(env, before, plans, i);
      var archive := new Archive(disks[i]);
      outcome := archive.PromoteLatest(env, plans[i].scratch, plans[i].fault, plans[i].partial);
      disks := disks[i := archive.files];
    }

    /** The loop over the configured tasks; an exception at one archive ends the whole run. */
    method PromoteAll(env: Environment, plans: seq<Plan>) returns (promoted: seq<Entry>, raised: bool, visited: nat)
      requires |plans| == |disks| && forall k :: 0 <= k < |disks| ==> Fresh(disks[k], plans[k].scratch)
      modifies this
      ensures visited <= |disks| == |old(disks)| && (!raised ==> visited == |disks|) && (raised ==> visited > 0)
      ensures var results := Results(env, old(disks), plans);
              && (forall i :: 0 <= i < visited ==> disks[i] == results[i].0)
              && (forall i :: 0 <= i < visited ==> (results[i].1.Raised? <==> raised && i == visited - 1))
              && promoted == EntriesPromoted(results[..visited])
      ensures forall i :: visited <= i < |disks| ==> disks[i] == old(disks)[i]
    {
      ghost var before := disks;
      ghost var results := Results(env, before, plans);
      promoted, raised, visited := [], false, 0;
      while visited < |disks| && !raised
        invariant visited <= |disks| == |before| && (raised ==> visited > 0)
        invariant forall i :: 0 <= i < visited ==> disks[i] == results[i].0
        invariant forall i :: 0 <= i < visited ==> (results[i].1.Raised? <==> raised && i == visited - 1)
        invariant forall i :: visited <= i < |disks| ==> disks[i] == before[i]
        invariant promoted == EntriesPromoted(results[..visited])
        decreases |disks| - visited
      {
        var outcome := PromoteNext(env, before, plans, visited);
        assert results[..visited + 1][..visited] == results[..visited];
        visited := visited + 1;
        if outcome.Raised? {
          raised := true;
        } else if outcome.Promoted? {
          promoted := promoted + [outcome.entry];
        }
      }
    }

    /** The same, and what it answers told from what the archives read as before. */
    method NormalizeArchives(env: Environment, plans: seq<Plan>) returns (promoted: seq<Entry>, raised: bool, visited: nat)
      requires |plans| == |disks| && forall k :: 0 <= k < |disks| ==> Fresh(disks[k], plans[k].scratch)
      modifies this
      ensures visited <= |disks| == |old(disks)|
      ensures forall i :: 0 <= i < visited ==> disks[i] == Results(env, old(disks), plans)[i].0
      ensures forall i :: visited <= i < |disks| ==> disks[i] == old(disks)[i]
      ensures Told(env, old(disks), plans, promoted, raised, visited)
    {
      promoted, raised, visited := PromoteAll(env, plans);
      RunTold(env, old(disks), plans, promoted, raised, visited);
    }
  }

  /** A second run over archives that are all promoted, or not there, raises nothing and returns nothing. */
  lemma {:induction false} NothingLeftToPromote(env: Environment, disks: seq<Files>, plans: seq<Plan>)
    requires |disks| == |plans| && forall i :: 0 <= i < |disks| ==> Fresh(disks[i], plans[i].scratch)
    requires forall i :: 0 <= i < |disks| ==>
               !plans[i].fault.FirstRead? && (ArchiveState(env, disks[i]).Missing? || ArchiveState(env, disks[i]).Valid?)
    ensures forall i :: 0 <= i < |disks| ==>
              !StopsTheRun(env, disks[i], plans[i].fault) && Results(env, disks, plans)[i] == (disks[i], Skipped)
    ensures LegacyEntries(env, disks) == []
    decreases |disks|
  {
    forall i | 0 <= i < |disks|
      ensures Results(env, disks, plans)[i] == (disks[i], Skipped)
    {
      ResultAt(env, disks, plans, i);
    }
    if disks != [] {
      NothingLeftToPromote(env, disks[..|disks| - 1], plans[..|disks| - 1]);
    }
  }
}
