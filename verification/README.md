# Desktop shell and automation: verified model

A Dafny model of the stateful parts of the desktop application, its browser
extension and its automation scripts: places where several threads, callbacks,
crashes or roundings meet, and where reading one function does not tell whether
the whole does what it is for. One module per component.

| module | component |
|---|---|
| `PetMoveSaver`, `PetBounds`, `PetRecreation`, `PetDrift`, `PetGeometry` | the floating pet window: lock-free debounced saving, ordered resizing, closing and recreating, anchor arithmetic, save and restore |
| `MainWindow`, `SaveDebounce` | the main window: bringing a saved window back on screen, and its generation-token debounce |
| `ReportArchive`, `ArchivePromotion`, `WriterLease`, `Observations`, `Recovery` | the automation control plane: archives, promotion with rollback, writer lease, observation records, backup and restore |
| `NativePort`, `Base64`, `HostBlob`, `SnapshotWalk` | the browser extension's worker: connection to the native host, blob transfer (with the broker that receives it), page snapshot |
| `ChordShortcuts`, `ChordRaces` | two-part global shortcuts, with each press in one step and with every step of presses and reloads interleaved |
| `ClaimEvidence`, `WorkflowCohort` | claim invalidation and weekly cohorts |
| `AssetBundle` | the embedded web bundle, from build script to server lookup |
| `Downsampler`, `AnalyserLevels` | microphone downsampling and level history |
| `Prelude`, `Octets`, `Numbers`, `Products`, `Displays` | shared vocabulary |

`dafny verify dfyconfig.toml` checks everything.

Most components follow one pattern: the state is a datatype, every atomic step is a
function on it, runs are sequences of steps, and the main lemmas quantify over all
runs. Where the source updates fields in place, a class holds those fields and each
method's postcondition ties the new state to a step of the machine, so that the
lemmas about runs speak about the class.

## Where the code does not do what one would expect

Each of these is stated as a lemma with a concrete run, as an exact condition for the
expected property, or both.

- **Closing snapshot.** A debounced save of the main window that has passed its
  generation check can still write after the closing save
  (`ClosingSnapshotCanBeOverwritten`). All tasks share one temporary file, yet the
  newest snapshot survives exactly when no older task is between its check and its
  write of that file (`NewestSurvives`); renames never matter.
- **Worker adrift.** If posting the hello message throws on a port that has just been
  opened, the reference is dropped but the port's listeners live on. A worker that has
  opened a port then has neither a port nor a retry to come in exactly two cases, with
  nothing having come to the rescue since: a message from a dropped port called the
  retry off, or no attempt has ever succeeded and one threw in its hello
  (`AdriftExactlyWhen`; `AdriftStepByStep` for one event;
  `HalfOpenPortCanStrandTheWorker` for a run). The keepalive alarm and the dropped
  port's disconnect are rescues.
- **Crash during promotion.** Two kinds of attempt leave an archive that is rejected for
  good (`UnsafeIsFinal`). With immutable contents that are not unique: one that dies,
  or whose rollback fails, between the rename of LATEST.json and the copy that restores
  it. With unique contents: one whose read-back meets an I/O error and whose rollback
  stops between its two copies, unless LATEST.md was the named report already
  (`GoodPairCanBeLost`). There are no others (`CrashesAreSafeExactlyWhen`), and a rerun
  completes exactly where contents are unique and nothing of the kind has happened
  (`RerunCompletesExactlyWhen`).
- **What ends a chord.** A timeout thread takes whatever chord is pending
  (`OlderTimerCutsChordShort`), and so do reloads and pauses. With no other press in
  between, the second part fires in time exactly when no timer, reload or pause came
  since the first, and the last resume, if any, registered it as a key of its own
  (`ChordFiresExactlyWhen`). Where nobody reloads, pauses or resumes without it, firing is
  certain exactly when no thread asleep at the first part wakes before the second
  (`ChordIsSafeFromOlderTimers`).
- **Reload during a press.** The handler registers second parts before it sets the
  chord, without the lock; a reload in between leaves a pending chord that cannot be
  completed (`ReloadInTheGap`). The exact condition, with any number of reloads, pauses
  and resumes interleaved, is `RightKeysUnlessSwept`.
- **Resuming shortcuts.** `set_shortcuts_paused(false)` re-registers without clearing
  the pending chord and drops its second part (`ResumeCanDropSecondParts`);
  `ResumeKeepsRightKeys` says exactly when it is harmless.
- **Shared keys.** A key that is a binding of its own and also the second part of a
  chord is unregistered when the chord ends and stays dead (`SharedKeyGoesDead`).
  `CancelKeepsRightKeys` is the exact condition for one step; over all runs a wanted key
  is missing exactly when the last step that touched it unregistered it
  (`KeysAreRightUnlessDead`). `RegisteredKeysAreRight` assumes keys are not shared.
- **Window recreation.** The revision order of pet resizes starts over with a new
  window (`RecreationForgetsTheOrder`): it holds within each window
  (`EachWindowAcceptsInOrder`) and across recreations exactly when each new window's
  first revision exceeds its predecessor's last (`OrderSurvivesRecreations`). A call past
  its native step can commit its anchor to the new window
  (`RecreationCanMismatchTheAnchor`): until the new window's own first call enters, its
  anchor is safe exactly when no call is in that state at the recreation, or it asks for
  the very anchor a new window starts with (`FreshAnchorIsSafe`). And a call still
  waiting then raises the new window's revision before it fails
  (`WaitingCallBlocksNewWindow`): the largest revision wins in the new window exactly
  when none waits with a revision above zero (`LargestRevisionWinsInNewWindow`).
- **Bundle marker.** A comment in `web_assets.rs` says that equal lengths mean raw
  bytes. After the casts to 32 bits that fails exactly for a file whose compression
  saves a whole number of times four gigabytes (`HugeFileCanBeMisread`,
  `MarkerIsHonest`).
- **Edited observations.** An observation file whose data and fingerprint are both
  edited is accepted (`EditsPassExactlyWithTheirFingerprint`), and its date is not
  covered by the fingerprint at all (`EditedDatePasses`): one dated ahead, once
  acknowledged, locks out every earlier one (`FutureDateLocksOut`). The fingerprint
  detects damage to the data only.
- **Level history.** The tick on which the ring becomes silent is not published, so
  the shown history can keep one sound at its oldest place;
  `AnalyserLevels.Recorder.Tick` states exactly when. (The comment on the counter says
  "exceeds" the history size; the code compares with `>=`, and the code is modelled.)
- **Slow microphones.** Below 16 kHz the downsampler yields one sample per input and
  no longer keeps time (`CountLawNeedsFastInput`, an equivalence).

## Model

| member | source | states |
|---|---|---|
| `PetMoveSaver.AtMostOneOwner` | src-tauri/src/pet_window.rs:642-676 | in every interleaving of events and worker steps at most one agent is between taking and giving back the worker slot, and then the flag is set |
| `PetMoveSaver.NoMoveIsLost` | src-tauri/src/pet_window.rs:642-676 | whenever no handler or worker is mid-flight, the last save attempt began after the newest move was counted, and the slot is free |
| `PetMoveSaver.QuietRunsEndSaved` | src-tauri/src/pet_window.rs:651-675 | once events stop, every schedule ends within eleven steps per agent, and ends with the newest move saved |
| `PetMoveSaver.WakesToPersistExactlyWhen` | src-tauri/src/pet_window.rs:652-656 | in every run an agent that wakes goes on to persist if and only if no move has come since its own last step, with which it fell asleep, and goes back to sleep otherwise |
| `PetMoveSaver.AttemptsFollowQuietSleeps` | src-tauri/src/pet_window.rs:652-658 | each attempt is begun by an agent whose last two steps fell asleep and woke with no move in between: a burst of moves is not saved before a whole quiet sleep |
| `PetMoveSaver.NextKeepsInv` | src-tauri/src/pet_window.rs:642-676 | the inductive invariant: exclusive slot, remembered revisions never newer than what was saved, an unsaved revision always has an agent that will still look |
| `PetBounds.AcceptedRevisionsIncrease` | src-tauri/src/pet_window.rs:401-415 | over any run without a recreation, with native failures allowed, accepted revisions strictly increase |
| `PetBounds.LargestRevisionWins` | src-tauri/src/pet_window.rs:386-450 | for any arrival order with native calls succeeding, once all calls have returned the size and the committed anchor are those of a largest valid revision |
| `PetBounds.LargestRevisionSizesTheWindow` | src-tauri/src/pet_window.rs:417-450 | the same with the program's own arithmetic: the final width and height are that request's logical ones times the scale, rounded to whole pixels |
| `PetBounds.InvalidExactlyWhen` | src-tauri/src/pet_window.rs:390-399 | a call is turned away if and only if its size is not within 112 to 440 by 120 to 640 or one of its anchors is no number |
| `PetBounds.RecreationForgetsTheOrder` | src-tauri/src/pet_window.rs:513-524 | a concrete run in which an older revision is accepted after the window was recreated |
| `PetBounds.RecreationCanMismatchTheAnchor` | src-tauri/src/pet_window.rs:441-450 | a concrete run in which a call in flight commits its anchor to the fresh layout state |
| `PetRecreation.EachWindowAcceptsInOrder` | src-tauri/src/pet_window.rs:401-415 | in every run, recreations and native failures included, the revisions accepted since the last recreation strictly increase, and the layout state holds the last of them, or zero |
| `PetRecreation.OrderSurvivesRecreations` | src-tauri/src/pet_window.rs:513-524 | the revisions accepted over a whole run increase if and only if at each recreation the first one accepted afterwards exceeds the last one before |
| `PetRecreation.FreshAnchorIsSafe` | src-tauri/src/pet_window.rs:441-450 | after a recreation at any point of any run, the fresh anchor is kept until the new window's first call enters, whatever calls for the closed window still do, if and only if no call is between native step and commit at that moment or it asks for that anchor |
| `PetRecreation.FreshAnchorStays` | src-tauri/src/pet_window.rs:441-450 | in one such continuation it is kept if and only if that call does not get to its commit, or commits that anchor |
| `PetRecreation.LargestRevisionWinsInNewWindow` | src-tauri/src/pet_window.rs:386-450 | after a recreation, with native calls failing for the closed window and succeeding for the new one, at rest size and anchor are those of a largest revision requested for the new window, in every continuation, if and only if no call for the closed one was waiting with a revision above zero |
| `PetRecreation.WaitingCallBlocksNewWindow` | src-tauri/src/pet_window.rs:401-415 | a concrete run in which a call for the closed window makes the new window refuse its own request |
| `PetBounds.SoloRunState` | src-tauri/src/pet_window.rs:386-450 | the steps of a call nobody interferes with are possible and end in the stated state, for each of its four outcomes |
| `PetBounds.PetWindow.ApplyBounds` | src-tauri/src/pet_window.rs:386-450 | the method on the window's fields does exactly what those protocol steps do, and answers with the recorded outcome |
| `PetDrift.AnchorDriftsHalfAPixelPerChange` | src-tauri/src/pet_window.rs:417-450 | through any overlapping calls, undragged, failures that move nothing included, and where the pixel nearest to the right place is free of clamp and cast, the anchor's screen point is never further from its start than half a pixel per accepted change, on either axis |
| `PetDrift.PlacedKeepsTheAnchor` | src-tauri/src/pet_window.rs:425-431 | what one change computes: on each axis that is free, the next anchor in the new frame is within half a pixel of where the committed anchor was in the old one |
| `PetDrift.ResizeKeepsTheAnchor` | src-tauri/src/pet_window.rs:417-450 | the same of the step of the protocol, in screen coordinates |
| `PetDrift.ResizedWindowIsInside` | src-tauri/src/pet_window.rs:276-311 | after an applied change a window that fits lies wholly inside the monitor's safe area |
| `PetGeometry.ClampLandsInside` | src-tauri/src/pet_window.rs:276-294 | the clamp lands inside exactly when there is room, leaves an inside position alone, and moves no further than any inside position requires |
| `PetGeometry.OneChangeDrift` | src-tauri/src/pet_window.rs:425-430 | one unclamped change moves the anchor's screen point by at most half a pixel |
| `PetGeometry.ManyChangesDrift` | src-tauri/src/pet_window.rs:425-430 | n unclamped changes move it by at most n/2 pixels |
| `PetGeometry.ThereAndBackAgain` | src-tauri/src/pet_window.rs:425-430 | changing the anchor and changing it back restores the exact pixel unless the anchors are a half-integer apart and both ties round the same way; then it is one pixel off |
| `PetGeometry.RestoredPetIsInside` | src-tauri/src/pet_window.rs:452-511 | whatever the file held, a pet that fits on the chosen monitor is restored inside its safe area |
| `PetGeometry.SavedMonitorIsFound` | src-tauri/src/pet_window.rs:466-489 | a saved monitor with a name is chosen again, or one of the same name and the same work area; one without a name is chosen again where it is the primary, or the first without a primary |
| `PetGeometry.NearestIsTheFirst` | src-tauri/src/pet_window.rs:472-483 | among the monitors of the saved name the first of those nearest to the saved area is chosen |
| `PetGeometry.MonitorIsPicked` | src-tauri/src/pet_window.rs:464-490 | named monitors first, then the primary one, then the first there is |
| `PetGeometry.AcceptedMeans` | src-tauri/src/pet_window.rs:453-464 | a file counts if and only if its version is 1 and both fractions lie between zero and one |
| `PetGeometry.DefaultAnchorX` | src-tauri/src/pet_window.rs:497-502 | without a usable file the anchor aims at 92 hundredths of the work area across, to within half a pixel |
| `PetGeometry.DefaultAnchorY` | src-tauri/src/pet_window.rs:497-502 | and at 88 hundredths down |
| `PetGeometry.FractionStopsAtEdges` | src-tauri/src/pet_window.rs:617-620 | saved fractions stop at zero and one, and are no number exactly for 0/0 |
| `PetGeometry.SaveThenRestore` | src-tauri/src/pet_window.rs:606-640 | saving from any layout and restoring with the monitor attached (a nameless one as primary) puts the anchor back within half a pixel, unless the 0..1 clamp, the 32-bit cast or the safe margin acts |
| `MainWindow.SaveThenLoad` | src-tauri/src/window_state.rs:47-104 | a snapshot that is saved is sane and loads as exactly the state saved, position included |
| `MainWindow.SnapshotMeans` | src-tauri/src/window_state.rs:29-64 | a snapshot is refused without a usable scale or with a side out of bounds; otherwise each saved side is the logical one, rounded, and at least 840 by 520 |
| `MainWindow.SanitizedMeans` | src-tauri/src/window_state.rs:96-104 | a loaded state is refused under the same bounds and keeps a position only if both parts are there |
| `MainWindow.ClampSizeMeans` | src-tauri/src/window_state.rs:66-86 | a side that leaves 24 logical pixels free is kept, and any other is cut to exactly that or to the smallest allowed |
| `MainWindow.ClampAxisLandsInside` | src-tauri/src/window_state.rs:407-417 | per-axis clamping ends inside exactly when the window fits, at the start of the area otherwise, and never needs its saturating cast |
| `MainWindow.ClampedDimensionFits` | src-tauri/src/window_state.rs:66-86 | after size clamping and rounding up to pixels, a dimension fits exactly when the smallest allowed window would |
| `MainWindow.RoomyMonitor` | src-tauri/src/window_state.rs:66-86 | a work area of 864 by 544 logical pixels has room for the smallest window, at every scale |
| `MainWindow.ClampedPositionFits` | src-tauri/src/window_state.rs:372-399 | size clamp followed by position clamp puts the window inside exactly when the smallest window fits |
| `MainWindow.ClampPositionMeans` | src-tauri/src/window_state.rs:372-417 | on each axis the position is moved only as far as it must, and to the area's start where the window does not fit |
| `MainWindow.FittingMeansEveryPixel` | src-tauri/src/window_state.rs:353-370 | fitting means that every pixel of the window lies in the work area |
| `MainWindow.TargetMeans` | src-tauri/src/window_state.rs:114-136 | the target is the first monitor that holds the saved corner, and the current one if none does |
| `MainWindow.RestoringMeans` | src-tauri/src/window_state.rs:112-183 | nothing is restored without a usable file; without a position the window is centered; a position that fits nowhere goes into the target or, without one, into the first monitor |
| `MainWindow.RestoredWindowIsVisible` | src-tauri/src/window_state.rs:112-183 | a saved position wholly inside some work area is kept; otherwise the window ends inside the target exactly when the smallest window fits there |
| `MainWindow.RestoredOnRoomyMonitor` | src-tauri/src/window_state.rs:319-417 | on a roomy target the restored window always lies wholly inside an available or the target work area |
| `SaveDebounce.NewestIsNeverSkipped` | src-tauri/src/window_state.rs:234-283 | the newest scheduled snapshot is written to the temporary file before its task finishes |
| `SaveDebounce.OnlyTheNewestSaves` | src-tauri/src/window_state.rs:267-271 | in every run a task that wakes goes on to save if and only if no later generation has been taken, and is over otherwise; whoever writes woke as the newest or is a closing save |
| `SaveDebounce.NewestSurvives` | src-tauri/src/window_state.rs:234-283 | with check, write of the shared temporary file and rename as separate steps: at rest the file holds the newest snapshot exactly when no older task was between check and write when the newest wrote |
| `SaveDebounce.TailDecides` | src-tauri/src/window_state.rs:439-449 | from any state whose newest snapshot is written, renames in any order, failing ones included, do not change what is saved in the end; only pending writes do |
| `SaveDebounce.ClosingSnapshotCanBeOverwritten` | src-tauri/src/window_state.rs:213-218 | a concrete run in which an older snapshot replaces the closing one |
| `ReportArchive.ValidExactlyWhen` | scripts/automation/control.py:129-193 | an archive reads as valid if and only if its LATEST files are clean and are the only copies of one immutable pair of the same stem and year, generated in that year |
| `ReportArchive.LegacyExactlyWhen` | scripts/automation/control.py:129-193 | an archive reads as a legacy index if and only if its LATEST files are clean and LATEST.json is no full document and names a clean immutable pair of one stem and year, generated then; it is missing if and only if a LATEST file is |
| `ReportArchive.EntryMeans` | scripts/automation/control.py:189-193 | the reported bytes, time and action items are those of the named pair |
| `ReportArchive.ValidMeansExactCopy` | scripts/automation/control.py:145-193 | the entry reported for a valid archive names files with exactly the bytes of LATEST, and no other immutable file has them |
| `ReportArchive.ScratchIsInvisible` | scripts/automation/control.py:129-193 | scratch files left beside LATEST never change what an archive reads as |
| `ArchivePromotion.PromotionIsAllOrNothing` | scripts/automation/control.py:282-320 | whichever operation raises first, promotion ends with the valid pair the index named or, after its rollback, with both LATEST files as they were; it promotes, passes over or raises each exactly by what the archive reads as, uniqueness and the fault |
| `ArchivePromotion.MixedPairStillReads` | scripts/automation/control.py:307-308 | between the two renames the archive still reads as the same legacy index |
| `ArchivePromotion.FullPairReads` | scripts/automation/control.py:145-160 | with both renamed it reads as valid exactly when the contents are unique, and is rejected otherwise |
| `ArchivePromotion.RerunCompletesExactlyWhen` | scripts/automation/control.py:282-320 | after any number of attempts that failed, died or stopped in their rollback at any step, one undisturbed rerun leaves the valid pair of the original index if and only if contents are unique and no attempt was unsafe |
| `ArchivePromotion.UnsafeIsFinal` | scripts/automation/control.py:307-318 | an unsafe attempt leaves an archive that is rejected and that every later run leaves as it is, raising |
| `ArchivePromotion.CrashesAreSafeExactlyWhen` | scripts/automation/control.py:282-320 | over any sequence of attempts with any endings the archive still stands for the pair the index named, if and only if no attempt was unsafe, as told from its ending, the uniqueness of contents and the LATEST.md it started with |
| `ArchivePromotion.AttemptReads` | scripts/automation/control.py:282-320 | what the archive reads as after each ending of one attempt: every fault, and stopping during staging, between and after the renames, and at each step of the rollback |
| `ArchivePromotion.UniqueContentsAreSafe` | scripts/automation/control.py:309-318 | with unique contents all attempts are safe unless one meets an I/O error in the read-back and stops between the two rollback copies, and even then if LATEST.md is the named report |
| `ArchivePromotion.GoodPairCanBeLost` | scripts/automation/control.py:309-318 | a concrete archive with unique contents that such an attempt turns into a rejected one |
| `ArchivePromotion.Archive.StageAndRename` | scripts/automation/control.py:297-308 | the try block on the real file map: disk, staged list and failure for each place it can be refused |
| `ArchivePromotion.Archive.PromoteLatest` | scripts/automation/control.py:285-320 | the promotion of one archive with its rollback and cleanup ends on exactly the disk and outcome the lemmas speak about |
| `ArchivePromotion.ArchiveRoot.NormalizeArchives` | scripts/automation/control.py:282-320 | told from what the archives read as before: the run raises if and only if some archive stops it, and then at the first such; it returns the entries of the legacy indexes it passed, in order, and later archives are untouched |
| `ArchivePromotion.NothingLeftToPromote` | scripts/automation/control.py:290-291 | over archives that are all missing or valid already a run changes nothing, raises nothing and returns nothing |
| `ArchivePromotion.FailedStagingLitters` | scripts/automation/control.py:299-306 | a staging step that fails leaves the scratch file it was writing and nothing else |
| `ArchivePromotion.LeavingTryMeans` | scripts/automation/control.py:297-309 | which operation of the try block failed shows on the disk: what has been renamed into place, which scratch files stand and which are listed for unlinking |
| `WriterLease.NoStealing` | scripts/automation/control.py:329-351 | between acquisitions by different owners there is a release by the first |
| `WriterLease.AcquiresUnlessHeld` | scripts/automation/control.py:342-351 | a proper request acquires if and only if no other owner has acquired without releasing since, told from the history of answers |
| `WriterLease.AnswersTold` | scripts/automation/control.py:329-351 | when a call raises (closed run, unknown task, broken worktree, lock taken), is busy, releases or acquires, told from the call and the lease |
| `WriterLease.ForeignersChangeNothing` | scripts/automation/control.py:344-345 | acquire or release by anyone but the holder leaves the lease as it is |
| `WriterLease.LeaseDatesFromItsFirstAcquisition` | scripts/automation/control.py:349-351 | a standing lease carries the time of the acquisition that found no lease; renewals keep it |
| `WriterLease.ClosedRunsOnlyRelease` | scripts/automation/control.py:333-337 | a closed run never acquires, and a completed one can give its own lease back |
| `WriterLease.Control.LeaseFor` | scripts/automation/control.py:329-351 | the five checks in their order and the new lease file, as the run lemmas take them |
| `Observations.RecordsStayGenuine` | scripts/automation/control.py:452-471 | over any run, with observation files edited by anybody in between, records match their fingerprints, never disappear and never go back in observation time |
| `Observations.ChangedIsExact` | scripts/automation/control.py:438-450 | a probe reports no change exactly when the remote state equals the one last acknowledged for that task |
| `Observations.PreflightTold` | scripts/automation/control.py:438-450 | when a probe raises, backs off or stores, and exactly what it stores |
| `Observations.AcknowledgeTold` | scripts/automation/control.py:452-471 | an observation is acknowledged if and only if task, directory, identity, fingerprint, date and outcome are in order; the record is due again in two hours if handled and six otherwise |
| `Observations.ProbeAcknowledgeProbe` | scripts/automation/control.py:438-471 | a fresh observation is acknowledged unless a newer one was; then unforced probes back off for two hours if it was handled and for six otherwise, and an unchanged remote state reads as unchanged |
| `Observations.ForgeriesAreRefused` | scripts/automation/control.py:452-465 | an observation whose data alone was edited, or that is presented for another task or directory, changes nothing |
| `Observations.EditsPassExactlyWithTheirFingerprint` | scripts/automation/control.py:452-471 | an observation edited in data and fingerprint is accepted if and only if the original would be and the fingerprint is that of the new data; the record then carries the new data |
| `Observations.EditedDatePasses` | scripts/automation/control.py:452-471 | an observation edited in its date alone is accepted if and only if the new date is not older than the record's |
| `Observations.FutureDateLocksOut` | scripts/automation/control.py:465-466 | once acknowledged, a date makes every earlier-dated observation of that task unacceptable, over any later run |
| `Observations.ObservationControl.RunPreflight` | scripts/automation/control.py:438-450 | backs off, or stores exactly one new observation, and touches no record |
| `Observations.ObservationControl.RunAcknowledge` | scripts/automation/control.py:452-471 | replaces exactly one record after all its checks, and changes nothing when one fails |
| `Recovery.RestoreSucceeds` | scripts/automation/control.py:537-551 | a restore succeeds if and only if every record matches the backup and no file would be written twice |
| `Recovery.RestoredContents` | scripts/automation/control.py:537-551 | it then holds exactly the recorded paths with the backup's bytes, beside what was there |
| `Recovery.VerifyRestore` | scripts/automation/control.py:537-551 | the loop computes that restore and counts all records |
| `Recovery.CopyAll` | scripts/automation/control.py:510-517 | the copy loop succeeds exactly when every selected file can be read and is clean, and then holds their bytes and describes each |
| `Recovery.Recover` | scripts/automation/control.py:473-535 | a receipt is given exactly when every selected file could be copied, and the backup proved restorable then holds the original bytes |
| `Recovery.RestoreRecreatesOriginals` | scripts/automation/control.py:473-551 | whatever happened to the backup since, restoring against the manifest succeeds if and only if every recorded file kept its bytes, and recreates the original files |
| `NativePort.DelayIsCappedDoubling` | extensions/chrome/service_worker.js:30-38 | capping the exponent at ten never changes min(30000, 1000 * 2^n) |
| `NativePort.RetryWaitsByHistory` | extensions/chrome/service_worker.js:30-38 | in every run a retry that is coming waits min(30000, 1000 * 2^n) for the n retries armed before it since the last message |
| `NativePort.FlagAndTimerAreHonest` | extensions/chrome/service_worker.js:176-236 | in every run the connected flag tells whether a port is held, and at most one reconnect timer runs, with the right delay |
| `NativePort.AlwaysOnTheWayBack` | extensions/chrome/service_worker.js:30-236 | in every run, once a port has been opened there is a port, a running reconnect timer, or a dropped port whose disconnect will start one; where no hello post throws, it is a port or a timer |
| `NativePort.AdriftStepByStep` | extensions/chrome/service_worker.js:30-236 | the exact losing step: a worker with a port or a retry loses both in one event if and only if a message arrives while no port is held; and the events that end such a state are exactly those that connect or disconnect |
| `NativePort.AdriftExactlyWhen` | extensions/chrome/service_worker.js:30-236 | after any run, a worker that has opened a port has neither port nor retry if and only if, with no rescue since, a message from a dropped port silenced the retry, or nothing ever succeeded and a hello threw |
| `NativePort.RequestsSettleExactlyOnce` | extensions/chrome/service_worker.js:185-254 | in every run each request is pending with its own running timer or was taken out and settled exactly once, by response, timeout or disconnect; without a port none is pending; a throwing post adds at most one reject call, and none where posts succeed |
| `NativePort.RequestsSettleTheRightWay` | extensions/chrome/service_worker.js:185-254 | in every run a request is resolved if and only if a message answered it with success while pending, rejected if and only if one answered it with failure, timed out if and only if its own timer fired, disconnected if and only if a port disconnected, and rejected at once if and only if its own post threw |
| `NativePort.HalfOpenPortCanStrandTheWorker` | extensions/chrome/service_worker.js:185-236 | a concrete run with a throwing hello that ends with no port held and no timer at all |
| `NativePort.NextKeepsInv` | extensions/chrome/service_worker.js:30-254 | every callback keeps the invariant: the flag is whether a port is held, the one reconnect timer is the recorded one, and pending entries and timeout timers name each other |
| `NativePort.NextKeepsLedger` | extensions/chrome/service_worker.js:185-254 | every callback keeps the books: an issued request is pending or taken out exactly once, and none is pending without a port |
| `NativePort.Worker.ScheduleReconnect` | extensions/chrome/service_worker.js:30-46 | arms one timer with the backoff delay unless a timer or a port exists, as the machine does |
| `NativePort.Worker.EnsureNativePort` | extensions/chrome/service_worker.js:176-236 | opens a port unless one is held; both ways of throwing leave the state the machine says, the half-opened port included |
| `NativePort.Worker.OnAlarm` | extensions/chrome/service_worker.js:60-68 | reconnects without a port and does nothing with one |
| `NativePort.Worker.OnReconnectTimer` | extensions/chrome/service_worker.js:38-46 | forgets the timer that fired, tries to connect, and schedules the next attempt when that throws |
| `NativePort.Worker.OnRequestTimeout` | extensions/chrome/service_worker.js:242-245 | takes the request out and rejects it |
| `NativePort.Worker.OnMessage` | extensions/chrome/service_worker.js:185-207 | starts the backoff over, stops a running retry, and settles the request the message answers |
| `NativePort.Worker.OnDisconnect` | extensions/chrome/service_worker.js:208-220 | drops the port, rejects everything pending with its timers stopped, then schedules the retry |
| `NativePort.Worker.RejectAll` | extensions/chrome/service_worker.js:212-216 | the loop empties the pending map, stops exactly its timers and rejects each request once |
| `NativePort.Worker.SendNative` | extensions/chrome/service_worker.js:238-254 | issues a request with a timer of its own on a live port, and issues nothing when connecting throws |
| `Base64.DecodeEncode` | extensions/chrome/service_worker.js:363-379 | decoding gives back the encoded bytes (section 4 of RFC 4648) |
| `Base64.AlphabetMeans` | extensions/chrome/service_worker.js:363-379 | the alphabet is that of section 4 of RFC 4648 |
| `Base64.GroupIsANumber` | extensions/chrome/service_worker.js:363-370 | a group's characters, read in base 64, are its bytes read in base 256, with zero bits and padding behind (section 4 of RFC 4648) |
| `Base64.EncodeDecode` | crates/ha-browser/src/browser/extension/broker.rs:1502-1504 | the strict decoder of the receiving side: a text that decodes is the encoding of what it decodes to |
| `Base64.AtobEncode` | extensions/chrome/service_worker.js:363-379 | the browser's forgiving decoder also gives back the encoded bytes |
| `Base64.AtobExtendsDecode` | extensions/chrome/service_worker.js:372-379 | it agrees with the strict decoder wherever that one accepts |
| `Base64.EncodeConcatenates` | extensions/chrome/service_worker.js:363-370 | cutting bytes at a multiple of three cuts the text without changing it |
| `HostBlob.Base64Bytes` | extensions/chrome/service_worker.js:363-370 | the sliced loop encodes the whole |
| `HostBlob.BytesFromBase64` | extensions/chrome/service_worker.js:372-379 | the character loop yields what `atob` decodes, spaces, missing padding and stray trailing bits forgiven |
| `HostBlob.PostHostBlob` | extensions/chrome/service_worker.js:314-351 | the loop posts begin, every chunk with its index, offset and text, and end |
| `HostBlob.PostHostResponse` | extensions/chrome/service_worker.js:284-312 | answers up to the direct limit go in one message, larger ones as a blob and a reference to it |
| `HostBlob.ChunkCountIsCeiling` | extensions/chrome/service_worker.js:314-320 | the chunk count is the ceiling of size over 192 KiB |
| `HostBlob.BeginMeans` | crates/ha-browser/src/browser/extension/broker.rs:1410-1474 | only a begin about this blob with a size from 1 to 256 MiB starts it anew, empty |
| `HostBlob.ChunkMeans` | crates/ha-browser/src/browser/extension/broker.rs:1476-1543 | a chunk is taken if and only if its number is new and below 4096, its text decodes to some bytes, and they lie inside the blob on no position written before; then exactly they are written and counted |
| `HostBlob.EndMeans` | crates/ha-browser/src/browser/extension/broker.rs:1545-1615 | an end completes the blob if and only if it counts the chunks right, every byte has come, and both digests are the file's |
| `HostBlob.ChunkTextsJoin` | extensions/chrome/service_worker.js:322-340 | the chunks' base64 texts join to the base64 text of the whole blob |
| `HostBlob.BlobArrives` | crates/ha-browser/src/browser/extension/broker.rs:1410-1615 | in whatever order the chunks arrive, the broker publishes exactly the bytes sent, for every size it admits, and nothing for the others |
| `HostBlob.SentBlobArrives` | extensions/chrome/service_worker.js:314-351 | what the extension posts, the broker assembles: sender and receiver together are the identity |
| `HostBlob.OnlyTheAnnouncedBytes` | crates/ha-browser/src/browser/extension/broker.rs:1545-1615 | under lost, repeated or foreign messages nothing but the announced bytes is ever published |
| `SnapshotWalk.ListingIsExact` | extensions/chrome/service_worker.js:643-683 | the uncapped listing contains exactly the emitting elements reachable through visible non-iframe elements within the depth limit, in document order, once each, with depth the number of listed ancestors |
| `SnapshotWalk.Snapshot.Walk` | extensions/chrome/service_worker.js:643-683 | the mutating walk appends, numbered on, as much of that listing as the cap leaves room for |
| `SnapshotWalk.CollectSnapshot` | extensions/chrome/service_worker.js:529-692 | the result is the first min(cap, total) entries numbered 1..k, and `truncated` false means nothing was dropped |
| `SnapshotWalk.CapOf` | extensions/chrome/service_worker.js:1448-1451 | a requested maximum is rounded down and kept between 1 and 300; without a finite one it is 160 |
| `ChordShortcuts.ChordsFireInSequence` | src-tauri/src/shortcuts.rs:29-160 | a chord action fires only if the previous delivered press was the first part of an enabled binding, less than 1500 ms earlier, and this press its second part; it is the action of the first binding configured with these parts |
| `ChordShortcuts.PressEffects` | src-tauri/src/shortcuts.rs:43-160 | told from the configuration: a press completes a chord if one is pending in time, else arms one if a two-part binding begins with the key, else fires the first binding that is just this key, else is unbound |
| `ChordShortcuts.TimerEffects` | src-tauri/src/shortcuts.rs:124-136 | a timer that wakes reports a timeout exactly if it takes a chord |
| `ChordShortcuts.QuietSteps` | src-tauri/src/commands/config.rs:384-412 | edits, reloads, pauses and resumes fire nothing, and which keys and which chord each leaves |
| `ChordShortcuts.PermanentMeans` | src-tauri/src/setup.rs:413-430 | what a configuration registers is what its enabled bindings begin with |
| `ChordShortcuts.SecondsMean` | src-tauri/src/shortcuts.rs:84-112 | what arming a chord registers is the second parts of the two-part bindings that begin with the key |
| `ChordShortcuts.ChordsComplete` | src-tauri/src/shortcuts.rs:43-138 | conversely first part then second part in time fires such a binding, whatever edits come between |
| `ChordShortcuts.RegisteredKeysAreRight` | src-tauri/src/shortcuts.rs:29-160 | if second parts are disjoint from permanent keys, the registered keys are always the permanent ones plus the pending second parts, through completion, mismatch, expiry, stale timers and reloads |
| `ChordShortcuts.KeysAreRightUnlessDead` | src-tauri/src/shortcuts.rs:29-160 | in every run, with shared keys and resumes at any time, only permanent keys and pending second parts are registered, and one of them is missing if and only if the last step that touched it unregistered it |
| `ChordShortcuts.CancelKeepsRightKeys` | src-tauri/src/shortcuts.rs:59-83 | ending a chord keeps exactly the right keys registered if and only if none of its second parts is a permanent key |
| `ChordShortcuts.SharedKeyGoesDead` | src-tauri/src/shortcuts.rs:124-136 | a concrete run after which a permanent key is no longer registered |
| `ChordShortcuts.ResumeKeepsRightKeys` | src-tauri/src/commands/config.rs:384-412 | resuming keeps that equation if and only if no second part is pending |
| `ChordShortcuts.ResumeCanDropSecondParts` | src-tauri/src/commands/config.rs:392-410 | a concrete run in which it does not |
| `ChordShortcuts.OlderTimerCutsChordShort` | src-tauri/src/shortcuts.rs:124-136 | a concrete run in which an older timer ends a newer chord early |
| `ChordShortcuts.ChordFiresExactlyWhen` | src-tauri/src/shortcuts.rs:43-138 | over any timers, edits, reloads, pauses and resumes after the first part, the second part pressed before the deadline fires if and only if no timer, reload or pause came in between and the last resume, if any, registered it |
| `ChordShortcuts.ChordIsSafeFromOlderTimers` | src-tauri/src/shortcuts.rs:124-136 | as long as nobody reloads, pauses or resumes without the second part, pressing it at a given time before the deadline is certain to fire if and only if every thread already asleep at the first part wakes later than that |
| `ChordRaces.RightKeysUnlessSwept` | src-tauri/src/shortcuts.rs:43-136 | in every interleaving of the three steps of presses with the steps of any number of reloads, pauses and resumes, timers and edits, whenever none is under way the registered keys are right if and only if no second part is pending or nobody unregistered everything since it was registered |
| `ChordRaces.UninterruptedPress` | src-tauri/src/shortcuts.rs:29-138 | the three steps of a press nobody interrupts are the one-step press of `ChordShortcuts` |
| `ChordRaces.UninterruptedReload` | src-tauri/src/setup.rs:404-432 | likewise for a reload, and for a pause |
| `ChordRaces.UninterruptedResume` | src-tauri/src/commands/config.rs:392-410 | likewise for a resume |
| `ChordRaces.ReloadInTheGap` | src-tauri/src/shortcuts.rs:106-119 | a concrete run in which a reload falls between registering second parts and setting the chord |
| `ChordShortcuts.Shortcuts.HandleShortcut` | src-tauri/src/shortcuts.rs:29-160 | the registering and unregistering loops and the three stages of a press leave the state the machine says; releases do nothing |
| `ChordShortcuts.Shortcuts.TimeoutThread` | src-tauri/src/shortcuts.rs:122-136 | a timer takes whatever chord is pending and unregisters its second parts |
| `ChordShortcuts.Shortcuts.ReloadShortcuts` | src-tauri/src/setup.rs:404-432 | afterwards exactly the new permanent keys are registered and no chord is pending, or nothing when loading fails |
| `ClaimEvidence.CheckSupports` | scripts/experiments/claim_evidence_consistency.py:70-82 | the loop with its early exit accepts exactly when every support is in project, scope and version |
| `ClaimEvidence.Evaluate` | scripts/experiments/claim_evidence_consistency.py:61-93 | every claim gets its verdict, and only claims do |
| `ClaimEvidence.VerdictMeans` | scripts/experiments/claim_evidence_consistency.py:61-93 | valid means: own artifact open and in the project, supports present and all good, and the rule holds of the cited records |
| `ClaimEvidence.SupportedMeans` | scripts/experiments/claim_evidence_consistency.py:70-82 | a support is good if and only if its citation leads to an object of an open artifact of the claim's project, in its scope, with the digest cited |
| `ClaimEvidence.RuleMeans` | scripts/experiments/claim_evidence_consistency.py:83-92 | a sum is valid if and only if every record holds a whole amount and they add up to the value; a copied text if and only if there is one record and its text is the value; no other rule is |
| `ClaimEvidence.VerdictIsLocal` | scripts/experiments/claim_evidence_consistency.py:61-93 | a verdict depends only on the claim's own artifact, its citations and the cited records |
| `ClaimEvidence.EditInvalidatesExactlyItsCiters` | scripts/experiments/claim_evidence_consistency.py:61-93 | in an all-valid bundle, changing or deleting one record invalidates exactly the claims that cite it |
| `ClaimEvidence.CompletenessIsWeaker` | scripts/experiments/claim_evidence_consistency.py:96-100 | validity implies the presence check, which no edit of a record can ever change |
| `ClaimEvidence.CompleteMeans` | scripts/experiments/claim_evidence_consistency.py:96-100 | the presence check wants at least one support and every one to be a citation there is |
| `WorkflowCohort.Cohorts` | scripts/experiments/workflow_cohort.py:22-68 | the row loop with its per-week cells yields the report, and windows that are not whole Monday weeks are refused |
| `WorkflowCohort.LineMeans` | scripts/experiments/workflow_cohort.py:42-67 | each figure of a line is a count over the runs themselves: templates with a run in that week, runs per end state, with a goal of their own session, accepted, and templates seen again the week after |
| `WorkflowCohort.SelectMeans` | scripts/experiments/workflow_cohort.py:33-41 | the query selects exactly the runs of saved templates of the project in its ordinary sessions, with the goal of their own session |
| `WorkflowCohort.LengtheningOnlyUncensors` | scripts/experiments/workflow_cohort.py:50-67 | one more week leaves earlier lines alone, except that the formerly last one gains its return figures |
| `WorkflowCohort.ReportIgnoresOrder` | scripts/experiments/workflow_cohort.py:42-49 | the report is the same for every order of the rows |
| `WorkflowCohort.ReportIgnoresStrangers` | scripts/experiments/workflow_cohort.py:33-45 | out-of-scope runs and runs outside the window change nothing, wherever they stand |
| `WorkflowCohort.RatesAreRates` | scripts/experiments/workflow_cohort.py:18-67 | accepted is at most linked is at most completed, every rate lies in 0..1, and is absent exactly when censored or without a denominator |
| `WorkflowCohort.RatesMean` | scripts/experiments/workflow_cohort.py:18-67 | each rate times its denominator is its numerator |
| `WorkflowCohort.MondaysComeWeekly` | scripts/experiments/workflow_cohort.py:22-25 | a window begins on a Monday: day one, every seventh day from it, and no other |
| `AssetBundle.ParallelIsSequential` | crates/ha-server/build.rs:182-205 | compressing in chunks on any number of threads yields the sequential result |
| `AssetBundle.ChunksForThreads` | crates/ha-server/build.rs:189-196 | there are no more chunks than threads, and none longer than an even share rounded up |
| `AssetBundle.CompressOneMeans` | crates/ha-server/build.rs:216-235 | compressed bytes are stored if compressing worked and leaves less than 95 percent, the raw ones otherwise |
| `AssetBundle.WriteBundle` | crates/ha-server/build.rs:182-218 | the loop writes the concatenated parts and an index of prefix sums, cast to 32 bits |
| `AssetBundle.PartsTileTheBlob` | crates/ha-server/build.rs:203-211 | parts tile the blob without gap or overlap, and each slice is the stored part |
| `AssetBundle.MarkerIsHonest` | crates/ha-server/build.rs:216-235 | the length marker is right if and only if compression does not save a positive multiple of four gigabytes; always below that size |
| `AssetBundle.HugeFileCanBeMisread` | crates/ha-server/src/web_assets.rs:86-91 | a concrete file and a lossless compressor for which it is wrong, although the blob is small |
| `AssetBundle.Lookup` | crates/ha-server/src/web_assets.rs:79-92 | binary search finds a path exactly when it is in the index and yields its slice and marker |
| `AssetBundle.SortedStrictly` | crates/ha-server/build.rs:93 | sorting distinct paths gives the strict order the search relies on |
| `AssetBundle.EveryFileIsServed` | crates/ha-server/build.rs:182-235 | with a lossless compressor and a blob below four gigabytes, the indexed slice is served as the file's bytes if and only if compression does not save a positive multiple of four gigabytes |
| `AssetBundle.BuildThenLookup` | crates/ha-server/src/web_assets.rs:79-92 | build, then look up: every collected file is found and decodes to its bytes, and no other path is found |
| `Downsampler.SamplesFit` | public/pcm16-downsampler.worklet.js:19-20 | the 16-bit store never wraps: it is the truncated scaled sample, and full scale maps to the ends of the range |
| `Downsampler.SampleMeans` | public/pcm16-downsampler.worklet.js:19-20 | a sample in range is stored as its scaled value cut toward zero, one out of range as the end of the range |
| `Downsampler.CursorIsTheRemainder` | public/pcm16-downsampler.worklet.js:16-18 | the cursor stays in [0, step) and is the input count minus output count times step |
| `Downsampler.OutputCount` | public/pcm16-downsampler.worklet.js:15-26 | after N input samples at a rate of at least 16000, exactly floor(16000 N / rate) samples have been produced |
| `Downsampler.CountLawNeedsFastInput` | public/pcm16-downsampler.worklet.js:10-18 | the count law holds for every length if and only if the step is at least one |
| `Downsampler.PickedFrom` | public/pcm16-downsampler.worklet.js:15-20 | output sample k is taken from the first input sample whose number reaches k steps |
| `Downsampler.HoldsGrows` | public/pcm16-downsampler.worklet.js:20-24 | one more sample extends the open frame or completes it, and posted frames stay successive blocks of the stream |
| `Downsampler.Worklet.Process` | public/pcm16-downsampler.worklet.js:12-28 | posted frames are the blocks of everything heard so far, however it was split into calls; earlier frames stay posted |
| `AnalyserLevels.RunAfterShift` | src/hooks/useAnalyserLevels.ts:93-101 | shifting one sample into a full ring extends, caps or resets the run of trailing zeros |
| `AnalyserLevels.Recorder.Tick` | src/hooks/useAnalyserLevels.ts:89-104 | the counter is the true trailing run, the ring is the last 48 samples, and the published copy is out of date exactly when silence set in over a sound at its head |
| `AnalyserLevels.Recorder.OnFrame` | src/hooks/useAnalyserLevels.ts:74-82 | the published level stays within 0.02 of the latest one and changes only when it must |
| `AnalyserLevels.Recorder.Stop` | src/hooks/useAnalyserLevels.ts:49-61 | everything is silent again, and ring and published history are one array |

## Left out

- Weak memory: the pet saver is modelled over sequentially consistent interleavings; the acquire and release orderings and a failing `thread::spawn` are not.
- Native window calls: reading scale and position and applying a frame is one step that succeeds or fails; scale and monitor stay the same during a run of bounds requests.
- Number widths: layout and move revisions do not wrap at 64 bits, and work-area edges do not overflow 32 bits; the saturating casts of rounded doubles are modelled.
- Floating point: doubles are exact reals, with NaN and infinities only where the code tests for them; the comparison with 0.95 in the build script is exact; NaN samples in the worklet are not modelled.
- Serialization: JSON text, its parsing, the 16 KiB limit on the pet's file and partially written state files are not modelled; a state is written and read as a value.
- The write of a temporary file is one step: a rename that catches it half written is not modelled.
- Main-window saves that fail or are skipped because the window is minimised or maximised.
- Archives: symbolic links, path resolution, file names that consist of a suffix only, and calendar parsing of ISO timestamps (the year is a parameter); one copy, write or rename of a file is one step. `PromoteLatest` itself has a rollback whose copies succeed; one that stops half way is an ending of an attempt.
- Control plane: git and GitHub queries, subprocesses, worktree checks, the file lock's own mechanism, automation listings and secret patterns; their results are parameters. Times are integers instead of ISO strings. Digests are injective where a lemma says so.
- Blob transfer: expiry after ten minutes, MIME types, purposes and storage errors.
- Extension worker: eviction by the browser, which resets the module state, starts a new run.
- Snapshot: element attributes, roles, texts and selectors; no claim is made that selectors are unique. Visibility and tag tests are fields of the node.
- Shortcuts: the operating system accepts every registration, and actions themselves are not modelled. Presses are delivered one at a time. In `ChordRaces` overlapping reloads of different configurations leave the keys of both, which all count as permanent there.
- Claims: Python's numeric equality across types (`1 == True == 1.0`) is not modelled; amounts are integers and scalars are equal when type and value are.
- Cohorts: the SQL engine and time zones; rows are joined over maps and dates are day numbers.
- Bundle: directory traversal, paths that collide after lossy decoding, the fallback page and HTTP negotiation; Brotli is a function that may fail, with an inverse.
- Observation ring buffers, debugger sessions, tabs and overlays of the extension; `window_visibility.rs`; React views; build glue: easy or tied to the platform.
