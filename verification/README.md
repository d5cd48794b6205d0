# Verified model of the home-monitor camera and server cores

A Dafny model of the stateful and arithmetic cores of the Raspberry Pi home monitor, with
proofs about every run of them. Objects that the program updates in place are classes whose
methods are proved against pure functions; what the program promises is then proved about
those functions, over whole histories.

| part | files | main results |
|---|---|---|
| motion detector and runner | MotionModel, MotionDetector, MotionHistory, MotionLog, MotionSensitivity, FrameReader | a higher sensitivity simulates a lower one over every run; counters and posted transitions are read off scores and times alone; starts and ends alternate exactly as long as the clock swallows no end; frames are the blocks of the byte stream |
| maintenance restart | RestartSchedule, RestartScheduler | the eight-day scan finds the least scheduled minute; each minute is decided at most once, across process restarts, exactly as long as the record can be read when it matters; frequent checks decide every scheduled minute |
| updates | SemVer, OtaPolicy, VersionText, Cpio, OtaStaging | every spelled version parses back and nothing else parses; the comparison is clause 11 of Semantic Versioning 2.0.0; which bundles are blocked, down to their bytes; install chains never lower (major, minor, patch); the exact conditions under which precedence can drop and under which matching chains; archive round trip; staging is all or nothing |
| limiters | LoginLimiter, AccountLockout, SetupLimiter | time bounds over every run, and exactly which requests are refused, read off the failures or admissions before them |
| camera control | Control, ControlOutcomes, ControlHandler, ConfigFile | every answer by its exact condition; applied changes are five seconds apart; valid modes, documented ranges, increasing request ids; when a request is all or nothing, and what a failed save leaves; when a boolean in an integer field breaks the override or the configuration; a run of requests survives a restart of the process |
| server-name resolver | ServerResolver | at most nine attempts; when the fault is raised; only LAN addresses are held |

Shared vocabulary is in Prelude and Text. `dafny verify dfyconfig.toml` checks everything.

## Conventions

- Clocks, frames, network answers, file contents and failures of the operating system are
  parameters. Times, scores and thresholds are exact (rationals, or whole microseconds for the
  restart schedule); no rounding is modelled except where the program truncates on purpose.
- A `Run`, `Log`, `Failures`, `Decisions`, `AppliedIds` or `Final` function gives the state or the
  observable history after a sequence of inputs; the theorems quantify over all such sequences.
- An event's `serial` stands for the identity of the event object, so that a queued transition
  and the running event can be recognised as one object.
- The JSON library is a parameter (`Codec`) of the control handler; results that depend on it say
  so through `Faithful` (it reads back what it writes for the values of this request) or `Tidy`
  (it writes one plain line).
- Where code and documentation differ, the code is followed: `motion.py` describes a three-frame
  intersection but differences two frames, and keeps the older frame only in its ring.

## Findings

- `fps = True` passes validation, because a Python boolean is an integer, and is stored as
  `true`, after which the configuration cannot be read, and no later request repairs it
  (`Control.TrueAsFps`, `Control.UnreadableForGood`). The exact condition, on the state and the
  request before the call, is `Control.BooleanIntegersBreakReading`; `motion_sensitivity = True`
  stays readable but is read back as 5, and `Control.AppliedOverridesConfig` is the exact condition
  for the override.
- A request whose save fails raises, yet its values stay in memory without its request id and time
  (`Control.AllOrNothing`). Sent again, it is answered as unchanged although the file was never
  written; the exact condition is `Control.FailedSaveIsForgotten`.
- Precedence can drop along allowed installs, exactly when both versions have the same triple, the
  target carries a `-dev` or `-prod` label, and the running version is the bare release, or the
  running label is `-prod` and the target `-dev` (`OtaPolicy.StepBetweenTexts`).
- Matching is not transitive (`OtaPolicy.MatchIsNotTransitive` is the smallest case). Two matches
  fail to chain exactly when the middle label carries a build profile, one neighbour spells that
  very version without a profile, which takes build metadata, and the other neighbour is another
  version (`OtaPolicy.MatchChains`, for any three texts).
- An archive entry without data is accepted from a file cut inside the name; the exact set of
  rejected prefixes is `Cpio.PrefixesRejected`.
- A clock that steps back can swallow an end transition (`MotionLog.ClockStepSwallowsEnd`). Starts
  and ends alternate all along a history exactly when no sample closes a reported event that is
  then younger than the minimum duration (`MotionLog.AlternateIffNothingSwallowed`).
- A minute skipped because OTA was busy is rebooted for after all when the next check cannot read
  the state file (`RestartScheduler.UnreadableFileReboots`); the exact condition for deciding each
  minute at most once is `RestartScheduler.AtMostOneDecisionPerMinute`.

## Model

| member | source | states |
|---|---|---|
| `MotionDetector.Detector.ProcessFrame` | app/camera/camera_streamer/motion.py:158-211 | a frame that is not 2-D or not uint8 is refused without any change; any other advances ring and hysteresis exactly as the sample-level model says |
| `MotionDetector.Detector.PollEvent` | app/camera/camera_streamer/motion.py:213-222 | hands over the queued transition once |
| `MotionDetector.Detector.Update` | app/camera/camera_streamer/motion.py:226-265 | the in-place counters, event object and queue follow the pure hysteresis step, including an event that is both running and queued |
| `MotionDetector.Detector.EmitStart` | app/camera/camera_streamer/motion.py:267-284 | the start is queued at most once, when the event is old enough and nothing else is queued |
| `MotionDetector.Detector.Close` | app/camera/camera_streamer/motion.py:286-302 | closing always clears the event; the end is queued exactly for a reported event of sufficient age |
| `MotionDetector.Detector.ResetState` | app/camera/camera_streamer/motion.py:148-156 | back to the cold state |
| `MotionDetector.Runner.ProcessFrame` | app/camera/camera_streamer/motion_runner.py:302-317 | over its whole life the runner's posts are exactly the log of the frames that passed the running and warm-up gates since the last start |
| `MotionDetector.Runner.StartRunner` | app/camera/camera_streamer/motion_runner.py:272-300 | nothing while the reading thread is alive; otherwise the detector goes cold, the log starts anew and the warm-up gate is set |
| `MotionModel.FramesAreSamples` | app/camera/camera_streamer/motion.py:178-211 | between restarts the frame detector is the score detector fed with one score per frame from the third on, and holds the last two frames |
| `MotionModel.SamplesCount` | app/camera/camera_streamer/motion.py:196-206 | each sample's score is the number of pixels that got brighter or darker by more than the threshold since the frame before, over the size of the frame |
| `MotionHistory.CountersRefineHistory` | app/camera/camera_streamer/motion.py:226-302 | for every history: in an event exactly when the last start-run since the last close (or end-run since opening) of scores says so; start time, and peak as the first maximum from the opening frame on, are those of the scores |
| `MotionHistory.ReportIsReadOffHistory` | app/camera/camera_streamer/motion.py:267-284 | an event is reported exactly when, since it opened, some sample above the end threshold came at least the minimum duration after its start |
| `MotionHistory.PostsAreReadOffHistory` | app/camera/camera_streamer/motion.py:226-302 | after every history, one more sample posts a start exactly when it is the first to be due, an end exactly when the closing run is complete for a reported event still old enough, and nothing else; with the start time and peak of the scores |
| `MotionLog.EveryEndHasItsStart` | app/camera/camera_streamer/motion.py:213-302 | whatever the clock does, every end directly follows the start of the same event, which lasted the minimum duration |
| `MotionLog.AlternateIffNothingSwallowed` | app/camera/camera_streamer/motion.py:286-302 | whatever the clock does: starts and ends alternate at every moment, an odd log meaning an open reported event, if and only if no sample closed a reported event younger than the minimum duration |
| `MotionLog.StartsAndEndsAlternate` | app/camera/camera_streamer/motion.py:213-302 | on a non-decreasing clock nothing is swallowed, so starts and ends strictly alternate |
| `MotionLog.PostsAlternate` | app/camera/camera_streamer/motion_runner.py:302-317 | the same for what the runner posts for any frames captured on a non-decreasing clock between two starts |
| `MotionLog.StartsAreDistinct` | app/camera/camera_streamer/motion.py:235-284 | no event is announced twice |
| `MotionLog.ClockStepSwallowsEnd` | app/camera/camera_streamer/motion.py:295-300 | a history with a clock step back whose log is two starts in a row |
| `MotionSensitivity.DialIsMonotone` | app/camera/camera_streamer/motion_runner.py:52-98 | a higher dial setting lowers every threshold and changes nothing else |
| `MotionSensitivity.DialFiveIsDefault` | app/camera/camera_streamer/motion.py:54-83 | the middle of the dial is the detector's own default configuration |
| `MotionSensitivity.HigherSensitivitySimulates` | app/camera/camera_streamer/motion.py:158-302 | simulation between any two ordered configurations, on all frames, restarts and non-decreasing clocks |
| `MotionSensitivity.SensitivitySimulation` | app/camera/camera_streamer/motion_runner.py:52-98 | for s <= s', after every prefix of every run: in an event at s implies in an event at s', opened no later, and reported at s implies reported at s' |
| `FrameReader.ReadFrames` | app/camera/camera_streamer/motion_runner.py:348-370 | for any delivery of the bytes: frames and leftover are the bytes read, frames are the consecutive blocks, the leftover is shorter than a frame and every read asks for 1 to FRAME_BYTES bytes |
| `FrameReader.FramesAreBlocks` | app/camera/camera_streamer/motion_runner.py:365-370 | a stream can be cut into whole frames and a shorter rest in one way only, so chunking cannot matter |
| `FrameReader.DeliveryIsTaken` | app/camera/camera_streamer/motion_runner.py:348-364 | while every read delivers something, at least a byte a turn is taken until nothing is left |
| `RestartSchedule.NextRunIsLeastScheduledMinute` | app/camera/camera_streamer/restart_schedule_model.py:68-101 | for every payload and instant: the next run of an enabled schedule exists, is the least scheduled minute strictly later, and is at most 7 days away; a disabled schedule has none |
| `RestartSchedule.KeyNamesDayAndTime` | app/camera/camera_streamer/restart_schedule_model.py:93-101 | an instant in minute m of day i of any week, Monday first, has a key exactly when the schedule is enabled and names that day and that time; the key is the minute |
| `RestartSchedule.NormaliseIsIdempotent` | app/camera/camera_streamer/restart_schedule_model.py:20-65 | a normalised schedule sent back, by any source, normalises to itself |
| `RestartSchedule.ValidDays` | app/camera/camera_streamer/restart_schedule_model.py:34-42 | never empty; exactly the named days when any is a day of the week |
| `RestartSchedule.DaysAreInOrder` | app/camera/camera_streamer/restart_schedule_model.py:34-42 | the days come in week order, none twice |
| `RestartSchedule.ValidTime` | app/camera/camera_streamer/restart_schedule_model.py:20-31 | always the text of a minute of the day |
| `RestartSchedule.TimeIsTakenOrDefault` | app/camera/camera_streamer/restart_schedule_model.py:20-31 | a text that writes a minute of the day, a final line feed allowed, is taken; anything else becomes 03:30 |
| `RestartSchedule.ClockTextReads` | app/camera/camera_streamer/restart_schedule_model.py:30 | the text of a minute reads as its hours and minutes |
| `RestartScheduler.Scheduler.CheckOnce` | app/camera/camera_streamer/restart_scheduler.py:85-99 | one check follows the memory model under the key of its own minute: reboot exactly when the minute is scheduled, undecided, not busy and recorded; it raises exactly when a decision could not be recorded |
| `RestartScheduler.StateFile.MarkRun` | app/camera/camera_streamer/restart_scheduler.py:101-120 | through the temporary file and the rename, whichever fails, the record is replaced whole or not at all; other entries survive exactly when the old file could be read |
| `RestartScheduler.AtMostOneDecisionPerMinute` | app/camera/camera_streamer/restart_scheduler.py:85-120 | over checks, process restarts, unreadable and unwritable state files: no minute is decided twice if and only if no check met the recorded minute without being able to read the record |
| `RestartScheduler.UnreadableFileReboots` | app/camera/camera_streamer/restart_scheduler.py:92-106 | a busy skip followed by an unreadable state file: the same minute is rebooted for |
| `RestartScheduler.RepeatNeedsSkipOrRestart` | app/camera/camera_streamer/restart_scheduler.py:85-99 | whatever can be read or written, a minute is decided again only after a busy skip or a process restart in between |
| `RestartScheduler.FirstCheckDecides` | app/camera/camera_streamer/restart_scheduler.py:85-99 | the first check inside a scheduled minute settles it: reboot, or never when OTA was busy |
| `RestartScheduler.EveryScheduledMinuteDecidedOnce` | app/camera/camera_streamer/restart_scheduler.py:77-99 | with checks less than 60 s apart and a writable file, every scheduled minute is decided by the first check inside it, and by no other unless the record was forgotten |
| `SemVer.CompareIsPrecedence` | app/shared/ota_policy/ota_policy.py:94-141 | the comparison is clause 11 precedence in both directions; zero exactly on equal triple and prerelease |
| `SemVer.CompareIsTotal` | app/shared/ota_policy/ota_policy.py:94-141 | total preorder: antisymmetric in sign and transitive |
| `SemVer.IdentifierComparisonIsPrecedence` | app/shared/ota_policy/ota_policy.py:104-117 | clause 11.4 on identifiers |
| `VersionText.NumericIsPrinted` | app/shared/ota_policy/ota_policy.py:38 | numeric identifiers are exactly the printed natural numbers |
| `VersionText.ParseSpelled` | app/shared/ota_policy/ota_policy.py:76-91 | every spelling of a version, with an optional v, any identifiers, any build metadata and blanks around it, parses to that version |
| `VersionText.ParsedIsSpelled` | app/shared/ota_policy/ota_policy.py:30-37 | a text that parses is, blanks aside, a spelling of what it parses to |
| `VersionText.StripSpelled` | app/shared/ota_policy/ota_policy.py:144-148 | the profile taken off is exactly a prerelease that is just dev or prod, without build metadata |
| `VersionText.MatchSpelled` | app/shared/ota_policy/ota_policy.py:151-174 | spelled versions match exactly when they are one version, or one release once the profiles are gone |
| `VersionText.ClassifySpelled` | app/shared/ota_policy/ota_policy.py:177-227 | spelled versions are the same image, or else an upgrade or downgrade by clause 11 |
| `VersionText.BlockedMeansOlder` | app/shared/ota_policy/ota_policy.py:177-231 | for any two texts: blocked exactly when both spell versions, of different images, the target preceding |
| `OtaPolicy.ReadIsConsistent` | app/shared/ota_policy/ota_policy.py:144-148 | reading any text with and without its build profile: same triple, the profile is the whole prerelease, and it is gone from the stripped label |
| `OtaPolicy.CompareVersionsIsAntisymmetric` | app/shared/ota_policy/ota_policy.py:119-141 | on any two texts, swapping them negates the answer, or leaves it undefined |
| `OtaPolicy.CompareVersionsIsTransitive` | app/shared/ota_policy/ota_policy.py:119-141 | on any three texts the comparison is transitive |
| `OtaPolicy.CompareVersionsZero` | app/shared/ota_policy/ota_policy.py:119-141 | defined exactly on parseable texts, zero exactly on texts of one version |
| `OtaPolicy.UpgradeIsReversedDowngrade` | app/shared/ota_policy/ota_policy.py:177-227 | swapping the versions turns upgrade into downgrade and keeps "same" and "unknown" |
| `OtaPolicy.MatchMeans` | app/shared/ota_policy/ota_policy.py:151-174 | parseable texts match exactly when they are one version, with or without the build profiles; a text that does not parse matches exactly the texts of the same base |
| `OtaPolicy.MatchIsSymmetric` | app/shared/ota_policy/ota_policy.py:151-174 | symmetric, and reflexive except on the empty text |
| `OtaPolicy.MatchChains` | app/shared/ota_policy/ota_policy.py:151-174 | for any three texts, two matches chain if and only if the middle label's profile does not split them |
| `OtaPolicy.MatchIsNotTransitive` | app/shared/ota_policy/ota_policy.py:151-174 | three labels whose neighbours match and whose ends do not |
| `OtaPolicy.StepBetweenTexts` | app/shared/ota_policy/ota_policy.py:144-227 | an allowed install keeps the triple from decreasing; it lowers precedence if and only if the profile condition holds |
| `OtaPolicy.TripleNeverDecreases` | app/shared/ota_policy/ota_policy.py:144-231 | along every chain of allowed installs of parseable versions |
| `OtaPolicy.PrecedenceNeverDecreases` | app/shared/ota_policy/ota_policy.py:144-231 | along every such chain without build profiles |
| `Cpio.ReadFirstCpioEntry` | app/camera/camera_streamer/ota_installer.py:163-195 | the cursor reads give the first entry as a function of the bytes |
| `Cpio.HexRoundTrip` | app/camera/camera_streamer/ota_installer.py:184-185 | the numeral parser reads every 32-bit size back from its eight digits |
| `Cpio.OtherNumerals` | app/camera/camera_streamer/ota_installer.py:184-185 | upper-case digits are read alike, and a minus sign negates |
| `Cpio.CpioRoundTrip` | app/camera/camera_streamer/ota_installer.py:163-195 | reading a written entry followed by anything gives its name and data |
| `Cpio.PrefixesRejected` | app/camera/camera_streamer/ota_installer.py:173-192 | a strict prefix is rejected if and only if it cuts the header or there is data |
| `Cpio.EntryIsCut` | app/camera/camera_streamer/ota_installer.py:171-193 | for any file: an entry comes from a newc archive only, the name without trailing NULs from right behind the header, the data from a 4-byte boundary behind it |
| `OtaStaging.Spool.Receive` | app/camera/camera_streamer/ota_installer.py:391-417 | for any short reads the partial file is the bytes received, at most the declared length; progress climbs within 0..40 |
| `OtaStaging.Spool.StageBundle` | app/camera/camera_streamer/ota_installer.py:375-465 | whatever the operating system refuses: success stages exactly the declared bytes of an allowed version; every failure leaves the old bundle and happens only for its own reason; with a steady source and no faults the outcome is determined |
| `OtaStaging.WrittenBundleHasItsVersion` | app/camera/camera_streamer/ota_installer.py:198-216 | a bundle whose description first says `version = "v"` has version v, whatever the blanks; one that never says so has none |
| `OtaStaging.OtherBundleHasNoVersion` | app/camera/camera_streamer/ota_installer.py:203-205 | another first entry, or an empty one, declares no version |
| `OtaStaging.BundleIsBlockedWhenOlder` | app/camera/camera_streamer/ota_installer.py:426-441 | from bytes to decision: a written bundle is blocked exactly when the version it declares is another image that precedes the one running |
| `LoginLimiter.Limiter.RetryAfter` | app/camera/camera_streamer/status_server.py:154-168 | the wait is the longest remaining lock of the buckets, rounded up, and positive exactly when one is locked; expired unlocked buckets are dropped, nothing else changes |
| `LoginLimiter.Limiter.RecordFailed` | app/camera/camera_streamer/status_server.py:171-191 | each of the attempt's buckets records the failure, others are untouched; the wait is the longest lock now running, rounded up |
| `LoginLimiter.Limiter.ResetAttempts` | app/camera/camera_streamer/status_server.py:147-151 | clears the attempt's buckets only |
| `LoginLimiter.Limiter.Login` | app/camera/camera_streamer/status_server.py:941-986 | on the buckets of the request's address and user name: the gate comes before the password; a request follows the per-bucket model |
| `LoginLimiter.RateKeys` | app/camera/camera_streamer/status_server.py:136-144 | the three buckets are distinct |
| `LoginLimiter.SpellingDoesNotMatter` | app/camera/camera_streamer/status_server.py:136-144 | blanks around address and user name, and upper-case letters in the name, lead to the same buckets |
| `LoginLimiter.BucketsRemember` | app/camera/camera_streamer/status_server.py:147-191 | over every run a bucket's entry is the summary of its well-spaced failures |
| `LoginLimiter.LoginFailureBounds` | app/camera/camera_streamer/status_server.py:147-191 | counts stay within 5, any 300 seconds hold at most 8 failures, the fifth is followed by 900 silent seconds |
| `LoginLimiter.AnswersReadOffFailures` | app/camera/camera_streamer/status_server.py:941-986 | over every run: refused exactly when one of the request's buckets saw a fifth failure less than 900 seconds ago, whatever the password; otherwise the password decides |
| `AccountLockout.LastReachedMeans` | app/server/monitor/auth.py:121-127 | in any ascending table an entry decides from its threshold up to the next one, and nothing before the first |
| `AccountLockout.GetLockoutDuration` | app/server/monitor/auth.py:121-127 | the loop gives the last threshold reached: 60, 300, 1800 seconds from 5, 10, 15 failures |
| `AccountLockout.User.Login` | app/server/monitor/auth.py:394-432 | a locked account is refused before the password; a wrong password counts and arms the lock, truncated to seconds; a right one clears both |
| `AccountLockout.EveryFailureArms` | app/server/monitor/auth.py:394-432 | over every run the lock held is that of the newest of the consecutive failures |
| `AccountLockout.LockoutBound` | app/server/monitor/auth.py:43-47 | the n-th consecutive wrong password, n > 15, comes more than 5*59 + 5*299 + (n-15)*1799 seconds after the fifth |
| `AccountLockout.AnswersReadOffStamps` | app/server/monitor/auth.py:394-432 | over every run: refused exactly when the wrong passwords in a row and the stamp of the newest lock the account, whatever the password; otherwise the password decides |
| `SetupLimiter.SetupRateLimiter.RateLimited` | app/server/monitor/provisioning.py:57-67 | prune, decide, append, in place |
| `SetupLimiter.StoreIsRecentHistory` | app/server/monitor/provisioning.py:61-66 | the pruned list is the full admission history cut to ages under 60 s |
| `SetupLimiter.AtMostThirtyPerWindow` | app/server/monitor/provisioning.py:57-67 | thirty-one admissions of one address span at least 60 s |
| `SetupLimiter.RefusedMeansThirty` | app/server/monitor/provisioning.py:57-67 | a request is refused exactly when the thirtieth admission back is younger than 60 s |
| `ConfigFile.ConfigManager.Save` | app/camera/camera_streamer/config.py:325-331 | the file is one line a key, in order; a refused open leaves it, a failing write cuts it short, and both raise |
| `ConfigFile.ConfigManager.Update` | app/camera/camera_streamer/config.py:333-339 | known keys are overwritten in memory, unknown ones ignored, and the result is saved, or the values stay changed and it raises |
| `ConfigFile.ConfigManager.Load` | app/camera/camera_streamer/config.py:394-407 | the file is absorbed line by line |
| `ConfigFile.LineRoundTrip` | app/camera/camera_streamer/config.py:398-405 | a printed line is read as its key and its cleaned value |
| `ConfigFile.LineIsReadAtFirstEquals` | app/camera/camera_streamer/config.py:398-405 | any line that is no comment is read at its first equals sign |
| `ConfigFile.OtherLinesIgnored` | app/camera/camera_streamer/config.py:398-407 | blank lines, comments, lines without an equals sign and unknown keys change nothing |
| `ConfigFile.QuotesAreTakenOff` | app/camera/camera_streamer/config.py:404-405 | blanks outside double quotes outside single quotes are taken off a plain value |
| `ConfigFile.LineEndingsAgree` | app/camera/camera_streamer/config.py:396-398 | line feed, carriage return, or both end a line alike |
| `ConfigFile.SaveLoadRoundTrip` | app/camera/camera_streamer/config.py:325-407 | loading what was saved gives every value free of line breaks back cleaned, hence restored if and only if it has no outer blanks or quotes |
| `Text.IntRoundTrip` | app/camera/camera_streamer/config.py:98-124 | the integer getters read every printed integer back |
| `Handler.ControlHandler.SetConfig` | app/camera/camera_streamer/control.py:313-414 | the handler, writing through the configuration manager, follows the step model; keys that are no parameter's are left alone, and the file is rewritten exactly by a call that reaches the save |
| `Handler.CollectChanges` | app/camera/camera_streamer/control.py:336-340 | the parameters that differ, under Python's equality |
| `Control.AllOrNothing` | app/camera/camera_streamer/control.py:313-414 | applied exactly when every gate is passed and the file is written; a call that is not applied leaves the state alone if and only if it did not reach the save with texts that differ, as those of a well-typed call do unless only the schedule changes |
| `ControlOutcomes.RefusalAnswers` | app/camera/camera_streamer/control.py:324-333 | 409 exactly for stale requests; 400 exactly for fresh ones that are empty or invalid |
| `ControlOutcomes.RateGateAnswers` | app/camera/camera_streamer/control.py:349-362 | 429 exactly for a valid request that changes something besides the schedule within 5 s of the last change |
| `ControlOutcomes.ValidAnswers` | app/camera/camera_streamer/control.py:335-414 | a valid request is unchanged exactly when nothing differs, and applied exactly when something does, the gate lets it through and the file is written; the stream restarts exactly for a change besides the schedule |
| `ControlOutcomes.AppliedCallsAreSpaced` | app/camera/camera_streamer/control.py:352-402 | over every run: an applied change besides the schedule starts at least 5 s after the applied call before it was done |
| `ControlOutcomes.BooleanIsItsNumber` | app/camera/camera_streamer/control.py:339 | a boolean for an integer parameter is a change exactly when the number held is not its 0 or 1 |
| `ControlOutcomes.ScheduleCarriesOrigin` | app/camera/camera_streamer/control.py:372-378 | a stored schedule names its sender, the server when there is none, and is otherwise the normalised one |
| `ControlOutcomes.SettingsStayDocumented` | app/camera/camera_streamer/control.py:51-78 | over every run of well-typed calls every setting stays in its documented range |
| `ControlOutcomes.DocumentedIsNeverRefused` | app/camera/camera_streamer/control.py:441-508 | a request within the documented ranges that suits the sensor is never refused |
| `ControlOutcomes.ValidImageFits` | app/camera/camera_streamer/control.py:488-491 | what passes validation keeps every image control within what the sensor says |
| `ControlOutcomes.FirstModeDecides` | app/camera/camera_streamer/sensor_info.py:170-175 | the rate of a size is that of the first mode of this size |
| `Control.FailedSaveIsForgotten` | app/camera/camera_streamer/control.py:335-398 | a well-typed request repeated after its save failed is answered as unchanged if and only if it changed no schedule that had to be normalised |
| `Control.AppliedOverridesConfig` | app/camera/camera_streamer/control.py:335-414 | after a call that reaches the save, any typing: the configuration is the old one overridden by the normalised changes if and only if no change gives an integer parameter as a boolean; exactly the parameters that already had their value are left out |
| `Control.WellTypedOverride` | app/camera/camera_streamer/control.py:335-414 | for well-typed calls the override always holds |
| `Control.UnreadableForGood` | app/camera/camera_streamer/control.py:335 | from an unreadable configuration no run of calls changes anything |
| `Control.UnchangedMeansEqual` | app/camera/camera_streamer/control.py:342-347 | a request answered as unchanged asked for what was there |
| `Control.ModeStaysValid` | app/camera/camera_streamer/control.py:441-510 | over every run of well-typed calls the size stays a sensor mode that covers the frame rate |
| `Control.AppliedIdsIncrease` | app/camera/camera_streamer/control.py:324-325 | over every run applied non-zero request ids strictly increase |
| `Control.BooleanIntegersBreakReading` | app/camera/camera_streamer/control.py:461-462 | a call that reaches the save leaves a readable configuration if and only if it gives no plain integer parameter as a boolean that differs from the value held |
| `Control.TrueAsFps` | app/camera/camera_streamer/control.py:366-369 | `fps = True` reaches the save and leaves a configuration unreadable for good |
| `Control.StoredSurvivesTheFile` | app/camera/camera_streamer/control.py:364-387 | what the handler stores for a valid value is not altered by the file |
| `Handler.RunSurvivesRestart` | app/camera/camera_streamer/config.py:325-407 | over any run of requests, some saves failing, from settings the file does not alter: if the last save was written, a new process reads exactly the settings the run ended with |
| `ServerResolver.Resolver.SetResolvedIp` | app/camera/camera_streamer/lifecycle.py:207-236 | only a private IPv4 address is taken, and it clears the fault |
| `ServerResolver.Resolver.UpdatePreferredIp` | app/camera/camera_streamer/lifecycle.py:135-150 | the same for an advertised endpoint |
| `ServerResolver.Resolver.PrimeFromCache` | app/camera/camera_streamer/lifecycle.py:342-390 | taken exactly for a fresh entry of this host with a private IPv4 address |
| `ServerResolver.Resolver.Run` | app/camera/camera_streamer/lifecycle.py:264-340 | at most nine attempts whatever fails; the fault only at the deadline, not stopped when the loop was left, with no address held and nothing usable seen |

## Left out

- Text: decimal digits and letters outside ASCII in versions, times, numerals and case folding; the program's patterns and `lower` also cover other scripts.
- Floating point: thresholds, scores and progress are exact; NaN in image-quality numbers is not modelled.
- MotionDetector.Detector.ProcessFrame: a grayscale frame that is empty, or differs in size from the one before, is not covered; numpy then divides by zero, raises, or broadcasts by shape, and frames here are flat.
- MotionDetector.Runner.ProcessFrame: likewise, every grayscale frame that passes the gates has the one size its capture backend delivers.
- Motion: event ids and the HTTP post.
- Restart schedule: the calendar spelling of a date (a minute is named by its number), the end of the calendar in year 9999, a change of UTC offset between two checks, schedule stamping, and `updated_at`, `source` or `enabled` entries that are not text or boolean.
- Restart scheduler: the polling thread, a state file that is not UTF-8 (reading it raises), and the reboot command.
- Installer: status reading, stale-state cleanup and triggering; failure to read the staged file back; a status file that cannot be written; bytes outside UTF-8 in entry names (names are compared as bytes); exceptions raised by a progress callback.
- Login limiter: two requests interleaved between gate and record; one request is one step, with separate clock readings for the two.
- Account lockout: the injected address limiter and the second-factor path.
- Control: the text of error messages; numeric equality inside image-quality objects; restarting the stream, and the desired stream state.
- Configuration: the hardware serial that fills an empty camera id, copying a default file, and passwords.
- Resolver: writing the cache file, thread interleavings inside one field update, and the address library, which is a parameter assumed to read its own spelling back.
- HTTP handlers, pages, TLS, hashing, subprocesses and hardware.
