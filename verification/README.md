# Konstantin: a verified model of the screen-time daemon

Konstantin counts the seconds each account spends at a Mac's console, saves the
counts, tells a menu-bar tray how much is left, warns at thresholds, and logs a
user out at the daily limit. This project models that machinery in Dafny and
proves what it does over whole runs.

`dafny verify dfyconfig.toml` checks everything.

## How it is laid out

| file | models |
|---|---|
| `Common`, `Config` | options, 32-bit arithmetic, the configuration values |
| `Counters` | the shared `State` object (`state.rs`) and the value it holds |
| `Storage` | the state file's text, the disk as a value, and the mutable directory under the daemon |
| `History` | what the counters mean, in terms of the order of locked sections |
| `Engine` | ticker, resetter, subscribers, files, crashes: one step system over every schedule |
| `Daemon` | the same steps as methods of one mutable object, proved equal to `Engine`'s |
| `Tallies`, `Saves`, `Recovery`, `Wakeups` | theorems about every schedule |
| `Status`, `Notifications`, `Warnings` | status, the tray's tracker, streams of statuses |
| `EndToEnd`, `Viewing` | ticks to warnings, local dates, and what a lagging subscriber's tray announces |
| `Enforcement`, `Kicks` | the decision, the enforcer, the logout escalation, every run of passes |
| `Rounds` | a ticker round together with its enforcement pass |
| `Midnight` | the next local midnight over any time zone |
| `Framing` | length-prefixed frames |
| `ThresholdText`, `Editor` | the settings window: text field and configuration tree |
| `Settings` | what a setting means, from the window or the file to the daemon |
| `Control`, `AdminRuns` | the admin controller over a small file system |
| `BundleRemoval` | the deferred uninstaller's polling loop |

A *schedule* is any sequence of atomic actions of the two tasks, the subscribers
and the outside (failed writes, crashes with restart). An action whose task is not
at the right point is skipped, so `Engine.Exec` covers every interleaving. The
date is its own action before the lock; opening (truncating), filling and renaming
the temporary file are three actions, a write may stop after any number of bytes and
leaves what lay beyond them, and an open handle keeps its inode across a rename. The
file format is any that tells whole documents from parts, as JSON does. Clocks, console queries, user lookups, tool results and file failures are
arbitrary answers of an environment.

## Where the code differs from what it promises

The model follows the code. For each of these a concrete input shows the failure,
and a theorem says when the promise holds.

* Saves are described as atomic (`crates/daemon/src/state.rs:12-14`). Both tasks
  use one temporary name.
  * One task's open can truncate the file the other is about to rename:
    `Saves.OverlappingSavesLoseTheDay`. The file is whole throughout a schedule
    exactly when no step spoils it, going by lengths: `Saves.WholeExactlyWhen`; it
    is while the two saves do not overlap: `Saves.SerialSavesStayWhole`.
  * A write that fails part-way over the other task's longer text can leave a
    document that nobody wrote, and a restart charges it:
    `Saves.ShortWriteForgesACount`. Complete writes cannot, and
    `Storage.ForgesExactlyWhen` says which lengths can.
* The next midnight is described as the next one, strictly in the future
  (`crates/daemon/src/time.rs:11`). On the night clocks go back it is the midnight
  just past: `Midnight.ClocksGoingBackGivesThePast`; in the last hour before a day
  that loses an hour it passes a midnight over:
  `Midnight.ClocksGoingForwardSkipsAMidnight`. The exact condition is
  `Midnight.NextInFutureExactlyWhen`.
* Each warning is promised at most once per day (`README.md:129`), and days are
  told apart by that midnight. On the first of those nights the new day goes
  unnoticed (`EndToEnd.ClocksGoingBackHidesTheNewDay`); on the other the same
  evening is taken for a new day and a warning repeated
  (`EndToEnd.ClocksGoingForwardWarnsTwice`). The exact condition is
  `EndToEnd.AnnouncedAgainExactlyWhen`; away from the day before a change the
  promise holds: `EndToEnd.OncePerLocalDate`.
* A changed reset time is taken to mean that the counters have been zeroed
  (`crates/tray/src/notifications.rs:25-27`). A status computed after midnight and
  before the first locked section carries the new reset time with the old count, and
  can silence the whole day: `Viewing.EarlyStatusSilencesTheDay`. What a day
  announces then is `Viewing.NewDayAfterEarlyStatuses`; with no such status it is
  `Viewing.LaggingTrayWarns`.
* Two thresholds can be announced as the same minute in one case only, saturation:
  `Warnings.SaturationAnnouncesAMinuteTwice`, `Warnings.SameMinutesOnlyWhenSaturated`.
* A configuration whose kill switch is its own file is accepted, and the first
  pause overwrites it: `AdminRuns.SelfNamedKillSwitchIsOverwritten`,
  `AdminRuns.PauseKeepsConfigExactlyWhen`.
* `force_logout` is described as `Ok` when the user is gone
  (`crates/daemon/src/enforcement.rs:202-204`). A kill that reports a match is
  taken at its word: `Enforcement.SuccessWithoutLeaving`,
  `Enforcement.SuccessIsSeenExactlyWhen`.
* One unparseable token in the thresholds field silently empties the list on save:
  `ThresholdText.OneTypoDropsTheOthers`, `ThresholdText.AcceptedExactlyWhen`.
* Counters are 32 bits and wrap in a release build:
  `History.TwoHugeTicksWrapAround`; the count is exact if and only if the product
  fits: `History.CountIsExact`.

## Model

| member | source | states |
|---|---|---|
| Counters.State.ResetIfNewDay | crates/daemon/src/state.rs:84-93 | the day check rolls over exactly when the date differs from the stored day, then every user reads zero; otherwise nothing changes, and who is active never does |
| Counters.State.Tick | crates/daemon/src/state.rs:96-101 | crediting the active users one by one adds one wrapped tick to each of them and to nobody else, and exactly they are active afterwards |
| History.CountSinceLoad | crates/daemon/src/state.rs:84-105 | with no rollover since start, a count is the loaded one plus one tick per crediting section, modulo 2^32, and all sections carry the stored day |
| History.CountSinceRollover | crates/daemon/src/state.rs:84-105 | after the last rollover a count is one tick per crediting section since, modulo 2^32, and all those sections carry the stored day |
| History.CountIsWholeDay | crates/daemon/src/main.rs:148-158 | if dates never decrease in lock order, a count is every tick of the stored day, plus what was loaded of that day |
| History.CountIsExact | crates/daemon/src/state.rs:96-99 | over the stored day, a mid-day start included, the count equals what was carried over plus ticks times tick length exactly when that fits 32 bits |
| History.Conservation | crates/daemon/src/state.rs:96-101 | with at most one console user and no rollover, the sum of all counters grows by one tick per occupied section while it fits |
| History.ConservationOverDay | crates/daemon/src/state.rs:84-101 | over the stored day, begun by a rollover or by a start in the middle of it, the sum is what was carried over plus one tick per occupied section |
| History.DayHasStart | crates/daemon/src/state.rs:84-93 | every run has a section since which the stored day is in force, so what is said of that day is said of every run |
| History.TwoHugeTicksWrapAround | crates/daemon/src/state.rs:96-99 | with an allowed tick of 2^31 seconds two ticks count as none |
| History.NextTickCannotWrap | crates/daemon/src/state.rs:96-99 | while one tick more than the day's occupied time and the carried count fits, a count is exact and the next tick cannot wrap it |
| History.FirstPassOverLimit | crates/daemon/src/main.rs:191-210 | the first snapshot of a day not under a limit is less than one tick over it, or over what a start in the middle of the day had loaded |
| Tallies.CountersAreHistory | crates/daemon/src/main.rs:148-198 | at any point of any schedule the shared counters are the replay of the locked sections since start, in closed form |
| Tallies.CountersAreTheDay | crates/daemon/src/main.rs:148-198 | under lock-ordered dates, at any point of any schedule, a counter is all of the stored day's ticks |
| Tallies.ActiveIsLastTick | crates/daemon/src/state.rs:100-109 | at any point of any schedule a user is active exactly if the last tick found them at the console, or, before the first, if the start did |
| Tallies.StartAsksTheConsole | crates/daemon/src/main.rs:67-74 | a start takes exactly the users at the console for active, and counts only what the file holds of its own day |
| Tallies.TimeIsConserved | crates/daemon/src/sessions.rs:51-64 | since the console names at most one user, over any schedule the sum of counters is the day's occupied time plus what a start loaded, and no counter can wrap next |
| Tallies.FirstOvershootIsUnderOneTick | crates/daemon/src/main.rs:191-210 | the snapshot an enforcement pass is handed overshoots a limit by less than one tick the first time in a day, mid-day starts included |
| Wakeups.NoLostWakeup | crates/daemon/src/ipc.rs:148-212 | under every schedule, lag included, a subscriber that has not closed is still there, under its name, with a message unread, a publisher about to send, a computation pending, or the current view |
| Wakeups.StaysSubscribed | crates/daemon/src/ipc.rs:160-193 | whatever others do, a subscriber stays subscribed until its own connection closes, and only its own steps change it |
| Wakeups.ComesAndGoes | crates/daemon/src/ipc.rs:148-152 | a new subscriber joins the others with nothing old to read and computes first; closing removes that one alone |
| Wakeups.OneMessagePerChange | crates/daemon/src/main.rs:155-205 | over any schedule, messages sent and about to be are exactly one per tick and one per rollover by the resetter, failed saves or not |
| Wakeups.QuietMeansCurrent | crates/daemon/src/ipc.rs:160-212 | from any start, once publishers have sent and a subscriber has caught up, what it shows is current |
| Wakeups.ComputingBeforeMintingLosesAWakeup | crates/daemon/src/ipc.rs:148-152 | minting the receiver after the first status instead of before would lose a tick |
| Wakeups.LaggardCatchesUp | crates/daemon/src/ipc.rs:185-192 | however far behind, at most 65 receive-and-compute rounds drain a subscriber, and the last shows the current view |
| Storage.ForgesExactlyWhen | crates/daemon/src/state.rs:75-76 | as an equivalence over all formats that tell whole documents from parts: a write of n bytes over m that stops after k can leave a document nobody wrote exactly if it stops past the start and short of both ends |
| Storage.Files.Create | crates/daemon/src/state.rs:75-76 | opening a name for writing empties the file it names, for every handle, and no other name's file changes |
| Storage.Files.Write | crates/daemon/src/state.rs:75-76 | a write, complete or cut short, replaces bytes from the start, keeps those beyond it, and touches no other file |
| Storage.Files.Rename | crates/daemon/src/state.rs:77-79 | the real name now reads as the temporary one did, which is gone; a missing temporary file is an error that changes nothing |
| Storage.Files.LoadState | crates/daemon/src/state.rs:42-58 | what a reader of the real name finds: a missing or unparseable file is a new state, otherwise the stored view without anybody active |
| Saves.EveryFileIsAClone | crates/daemon/src/state.rs:61-80 | while every write is safe, whatever parses in any file is exactly what some locked section cloned, even with both tasks writing |
| Saves.CompleteWritesAreSafe | crates/daemon/src/state.rs:75-76 | writes that run to completion are safe in every schedule |
| Saves.ShortWriteForgesACount | crates/daemon/src/main.rs:159-200 | five and ten seconds become fifty: a write cut short over a longer text is renamed, parses, was never cloned, and is charged on restart |
| Saves.SerialSavesStayWhole | crates/daemon/src/state.rs:61-80 | while the two saves never overlap, every write is safe and the state file is absent or one complete view at every point, crashes and failed writes included |
| Saves.SpoiledExactlyBy | crates/daemon/src/state.rs:71-79 | the only steps that spoil a whole file, by lengths: renaming an unfinished file over it, or writing to it through a stale handle without covering all that was there |
| Saves.WholeExactlyWhen | crates/daemon/src/state.rs:71-79 | under safe writes the state file is whole at every point of a schedule exactly when no step of it spoils the file |
| Saves.OverlappingSavesLoseTheDay | crates/daemon/src/main.rs:159-200 | an interleaving of the two saves, all of whose writes succeed, after which a crash loses a whole day's count |
| Recovery.RestartNeverOverCharges | crates/daemon/src/main.rs:58-67 | after any schedule with lock-ordered dates, no wrapping counter and safe writes, crashing anywhere, reload plus day check charges nobody more than memory did |
| Recovery.CrashLosesLittle | crates/daemon/src/main.rs:200-202 | from an undisturbed ticker save to the next resetter section a crash costs one tick per failed save since, plus one if saving |
| Daemon.Daemon.Start | crates/daemon/src/main.rs:58-81 | start-up loads, checks the day, queries the console, and then is the step system's initial state |
| Daemon.Daemon.LockedTick | crates/daemon/src/main.rs:191-198 | the ticker's critical section: day check, tick, clone, as one step of the step system |
| Daemon.Daemon.LockedReset | crates/daemon/src/main.rs:149-158 | the resetter's critical section, remembering whether it rolled |
| Daemon.Daemon.SaveUndisturbed | crates/daemon/src/state.rs:61-80 | an uninterrupted save leaves exactly the clone's text under the real name, no temporary file, and the shared state as it was |
| Daemon.Daemon.ReceiveWake | crates/daemon/src/ipc.rs:177-192 | whatever a wake-up skips was no longer retained, and everything the subscriber will read next still is |
| Daemon.Daemon.TickerRound | crates/daemon/src/main.rs:185-211 | an undisturbed round leaves the new counters on file, one more message, and the same counters for enforcement |
| Daemon.Daemon.Interleave | crates/daemon/src/main.rs:94-106 | running any schedule on the mutable object gives the step system's state, so its theorems hold of the object |
| Status.ActiveMeansTimeLeft | crates/daemon/src/ipc.rs:216-247 | used and remaining add up to the limit, the four states are told apart by being configured, having time left and being at the console, and the rest is passed on |
| Enforcement.StatusAgreesWithDecision | crates/daemon/src/enforcement.rs:84-97 | a status says the limit is reached exactly when the decision, back-off aside, is to kick for the limit; likewise for the default policy |
| Settings.LimitInSeconds | crates/daemon/src/ipc.rs:225-225 | a limit is sixty seconds a minute, saturating exactly where that does not fit |
| Settings.SavedLimitIsEnforced | crates/daemon/src/enforcement.rs:84-91 | from the window to the daemon: a limited row's account is told 60 times its minutes and kicked exactly from then on, the others are not configured |
| Settings.LimitsUpToADay | crates/tray/src/bin/tray.rs:2539-2555 | the window takes limits from one minute to 24 hours and no others |
| Enforcement.KickMeansBackoffOver | crates/daemon/src/enforcement.rs:78-82 | a kick of a stamped uid comes no sooner than ten seconds after the stamp, clock anomalies included |
| Enforcement.KillIsTheLastResort | crates/daemon/src/enforcement.rs:199-266 | both bootouts, one settle, one query; the kill exactly if the user is still listed |
| Enforcement.SuccessIsSeenExactlyWhen | crates/daemon/src/enforcement.rs:199-266 | in every world a success was seen by a query to be true, except exactly when the user was still listed and the kill reported a match |
| Enforcement.SuccessWithoutLeaving | crates/daemon/src/enforcement.rs:205-266 | a world in which the escalation succeeds and the next query still lists the user |
| Enforcement.ForceLogout | crates/daemon/src/enforcement.rs:205-266 | against arbitrary tool and console answers, issues exactly those calls and succeeds exactly then |
| Enforcement.Enforcer.Step | crates/daemon/src/enforcement.rs:112-139 | every act of a pass is justified by the decision at its moment, every resolvable user to be kicked has their uid acted on, and a paused pass calls no tool |
| Enforcement.Enforcer.ActOn | crates/daemon/src/enforcement.rs:141-189 | a present kill switch refuses, log mode stamps without tools, logout mode stamps exactly on success |
| Kicks.KickSpacing | crates/daemon/src/enforcement.rs:69-98 | over any run of passes, nothing is done to a uid within ten seconds of its stamp, two names with one uid included |
| Kicks.OneStampPerPass | crates/daemon/src/enforcement.rs:118-138 | within a pass a uid that was stamped is not acted on again |
| Kicks.ActsExactlyAfterBackoff | crates/daemon/src/enforcement.rs:112-139 | a pass acts on a wanted uid exactly when its back-off is over |
| Kicks.ActsOnlyOnTheWanted | crates/daemon/src/enforcement.rs:84-97 | over any run, every act is on an active user with that uid who is at or over a configured limit, or unconfigured under a blocking policy |
| Kicks.ActsExactlyWhenWanted | crates/daemon/src/enforcement.rs:76-97 | a pass acts on a uid exactly when somebody active makes it wanted and its back-off is over |
| Kicks.NextAttemptIsBounded | crates/daemon/src/enforcement.rs:76-98 | with passes at most a gap apart, the next attempt on a wanted uid comes after the back-off and less than a gap later |
| Kicks.RetriedAtOnce | crates/daemon/src/enforcement.rs:177-185 | an attempt without a stamp is repeated on the very next pass |
| Rounds.FirstOverLimitIsActedOn | crates/daemon/src/main.rs:191-210 | under any schedule the first pass of a day handed a user at or over their limit finds less than one tick over it and acts on them exactly if the uid is not backing off |
| Rounds.Round | crates/daemon/src/main.rs:185-211 | one whole round: counters saved, subscribers woken, and everybody over their limit in those very counters acted on exactly if not backing off |
| Notifications.NotifTracker.Evaluate | crates/tray/src/notifications.rs:53-98 | the mutable tracker computes the specification below on every status |
| Notifications.FindCandidate | crates/tray/src/notifications.rs:72-83 | converting, sorting, deduplicating and searching finds the smallest positive threshold at or above what remains, or that there is none |
| Notifications.SortUnstable | crates/tray/src/notifications.rs:79-79 | in-place sort: ordered, and a permutation |
| Notifications.Dedup | crates/tray/src/notifications.rs:80-80 | in-place removal of repeats: strictly increasing, same elements |
| Notifications.CandidateIsSmallest | crates/tray/src/notifications.rs:82-83 | one scan of the unsorted list gives the same candidate |
| Warnings.TrackerIsAMinimum | crates/tray/src/notifications.rs:53-98 | within a reset cycle the memory is the minimum over its statuses, and a status is announced exactly if strictly tighter than all before it |
| Warnings.AnnouncedOnceEach | crates/tray/src/notifications.rs:85-97 | within a cycle announced seconds strictly decrease |
| Warnings.AtMostOncePerThreshold | crates/tray/src/notifications.rs:73-97 | a cycle announces at most once per distinct positive threshold |
| Warnings.SameMinutesOnlyWhenSaturated | crates/tray/src/notifications.rs:76-95 | distinct thresholds are announced as the same minute in exactly one case |
| Warnings.SaturationAnnouncesAMinuteTwice | crates/tray/src/notifications.rs:76-95 | two statuses that make the tracker announce one minute twice |
| Warnings.AnnouncesAListedMinute | crates/tray/src/notifications.rs:72-95 | what is announced is one of the minutes the status lists, the smallest not below what remains, where nothing saturates |
| Warnings.MinutesDecrease | crates/tray/src/notifications.rs:85-97 | where nothing saturates, announced minutes strictly decrease |
| Warnings.AnnouncedExactlyWhenCalledFor | crates/tray/src/notifications.rs:82-97 | over statuses whose remaining time never grows, gaps and idle ones included, a threshold is announced exactly when some status calls for it |
| Warnings.CompleteCoverage | crates/tray/src/notifications.rs:53-98 | a countdown in steps within the thresholds' spacing announces exactly those at or below the first candidate, loosest first |
| EndToEnd.TicksCountDown | crates/daemon/src/ipc.rs:216-247 | the statuses of a user running out their limit, one per tick, are such a countdown |
| EndToEnd.EveryWarningArrives | crates/tray/src/notifications.rs:42-98 | from the daemon's ticks to the tray, every applicable warning arrives once, loosest first |
| EndToEnd.OncePerLocalDate | crates/tray/src/notifications.rs:22-27 | away from the last day before a change of offset, a local date's later announcements are strictly tighter, so none repeats |
| EndToEnd.AnnouncedAgainExactlyWhen | crates/tray/src/notifications.rs:54-58 | a threshold just announced is announced again by the very next status exactly when dates differ otherwise than the leads of the two reset times do |
| EndToEnd.ClocksGoingBackHidesTheNewDay | crates/tray/src/notifications.rs:54-58 | on the night clocks go back the tracker does not re-arm at midnight |
| EndToEnd.ClocksGoingForwardWarnsTwice | crates/tray/src/notifications.rs:54-58 | on the evening before clocks go forward it re-arms on the same date and warns twice |
| Viewing.LaggingTrayWarns | crates/daemon/src/ipc.rs:160-212 | under any schedule within a day, however far a subscriber lags, its tray announces exactly what some status it got calls for, once each and loosest first |
| Viewing.CaughtUpTrayHasWarned | crates/daemon/src/ipc.rs:185-192 | once it has computed a current status, the last warning given is the one that status calls for |
| Viewing.NewDayAfterEarlyStatuses | crates/daemon/src/ipc.rs:216-247 | after statuses computed past midnight but before the rollover, a day's warning is given exactly if some status of the day calls for it and every early call was looser |
| Viewing.EarlyStatusSilencesTheDay | crates/daemon/src/ipc.rs:216-247 | one such status with forty seconds left, and a whole day with the usual warnings goes by without one |
| Warnings.AnnouncedAfterOthers | crates/tray/src/notifications.rs:85-97 | in a dwindling stream after others of its cycle a threshold is announced exactly if it is called for and tighter than all they called for |
| Midnight.NextLocalMidnightAfter | crates/daemon/src/time.rs:20-37 | the result is the earliest instant of the first date within seven whose midnight exists, else a day ahead |
| Midnight.ExactBound | crates/daemon/src/time.rs:20-37 | how far ahead the result is under the later offset and under the present one |
| Midnight.GivesUpAfterAWeek | crates/daemon/src/time.rs:22-37 | a date within the week whose midnight exists is not passed over, and only a week without any gives 24 hours ahead |
| Midnight.ConstantOffset | crates/daemon/src/time.rs:20-37 | with a constant offset it is the least local midnight after now |
| Midnight.ConstantOffsetFollowsTheDate | crates/tray/src/notifications.rs:25-27 | with a constant offset it changes exactly when the local date does |
| Midnight.NextInFutureExactlyWhen | crates/daemon/src/time.rs:11-37 | with at most one change of offset in the days around, in any zone, the exact condition for the result to be the next midnight strictly in the future |
| Midnight.FutureExactlyWhen | crates/daemon/src/time.rs:11-37 | the exact condition for it to be in the future at all |
| Midnight.SameMidnightExactlyWhen | crates/tray/src/notifications.rs:25-27 | two results are the same midnight exactly when the dates differ by as much as the leads do |
| Midnight.LeadIsOne | crates/daemon/src/time.rs:20-37 | except in the last day before a change the result is midnight of tomorrow's date |
| Midnight.LeadBeforeChange | crates/daemon/src/time.rs:20-37 | in that day it is so exactly if a day ahead it is tomorrow and tomorrow has a midnight |
| Midnight.ClocksGoingBackGivesThePast | crates/daemon/src/time.rs:11-37 | a night, with one change of offset around, on which the exact condition fails and the result is the midnight just past |
| Midnight.ClocksGoingForwardSkipsAMidnight | crates/daemon/src/time.rs:11-37 | an evening, with one change of offset around, on which the exact condition fails and the midnight half an hour away is passed over |
| Framing.ReadFrame | crates/proto/src/lib.rs:101-125 | one read of the mutable stream is one parse step: payload, closed, too large or cut |
| Framing.WriteFrame | crates/proto/src/lib.rs:128-145 | a fitting payload is appended as one frame; an oversized one writes no byte |
| Framing.HeadersCompareAsNumbers | crates/proto/src/lib.rs:114-140 | headers compare byte by byte from the left as their numbers do, so the most significant byte goes first |
| Framing.OversizedHeaderIsRefused | crates/proto/src/lib.rs:114-120 | a header is refused exactly when it announces more than 1 MiB |
| Framing.StreamRoundTrip | crates/proto/src/lib.rs:101-145 | reading concatenated frames gives back exactly the payloads, then closed |
| Framing.ReadAll | crates/daemon/src/ipc.rs:124-138 | taking frames off the mutable stream until one fails gives the parse of everything that was in it |
| Framing.TruncatedStream | crates/proto/src/lib.rs:106-122 | reading any truncation gives exactly the whole frames, then closed within a header and an I/O error within a payload |
| Framing.CutPosition | crates/proto/src/lib.rs:101-125 | the whole frames and the leftover bytes account for every byte before the cut |
| ThresholdText.ParseU32 | crates/tray/src/bin/tray.rs:2530-2532 | digit-by-digit parse with overflow check accepts exactly the 32-bit numerals |
| ThresholdText.ParseThresholds | crates/tray/src/bin/tray.rs:2523-2536 | the token loop collects the numbers, or stops at the first bad token |
| ThresholdText.AcceptedExactlyWhen | crates/tray/src/bin/tray.rs:2525-2533 | a text is accepted exactly when every non-empty token is a 32-bit number |
| ThresholdText.ErrorNamesFirstBadToken | crates/tray/src/bin/tray.rs:2525-2533 | the error names the first token that is no number |
| ThresholdText.OneBadTokenDropsAll | crates/tray/src/bin/tray.rs:2514-2514 | one bad token makes the saved list empty |
| ThresholdText.OneTypoDropsTheOthers | crates/tray/src/bin/tray.rs:2514-2514 | any number is kept alone and lost beside a mistyped token |
| ThresholdText.TextRoundTrip | crates/tray/src/bin/tray.rs:2041-2056 | parsing the printed field gives back any list of 32-bit numbers |
| ThresholdText.SeparatorsAllowed | crates/tray/src/bin/tray.rs:2525-2529 | two numbers are read apart by a comma, a blank, a tab or a line end, and not by a semicolon |
| ThresholdText.SignsAndSizes | crates/tray/src/bin/tray.rs:2530-2532 | a plus sign is allowed, a number past 32 bits is not, at any length |
| Editor.BuildNewConfig | crates/tray/src/bin/tray.rs:2538-2588 | fails exactly on an out-of-range limited row, naming the first, or a root that is no table; otherwise changes only the two edited keys, to exactly the thresholds and the limited rows |
| Editor.SavedConfigIsAccepted | crates/daemon/src/config.rs:118-134 | the daemon accepts the saved file if it accepted the original, and reads the same settings but for the two edited |
| Settings.DecodeEncode | crates/daemon/src/config.rs:24-78 | every configuration is read back as written, key by key |
| Settings.EmptyFileIsDefaults | crates/daemon/src/config.rs:80-98 | an empty file is the documented defaults |
| Settings.AcceptedExactlyWhenWorkable | crates/daemon/src/config.rs:118-134 | a configuration that decodes is accepted exactly if its tick counts something and nobody is kicked before having used a second |
| Editor.ReopenShowsTheRows | crates/tray/src/bin/tray.rs:2063-2087 | collecting the settings of the saved users shows every row's flag and every limited row's minutes |
| Editor.ReopenKeepsThresholds | crates/tray/src/bin/tray.rs:2041-2056 | reopening and saving again keeps the thresholds |
| Settings.OpensWithDaemonsThresholds | crates/tray/src/bin/tray.rs:2041-2056 | on any file the daemon can read thresholds from, defaults included, the field parses back to exactly those |
| Settings.OpensWithDaemonsLimits | crates/tray/src/bin/tray.rs:2063-2087 | on any accepted file each account opens with the limit the daemon enforces, or off |
| Editor.AccountsWithoutRowLoseTheirLimit | crates/tray/src/bin/tray.rs:2573-2586 | an account without a row loses its limit on save |
| Control.FileSystem.WriteAtomic | crates/daemon/src/control/mod.rs:180-222 | under every failing operation the target holds the old content or exactly the new one, only it and the temporary file change, and success means the new one is there |
| Control.Controller.Handle | crates/daemon/src/control/mod.rs:28-100 | a denied operator changes nothing, a request changes only the files it is about, and what an answer says of the stored text and the kill switch is true of the files |
| Control.FileSystem.PrepareUninstall | crates/daemon/src/control/mod.rs:124-147 | only removes files; success means socket, state and, unless kept, configuration are gone |
| Control.Controller.SetEnforcementPausedFor | crates/daemon/src/control/mod.rs:154-178 | an unusable path changes nothing; success means the marker is there exactly if asked for, failure leaves it as it was or as asked, and only it and its temporary file change |
| AdminRuns.DeniedChangesNothing | crates/daemon/src/control/mod.rs:28-33 | any sequence of denied requests changes no file |
| AdminRuns.ConfigStaysValid | crates/daemon/src/control/mod.rs:43-100 | over any requests and failures the config file is absent or valid, as long as no accepted configuration names it as kill switch |
| AdminRuns.PauseKeepsConfigExactlyWhen | crates/daemon/src/control/mod.rs:84-91 | pausing keeps the config valid exactly when the kill switch is another file, however the paths are spelled |
| AdminRuns.SelfNamedKillSwitchIsOverwritten | crates/daemon/src/control/mod.rs:192-216 | a kill switch that is the config's own path with a slash doubled is accepted and the config is gone with the first pause |
| AdminRuns.SetConfigWritesExactlyValidText | crates/daemon/src/control/mod.rs:60-68 | a rejected text changes nothing, an accepted one is stored verbatim, and an error after the write has one cause |
| AdminRuns.ConfirmedMeansDone | crates/daemon/src/control/mod.rs:154-165 | a confirmed pause or unpause is in force on the file named |
| AdminRuns.SetIsReadBack | crates/daemon/src/control/mod.rs:43-83 | what was set is read back: reloading succeeds, the state is the same answer, and the text is the text with that state |
| AdminRuns.SucceedsExactlyWhen | crates/daemon/src/control/mod.rs:41-98 | each request fails exactly when what it needs, a parsing file or text and a usable kill-switch path, is missing |
| AdminRuns.UninstallRemovesExactly | crates/daemon/src/control/mod.rs:92-131 | only the system daemon uninstalls, and then exactly the socket, the state and, unless kept, the configuration are gone |
| AdminRuns.OnlyWhatLiesInIt | crates/daemon/src/control/mod.rs:141-147 | removing a directory takes what lies in it and nothing whose name merely begins alike |
| AdminRuns.FilesBelowTheRootAreUsable | crates/daemon/src/control/mod.rs:167-178 | a named file is a usable kill switch exactly under an absolute directory, the root included |
| AdminRuns.TheRootIsNotUsable | crates/daemon/src/control/mod.rs:174-176 | the root itself is not, however it is spelled |
| AdminRuns.UnpauseUndoesPause | crates/daemon/src/control/mod.rs:154-165 | pausing then unpausing gives back the same files |
| AdminRuns.PauseLasts | crates/daemon/src/control/mod.rs:84-98 | a pause holds through any other requests until an unpause or an uninstall that covers it |
| AdminRuns.PauseThenRun | crates/daemon/src/enforcement.rs:149-158 | after one confirmed pause, any number of passes, interleaved with any requests but an unpause or a covering uninstall, call no logout tool |
| AdminRuns.RunTurns | crates/daemon/src/enforcement.rs:149-158 | the same from any point at which the switch exists, with the files left exactly as the requests leave them |
| BundleRemoval.WaitForBundleRemoval | crates/tray/src/bin/tray.rs:339-363 | the wait ends within 481 looks; true means an unbroken absence of 20 s, false the first replacement, a time-out two minutes, and no earlier grace period was overlooked |
| BundleRemoval.DeferredUninstallServices | crates/tray/src/bin/tray.rs:276-316 | services are unregistered exactly after a wait that returned true, so only after looks that saw an unbroken absence of 20 s, after the clean-up request and whatever it answers; a replacement is a success |

## Left out

- Configuration and state text: JSON and TOML syntax belong to libraries; parsed trees and whole views stand for text.
- Durability below the file system: a crash is the end of the process, not of the machine; writes that returned are assumed readable.
- Partial frames lost when a wake-up cancels a half-done read in `crates/daemon/src/ipc.rs:175-210`: client frames after `Subscribe` are ignored anyway.
- Socket binding, peer credentials, file modes, directory creation, logging, the delayed daemon restart after a config write.
- `load_or_seed`: seeding a missing config file is not modelled; the parse and validation it relies on are.
- Storage: a write is one call that may stop part-way, not several interleaved ones, and a view's text is a function of the view, though a hash map may order its entries differently each time.
- Control: a kill switch that is a directory or whose last component is a link is not modelled; a failing directory removal removes nothing.
- AdminRuns.PauseThenRun: a daemon restarted under a configuration with another kill switch looks at that one; passes here look at the switch that was set.
- Kicks: passes take their users in any order; how long one escalation takes is arbitrary.
- EndToEnd.EveryWarningArrives: one status per ticker section, with a fixed reset time and no idle tick; `Viewing.LaggingTrayWarns` covers every other stream of one day.
- Viewing.LaggingTrayWarns: statuses of one reset time and one stored day; `EndToEnd.AnnouncedAgainExactlyWhen` says when the daemon's own reset time stays, `Viewing.NewDayAfterEarlyStatuses` what follows when it changes before the stored day does.
- Midnight.NextInFutureExactlyWhen: stated for at most one change of offset, of less than a day, in the nine days around; closer changes are covered by `ExactBound` alone.
- History.Conservation: states nothing once the occupied time of a day exceeds 2^32 seconds, where single counters wrap separately.
- The tray's windows, menus and notifications service, the XPC transport and service management: foreign calls.
- `ReportSessionState` and the `Paused` session state: the daemon never uses them.
