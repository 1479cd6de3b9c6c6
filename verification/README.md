# Pomodoro timer: the countdown state machine and its display

A Dafny model of the timing core of a Pomodoro desktop application. The
backend (`src-tauri/src/lib.rs`) keeps one `TimerStatus` (state, timer
type, remaining seconds, total seconds). It offers start, pause, resume and
stop commands. On every start it spawns a background loop that, once per
second, counts the status down, emits it to the frontend, and on reaching
zero marks it `Completed`, emits a completion event and asks for a desktop
notification. The frontend (`src/App.tsx`) shows the remaining time as
`MM:SS`, a heading for the timer type, and enables or shows its buttons
according to the state.

Modules:

- `Timer` (`timer.dfy`): the state and type enumerations, the status
  record, the `Ticker` (whether the loop spawned by the last start is still
  alive, and which timer type it captured), `TimerManager::new`,
  `start_timer`, `pause_timer`, `resume_timer` and `stop_timer`.
- `Ticker` (`ticker.dfy`): one iteration of the loop as the step `Tick`,
  returning the new machine and the emitted events (`TickEvt`,
  `CompletedEvt`, `Notify`), and `Ticks`, `n` seconds without a command.
- `Commands` (`commands.dfy`): the three start commands with their minute
  constants (25, 5, 15), and `Run`, a sequence of commands interleaved with
  elapsed seconds, with scenarios over it.
- `TimeFormat` (`time_format.dfy`): `formatTime`, with JavaScript's
  `toString` and `padStart` on non-negative integers, and `ParseTime`, its
  inverse.
- `View` (`view.dfy`): the initial status shown before the first poll, the
  timer-type heading as three conditional JSX fragments, and the button
  conditions.

The model keeps these behaviours of the code:

- `stop_timer` only sets the state to `Idle`. The remaining and total
  seconds keep their values, so a stopped timer still shows where it
  stopped.
- The durations are fixed. The three start commands pass 25, 5 and 15
  minutes, and nothing else in the backend sets a duration.
- `resume_timer` only changes the state. It does not spawn a new loop
  (see Findings).
- A countdown of `N` seconds completes on the `N + 1`-th second after the
  start, not the `N`-th. The loop first counts down to zero and emits
  `00:00`. On the next second it finds zero and completes.

Time is a parameter: each `Elapse` command, or each step of `Ticks`, is
one wake-up of the loop after its one-second sleep. One loop iteration is
one atomic step.

## Model

| member | source | states |
|---|---|---|
| Timer.New | src-tauri/src/lib.rs:37-47 | the initial status is Idle, Work, 1500 of 1500 seconds, with no loop, and satisfies the invariant |
| Timer.MinutesToSeconds | src-tauri/src/lib.rs:54 | the duration is minutes times 60 whenever that fits in u64, and otherwise wraps modulo 2^64 |
| Timer.Start | src-tauri/src/lib.rs:53-69 | from any state: Running, the given type, remaining equal to total equal to minutes times 60, a live loop capturing that type; the invariant holds afterwards |
| Timer.Pause | src-tauri/src/lib.rs:114-119 | Running becomes Paused; every other state is left exactly as it was; type, counters and loop are untouched; the invariant is preserved |
| Timer.Resume | src-tauri/src/lib.rs:121-126 | Paused becomes Running; every other state is left exactly as it was; counters untouched; the loop is not revived |
| Timer.Stop | src-tauri/src/lib.rs:128-132 | from any state the result is Idle; type, remaining and total seconds keep their values; the loop is not told |
| Timer.PauseIdempotent | src-tauri/src/lib.rs:114-119 | a second pause has no further effect, and after a pause the timer is never Running |
| Timer.ResumeIdempotent | src-tauri/src/lib.rs:121-126 | a second resume has no further effect, and after a resume the timer is never Paused |
| Timer.StopAbsorbs | src-tauri/src/lib.rs:128-132 | stop is idempotent and a pause or resume before it makes no difference |
| Timer.PauseResumeInverse | src-tauri/src/lib.rs:114-126 | pause then resume restores a running timer exactly, and resume then pause restores a paused one |
| Timer.ResumeRearmed | src-tauri/src/lib.rs:121-126 | the repaired resume: Paused becomes Running with a live loop, a live loop is kept, and nothing else changes |
| Ticker.Tick | src-tauri/src/lib.rs:70-110 | one loop iteration: events are emitted exactly when the loop is alive and the state is Running, the first being the tick carrying the new status; the loop survives exactly when it counts a second off; the state changes only by completing a Running timer at zero; type and total never change; the invariant is preserved |
| Ticker.Ticks | src-tauri/src/lib.rs:69-111 | any number of seconds preserves the invariant |
| Ticker.CountdownRuns | src-tauri/src/lib.rs:76-89 | while time is left, k seconds take exactly k off, keep the loop, and emit k tick events, the i-th carrying remaining minus i; nothing completes |
| Ticker.CompletingTick | src-tauri/src/lib.rs:79-108 | the second that finds Running at zero sets Completed, ends the loop and emits the tick, the completion for the captured type and the notification, in that order, and nothing after |
| Ticker.NotificationLabel | src-tauri/src/lib.rs:93-97 | the name each type has in its notification: "Work session", "Short break", "Long break"; by Ticker.CompletionNoticeNamesType, different types get different names |
| Ticker.CompletionNotice | src-tauri/src/lib.rs:99-104 | the notification titled "Pomodoro Timer" with body "<name> completed!"; by Ticker.CompletionNoticeNamesType, it identifies the type that completed |
| Ticker.CompletionNoticeNamesType | src-tauri/src/lib.rs:93-104 | every completion notification has the title "Pomodoro Timer", and two types have the same notification exactly when they are the same type |
| Ticker.CompletionEventsCount | src-tauri/src/lib.rs:76-107 | the second that finds a running countdown at zero emits exactly one tick, one completion and one notification |
| Ticker.CountdownCompletes | src-tauri/src/lib.rs:73-110 | with r seconds left and no command, the countdown completes on second r + 1 at zero with the loop gone, emitting r + 1 ticks, then one completion and one notification titled "Pomodoro Timer" with body "<label> completed!", and nothing more however long time runs |
| Ticker.NoLoopNoProgress | src-tauri/src/lib.rs:85-87 | once the loop has ended, time passing changes nothing and emits nothing |
| Ticker.ResumeAfterLoopEndedStalls | src-tauri/src/lib.rs:121-126 | resuming a paused timer whose loop has ended reads Running but never changes again |
| Ticker.RearmedResumeCompletes | src-tauri/src/lib.rs:121-126 | with the repaired resume, a paused timer with r seconds left completes, once, r + 1 seconds later |
| Commands.StartWorkTimer | src-tauri/src/lib.rs:140-143 | the work command yields Running, Work, 1500 of 1500, with a loop capturing Work |
| Commands.StartShortBreak | src-tauri/src/lib.rs:145-148 | the short-break command yields Running, ShortBreak, 300 of 300, with a loop capturing ShortBreak |
| Commands.StartLongBreak | src-tauri/src/lib.rs:150-153 | the long-break command yields Running, LongBreak, 900 of 900, with a loop capturing LongBreak |
| Commands.Apply | src-tauri/src/lib.rs:155-168 | commands emit nothing themselves, and every command or second preserves the invariant |
| Commands.Run | src-tauri/src/lib.rs:53-132 | every sequence of commands and seconds preserves the invariant |
| Commands.ReachableIsValid | src-tauri/src/lib.rs:37-132 | in every reachable status remaining is at most total, and a Completed status has zero remaining |
| Commands.CompletionsBoundedByStarts | src-tauri/src/lib.rs:69-110 | each spawned loop completes at most once: completions emitted plus a still-live loop never exceed the starts plus the loop alive at the beginning; every completion comes with exactly one notification |
| Commands.StartWorkFromLaunch | src-tauri/src/lib.rs:141-143 | a work start right after launch reads Running, Work, 1500 of 1500 and emits nothing |
| Commands.WorkSessionAtZero | src-tauri/src/lib.rs:76-79 | after exactly 1500 seconds the work session reads Running with 0 left and nothing has completed |
| Commands.WorkSessionCompletes | src-tauri/src/lib.rs:76-108 | from 1501 seconds on the work session reads Completed, 0 of 1500; the 1503 events hold one completion for Work and one notification "Work session completed!" at their end |
| Commands.PausedShortBreakHolds | src-tauri/src/lib.rs:114-119 | a short break paused before its first second stays Paused at 300, emits nothing, and loses its loop after one second |
| Commands.StopSilencesLoop | src-tauri/src/lib.rs:128-132 | after a stop the loop ends on the next second without emitting anything, and the counters are kept |
| Commands.ResumeAfterPausedSecondStalls | src-tauri/src/lib.rs:121-126 | a work session paused across one second and resumed reads Running, 1500 of 1500, forever, and emits nothing |
| Commands.QuickResumeCompletes | src-tauri/src/lib.rs:121-126 | a pause and resume within the same second keep the loop, and the session still completes once |
| Commands.RearmedResumeAfterPausedSecondCompletes | src-tauri/src/lib.rs:121-126 | with the repaired resume, the session paused across one second completes once, 1501 seconds after the resume |
| TimeFormat.NatToString | src/App.tsx:24 | the decimal text is non-empty digits with no leading zero, one character below 10 and at most two below 100 |
| TimeFormat.ParseNatToString | src/App.tsx:24 | the decimal text reads back as the number |
| TimeFormat.NatToStringParse | src/App.tsx:24 | a digit string without a leading zero is the decimal text of its number |
| TimeFormat.PadStart | src/App.tsx:24 | JavaScript's padStart: the result is as long as the text or the width, whichever is larger; TimeFormat.PadStartShape gives its contents |
| TimeFormat.PadStartShape | src/App.tsx:24 | padding keeps the text at the end and puts only fill characters before it |
| TimeFormat.Field | src/App.tsx:24 | a padded field is all digits and at least two long, exactly two when the number is below 100 |
| TimeFormat.ParseZeroPadded | src/App.tsx:24 | zero padding does not change the number a field reads as |
| TimeFormat.FieldTwoDigits | src/App.tsx:24 | below 100 the field is the tens digit then the units digit |
| TimeFormat.FormatTime | src/App.tsx:21-25 | the display is a minutes field, ':', and a two-digit seconds field; it is exactly five characters exactly when the count is below 6000, with ':' at index 2 |
| TimeFormat.FormatTimeFiveChars | src/App.tsx:21-25 | below 6000 seconds the display is the two digits of seconds div 60, ':', and the two digits of seconds mod 60 |
| TimeFormat.FormatTimeRoundTrip | src/App.tsx:21-25 | parsing the display gives back minutes times 60 plus seconds, that is, the original count |
| TimeFormat.ParseTimeRoundTrip | src/App.tsx:21-25 | every parseable text without a superfluous leading zero is the display of the count it parses to |
| TimeFormat.FormatTimeInjective | src/App.tsx:21-25 | two counts have the same display exactly when they are equal |
| TimeFormat.FormatTimeExamples | src/App.tsx:21-25 | 1500 seconds display as "25:00" and 0 as "00:00" |
| View.InitialDisplayStatus | src/App.tsx:14-19 | the status the frontend shows before its first poll is exactly the backend's start-up status |
| View.InitialClock | src/App.tsx:14-19 | before the first poll the clock reads "25:00" |
| View.TypeHeading | src/App.tsx:117-119 | exactly one of the three conditional fragments renders, so the heading is the type's label: "Work Session", "Short Break" or "Long Break" |
| View.TypeHeadingInjective | src/App.tsx:117-119 | no two timer types share a heading |
| View.StartDisabled | src/App.tsx:161-175 | the start buttons are disabled in Running only; by View.ControlsAgreeWithCommands, exactly when pause is offered |
| View.PauseShown | src/App.tsx:183-187 | pause is shown in Running only; by View.ControlsAgreeWithCommands, exactly when pausing changes the status |
| View.ResumeShown | src/App.tsx:188-192 | resume is shown in Paused only; by View.ControlsAgreeWithCommands, exactly when resuming changes the status |
| View.StopShown | src/App.tsx:193-198 | stop is shown in Running or Paused; by View.ControlsAgreeWithCommands, exactly when pause or resume is |
| View.ControlsAgreeWithCommands | src/App.tsx:159-198 | start is disabled exactly when pause is shown; stop is shown exactly when pause or resume is, never both; pause and resume are shown exactly when the command would change the status; stop is shown only where it changes it |
| View.ControlsAfterCommands | src/App.tsx:182-198 | pausing offers resume, resuming offers pause, and stopping re-enables the start buttons and hides stop |

## Findings

| source | as written | input that shows it | evidently intended | confidence | as-written member | corrected member |
|---|---|---|---|---|---|---|
| src-tauri/src/lib.rs:121-126 | `resume_timer` only sets the state back to Running. The loop has already ended if a second passed during the pause (lib.rs:85-87). | start work, pause, let one second pass, resume: the status reads Running, 25:00, forever, and never completes | resume continues the countdown, spawning a loop when none is alive | high; not executed | Timer.Resume (shown by Commands.ResumeAfterPausedSecondStalls and Ticker.ResumeAfterLoopEndedStalls) | Timer.ResumeRearmed (proved by Ticker.RearmedResumeCompletes and Commands.RearmedResumeAfterPausedSecondCompletes) |

`Commands.Run` keeps the as-written `Timer.Resume`, because it describes
what the application does. The repaired resume is proved on its own.

## Left out

- Several live loops. Each `start_timer` spawns a new loop
  (lib.rs:69) and does not stop the old one. The old loop ends only when
  it wakes and finds a state other than `Running` (lib.rs:76-87). If it
  wakes after the new start has set `Running` again, both loops stay
  alive. The backend accepts a start in any state, including `Running`
  (lib.rs:53-62). From the interface this happens when a start button is
  pressed less than a second after Pause or Stop, because the start
  buttons are enabled while paused or stopped (App.tsx:161-180).
  With two loops, the countdown loses two seconds per second. Each loop
  also completes with the type it captured (lib.rs:93-103). Start Work,
  pause, then start a short break within that second: the completion
  event and the notification may then say "Work session completed!" for
  the short break. The completion is still reported once, by whichever
  loop first finds zero. The other loop then sees `Completed` and ends
  silently (lib.rs:85-87). The model keeps
  one loop: a start replaces the loop. The third part of the invariant
  `Timer.Valid`, that a live loop's captured type is the status's type,
  holds only under this one-loop abstraction. Each loop iteration is
  one atomic step.
- The `start_time` field. It is wall-clock time that is written but never
  read.
- The one-second `sleep`, the `Arc<Mutex<…>>` locking and lock poisoning.
  Time is the `Elapse` command instead.
- Tauri's `emit`, `NotificationBuilder` and `show`, and the `run()`
  bootstrap. Emitted events are values in the returned list. A
  notification whose build fails in the host is still listed as `Notify`.
- `get_timer_status`. It returns a copy of the status, which is the
  `status` field of `Machine`.
- Timer.MinutesToSeconds: models the wrap-around of a release build. A
  debug build panics on overflow instead. The three start commands never
  overflow.
- `getProgress` and the SVG dash-offset arithmetic in `App.tsx`. They use
  floating point and `Math.PI`, and divide by zero when the total is 0.
- The frontend's `invoke`/`listen` plumbing and its error logging.
- TimeFormat.FormatTime: the count is an unbounded natural number. JavaScript
  numbers lose integer precision above 2^53, and the model does not
  reproduce that.
- `src/Settings.tsx`. Its backend commands do not exist in `lib.rs`, and
  the rest of it is form state.
- `eslint.config.js`. It is tooling configuration.
