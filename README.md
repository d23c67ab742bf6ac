# Pomodoro timer state machine

A model of the single-page Pomodoro timer's controller (`script.js`). The
timer alternates 25-minute work intervals with 5-minute short breaks and,
after every fourth work interval, a 15-minute long break. It counts finished
work intervals and keeps a position in the 4-step cycle. The state changes
in place through three entry points: the start/pause button, the reset button
and a one-second repeating callback.

- `pomodoro.dfy` (module `Pomodoro`): the state as a value (`Snapshot`), the
  durations, and one function per operation: `Toggled`, `Ticked`,
  `PhaseCompleted`, `BreakStarted`, `WorkStarted`, `ResetToPhaseStart`. It also
  gives the invariant `Inv`, the events (`ToggleClick`, `ResetClick`, `Second`)
  and runs of events.
- `pomodoro_lemmas.dfy` (module `PomodoroLemmas`): what those functions promise.
  This covers invariant preservation, the count-down, the work and break
  transitions, reset, and the first-pomodoro and full-cycle scenarios.
- `timer.dfy` (module `Timer`): class `PomodoroTimer`, whose fields are the
  script's state variables. Its methods change them in place, and each is
  proved to produce the snapshot its function computes. `startTimer` and the
  methods that call it require that no callback is scheduled; every caller
  meets this, so `setInterval` never runs while a handle is live.
- `clock.dfy` (module `Clock`): the minutes/seconds text of the clock face and
  its round trip back to the number of seconds.

The `setInterval` handle is a boolean `timerArmed`. The callback body is
`Tick`, which its caller may run only while the timer is armed. The count
restored from storage is a constructor argument: `None` when nothing was
saved, which gives 0.

## Model

| member | source | states |
|---|---|---|
| Clock.Split | script.js:117-118 | the minutes and seconds of t satisfy seconds < 60 and minutes * 60 + seconds == t |
| Clock.SplitUnique | script.js:117-118 | that pair is the only one with these two properties |
| Clock.DecimalString | script.js:120-121 | toString of a non-negative number is a non-empty string of decimal digits with no leading zero |
| Clock.PadStart | script.js:120-121 | padStart keeps the string as its suffix, fills the front with the pad character, and has length max(length, width) |
| Clock.DecimalRoundTrip | script.js:120-121 | reading the decimal string back gives the number |
| Clock.PaddedRoundTrip | script.js:120-121 | reading a '0'-padded decimal string back gives the number |
| Clock.Render | script.js:117-121 | the clock face is all digits; seconds is exactly 2 characters, minutes at least 2 (exactly 2 below 100 minutes); minutes reads back as t / 60 and seconds as t % 60, so together they give t, including t = 0 |
| Pomodoro.JsRemainder | script.js:157 | JavaScript `%` lies strictly between -n and n, carries the dividend's sign, is the dividend minus n times the quotient truncated toward zero, and equals Dafny's `%` for non-negative dividends |
| Pomodoro.PhaseDuration | script.js:2-4 | every phase lasts a positive time of at most the work duration |
| Pomodoro.Initial | script.js:22-46 | the page-load state is a paused, unscheduled work interval of 1500 s at position 0 satisfying the invariant, with the stored count when there is one and 0 otherwise |
| Pomodoro.Toggled | script.js:54-69 | toggle flips isPaused, afterwards the timer is scheduled exactly when running, and no other field changes |
| Pomodoro.Ticked | script.js:73-82 | a tick that leaves time takes exactly one second off and changes nothing else; the tick that reaches zero switches work/break and starts the next phase full and scheduled |
| Pomodoro.PhaseCompleted | script.js:149-173 | work and break alternate; the count grows by one exactly when work ends; a break's end keeps the position; the next phase starts full, scheduled, with isPaused untouched, at the canonical length of its phase, and the position stays in [0,4) |
| Pomodoro.BreakStarted | script.js:176-197 | a break starts scheduled with the full canonical long or short break length; position, count and isPaused stay |
| Pomodoro.WorkStarted | script.js:200-209 | work starts scheduled with the full canonical work length; position, count and isPaused stay |
| Pomodoro.ResetToPhaseStart | script.js:91-107 | reset pauses and disarms, restarts at the canonical length of the current phase, and keeps phase, position and count |
| Pomodoro.Step | script.js:36-37 | a second passes unnoticed unless the timer is scheduled; only the second that ends a work interval changes the count, by exactly one, and only it moves the cycle position |
| Pomodoro.Run | script.js:36-82 | over any sequence of presses and seconds the count grows by exactly the number of work intervals that ended; pauses, resumes and resets add nothing |
| PomodoroLemmas.ToggleProperties | script.js:54-69 | between events toggle keeps the invariant, arms the timer when starting and disarms it when pausing, and toggling twice restores the state |
| PomodoroLemmas.TickExpires | script.js:74-80 | the tick that reaches zero completes the phase in the same step, so the new phase starts full |
| PomodoroLemmas.WorkCompletion | script.js:150-166 | for any position in [0,4), including the expired, unscheduled state the tick hands over, finishing work adds 1 to the count, moves the position to (pos + 1) % 4, enters a 900 s long break iff the new position is 0 and a 300 s short break otherwise, re-arms the timer without touching isPaused, and leaves a valid state when running |
| PomodoroLemmas.BreakCompletion | script.js:167-170 | for any break state, including the expired, unscheduled one the tick hands over, finishing it enters work with 1500 s, keeps position and count, re-arms the timer without touching isPaused, and leaves a valid state when running |
| PomodoroLemmas.ResetProperties | script.js:91-107 | between events reset restores exactly the duration the current phase began with and leaves a valid, paused timer |
| PomodoroLemmas.ResetAfterCompletion | script.js:97-105 | reset's break-length rule, which looks at the position, gives back exactly the duration the last phase completion assigned |
| PomodoroLemmas.StepPreservesInv | script.js:54-112 | every event keeps the invariant (position in [0,4), totalTime canonical for the phase, 1 <= timeRemaining <= totalTime, armed iff not paused) |
| PomodoroLemmas.RunPreservesInv | script.js:36-37 | any sequence of button presses and seconds keeps the invariant |
| PomodoroLemmas.CountDown | script.js:73-77 | k seconds of a running timer with more than k seconds left take exactly k seconds off and change nothing else |
| PomodoroLemmas.Expiry | script.js:73-82 | after exactly timeRemaining seconds of a running timer the phase has completed |
| PomodoroLemmas.FirstPomodoro | script.js:149-166 | from page load, start plus 1500 seconds gives a running short break of 300 s at position 1 with the count one higher |
| PomodoroLemmas.FullCycle | script.js:157-166 | four work intervals with three short breaks between them end in a running 900 s long break at position 0 with the count four higher |
| Timer.PomodoroTimer.constructor | script.js:22-46 | the object starts in the page-load state with the restored count, and is valid |
| Timer.PomodoroTimer.StartTimer | script.js:72-83 | the callback is scheduled, and only when none is live, so there is never a second, uncancellable callback |
| Timer.PomodoroTimer.PauseTimer | script.js:86-88 | the callback is cancelled |
| Timer.PomodoroTimer.Toggle | script.js:54-69 | the fields become the toggled snapshot and the invariant holds |
| Timer.PomodoroTimer.Tick | script.js:73-82 | the fields become the ticked snapshot and the invariant holds |
| Timer.PomodoroTimer.PhaseComplete | script.js:149-173 | called with the callback cancelled, the fields become the completed-phase snapshot |
| Timer.PomodoroTimer.SwitchToBreak | script.js:176-197 | the fields become the break-started snapshot for a long or a short break |
| Timer.PomodoroTimer.SwitchToWork | script.js:200-209 | the fields become the work-started snapshot |
| Timer.PomodoroTimer.Reset | script.js:91-112 | the fields become the reset snapshot and the invariant holds |
| Timer.PomodoroTimer.ClockText | script.js:115-121 | for any timeRemaining >= 0, including the 0 of the expiring tick, the clock text is exactly the rendered face of `Clock.Render`: digits, 2-character seconds, minutes reading back as timeRemaining / 60 and seconds as timeRemaining % 60 |

## Left out

- DOM updates: button text and classes, phase label, body classes, the count element. These are presentation side effects with no effect on state.
- Cycle indicator dots (script.js:212-222): presentation only. Dot i is lit exactly when i < currentCyclePosition.
- Progress ring (script.js:17-19, 124-126): floating-point rendering of `1 - timeRemaining / totalTime`.
- playAlertSound (script.js:130-146): a Web Audio call with no effect on state. It is treated as doing nothing.
- localStorage and parseInt (script.js:40-51): browser I/O. The restored value is a constructor argument `Option<int>`. A stored value that parseInt turns into NaN is not modelled. The write in savePomodoroCount is left out.
- Timing and event listeners (script.js:36-37, 73, 82): real time, scheduling and callback dispatch. These become explicit `Tick` calls, `Second` events and the `timerArmed` flag.
- Number width: JavaScript numbers are doubles. Counts and times are exact integers only below 2^53, and the model uses unbounded integers.
- Clock: only non-negative times are rendered. The invariant proves timeRemaining >= 1 between events, and it is 0 only on the display inside the expiring tick. Negative numbers' "-" sign is therefore not modelled.
