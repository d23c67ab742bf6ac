/**
 * The phase/cycle state machine of the Pomodoro timer, on values.
 *
 * A Snapshot holds the module-level state of script.js; each operation of
 * the script (toggleTimer, the tick body of startTimer, handlePhaseComplete
 * with switchToBreak / switchToWork, resetTimer) is a function from the old
 * snapshot to the new one. The class in module Timer is proved against these
 * functions, and module PomodoroLemmas proves what they promise.
 */
module Pomodoro {

  // Durations, in whole seconds, and the cycle length.
  const WorkTime: int := 25 * 60
  const ShortBreakTime: int := 5 * 60
  const LongBreakTime: int := 15 * 60
  const PomodorosPerCycle: int := 4

  datatype Option<T> = None | Some(value: T)

  datatype Phase = Work | ShortBreak | LongBreak

  /**
   * The timer's state. `timerArmed` stands for the setInterval handle:
   * true while a one-second repeating callback is scheduled.
   */
  datatype Snapshot = Snapshot(
    timeRemaining: int,
    totalTime: int,
    isPaused: bool,
    isWorkPhase: bool,
    completedPomodoros: int,
    currentCyclePosition: int,
    timerArmed: bool)

  /** JavaScript's `%`: the remainder of division truncated toward zero, carrying the sign of the dividend. */
  function JsRemainder(a: int, n: int): (r: int)
    requires n > 0
    ensures -n < r < n
    ensures a > 0 ==> r >= 0
    ensures a < 0 ==> r <= 0
    ensures a - r == n * (if a >= 0 then a / n else -((-a) / n))
    ensures a >= 0 ==> r == a % n
  {
    if a >= 0 then a % n
    else
      var b := -a;
      assert b == n * (b / n) + b % n;
      -(b % n)
  }

  /**
   * The phase the flags denote. The script keeps only isWorkPhase; a break
   * is long exactly when the cycle position is 0.
   */
  function PhaseOf(s: Snapshot): Phase {
    if s.isWorkPhase then Work
    else if s.currentCyclePosition == 0 then LongBreak
    else ShortBreak
  }

  /** The canonical length of each phase. */
  function PhaseDuration(p: Phase): (d: int)
    ensures 0 < d <= WorkTime
  {
    match p
    case Work => WorkTime
    case ShortBreak => ShortBreakTime
    case LongBreak => LongBreakTime
  }

  /**
   * The state between operations: the position is in the cycle, totalTime is
   * the canonical length of the current phase, the countdown is positive and
   * not past its total, and the timer is scheduled exactly when not paused.
   */
  predicate Inv(s: Snapshot) {
    0 <= s.currentCyclePosition < PomodorosPerCycle &&
    s.totalTime == PhaseDuration(PhaseOf(s)) &&
    1 <= s.timeRemaining <= s.totalTime &&
    s.timerArmed == !s.isPaused
  }

  /** loadPomodoroCount: the saved count when one is stored, else 0. */
  function RestoredCount(saved: Option<int>): int {
    if saved.Some? then saved.value else 0
  }

  /**
   * The state at page load: a paused, unscheduled work interval at the start
   * of the cycle, with the stored count or 0.
   */
  function Initial(saved: Option<int>): (r: Snapshot)
    ensures Inv(r)
    ensures PhaseOf(r) == Work && r.timeRemaining == WorkTime
    ensures r.isPaused && !r.timerArmed && r.currentCyclePosition == 0
    ensures saved.None? ==> r.completedPomodoros == 0
    ensures saved.Some? ==> r.completedPomodoros == saved.value
  {
    Snapshot(WorkTime, WorkTime, true, true, RestoredCount(saved), 0, false)
  }

  /**
   * toggleTimer: start when paused, pause when running. Only the paused flag
   * and the schedule change, and afterwards the timer is scheduled exactly
   * when it is running.
   */
  function Toggled(s: Snapshot): (r: Snapshot)
    ensures r.isPaused == !s.isPaused
    ensures r.timerArmed == !r.isPaused
    ensures r.(isPaused := s.isPaused, timerArmed := s.timerArmed) == s
  {
    if s.isPaused then s.(timerArmed := true, isPaused := false)
    else s.(timerArmed := false, isPaused := true)
  }

  /** The duration switchToBreak assigns. */
  function BreakDuration(isLongBreak: bool): int {
    if isLongBreak then LongBreakTime else ShortBreakTime
  }

  /**
   * switchToBreak: enter a break with the full canonical length of a long or
   * short break and schedule the timer; position, count and paused flag stay.
   */
  function BreakStarted(s: Snapshot, isLongBreak: bool): (r: Snapshot)
    ensures !r.isWorkPhase && r.timerArmed
    ensures r.timeRemaining == r.totalTime == PhaseDuration(if isLongBreak then LongBreak else ShortBreak)
    ensures r.currentCyclePosition == s.currentCyclePosition
    ensures r.completedPomodoros == s.completedPomodoros && r.isPaused == s.isPaused
  {
    var d := BreakDuration(isLongBreak);
    s.(isWorkPhase := false, timeRemaining := d, totalTime := d, timerArmed := true)
  }

  /**
   * switchToWork: enter a work interval with its full canonical length and
   * schedule the timer; position, count and paused flag stay.
   */
  function WorkStarted(s: Snapshot): (r: Snapshot)
    ensures PhaseOf(r) == Work && r.timerArmed
    ensures r.timeRemaining == r.totalTime == PhaseDuration(Work)
    ensures r.currentCyclePosition == s.currentCyclePosition
    ensures r.completedPomodoros == s.completedPomodoros && r.isPaused == s.isPaused
  {
    s.(isWorkPhase := true, timeRemaining := WorkTime, totalTime := WorkTime, timerArmed := true)
  }

  /**
   * handlePhaseComplete: work and break alternate; a finished work interval is
   * counted, and only it moves the cycle on. The next phase starts full and
   * scheduled, with the canonical length of the phase it is.
   */
  function PhaseCompleted(s: Snapshot): (r: Snapshot)
    ensures r.isWorkPhase == !s.isWorkPhase
    ensures r.completedPomodoros == s.completedPomodoros + (if s.isWorkPhase then 1 else 0)
    ensures !s.isWorkPhase ==> r.currentCyclePosition == s.currentCyclePosition
    ensures r.timerArmed && r.isPaused == s.isPaused && r.timeRemaining == r.totalTime
    ensures 0 <= s.currentCyclePosition < PomodorosPerCycle ==>
      0 <= r.currentCyclePosition < PomodorosPerCycle && r.totalTime == PhaseDuration(PhaseOf(r))
  {
    if s.isWorkPhase then
      var pos := JsRemainder(s.currentCyclePosition + 1, PomodorosPerCycle);
      var counted := s.(completedPomodoros := s.completedPomodoros + 1, currentCyclePosition := pos);
      if pos == 0 then BreakStarted(counted, true) else BreakStarted(counted, false)
    else
      WorkStarted(s)
  }

  /**
   * The tick body of startTimer: a tick that leaves time on the clock takes
   * exactly one second off and changes nothing else; the tick that reaches
   * zero cancels the timer and completes the phase, so the next phase starts full.
   */
  function Ticked(s: Snapshot): (r: Snapshot)
    ensures s.timeRemaining > 1 ==> r == s.(timeRemaining := s.timeRemaining - 1)
    ensures s.timeRemaining <= 1 ==> r.isWorkPhase == !s.isWorkPhase && r.timerArmed && r.timeRemaining == r.totalTime
  {
    var t := s.(timeRemaining := s.timeRemaining - 1);
    if t.timeRemaining <= 0 then PhaseCompleted(t.(timerArmed := false)) else t
  }

  /** The duration resetTimer restores for the current phase. */
  function ResetDuration(isWorkPhase: bool, currentCyclePosition: int): int {
    if isWorkPhase then WorkTime
    else if currentCyclePosition == 0 then LongBreakTime
    else ShortBreakTime
  }

  /**
   * resetTimer: cancel the timer, pause, and restart the current phase at the
   * canonical length of that phase; phase, position and count stay.
   */
  function ResetToPhaseStart(s: Snapshot): (r: Snapshot)
    ensures r.isPaused && !r.timerArmed
    ensures PhaseOf(r) == PhaseOf(s)
    ensures r.timeRemaining == r.totalTime == PhaseDuration(PhaseOf(s))
    ensures r.isWorkPhase == s.isWorkPhase && r.currentCyclePosition == s.currentCyclePosition
    ensures r.completedPomodoros == s.completedPomodoros
  {
    var d := ResetDuration(s.isWorkPhase, s.currentCyclePosition);
    s.(timerArmed := false, timeRemaining := d, totalTime := d, isPaused := true)
  }

  /** What can happen to the timer: the two buttons and one second of time. */
  datatype Event = ToggleClick | ResetClick | Second

  /**
   * One event. A second passes unnoticed unless the timer is scheduled. Only
   * the second that ends a work interval changes the count, by exactly one,
   * and only it moves the cycle position.
   */
  function Step(s: Snapshot, e: Event): (r: Snapshot)
    ensures e == Second && !s.timerArmed ==> r == s
    ensures r.completedPomodoros == s.completedPomodoros + (if IsWorkExpiry(s, e) then 1 else 0)
    ensures !IsWorkExpiry(s, e) ==> r.currentCyclePosition == s.currentCyclePosition
  {
    match e
    case ToggleClick => Toggled(s)
    case ResetClick => ResetToPhaseStart(s)
    case Second => if s.timerArmed then Ticked(s) else s
  }

  /**
   * A sequence of events, in order. Over any run the count grows by exactly the
   * number of work intervals that ended: pauses, resumes and resets add nothing.
   */
  function Run(s: Snapshot, events: seq<Event>): (r: Snapshot)
    ensures r.completedPomodoros == s.completedPomodoros + WorkExpiries(s, events)
    decreases |events|
  {
    if events == [] then s else Run(Step(s, events[0]), events[1..])
  }

  /** `n` seconds with no button pressed. */
  function Seconds(s: Snapshot, n: nat): Snapshot {
    Run(s, seq(n, _ => Second))
  }

  /** Whether event `e` in state `s` ends a work interval. */
  predicate IsWorkExpiry(s: Snapshot, e: Event) {
    e == Second && s.timerArmed && s.isWorkPhase && s.timeRemaining <= 1
  }

  /** How many work intervals end along a run. */
  function WorkExpiries(s: Snapshot, events: seq<Event>): nat
    decreases |events|
  {
    if events == [] then 0
    else (if IsWorkExpiry(s, events[0]) then 1 else 0) + WorkExpiries(Step(s, events[0]), events[1..])
  }
}
