/**
 * The timer as the script runs it: one object whose fields are the
 * module-level variables, changed in place by the button handlers and by
 * the one-second callback. Each method is proved to move the object from
 * old(State()) to the snapshot the matching function of module Pomodoro
 * computes, and to keep the invariant.
 */
module Timer {
  import opened Pomodoro
  import Clock
  import PomodoroLemmas

  class PomodoroTimer {
    var timeRemaining: int
    var totalTime: int
    var isPaused: bool
    var isWorkPhase: bool
    var completedPomodoros: int
    var currentCyclePosition: int
    /** Whether a setInterval callback is scheduled (the timerInterval handle is live). */
    var timerArmed: bool

    /** The fields as a value. */
    function State(): Snapshot
      reads this
    {
      Snapshot(timeRemaining, totalTime, isPaused, isWorkPhase,
               completedPomodoros, currentCyclePosition, timerArmed)
    }

    predicate Valid()
      reads this
    {
      Inv(State())
    }

    /** Page load: the state variables' initial values, then loadPomodoroCount. */
    constructor (saved: Option<int>)
      ensures State() == Initial(saved)
      ensures Valid()
    {
      timerArmed := false;
      timeRemaining := WorkTime;
      totalTime := WorkTime;
      isPaused := true;
      isWorkPhase := true;
      completedPomodoros := 0;
      currentCyclePosition := 0;
      new;
      if saved.Some? {
        completedPomodoros := saved.value;
      }
    }

    /**
     * startTimer: schedule the one-second callback. setInterval does not cancel
     * a live handle, so it is only ever called when none is scheduled.
     */
    method StartTimer()
      requires !timerArmed
      modifies this`timerArmed
      ensures timerArmed
    {
      timerArmed := true;
    }

    /** pauseTimer: cancel the scheduled callback. */
    method PauseTimer()
      modifies this`timerArmed
      ensures !timerArmed
    {
      timerArmed := false;
    }

    /** toggleTimer: the start/pause button. */
    method Toggle()
      requires Valid()
      modifies this
      ensures State() == Toggled(old(State()))
      ensures Valid()
    {
      if isPaused {
        StartTimer();
      } else {
        PauseTimer();
      }
      isPaused := !isPaused;
    }

    /** The body of the callback startTimer schedules; it runs only while the timer is armed. */
    method Tick()
      requires Valid() && timerArmed
      modifies this
      ensures State() == Ticked(old(State()))
      ensures Valid()
    {
      timeRemaining := timeRemaining - 1;
      if timeRemaining <= 0 {
        timerArmed := false;
        PhaseComplete();
      }
      PomodoroLemmas.StepPreservesInv(old(State()), Second);
    }

    /** handlePhaseComplete: count a finished work interval and move to the next phase. */
    method PhaseComplete()
      requires !timerArmed
      modifies this
      ensures State() == PhaseCompleted(old(State()))
    {
      if isWorkPhase {
        completedPomodoros := completedPomodoros + 1;
        currentCyclePosition := JsRemainder(currentCyclePosition + 1, PomodorosPerCycle);
        if currentCyclePosition == 0 {
          SwitchToBreak(true);
        } else {
          SwitchToBreak(false);
        }
      } else {
        SwitchToWork();
      }
    }

    /** switchToBreak: enter a long or short break and restart the timer. */
    method SwitchToBreak(isLongBreak: bool)
      requires !timerArmed
      modifies this
      ensures State() == BreakStarted(old(State()), isLongBreak)
    {
      isWorkPhase := false;
      if isLongBreak {
        timeRemaining := LongBreakTime;
        totalTime := LongBreakTime;
      } else {
        timeRemaining := ShortBreakTime;
        totalTime := ShortBreakTime;
      }
      StartTimer();
    }

    /** switchToWork: enter a work interval and restart the timer. */
    method SwitchToWork()
      requires !timerArmed
      modifies this
      ensures State() == WorkStarted(old(State()))
    {
      isWorkPhase := true;
      timeRemaining := WorkTime;
      totalTime := WorkTime;
      StartTimer();
    }

    /** resetTimer: the reset button. */
    method Reset()
      requires Valid()
      modifies this
      ensures State() == ResetToPhaseStart(old(State()))
      ensures Valid()
    {
      PauseTimer();
      if isWorkPhase {
        timeRemaining := WorkTime;
        totalTime := WorkTime;
      } else {
        if currentCyclePosition == 0 {
          timeRemaining := LongBreakTime;
          totalTime := LongBreakTime;
        } else {
          timeRemaining := ShortBreakTime;
          totalTime := ShortBreakTime;
        }
      }
      isPaused := true;
      PomodoroLemmas.ResetProperties(old(State()));
    }

    /** The minutes and seconds text updateDisplay writes, including the 00:00 of the expiring tick. */
    method ClockText() returns (minutes: string, seconds: string)
      requires timeRemaining >= 0
      ensures Clock.FaceText(minutes, seconds) == Clock.Render(timeRemaining)
    {
      var f := Clock.Split(timeRemaining);
      minutes := Clock.PadStart(Clock.DecimalString(f.minutes), 2, '0');
      seconds := Clock.PadStart(Clock.DecimalString(f.seconds), 2, '0');
    }
  }
}
