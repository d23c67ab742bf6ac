/** What the state machine of module Pomodoro promises. */
module PomodoroLemmas {
  import opened Pomodoro

  /**
   * Toggle keeps the invariant, and toggling twice restores the state: the
   * timer is armed when leaving the paused state and disarmed when entering it.
   */
  lemma ToggleProperties(s: Snapshot)
    requires Inv(s)
    ensures Inv(Toggled(s))
    ensures Toggled(s).timerArmed == s.isPaused
    ensures Toggled(Toggled(s)) == s
  {
  }

  /** The tick that reaches zero completes the phase in the same step. */
  lemma TickExpires(s: Snapshot)
    requires s.timeRemaining == 1
    ensures Ticked(s) == PhaseCompleted(s.(timeRemaining := 0, timerArmed := false))
    ensures Ticked(s).timeRemaining == Ticked(s).totalTime >= 1
  {
  }

  /**
   * Completing a work interval counts it, advances the cycle modulo 4, and
   * enters a long break (900 s) when the cycle wraps to 0, else a short break
   * (300 s), already scheduled; the paused flag is not touched.
   */
  lemma WorkCompletion(s: Snapshot)
    requires 0 <= s.currentCyclePosition < PomodorosPerCycle && s.isWorkPhase
    ensures var r := PhaseCompleted(s);
      && r.completedPomodoros == s.completedPomodoros + 1
      && r.currentCyclePosition == (s.currentCyclePosition + 1) % PomodorosPerCycle
      && 0 <= r.currentCyclePosition < PomodorosPerCycle
      && !r.isWorkPhase
      && r.timeRemaining == r.totalTime == (if r.currentCyclePosition == 0 then 900 else 300)
      && r.timerArmed && r.isPaused == s.isPaused
      && (!s.isPaused ==> Inv(r))
  {
  }

  /**
   * Completing a break returns to work with a full 1500 s, keeps the cycle
   * position and the count, and schedules the timer without touching isPaused.
   */
  lemma BreakCompletion(s: Snapshot)
    requires !s.isWorkPhase
    ensures var r := PhaseCompleted(s);
      && PhaseOf(r) == Work
      && r.timeRemaining == r.totalTime == 1500
      && r.currentCyclePosition == s.currentCyclePosition
      && r.completedPomodoros == s.completedPomodoros
      && r.timerArmed && r.isPaused == s.isPaused
      && (!s.isPaused && 0 <= s.currentCyclePosition < PomodorosPerCycle ==> Inv(r))
  {
  }

  /**
   * Between events, reset restores exactly the duration the current phase
   * began with and leaves a valid, paused timer.
   */
  lemma ResetProperties(s: Snapshot)
    requires Inv(s)
    ensures Inv(ResetToPhaseStart(s))
    ensures ResetToPhaseStart(s).timeRemaining == ResetToPhaseStart(s).totalTime == s.totalTime
  {
  }

  /**
   * resetTimer infers a break's length from the cycle position; because the
   * position moves before the break begins, resetting right after any phase
   * completion gives back exactly the duration that phase completion assigned.
   */
  lemma ResetAfterCompletion(s: Snapshot)
    ensures ResetToPhaseStart(PhaseCompleted(s)).totalTime == PhaseCompleted(s).totalTime
    ensures ResetToPhaseStart(PhaseCompleted(s)).timeRemaining == PhaseCompleted(s).timeRemaining
  {
  }

  /** Every event keeps the invariant; in particular timeRemaining never goes below 1 between events. */
  lemma StepPreservesInv(s: Snapshot, e: Event)
    requires Inv(s)
    ensures Inv(Step(s, e))
  {
    match e
    case ToggleClick => ToggleProperties(s);
    case ResetClick => ResetProperties(s);
    case Second =>
      if s.timerArmed && s.timeRemaining == 1 {
        TickExpires(s);
      }
  }

  lemma {:induction false} RunPreservesInv(s: Snapshot, events: seq<Event>)
    requires Inv(s)
    ensures Inv(Run(s, events))
    decreases |events|
  {
    if events != [] {
      StepPreservesInv(s, events[0]);
      RunPreservesInv(Step(s, events[0]), events[1..]);
    }
  }

  /** Running two event sequences one after the other is running their concatenation. */
  lemma {:induction false} RunAppend(s: Snapshot, a: seq<Event>, b: seq<Event>)
    ensures Run(s, a + b) == Run(Run(s, a), b)
    decreases |a|
  {
    if a == [] {
      assert a + b == b;
    } else {
      assert (a + b)[0] == a[0];
      assert (a + b)[1..] == a[1..] + b;
      RunAppend(Step(s, a[0]), a[1..], b);
    }
  }

  lemma SecondsStep(s: Snapshot, n: nat)
    ensures Seconds(s, n + 1) == Seconds(Step(s, Second), n)
  {
    var ticks := seq(n + 1, _ => Second);
    assert ticks[0] == Second;
    assert ticks[1..] == seq(n, _ => Second);
  }

  lemma SecondsAdd(s: Snapshot, a: nat, b: nat)
    ensures Seconds(s, a + b) == Seconds(Seconds(s, a), b)
  {
    assert seq(a + b, _ => Second) == seq(a, _ => Second) + seq(b, _ => Second);
    RunAppend(s, seq(a, _ => Second), seq(b, _ => Second));
  }

  /** While time is left, k seconds of a running timer take exactly k seconds off and change nothing else. */
  lemma {:induction false} CountDown(s: Snapshot, k: nat)
    requires s.timerArmed && k < s.timeRemaining
    ensures Seconds(s, k) == s.(timeRemaining := s.timeRemaining - k)
    decreases k
  {
    if k == 0 {
      assert Seconds(s, 0) == s;
    } else {
      SecondsStep(s, k - 1);
      CountDown(s.(timeRemaining := s.timeRemaining - 1), k - 1);
    }
  }

  /** After exactly timeRemaining seconds of a running timer, the phase has completed. */
  lemma Expiry(s: Snapshot)
    requires Inv(s) && s.timerArmed
    ensures Seconds(s, s.timeRemaining) == PhaseCompleted(s.(timeRemaining := 0, timerArmed := false))
  {
    var k := s.timeRemaining - 1;
    CountDown(s, k);
    SecondsStep(s, k);
    SecondsAdd(s, k, 1);
    var t := s.(timeRemaining := 1);
    assert Seconds(t, 1) == Step(t, Second) by {
      SecondsStep(t, 0);
    }
  }

  /** From page load, pressing start and letting 1500 seconds pass leads to the first short break. */
  lemma FirstPomodoro(saved: Option<int>)
    ensures Seconds(Toggled(Initial(saved)), WorkTime)
         == Snapshot(ShortBreakTime, ShortBreakTime, false, false, RestoredCount(saved) + 1, 1, true)
  {
    Expiry(Toggled(Initial(saved)));
  }

  /**
   * A full cycle: four work intervals with three short breaks between them,
   * the first three completions each entering a short break; the fourth
   * wraps the cycle to 0 and enters the 900 s long break.
   */
  lemma FullCycle(saved: Option<int>)
    ensures var r := Seconds(Toggled(Initial(saved)), 4 * WorkTime + 3 * ShortBreakTime);
      && PhaseOf(r) == LongBreak
      && r.timeRemaining == r.totalTime == 900
      && r.currentCyclePosition == 0
      && r.completedPomodoros == RestoredCount(saved) + 4
      && !r.isPaused && r.timerArmed
  {
    var c := RestoredCount(saved);
    var s0 := Toggled(Initial(saved));
    var b1 := Snapshot(ShortBreakTime, ShortBreakTime, false, false, c + 1, 1, true);
    var w2 := Snapshot(WorkTime, WorkTime, false, true, c + 1, 1, true);
    var b2 := Snapshot(ShortBreakTime, ShortBreakTime, false, false, c + 2, 2, true);
    var w3 := Snapshot(WorkTime, WorkTime, false, true, c + 2, 2, true);
    var b3 := Snapshot(ShortBreakTime, ShortBreakTime, false, false, c + 3, 3, true);
    var w4 := Snapshot(WorkTime, WorkTime, false, true, c + 3, 3, true);
    var l := Snapshot(LongBreakTime, LongBreakTime, false, false, c + 4, 0, true);
    FirstPomodoro(saved);
    Expiry(b1);
    Expiry(w2);
    Expiry(b2);
    Expiry(w3);
    Expiry(b3);
    Expiry(w4);
    SecondsAdd(s0, WorkTime, ShortBreakTime);
    SecondsAdd(s0, WorkTime + ShortBreakTime, WorkTime);
    SecondsAdd(s0, 2 * WorkTime + ShortBreakTime, ShortBreakTime);
    SecondsAdd(s0, 2 * WorkTime + 2 * ShortBreakTime, WorkTime);
    SecondsAdd(s0, 3 * WorkTime + 2 * ShortBreakTime, ShortBreakTime);
    SecondsAdd(s0, 3 * WorkTime + 3 * ShortBreakTime, WorkTime);
  }
}
