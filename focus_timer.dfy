/** The countdown of src/components/FocusTimer.js: one interval callback that
    steps the remaining seconds down, the reset button, and the reset that a
    new initial time causes. The interval itself, vibration and the floating
    point progress bar are not modelled; `ticking` stands for "an interval is
    installed". */
module FocusTimer {
  import opened Common
  import FocusSlice

  /** The state updater passed to setTimeRemaining on every tick. */
  function TickValue(prev: int): (next: int)
    ensures next >= 0
    ensures prev > 1 ==> next == prev - 1
    ensures prev <= 1 ==> next == 0
  {
    if prev <= 1 then 0 else prev - 1
  }

  /** The remaining seconds after `k` ticks from `initial`. */
  function AfterTicks(initial: int, k: nat): int
  {
    if k == 0 then initial else TickValue(AfterTicks(initial, k - 1))
  }

  /** From a non-negative start, every tick takes one second off until zero,
      and the count never goes below zero. */
  lemma {:induction false} AfterTicksClosedForm(initial: int, k: nat)
    requires initial >= 0
    ensures AfterTicks(initial, k) == if k < initial then initial - k else 0
  {
    if k > 0 {
      AfterTicksClosedForm(initial, k - 1);
    }
  }

  /** Tick number `k` (counting from 1) is the one that completes exactly when
      `k` is at least `initial`: from N >= 1 the first completion is tick N. */
  lemma CompletesAtTick(initial: nat, k: nat)
    requires initial >= 1 && k >= 1
    ensures AfterTicks(initial, k - 1) <= 1 <==> k >= initial
    ensures AfterTicks(initial, k) == 0 <==> k >= initial
  {
    AfterTicksClosedForm(initial, k - 1);
    AfterTicksClosedForm(initial, k);
  }

  /** Seconds elapsed in a countdown from `initial` that now shows `remaining`:
      the value the elapsed-time field of the focus store calls for. */
  function ElapsedSeconds(initial: int, remaining: int): (e: int)
    ensures remaining <= initial ==> e >= 0
    ensures e + remaining == initial
  {
    initial - remaining
  }

  /** Until it completes, the elapsed time of the countdown is the number of
      ticks taken. */
  lemma ElapsedIsTicks(initial: nat, k: nat)
    requires k <= initial
    ensures ElapsedSeconds(initial, AfterTicks(initial, k)) == k
  {
    AfterTicksClosedForm(initial, k);
  }

  class Countdown {
    var initialTime: int
    var timeRemaining: int
    var ticking: bool
    /** Ticks taken since the last reset. */
    ghost var ticks: nat

    ghost predicate Valid()
      reads this
    {
      timeRemaining == AfterTicks(initialTime, ticks)
    }

    /** Mounting: `useState(initialTime)`, no interval yet. */
    constructor (initial: int)
      ensures Valid()
      ensures initialTime == initial && timeRemaining == initial && !ticking && ticks == 0
    {
      initialTime := initial;
      timeRemaining := initial;
      ticking := false;
      ticks := 0;
    }

    /** The effect on `initialTime`: a new initial time restarts the count. */
    method SetInitialTime(initial: int)
      modifies this
      ensures Valid()
      ensures initialTime == initial && timeRemaining == initial && ticks == 0
      ensures ticking == old(ticking)
    {
      initialTime := initial;
      timeRemaining := initial;
      ticks := 0;
    }

    /** The effect on `isActive`: install the interval or clear it. */
    method SetActive(isActive: bool)
      requires Valid()
      modifies this
      ensures Valid()
      ensures ticking == isActive
      ensures initialTime == old(initialTime) && timeRemaining == old(timeRemaining) && ticks == old(ticks)
    {
      ticking := isActive;
    }

    /** One interval callback. A count above one loses a second; a count of
        one or less becomes zero, clears the interval and reports completion
        (the call to onComplete). `reported` is the value the progress effect
        then hands to onTimeUpdate: the seconds remaining. */
    method Tick() returns (completed: bool, reported: int)
      requires Valid() && ticking
      modifies this
      ensures Valid()
      ensures ticks == old(ticks) + 1
      ensures completed <==> old(timeRemaining) <= 1
      ensures completed ==> timeRemaining == 0 && !ticking
      ensures !completed ==> timeRemaining == old(timeRemaining) - 1 && ticking
      ensures reported == timeRemaining && timeRemaining >= 0
      ensures initialTime == old(initialTime)
    {
      if timeRemaining <= 1 {
        ticking := false;
        completed := true;
        timeRemaining := 0;
      } else {
        completed := false;
        timeRemaining := timeRemaining - 1;
      }
      ticks := ticks + 1;
      reported := timeRemaining;
    }

    /** handleReset: back to the initial time (progress back to 0); the
        interval is left as it is. */
    method HandleReset()
      modifies this
      ensures Valid()
      ensures timeRemaining == initialTime && ticks == 0
      ensures initialTime == old(initialTime) && ticking == old(ticking)
    {
      timeRemaining := initialTime;
      ticks := 0;
    }
  }

  /** The screen's wiring as written: every reported value goes to
      updateElapsedTime, so after `k` ticks of a session the open session's
      `actual` holds the seconds remaining, `initial - k`, rather than `k`. */
  method RunAsWritten(timer: Countdown, focus: FocusSlice.FocusState, k: nat)
    requires timer.Valid() && focus.Valid()
    requires timer.ticking && timer.ticks == 0 && k < timer.initialTime
    requires k >= 1 && focus.currentSession.Some?
    modifies timer, focus
    ensures focus.Valid()
    ensures focus.currentSession == Some(old(focus.currentSession).value.(actual := old(timer.initialTime) - k))
    ensures focus.sessions == old(focus.sessions) && focus.totalFocusTime == old(focus.totalFocusTime)
    ensures timer.Valid() && timer.initialTime == old(timer.initialTime) && timer.ticks == k
    ensures timer.timeRemaining == old(timer.initialTime) - k && timer.ticking
  {
    var i := 0;
    while i < k
      invariant 0 <= i <= k
      invariant timer.Valid() && focus.Valid() && focus.currentSession.Some?
      invariant timer.initialTime == old(timer.initialTime) && timer.ticks == i
      invariant i < timer.initialTime ==> timer.ticking
      invariant i == 0 ==> focus.currentSession == old(focus.currentSession)
      invariant i >= 1 ==> focus.currentSession == Some(old(focus.currentSession).value.(actual := timer.timeRemaining))
      invariant focus.sessions == old(focus.sessions) && focus.totalFocusTime == old(focus.totalFocusTime)
    {
      AfterTicksClosedForm(timer.initialTime, i);
      var completed, reported := timer.Tick();
      focus.UpdateElapsedTime(reported);
      i := i + 1;
    }
    AfterTicksClosedForm(timer.initialTime, k);
  }

  /** The last value a countdown of at least two seconds reports before the
      tick that completes it is 1, whatever its length. */
  lemma LastReportBeforeCompletion(initial: nat)
    requires initial >= 2
    ensures AfterTicks(initial, initial - 1) == 1
    ensures AfterTicks(initial, initial) == 0
  {
    AfterTicksClosedForm(initial, initial - 1);
  }

  /** A session run to its end, as written: onComplete fires inside the tick
      that reaches zero, before that zero is reported, so completeSession
      records the last value reported, 1, whatever the length of the session,
      and the total focus time grows by one second. */
  method CompletionAsWritten(timer: Countdown, focus: FocusSlice.FocusState, now: int)
    requires timer.Valid() && focus.Valid()
    requires timer.ticking && timer.ticks == 0 && timer.initialTime >= 2
    requires focus.currentSession.Some?
    modifies timer, focus
    ensures focus.Valid() && focus.currentSession.None?
    ensures focus.sessions == old(focus.sessions) +
      [old(focus.currentSession).value.(actual := 1, completed := true, endTime := Some(now))]
    ensures focus.totalFocusTime == old(focus.totalFocusTime) + 1
  {
    RunAsWritten(timer, focus, timer.initialTime - 1);
    LastReportBeforeCompletion(timer.initialTime);
    var completed, reported := timer.Tick();
    assert completed;
    focus.CompleteSession(now);
  }

  /** The wiring the elapsed-time field calls for: the screen reports
      `initialTime - remaining`, and after `k` ticks `actual` is `k`. */
  method RunCorrected(timer: Countdown, focus: FocusSlice.FocusState, k: nat)
    requires timer.Valid() && focus.Valid()
    requires timer.ticking && timer.ticks == 0 && k < timer.initialTime
    requires k >= 1 && focus.currentSession.Some?
    modifies timer, focus
    ensures focus.Valid()
    ensures focus.currentSession == Some(old(focus.currentSession).value.(actual := k))
    ensures focus.sessions == old(focus.sessions) && focus.totalFocusTime == old(focus.totalFocusTime)
    ensures timer.Valid() && timer.initialTime == old(timer.initialTime) && timer.ticks == k
    ensures timer.timeRemaining == old(timer.initialTime) - k && timer.ticking
  {
    var i := 0;
    while i < k
      invariant 0 <= i <= k
      invariant timer.Valid() && focus.Valid() && focus.currentSession.Some?
      invariant timer.initialTime == old(timer.initialTime) && timer.ticks == i
      invariant i < timer.initialTime ==> timer.ticking
      invariant i == 0 ==> focus.currentSession == old(focus.currentSession)
      invariant i >= 1 ==> focus.currentSession == Some(old(focus.currentSession).value.(actual := i))
      invariant focus.sessions == old(focus.sessions) && focus.totalFocusTime == old(focus.totalFocusTime)
    {
      AfterTicksClosedForm(timer.initialTime, i);
      var completed, reported := timer.Tick();
      ElapsedIsTicks(timer.initialTime, i + 1);
      focus.UpdateElapsedTime(ElapsedSeconds(timer.initialTime, reported));
      i := i + 1;
    }
    AfterTicksClosedForm(timer.initialTime, k);
  }

  /** The discrepancy on one input: a 25-minute countdown after 600 ticks
      reports 900, which the session then records as 900 s of focus, while
      600 s have elapsed. */
  lemma RemainingIsNotElapsed()
    ensures AfterTicks(1500, 600) == 900
    ensures ElapsedSeconds(1500, AfterTicks(1500, 600)) == 600
    ensures AfterTicks(1500, 600) != ElapsedSeconds(1500, AfterTicks(1500, 600))
  {
    AfterTicksClosedForm(1500, 600);
  }
}
