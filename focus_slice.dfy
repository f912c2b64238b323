/** The focus store of src/store/slices/focusSlice.js: one mutable state record
    and one method per reducer. The clock the reducers read (`Date.now()`,
    `new Date()`) becomes the parameters `sessionId` and `now`. */
module FocusSlice {
  import opened Common
  import opened Entities
  import Helpers

  /** The `insight` record of the store. */
  datatype Insight = Insight(
    recommendedFocusTime: int,
    recommendedBreakTime: int,
    mostProductiveHour: Option<int>,
    productivityScore: int)

  /** The payload of updateInsights: the keys it carries. */
  datatype InsightPatch = InsightPatch(
    recommendedFocusTime: Option<int>,
    recommendedBreakTime: Option<int>,
    mostProductiveHour: Option<Option<int>>,
    productivityScore: Option<int>)

  /** `{...insight, ...patch}`: every key the patch carries overwrites, every
      other key keeps its value. */
  function MergeInsight(insight: Insight, patch: InsightPatch): (r: Insight)
    ensures patch.recommendedFocusTime.Some? ==> r.recommendedFocusTime == patch.recommendedFocusTime.value
    ensures patch.recommendedFocusTime.None? ==> r.recommendedFocusTime == insight.recommendedFocusTime
    ensures patch.recommendedBreakTime.Some? ==> r.recommendedBreakTime == patch.recommendedBreakTime.value
    ensures patch.recommendedBreakTime.None? ==> r.recommendedBreakTime == insight.recommendedBreakTime
    ensures patch.mostProductiveHour.Some? ==> r.mostProductiveHour == patch.mostProductiveHour.value
    ensures patch.mostProductiveHour.None? ==> r.mostProductiveHour == insight.mostProductiveHour
    ensures patch.productivityScore.Some? ==> r.productivityScore == patch.productivityScore.value
    ensures patch.productivityScore.None? ==> r.productivityScore == insight.productivityScore
  {
    Insight(
      if patch.recommendedFocusTime.Some? then patch.recommendedFocusTime.value else insight.recommendedFocusTime,
      if patch.recommendedBreakTime.Some? then patch.recommendedBreakTime.value else insight.recommendedBreakTime,
      if patch.mostProductiveHour.Some? then patch.mostProductiveHour.value else insight.mostProductiveHour,
      if patch.productivityScore.Some? then patch.productivityScore.value else insight.productivityScore)
  }

  /** `currentTask?.id || null`: the id of the current task, null when there
      is no task or its id is empty. */
  function TaskIdOf(currentTask: Option<Task>): (r: Option<string>)
    ensures r.Some? <==> currentTask.Some? && currentTask.value.id != ""
    ensures r.Some? ==> r.value == currentTask.value.id
  {
    if currentTask.Some? && currentTask.value.id != "" then Some(currentTask.value.id) else None
  }

  /** The three situations of the timer: no open session, an open session that
      is ticking, an open session that is paused. */
  datatype Phase = Idle | Running | Paused

  class FocusState {
    var isActive: bool
    var currentTask: Option<Task>
    var focusTime: int      // seconds
    var breakTime: int      // seconds
    var elapsedTime: int
    var totalFocusTime: int
    var currentSession: Option<FocusSession>
    var sessions: seq<FocusSession>
    var insight: Insight

    /** What every reducer preserves: the timer is active only with an open
        session, the open session is not yet completed, every recorded session
        is completed with an end time, and the total focus time is the sum of
        the recorded sessions' `actual` (calculateProductiveTime). */
    ghost predicate Valid()
      reads this
    {
      && (isActive ==> currentSession.Some?)
      && (currentSession.Some? ==> !currentSession.value.completed && currentSession.value.endTime.None?)
      && (forall i :: 0 <= i < |sessions| ==> sessions[i].completed && sessions[i].endTime.Some?)
      && totalFocusTime == Helpers.SumProductive(sessions)
    }

    /** The phase of the timer. The reducers' contracts below state how each
        of them moves it: toggling goes Idle -> Running -> Paused -> Running,
        completing or resetting returns to Idle, every other reducer keeps it. */
    function Phase(): (p: Phase)
      reads this
      requires Valid()
      ensures p == Idle <==> currentSession.None?
      ensures p == Running <==> currentSession.Some? && isActive
    {
      if currentSession.None? then Idle else if isActive then Running else Paused
    }

    /** initialState. */
    constructor ()
      ensures Valid()
      ensures !isActive && currentTask.None? && currentSession.None?
      ensures focusTime == 1500 && breakTime == 300
      ensures elapsedTime == 0 && totalFocusTime == 0 && sessions == []
      ensures insight == Insight(25, 5, None, 0)
    {
      isActive := false;
      currentTask := None;
      focusTime := 25 * 60;
      breakTime := 5 * 60;
      elapsedTime := 0;
      totalFocusTime := 0;
      currentSession := None;
      sessions := [];
      insight := Insight(25, 5, None, 0);
    }

    /** toggleFocusTimer: one start/pause/resume event. It always flips
        `isActive`; it opens a session only when it makes the timer active and
        none is open, and otherwise keeps the open session as it is. */
    method ToggleFocusTimer(sessionId: string, now: int)
      requires Valid()
      modifies this
      ensures Valid()
      ensures isActive == !old(isActive)
      ensures old(Phase()) == Idle ==> Phase() == Running
      ensures old(Phase()) == Running ==> Phase() == Paused
      ensures old(Phase()) == Paused ==> Phase() == Running
      ensures old(currentSession).Some? ==> currentSession == old(currentSession)
      ensures old(currentSession).None? && isActive ==>
        currentSession == Some(FocusSession(sessionId, Some(now), None, TaskIdOf(currentTask), focusTime, 0, false))
      ensures old(currentSession).None? && !isActive ==> currentSession.None?
      ensures currentTask == old(currentTask) && focusTime == old(focusTime) && breakTime == old(breakTime)
      ensures elapsedTime == old(elapsedTime) && totalFocusTime == old(totalFocusTime)
      ensures sessions == old(sessions) && insight == old(insight)
    {
      isActive := !isActive;
      if isActive && currentSession.None? {
        currentSession := Some(FocusSession(
          id := sessionId,
          startTime := Some(now),
          endTime := None,
          taskId := TaskIdOf(currentTask),
          planned := focusTime,
          actual := 0,
          completed := false));
      }
    }

    /** updateElapsedTime: stores any value, and copies it into the open
        session's `actual` when there is one. */
    method UpdateElapsedTime(value: int)
      requires Valid()
      modifies this
      ensures Valid()
      ensures elapsedTime == value
      ensures Phase() == old(Phase())
      ensures old(currentSession).Some? ==> currentSession == Some(old(currentSession).value.(actual := value))
      ensures old(currentSession).None? ==> currentSession.None?
      ensures isActive == old(isActive) && currentTask == old(currentTask)
      ensures focusTime == old(focusTime) && breakTime == old(breakTime)
      ensures totalFocusTime == old(totalFocusTime) && sessions == old(sessions) && insight == old(insight)
    {
      elapsedTime := value;
      if currentSession.Some? {
        currentSession := Some(currentSession.value.(actual := value));
      }
    }

    /** completeSession: with an open session, records exactly that session,
        completed and with its end time, and adds its `actual` to the total;
        with none, the history and the total stay as they were. Either way the
        timer ends inactive with no open session and zero elapsed time. */
    method CompleteSession(now: int)
      requires Valid()
      modifies this
      ensures Valid()
      ensures old(currentSession).Some? ==>
        && sessions == old(sessions) + [old(currentSession).value.(completed := true, endTime := Some(now))]
        && totalFocusTime == old(totalFocusTime) + old(currentSession).value.actual
      ensures old(currentSession).None? ==> sessions == old(sessions) && totalFocusTime == old(totalFocusTime)
      ensures !isActive && elapsedTime == 0 && currentSession.None?
      ensures Phase() == Idle
      ensures currentTask == old(currentTask) && focusTime == old(focusTime) && breakTime == old(breakTime)
      ensures insight == old(insight)
    {
      if currentSession.Some? {
        var done := currentSession.value.(completed := true, endTime := Some(now));
        assert (sessions + [done])[..|sessions|] == sessions;
        sessions := sessions + [done];
        totalFocusTime := totalFocusTime + done.actual;
        currentSession := None;
      }
      isActive := false;
      elapsedTime := 0;
    }

    /** resetFocusTimer: drops the open session without recording it. */
    method ResetFocusTimer()
      requires Valid()
      modifies this
      ensures Valid()
      ensures !isActive && elapsedTime == 0 && currentSession.None?
      ensures Phase() == Idle
      ensures sessions == old(sessions) && totalFocusTime == old(totalFocusTime)
      ensures currentTask == old(currentTask) && focusTime == old(focusTime) && breakTime == old(breakTime)
      ensures insight == old(insight)
    {
      isActive := false;
      elapsedTime := 0;
      currentSession := None;
    }

    /** setCurrentTask: never refused; an open session keeps its task id. */
    method SetCurrentTask(task: Option<Task>)
      requires Valid()
      modifies this
      ensures Valid()
      ensures currentTask == task
      ensures Phase() == old(Phase())
      ensures currentSession == old(currentSession)
      ensures isActive == old(isActive) && focusTime == old(focusTime) && breakTime == old(breakTime)
      ensures elapsedTime == old(elapsedTime) && totalFocusTime == old(totalFocusTime)
      ensures sessions == old(sessions) && insight == old(insight)
    {
      currentTask := task;
    }

    /** setFocusTime: minutes to seconds; an open session keeps its `planned`. */
    method SetFocusTime(minutes: int)
      requires Valid()
      modifies this
      ensures Valid()
      ensures focusTime == minutes * 60
      ensures Phase() == old(Phase())
      ensures currentSession == old(currentSession)
      ensures isActive == old(isActive) && currentTask == old(currentTask) && breakTime == old(breakTime)
      ensures elapsedTime == old(elapsedTime) && totalFocusTime == old(totalFocusTime)
      ensures sessions == old(sessions) && insight == old(insight)
    {
      focusTime := minutes * 60;
    }

    /** setBreakTime: minutes to seconds. */
    method SetBreakTime(minutes: int)
      requires Valid()
      modifies this
      ensures Valid()
      ensures breakTime == minutes * 60
      ensures Phase() == old(Phase())
      ensures currentSession == old(currentSession)
      ensures isActive == old(isActive) && currentTask == old(currentTask) && focusTime == old(focusTime)
      ensures elapsedTime == old(elapsedTime) && totalFocusTime == old(totalFocusTime)
      ensures sessions == old(sessions) && insight == old(insight)
    {
      breakTime := minutes * 60;
    }

    /** updateInsights: merges the payload into `insight`. */
    method UpdateInsights(patch: InsightPatch)
      requires Valid()
      modifies this
      ensures Valid()
      ensures insight == MergeInsight(old(insight), patch)
      ensures Phase() == old(Phase())
      ensures currentSession == old(currentSession)
      ensures isActive == old(isActive) && currentTask == old(currentTask)
      ensures focusTime == old(focusTime) && breakTime == old(breakTime)
      ensures elapsedTime == old(elapsedTime) && totalFocusTime == old(totalFocusTime)
      ensures sessions == old(sessions)
    {
      insight := MergeInsight(insight, patch);
    }
  }

  /** Start then complete at once: one recorded session, completed, with
      `actual` 0, and the total unchanged. Start, report 600 s, reset: nothing
      recorded. A second start while a session is open keeps that session. */
  method LifecycleScenarios(task: Task) returns (recorded: nat, recordedActual: int, total: int, keptId: string)
    ensures recorded == 1 && recordedActual == 0 && total == 0 && keptId == "s3"
  {
    var f := new FocusState();
    f.SetCurrentTask(Some(task));
    f.ToggleFocusTimer("s1", 1000);
    assert f.Phase() == Running;
    f.CompleteSession(2000);
    assert |f.sessions| == 1 && f.sessions[0].completed && f.sessions[0].actual == 0;
    assert f.totalFocusTime == 0 && f.Phase() == Idle;

    f.ToggleFocusTimer("s2", 3000);
    f.UpdateElapsedTime(600);
    f.ResetFocusTimer();
    assert |f.sessions| == 1 && f.totalFocusTime == 0 && f.Phase() == Idle;

    f.ToggleFocusTimer("s3", 4000);
    f.ToggleFocusTimer("ignored", 5000);
    assert f.Phase() == Paused;
    f.ToggleFocusTimer("ignored", 6000);
    recorded, recordedActual, total := |f.sessions|, f.sessions[0].actual, f.totalFocusTime;
    keptId := f.currentSession.value.id;
  }

  /** setFocusTime(15) then start: the session plans 900 s; setFocusTime(50)
      while it is open leaves that plan alone and applies to the next one. */
  method DurationScenario() returns (firstPlan: int, keptPlan: int, nextPlan: int)
    ensures firstPlan == 900 && keptPlan == 900 && nextPlan == 3000
  {
    var f := new FocusState();
    f.SetFocusTime(15);
    f.ToggleFocusTimer("s1", 0);
    firstPlan := f.currentSession.value.planned;
    f.SetFocusTime(50);
    keptPlan := f.currentSession.value.planned;
    f.CompleteSession(900000);
    f.ToggleFocusTimer("s2", 1000000);
    nextPlan := f.currentSession.value.planned;
  }
}
