# TIJA task and focus core, modelled in Dafny

TIJA is a React Native productivity app. It keeps a task list, runs Pomodoro-style
focus sessions, and turns replies from a text-completion service into sections,
recommendation lists and schedules. This project models the part of the app that
computes things and changes state, and proves properties of that model:

- the helpers in `src/utils/helpers.js`:
  - the `MM:SS` timer label;
  - the priority score and the stable sort by descending score;
  - grouping tasks by due date;
  - the productive-time sum and the most productive hour;
- the three Redux stores (`focusSlice`, `tasksSlice`, `userSlice`). Each is a class
  whose methods are the reducers. The focus and user stores each have an invariant that
  every reducer keeps; the task store has none, and its reducers state the new list exactly;
- the countdown in `FocusTimer.js`, as a class with a one-second `Tick`;
- the three reply parsers of `aiService.js`. Their regular expressions are written
  out as scanning predicates: leftmost match, greedy runs and a lazy capture;
- the screens' own logic:
  - task filtering, the filter chips and the "remaining" count (`TasksScreen.js`);
  - form validation and the submitted payload (`TaskFormScreen.js`);
  - the completion rate, the focus-time and hour labels (`AnalyticsScreen.js`);
  - the duration label and the priority colour (`AISuggestions.js`).

Modules follow the source files. `Common` (Option, filter, count), `Text`
(JavaScript whitespace, case folding, trim, split) and `Decimal` (number to string
and back) are shared by all of them. `Entities` declares the task and focus-session
records.

Throughout the model, `now`, session ids, the local hour of a timestamp and the date
label of a due date are parameters. `IsNumeric`/`toNumber` for `Number(...)` are
parameters too. A missing `title`, `description` or `priority` is the empty string,
because every use in the core treats `undefined` and `''` alike.

One behaviour follows the code rather than the comment beside it. The comment on the
`default` branch at `src/utils/helpers.js:73` reads "Default if priority not specified", but
that branch only runs for a non-empty priority that is not high, medium or low. A task with
no priority adds 0 to its score, not 15, because the whole switch is guarded by
`if (task.priority)` (`src/utils/helpers.js:61-75`).

## Model

| member | source | states |
|---|---|---|
| Helpers.FormatTimeFields | src/utils/helpers.js:6-10 | the label has exactly two colon-separated digit fields. The minutes field has at least two digits and grows past two, never truncated. The seconds field has two digits and is below 60. minutes·60 + seconds gives back the input |
| Helpers.DaysUntilDue | src/utils/helpers.js:46 | max(0, ceil((due − now)/86 400 000)), stated by its bounds: 0 when the date is not in the future, otherwise the least day count covering the gap |
| Helpers.DueTerm | src/utils/helpers.js:43-58 | no due date gives 0 points. With a due date, by the time left: 50 exactly up to one day (overdue included), 30 exactly from one to three days, 20 exactly from three to seven days, 10 exactly beyond a week |
| Helpers.PriorityTermCases | src/utils/helpers.js:61-75 | 0 exactly for an absent priority; 30/20/10 exactly for high/medium/low in any letter case; 15 exactly for any other non-empty priority |
| Helpers.EstimateTerm | src/utils/helpers.js:78-88 | 0 exactly for an absent or zero estimate (the falsy guard); otherwise 15 exactly up to 15 minutes, 10 exactly from 16 to 30 minutes, 5 exactly beyond 30 minutes |
| Helpers.QuickWinsFirst | src/utils/helpers.js:78-88 | of two non-zero estimates, the shorter never gets fewer points |
| Helpers.Score | src/utils/helpers.js:32-89 | a null task scores 0, and every score lies in 0..95 |
| Helpers.CalculatePriorityScore | src/utils/helpers.js:32-89 | the step-by-step `score +=` accumulation returns Score, which lies in 0..95 |
| Helpers.ScoreMonotoneInDueDate | src/utils/helpers.js:48-57 | an earlier deadline never lowers the score |
| Helpers.InsertByKey | src/utils/helpers.js:95-99 | inserting into a descending list keeps it descending and adds exactly the one element |
| Helpers.SortByKey | src/utils/helpers.js:95-99 | the output is a permutation of the input with keys descending |
| Helpers.InsertByKeyStable | src/utils/helpers.js:95-99 | for every key value, insertion puts the new element ahead of the equal-key elements and keeps their order |
| Helpers.SortByKeyStable | src/utils/helpers.js:95-99 | for every key value, the elements with that key appear in the output in their input order (a stable sort, as ECMA-262 requires since 2019) |
| Helpers.SortDescendingIsIdentity | src/utils/helpers.js:95-99 | a list that is already descending comes back unchanged |
| Helpers.SortTasksByPriority | src/utils/helpers.js:92-100 | a non-array gives []; otherwise the result is a permutation of the input in non-increasing score order |
| Helpers.SortTasksByPriorityStable | src/utils/helpers.js:92-100 | tasks of equal score keep their input order |
| Helpers.SortIdempotent | src/utils/helpers.js:92-100 | sorting the sorted list changes nothing |
| Helpers.SortTwo | src/utils/helpers.js:95-99 | two elements are swapped exactly when the second has the strictly larger key |
| Helpers.RankingExampleScores | src/utils/helpers.js:43-88 | a high-priority task due within a day with a 10-minute estimate scores 95; a low-priority task due in ten days with a 60-minute estimate scores 25 |
| Helpers.RankingExampleUrgentFirst | src/utils/helpers.js:92-100 | those two tasks, given in the other order, are sorted urgent-first |
| Helpers.TieScores | src/utils/helpers.js:61-75 | a medium task with no date and no estimate scores 20 |
| Helpers.RankingExampleTieKeepsOrder | src/utils/helpers.js:92-100 | two such tasks keep their order |
| Helpers.GroupedIsGrouping | src/utils/helpers.js:106-124 | filling the dictionary task by task gives one entry per label present, each holding exactly that label's tasks in input order |
| Helpers.GroupTasksByDate | src/utils/helpers.js:103-127 | a non-array gives {}; otherwise the loop builds the dictionary task by task, and the result is that grouping |
| Helpers.GroupingStep | src/utils/helpers.js:108-124 | adding one task to the end of its group (creating the group when missing) keeps the grouping property |
| Helpers.GroupingPartitions | src/utils/helpers.js:103-127 | every task is in the group of its own label and in no other group, and no group is empty |
| Helpers.ProductiveTime | src/utils/helpers.js:130-139 | a non-array gives 0; with non-negative durations the sum is non-negative |
| Helpers.SumProductiveAppend | src/utils/helpers.js:133-138 | the left fold over two histories is the sum of the two folds |
| Helpers.ProductiveTimeIgnoresOpenSessions | src/utils/helpers.js:134 | sessions that are not completed never count: the total equals the total over the completed sessions |
| Helpers.GetMostProductiveHour | src/utils/helpers.js:142-176 | null for a non-array or empty input. Otherwise it returns the hour whose summed `actual` is strictly largest and positive, the earliest such hour on a tie, or null when no hour has a positive total |
| FocusSlice.FocusState.constructor | src/store/slices/focusSlice.js:3-18 | the initial state: inactive, 1500 s focus, 300 s break, zero totals, no sessions, default insight |
| FocusSlice.FocusState.ToggleFocusTimer | src/store/slices/focusSlice.js:25-39 | flips `isActive`: idle goes to running, running to paused, paused to running. It opens a session (planned = focusTime, actual 0, not completed, the current task's id) only when starting with none open; an open session is kept as it is |
| FocusSlice.FocusState.UpdateElapsedTime | src/store/slices/focusSlice.js:41-48 | stores the value, and in the open session's `actual` when there is one; nothing else changes, the phase included |
| FocusSlice.FocusState.CompleteSession | src/store/slices/focusSlice.js:50-61 | an open session is recorded completed with an end time and its `actual` is added to the total; without one nothing is recorded. The timer ends idle and inactive at 0. The invariant "total = calculateProductiveTime(sessions)" is kept |
| FocusSlice.FocusState.ResetFocusTimer | src/store/slices/focusSlice.js:63-67 | drops the open session without recording it; the phase becomes idle, elapsed 0 |
| FocusSlice.FocusState.SetCurrentTask | src/store/slices/focusSlice.js:69-71 | replaces the current task and leaves an open session's task id and the phase alone |
| FocusSlice.FocusState.SetFocusTime | src/store/slices/focusSlice.js:73-75 | stores minutes·60 and leaves an open session's plan and the phase alone |
| FocusSlice.FocusState.SetBreakTime | src/store/slices/focusSlice.js:77-79 | stores minutes·60; nothing else changes, the phase included |
| FocusSlice.FocusState.UpdateInsights | src/store/slices/focusSlice.js:81-86 | the insight becomes the merge: fields in the patch replace, the others stay; the phase is unchanged |
| FocusSlice.LifecycleScenarios | src/store/slices/focusSlice.js:25-67 | start then complete records one session with `actual` 0 and total 0; start, report 600 s, reset records nothing more; a second toggle while a session is open keeps its id |
| FocusSlice.DurationScenario | src/store/slices/focusSlice.js:29-75 | setFocusTime(15) then start plans 900 s; setFocusTime(50) while it is open keeps 900; the next session plans 3000 s |
| FocusSlice.MergeInsight | src/store/slices/focusSlice.js:82-85 | each field comes from the patch when present, otherwise from the old insight |
| FocusSlice.TaskIdOf | src/store/slices/focusSlice.js:33 | `currentTask?.id \|\| null`: an id exactly when there is a task with a non-empty id |
| FocusSlice.FocusState.Phase | src/store/slices/focusSlice.js:25-67 | the timer's phase: idle exactly when no session is open, running exactly when one is open and the timer is active, paused otherwise. How each reducer moves it is stated in that reducer's row |
| TasksSlice.TasksState.constructor | src/store/slices/tasksSlice.js:3-7 | the initial state: no tasks, not loading, no error |
| TasksSlice.TasksState.AddTask | src/store/slices/tasksSlice.js:14-16 | appends the payload; no uniqueness check |
| TasksSlice.FindIndex | src/store/slices/tasksSlice.js:19 | −1 exactly when no task has the id; otherwise the first index holding it |
| TasksSlice.CompleteFirst | src/store/slices/tasksSlice.js:18-23 | same length; only the first task with the id changes, and it gets `completed = true` |
| TasksSlice.CompleteFirstIdempotent | src/store/slices/tasksSlice.js:18-23 | completing twice is completing once |
| TasksSlice.CompleteUnknownIsNoOp | src/store/slices/tasksSlice.js:18-23 | completing an id no task has leaves the list as it was |
| TasksSlice.TasksState.CompleteTask | src/store/slices/tasksSlice.js:18-23 | the list becomes CompleteFirst of the old list; loading and error unchanged |
| TasksSlice.RemoveAll | src/store/slices/tasksSlice.js:25-27 | a task is kept exactly when it was in the list and has another id |
| TasksSlice.RemoveUnknownIsNoOp | src/store/slices/tasksSlice.js:25-27 | deleting an id no task has leaves the list as it was |
| TasksSlice.TasksState.DeleteTask | src/store/slices/tasksSlice.js:25-27 | the list becomes the order-keeping filter of the old list |
| TasksSlice.ApplyPatch | src/store/slices/tasksSlice.js:31-34 | each field comes from the update when supplied, otherwise from the task; the id never changes |
| TasksSlice.UpdateFirst | src/store/slices/tasksSlice.js:29-35 | same length and ids; only the first task with the id changes, to the patched task |
| TasksSlice.TasksState.UpdateTask | src/store/slices/tasksSlice.js:29-35 | the list becomes UpdateFirst of the old list |
| TasksSlice.TasksState.SetTasks | src/store/slices/tasksSlice.js:37-39 | replaces the list |
| TasksSlice.TasksState.SetLoading | src/store/slices/tasksSlice.js:41-43 | changes only `loading` |
| TasksSlice.TasksState.SetError | src/store/slices/tasksSlice.js:45-47 | changes only `error` |
| UserSlice.UserState.constructor | src/store/slices/userSlice.js:3-19 | the initial state with its default preferences and stats; keeps the invariant "not authenticated ⇒ no user" |
| UserSlice.UserState.SetUser | src/store/slices/userSlice.js:26-29 | stores the payload; authenticated exactly when it is non-null |
| UserSlice.UserState.SetAuthenticated | src/store/slices/userSlice.js:31-36 | stores the flag; false also clears the user, true keeps it |
| UserSlice.UserState.SetLoading | src/store/slices/userSlice.js:38-40 | changes only `loading` |
| UserSlice.UserState.SetError | src/store/slices/userSlice.js:42-44 | changes only `error` |
| UserSlice.Merge | src/store/slices/userSlice.js:46-58 | the object spread: keys of both; payload values win; other keys keep their value |
| UserSlice.MergeExtremes | src/store/slices/userSlice.js:46-58 | a payload covering every key replaces the map; an empty payload changes nothing |
| UserSlice.UserState.UpdatePreferences | src/store/slices/userSlice.js:46-51 | preferences become the merge; nothing else changes |
| UserSlice.UserState.UpdateStats | src/store/slices/userSlice.js:53-58 | stats become the merge; nothing else changes |
| UserSlice.AuthenticatedWithoutUserScenario | src/store/slices/userSlice.js:31-64 | setAuthenticated(true) with no user stored is accepted and leaves no user; updatePreferences({darkMode: true}) keeps the default notifications key; clearUser then ends unauthenticated and keeps the preferences |
| UserSlice.UserState.ClearUser | src/store/slices/userSlice.js:60-64 | no user, not authenticated, no error; loading, preferences and stats unchanged |
| FocusTimer.TickValue | src/components/FocusTimer.js:28-36 | above 1 the value drops by exactly 1; at 1 or below it becomes 0; never negative |
| FocusTimer.AfterTicksClosedForm | src/components/FocusTimer.js:28-36 | after k ticks from N ≥ 0 the value is N − k while k < N, then 0 |
| FocusTimer.CompletesAtTick | src/components/FocusTimer.js:29-34 | from N ≥ 1 the completing tick is exactly tick N, and the value is 0 exactly from then on |
| FocusTimer.Countdown.constructor | src/components/FocusTimer.js:14 | starts at the initial time, not ticking |
| FocusTimer.Countdown.SetInitialTime | src/components/FocusTimer.js:19-22 | a new initial time resets the remaining time to it |
| FocusTimer.Countdown.SetActive | src/components/FocusTimer.js:25-41 | starts or stops the ticking; the remaining time is kept |
| FocusTimer.Countdown.Tick | src/components/FocusTimer.js:27-38 | one second: completes (reports 0 and stops) exactly when the remaining time was at most 1, otherwise decreases it by 1; it reports the remaining time |
| FocusTimer.Countdown.HandleReset | src/components/FocusTimer.js:61-65 | the remaining time returns to the initial time |
| FocusTimer.ElapsedSeconds | src/components/FocusTimer.js:56-58 | elapsed plus remaining is the initial time |
| FocusTimer.ElapsedIsTicks | src/components/FocusTimer.js:28-36 | before completion, the elapsed seconds equal the number of ticks |
| FocusTimer.RunAsWritten | src/components/FocusTimer.js:56-58 | k ticks short of completion (1 ≤ k < initial), each reported to updateElapsedTime as the source does: the open session ends with `actual` = initial − k and is otherwise unchanged; nothing is recorded; the timer has taken k ticks and shows initial − k |
| FocusTimer.LastReportBeforeCompletion | src/components/FocusTimer.js:28-36 | a countdown of at least 2 s reports 1 just before the tick that completes it |
| FocusTimer.CompletionAsWritten | src/components/FocusTimer.js:29-34 | a session run to its end, as wired: completeSession records the open session with `actual` = 1, completed and with its end time, and the total grows by 1 s |
| FocusTimer.RunCorrected | src/components/FocusTimer.js:56-58 | k ticks short of completion (1 ≤ k < initial) reporting elapsed seconds: the open session's `actual` ends as k and is otherwise unchanged; nothing is recorded and the total is unchanged; the timer has taken k ticks |
| FocusTimer.RemainingIsNotElapsed | src/components/FocusTimer.js:56-58 | 600 ticks of a 1500 s session report 900, while 600 s have elapsed |
| AiService.RunEnd | src/services/aiService.js:245 | the end of the maximal run of a character class, as a greedy `\s*`/`\d+`/`[:\s]+` takes it |
| AiService.LineEnd | src/services/aiService.js:245 | the first line terminator at or after a position, or the end |
| AiService.CaptureEndsAtLineEnd | src/services/aiService.js:245 | the lazy `(.*?)` of any match ends at the line's end, because `.` cannot cross a line terminator |
| AiService.MatchFrom | src/services/aiService.js:245 | at a keyword occurrence, the longest separator run that leads to a match, or none when no separator run does |
| AiService.FirstMatch | src/services/aiService.js:245-246 | the leftmost position where the pattern matches, with the greedy separator; none when no position matches |
| AiService.ExtractSection | src/services/aiService.js:244-248 | '' when nothing matches. Otherwise it is the trimmed capture of the match that is leftmost, with the longest separator. The result is trimmed and holds no line terminator |
| AiService.SectionMatchChosen | src/services/aiService.js:245-246 | when any match exists, a match is chosen |
| AiService.ExampleSectionLeftmost | src/services/aiService.js:245 | in "Analysis: a\nAnalysis: b" the first occurrence cannot match (its line ends in a single newline), so the leftmost match is the second |
| AiService.ExampleSectionMatch | src/services/aiService.js:245 | the second occurrence matches with capture "b" |
| AiService.SectionSkipsUnterminatedLine | src/services/aiService.js:244-248 | extractSection returns "b" for that text and keyword "analysis" |
| AiService.MismatchAt | src/services/aiService.js:245 | one differing character (after case folding) rules out an occurrence at that position |
| AiService.CaptureStart | src/services/aiService.js:255 | the capture starts past the item's digits and dot, after a whitespace run that is non-empty and maximal (the greedy `\s+`) |
| AiService.CaptureEnd | src/services/aiService.js:255 | the lazy capture stops at the first position followed by "\n<digits>." or the end |
| AiService.NextItem | src/services/aiService.js:255-258 | the first item start at or after `lastIndex`, or none |
| AiService.Exec | src/services/aiService.js:258 | one `exec`: capture bounds after `lastIndex`, or null |
| AiService.Recommendations | src/services/aiService.js:253-263 | the captures from a position on, in order, each trimmed |
| AiService.NoItemNoRecommendations | src/services/aiService.js:255-262 | the list is empty exactly when no numbered item appears |
| AiService.AccumulateStep | src/services/aiService.js:258-260 | one loop pass keeps "pushed so far + rest = whole list" |
| AiService.ExtractRecommendations | src/services/aiService.js:253-263 | the `exec` loop returns exactly the list of trimmed captures in order |
| AiService.ExampleFirstItem | src/services/aiService.js:255 | in "1. Plan \n2. Rest" the first `exec` captures positions 3..8 |
| AiService.ExampleSecondItem | src/services/aiService.js:255 | the second `exec` captures 12..16 |
| AiService.RecommendationsExample | src/services/aiService.js:253-263 | that text yields ["Plan", "Rest"] |
| AiService.ExtractSchedule | src/services/aiService.js:268-279 | entry i is the trim of the i-th line that passes the test, so entries follow the lines' order; as many entries as passing lines; each trimmed |
| AiService.ScheduleEntryPosition | src/services/aiService.js:271-278 | a passing line becomes the entry whose index is the number of passing lines before it |
| AiService.ScheduleEntriesAreKeptLines | src/services/aiService.js:271-278 | every entry is the trim of a line that passes the test |
| AiService.FirstCharDecides | src/services/aiService.js:273-275 | a line whose first character differs from the word's, case-insensitively, does not start with it |
| AiService.IndentedLineNeverKept | src/services/aiService.js:271-276 | a line starting with whitespace is never kept, because the untrimmed line is tested |
| AiService.ExampleScheduleLines | src/services/aiService.js:271 | a three-line text splits into its three lines |
| AiService.ExampleTimeRange | src/services/aiService.js:272 | "9:00 AM - Plan " matches the time-range pattern |
| AiService.ExampleMorning | src/services/aiService.js:273 | "MORNING: review" passes: the test is case-insensitive |
| AiService.ScheduleExample | src/services/aiService.js:268-279 | of "9:00 AM - Plan ", "  evening: skip" and "MORNING: review" the first and last are kept, trimmed |
| TasksScreen.FilteredTasks | src/screens/TasksScreen.js:22-34 | a task is kept exactly when it matches both the search and the filter; order is kept |
| TasksScreen.EmptyQueryMatches | src/screens/TasksScreen.js:24 | the empty query matches every task |
| TasksScreen.ShowAllIsIdentity | src/screens/TasksScreen.js:22-34 | empty query and 'all' show every task, in order |
| TasksScreen.DisplayedIsSortedFilter | src/screens/TasksScreen.js:37 | the displayed list is a permutation of the filtered tasks, all passing, in descending score order |
| TasksScreen.RemainingCountsOpenPassing | src/screens/TasksScreen.js:134 | the "remaining" figure counts the tasks that are open and pass the filters |
| TasksScreen.Distinct | src/screens/TasksScreen.js:48-53 | the Set's insertion order: the same members as the input, each once, in first-seen order |
| TasksScreen.DistinctSnoc | src/screens/TasksScreen.js:51 | adding to the Set appends only a new member |
| TasksScreen.CategoryChips | src/screens/TasksScreen.js:56-59 | one chip per category, value and label equal to it |
| TasksScreen.AddCategories | src/screens/TasksScreen.js:51 | the inner loop adds one task's categories to the Set |
| TasksScreen.GetAvailableFilters | src/screens/TasksScreen.js:40-62 | the three base chips, then one chip per distinct category in first-seen order |
| TasksScreen.CategoryChipsCover | src/screens/TasksScreen.js:40-62 | a category gets a chip exactly when some task has it, and no two chips share a value |
| TasksScreen.CategoriesOfTasks | src/screens/TasksScreen.js:49-53 | a category is collected exactly when some task has it |
| TaskFormScreen.InitialForm | src/screens/TaskFormScreen.js:25-34 | a new form is empty with priority 'medium' and due date `now`. An edit starts from the task's title, description and categories; its priority, or 'medium' when empty; its due date, or `now` when missing; its estimate as text, or '' when missing. The priority is never empty |
| TaskFormScreen.UnchangedEditKeepsTask | src/screens/TaskFormScreen.js:25-102 | opening a task with a title, priority and due date and saving it unchanged gives the task back, when the number parser reads back the estimate's text |
| TaskFormScreen.ValidateForm | src/screens/TaskFormScreen.js:56-72 | valid exactly when the trimmed title is non-empty and the estimate is empty or numeric; each error is set exactly in its own case, with its message |
| TaskFormScreen.EstimateOf | src/screens/TaskFormScreen.js:83 | null exactly for an empty field |
| TaskFormScreen.HandleSubmit | src/screens/TaskFormScreen.js:75-102 | an invalid form dispatches nothing. An edit dispatches updateTask with the task's id and the form fields. A new task is dispatched by addTask with a fresh id and createdAt; `completed` is copied from the edited task or false |
| TaskFormScreen.ToggleCategory | src/screens/TaskFormScreen.js:122-128 | a present category is removed everywhere, an absent one appended; the category ends up present exactly when it was absent |
| TaskFormScreen.ToggleTwice | src/screens/TaskFormScreen.js:122-128 | toggling an absent category twice restores the list; toggling a present one twice leaves it once, at the end |
| TaskFormScreen.AddNewCategory | src/screens/TaskFormScreen.js:131-137 | a blank name changes nothing; otherwise the trimmed name is appended, without de-duplication |
| AnalyticsScreen.RoundRatio | src/screens/AnalyticsScreen.js:20 | Math.round of a ratio: the nearest integer, halves up |
| AnalyticsScreen.CompletionRate | src/screens/AnalyticsScreen.js:18-20 | 0 with no tasks; otherwise the nearest integer to 100·completed/total, which lies in 0..100 |
| AnalyticsScreen.JsRem | src/screens/AnalyticsScreen.js:25 | JavaScript `%`: equals the mathematical remainder for a non-negative dividend; for a negative one it is non-positive and differs from the dividend by a multiple of the divisor; always strictly between −divisor and divisor |
| AnalyticsScreen.HoursMinutesSplit | src/screens/AnalyticsScreen.js:24-25 | hours·3600 + minutes·60 is the time less its leftover seconds, and the minutes are below 60 |
| AnalyticsScreen.ReadFocusHours | src/screens/AnalyticsScreen.js:28 | "<h>h <m>m" reads back as h hours and m minutes |
| AnalyticsScreen.FocusTimeWithHours | src/screens/AnalyticsScreen.js:23-29 | from one hour on, the label reads back as the time less its leftover seconds |
| AnalyticsScreen.FocusTimeShowsHours | src/screens/AnalyticsScreen.js:27-28 | from one hour on, the hours are shown |
| AnalyticsScreen.FocusTimeMinutesOnly | src/screens/AnalyticsScreen.js:30 | below one hour, the label is the minutes only and reads back likewise |
| AnalyticsScreen.FocusTimeReadBack | src/screens/AnalyticsScreen.js:23-31 | the label of any non-negative time reads back as that time less its leftover seconds; minutes below 60; hours shown exactly from 3600 s on |
| AnalyticsScreen.ClockHour | src/screens/AnalyticsScreen.js:64 | the displayed hour is in 1..12 and agrees with the hour modulo 12 |
| AnalyticsScreen.HourReadBack | src/screens/AnalyticsScreen.js:62-66 | every hour's label reads back as that hour, so PM is shown exactly from 12 on |
| AnalyticsScreen.FormatHourInjective | src/screens/AnalyticsScreen.js:62-66 | different hours get different labels |
| AnalyticsScreen.ShownHourAsWritten | src/screens/AnalyticsScreen.js:59 | `… \|\| 9` as written: 9 for null and for hour 0, otherwise the hour found |
| AnalyticsScreen.ShownHour | src/screens/AnalyticsScreen.js:59 | the fallback as its comment describes it: 9 only when there is no data |
| AnalyticsScreen.MidnightShownAsNine | src/screens/AnalyticsScreen.js:59-66 | the two differ exactly when the hour found is midnight, shown as "9 AM" instead of "12 AM" |
| AiSuggestions.FormatMinutes | src/components/AISuggestions.js:55-63 | below 60 the label is "<m> min"; an 'h' appears exactly from 60 on |
| AiSuggestions.HoursWithMinutesReadBack | src/components/AISuggestions.js:58-61 | "<h>h <m>m" reads back as the minutes it came from |
| AiSuggestions.WholeHoursReadBack | src/components/AISuggestions.js:58-61 | "<h>h" reads back as the minutes it came from |
| AiSuggestions.MinutesReadBack | src/components/AISuggestions.js:55-63 | every non-negative duration's label reads back as that duration |
| AiSuggestions.GetPriorityColor | src/components/AISuggestions.js:41-52 | red, amber and green exactly for high, medium and low in any letter case; grey for anything else |
| AiSuggestions.ColourMatchesScore | src/components/AISuggestions.js:41-52 | the colour agrees with the priority's score contribution: red 30, amber 20, green 10, grey 0 or 15 |

## Left out

- Network and persistence (`firebase.js`, `api.js`, the request functions of `aiService.js`), UI rendering, navigation and styles are not modelled.
- `generateId`, `Date.now()`/`new Date()`, `toISOString` and `getHours` are not modelled. Ids, `now` and the hour of a start time are parameters.
- `formatDate` is not modelled. Its locale-dependent `toLocaleDateString` is a date-label function passed as a parameter.
- Date strings are taken as already parsed to milliseconds. An invalid due date, which JavaScript turns into NaN, is not modelled.
- `Number(...)` and `isNaN` are not modelled: `isNumeric(s)` stands for `!isNaN(Number(s))` and `toNumber(s)` for `Number(s)`. Only integer estimates are modelled.
- Case folding is ASCII only. This is exact for the fixed keywords compared here ('high', 'morning:' and the like) but approximates `toLowerCase` on arbitrary search text.
- Floating point is not modelled: the progress ratio in `FocusTimer.js`, the AI insight percentages and the chart heights.
- AnalyticsScreen.RoundRatio: rounds exactly, while `Math.round((c / t) * 100)` rounds a floating-point product. At 23 of 40 the product is 57.49999999999999, so the screen shows 57 where the model gives 58.
- The random chart data of the analytics screen is not modelled.
- `setInterval`, `clearInterval`, `Vibration` and React's effect scheduling are not modelled. The countdown is driven one `Tick` at a time.
- The callbacks `onComplete`, `onToggle` and `onReset` are not modelled. Tick returns whether it completed, and what it reports to `onTimeUpdate`.
- `hourCounts` in `getMostProductiveHour` is computed but never read, so it is not modelled.
- The `description && …` guard in the task search treats an empty description like a missing one; the model does the same, with "" standing for both.
- Helpers.GroupTasksByDate: returns a map, which does not keep the insertion order of the object's keys. No code in the core reads that order.
- The extra dictionary fields of a store payload are not modelled. Payloads are the records of `Entities`, and preferences and stats are maps.

## Findings

| source | as written | input that shows it | evidently intended | confidence | as-written member | corrected member |
|---|---|---|---|---|---|---|
| src/components/FocusTimer.js:56-58 | `onTimeUpdate(timeRemaining)` feeds the seconds remaining to `updateElapsedTime` (src/screens/FocusScreen.js:49-51), which stores them as the session's `actual` | a 1500 s session: after 600 ticks the open session holds `actual` = 900; run to its end, it is recorded with `actual` = 1, so the total focus time grows by 1 s per session | the elapsed seconds (initial − remaining), so `actual` = 600 | not executed | FocusTimer.RunAsWritten, FocusTimer.RemainingIsNotElapsed, FocusTimer.CompletionAsWritten | FocusTimer.RunCorrected, FocusTimer.ElapsedIsTicks |
| src/screens/AnalyticsScreen.js:59 | `getMostProductiveHour(focusSessions) \|\| 9` also replaces hour 0, which is falsy | sessions whose most productive hour is midnight show "9 AM" | fall back to 9 only when there is no data (null) | not executed | AnalyticsScreen.ShownHourAsWritten, AnalyticsScreen.MidnightShownAsNine | AnalyticsScreen.ShownHour |
