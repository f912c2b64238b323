/** The task and session helpers of src/utils/helpers.js. The clock the source
    reads (`new Date()`) is the parameter `now`; the locale-dependent pieces
    (the date label of a group, the local hour of a timestamp) are parameters
    too. */
module Helpers {
  import opened Common
  import opened Text
  import opened Decimal
  import opened Entities

  // ---------------------------------------------------------------------------
  // formatTime: seconds as "MM:SS"

  /** The "MM:SS" rendering of a count of seconds. */
  function FormatTime(seconds: nat): string
  {
    PadStart(NatToString(seconds / 60), 2, '0') + ":" + PadStart(NatToString(seconds % 60), 2, '0')
  }

  /** The rendering has exactly two fields around the colon: minutes, padded to
      at least two digits and never truncated, and seconds, two digits below 60;
      read back, the two fields give the original count. */
  lemma FormatTimeFields(seconds: nat)
    ensures var parts := Split(FormatTime(seconds), ':');
      && |parts| == 2
      && AllDigits(parts[0]) && AllDigits(parts[1])
      && |parts[0]| >= 2 && |parts[1]| == 2
      && (seconds >= 6000 ==> |parts[0]| >= 3)
      && ParseDigits(parts[1]) < 60
      && ParseDigits(parts[0]) * 60 + ParseDigits(parts[1]) == seconds
  {
    var m, s := seconds / 60, seconds % 60;
    var a, b := PadStart(NatToString(m), 2, '0'), PadStart(NatToString(s), 2, '0');
    PaddedParse(m, 2);
    PaddedParse(s, 2);
    assert ':' !in a && ':' !in b by {
      assert forall i :: 0 <= i < |a| ==> IsDigit(a[i]);
      assert forall i :: 0 <= i < |b| ==> IsDigit(b[i]);
    }
    SplitAfterPiece(a, ':', b);
    SplitNoSeparator(b, ':');
    assert FormatTime(seconds) == a + [':'] + b;
    if seconds >= 6000 {
      assert NatToString(m) == NatToString(m / 10) + [DigitChar(m % 10)];
    }
  }

  // ---------------------------------------------------------------------------
  // calculatePriorityScore

  const MsPerDay: int := 1000 * 60 * 60 * 24

  /** Math.max(0, Math.ceil((due - now) / MsPerDay)): whole days left before the
      deadline, rounded up, a past deadline counting as zero days. */
  function DaysUntilDue(due: int, now: int): (days: nat)
    ensures due - now <= 0 ==> days == 0
    ensures due - now > 0 ==> (days - 1) * MsPerDay < due - now <= days * MsPerDay
  {
    var up := -((now - due) / MsPerDay);
    if up < 0 then 0 else up
  }

  /** An earlier deadline never leaves more days. */
  lemma DaysUntilDueMonotone(due1: int, due2: int, now: int)
    requires due1 <= due2
    ensures DaysUntilDue(due1, now) <= DaysUntilDue(due2, now)
  {
  }

  /** At most `c` days are left exactly when the deadline is at most `c`
      whole days away. */
  lemma DaysWithin(due: int, now: int, c: nat)
    ensures DaysUntilDue(due, now) <= c <==> due - now <= c * MsPerDay
  {
    var d := DaysUntilDue(due, now);
    if due - now > 0 {
      if d <= c {
        assert d * MsPerDay <= c * MsPerDay;
      } else {
        assert c <= d - 1;
        assert c * MsPerDay <= (d - 1) * MsPerDay;
      }
    }
  }

  /** Due-date contribution: deadline proximity in buckets, 0 without a
      deadline. With `gap` the time left: 50 up to one day (an overdue task
      included), 30 up to three days, 20 up to a week, 10 beyond. */
  function DueTerm(dueDate: Option<int>, now: int): (points: int)
    ensures dueDate.None? ==> points == 0
    ensures dueDate.Some? ==> points in {10, 20, 30, 50}
    ensures dueDate.Some? ==> (points == 50 <==> dueDate.value - now <= MsPerDay)
    ensures dueDate.Some? ==> (points == 30 <==> MsPerDay < dueDate.value - now <= 3 * MsPerDay)
    ensures dueDate.Some? ==> (points == 20 <==> 3 * MsPerDay < dueDate.value - now <= 7 * MsPerDay)
    ensures dueDate.Some? ==> (points == 10 <==> 7 * MsPerDay < dueDate.value - now)
  {
    match dueDate
    case None => 0
    case Some(due) =>
      DaysWithin(due, now, 1);
      DaysWithin(due, now, 3);
      DaysWithin(due, now, 7);
      var days := DaysUntilDue(due, now);
      if days <= 1 then 50 else if days <= 3 then 30 else if days <= 7 then 20 else 10
  }

  /** Declared-priority contribution, compared without regard to letter case;
      an absent (empty) priority gives nothing, an unknown one 15. */
  function PriorityTerm(priority: string): (points: int)
  {
    if priority == "" then 0
    else
      var p := LowerStr(priority);
      if p == "high" then 30 else if p == "medium" then 20 else if p == "low" then 10 else 15
  }

  /** "Quick win" contribution; an absent or zero estimate gives nothing
      (`if (task.estimatedMinutes)`), 15 up to a quarter hour, 10 up to half an
      hour, 5 beyond. */
  function EstimateTerm(estimatedMinutes: Option<int>): (points: int)
    ensures points == 0 <==> estimatedMinutes.None? || estimatedMinutes == Some(0)
    ensures points in {0, 5, 10, 15}
    ensures estimatedMinutes.Some? && estimatedMinutes.value != 0 ==>
      (points == 15 <==> estimatedMinutes.value <= 15)
    ensures estimatedMinutes.Some? && estimatedMinutes.value != 0 ==>
      (points == 10 <==> 15 < estimatedMinutes.value <= 30) &&
      (points == 5 <==> estimatedMinutes.value > 30)
  {
    match estimatedMinutes
    case None => 0
    case Some(m) =>
      if m == 0 then 0 else if m <= 15 then 15 else if m <= 30 then 10 else 5
  }

  /** Quicker tasks never get fewer points than longer ones. */
  lemma QuickWinsFirst(m1: int, m2: int)
    requires m1 != 0 && m2 != 0 && m1 <= m2
    ensures EstimateTerm(Some(m1)) >= EstimateTerm(Some(m2))
  {
  }

  /** Score of a task at time `now`; a null task scores 0. */
  function Score(task: Option<Task>, now: int): (score: int)
    ensures 0 <= score <= 95
    ensures task.None? ==> score == 0
  {
    match task
    case None => 0
    case Some(t) => DueTerm(t.dueDate, now) + PriorityTerm(t.priority) + EstimateTerm(t.estimatedMinutes)
  }

  /** calculatePriorityScore: the three contributions accumulated in turn. */
  method CalculatePriorityScore(task: Option<Task>, now: int) returns (score: int)
    ensures score == Score(task, now)
    ensures 0 <= score <= 95
  {
    if task.None? {
      return 0;
    }
    var t := task.value;
    score := 0;
    if t.dueDate.Some? {
      var days := DaysUntilDue(t.dueDate.value, now);
      if days <= 1 {
        score := score + 50;
      } else if days <= 3 {
        score := score + 30;
      } else if days <= 7 {
        score := score + 20;
      } else {
        score := score + 10;
      }
    }
    if t.priority != "" {
      var p := LowerStr(t.priority);
      if p == "high" {
        score := score + 30;
      } else if p == "medium" {
        score := score + 20;
      } else if p == "low" {
        score := score + 10;
      } else {
        score := score + 15;
      }
    }
    if t.estimatedMinutes.Some? && t.estimatedMinutes.value != 0 {
      var m := t.estimatedMinutes.value;
      if m <= 15 {
        score := score + 15;
      } else if m <= 30 {
        score := score + 10;
      } else {
        score := score + 5;
      }
    }
  }

  /** The priority contribution is 30, 20 or 10 exactly for high, medium or low
      in any letter case, 15 exactly for any other non-empty priority, and 0
      exactly when absent. */
  lemma PriorityTermCases(priority: string)
    ensures PriorityTerm(priority) == 0 <==> priority == ""
    ensures PriorityTerm(priority) == 15 <==>
      priority != "" && LowerStr(priority) != "high" && LowerStr(priority) != "medium" && LowerStr(priority) != "low"
    ensures PriorityTerm(priority) == 30 <==> EqualCI(priority, "high")
    ensures PriorityTerm(priority) == 20 <==> EqualCI(priority, "medium")
    ensures PriorityTerm(priority) == 10 <==> EqualCI(priority, "low")
  {
    if LowerStr(priority) == "high" {
      assert priority != "";
    }
    assert LowerStr("high") == "high";
  }

  /** Moving a deadline earlier never lowers the score (all else equal). */
  lemma ScoreMonotoneInDueDate(t: Task, due1: int, due2: int, now: int)
    requires due1 <= due2
    ensures Score(Some(t.(dueDate := Some(due1))), now) >= Score(Some(t.(dueDate := Some(due2))), now)
  {
    DaysUntilDueMonotone(due1, due2, now);
  }

  // ---------------------------------------------------------------------------
  // sortTasksByPriority: a stable sort by descending score

  /** Keys never increase from left to right. */
  predicate Descending<T>(s: seq<T>, key: T -> int)
  {
    forall i, j :: 0 <= i < j < |s| ==> key(s[i]) >= key(s[j])
  }

  /** The elements whose key is exactly `k`. */
  function KeyIs<T>(k: int, key: T -> int): T -> bool
  {
    x => key(x) == k
  }

  lemma FilterCons<T>(x: T, s: seq<T>, p: T -> bool)
    ensures Filter([x] + s, p) == (if p(x) then [x] else []) + Filter(s, p)
  {
    FilterAppend([x], s, p);
    assert [x][..0] == [];
  }

  /** An element whose key bounds every key of a descending list can go in
      front of it. */
  lemma DescendingCons<T>(h: T, t: seq<T>, key: T -> int)
    requires Descending(t, key)
    requires forall y :: y in t ==> key(y) <= key(h)
    ensures Descending([h] + t, key)
  {
    var r := [h] + t;
    forall i, j | 0 <= i < j < |r| ensures key(r[i]) >= key(r[j]) {
      assert r[j] == t[j - 1];
      if i > 0 {
        assert r[i] == t[i - 1];
      }
    }
  }

  /** In a descending list every key is at most the first one. */
  lemma DescendingBound<T>(s: seq<T>, key: T -> int, k: int)
    requires Descending(s, key) && (s != [] ==> key(s[0]) <= k)
    ensures forall y :: y in s ==> key(y) <= k
  {
    forall y | y in s ensures key(y) <= k {
      var i :| 0 <= i < |s| && s[i] == y;
      assert key(s[0]) >= key(s[i]);
    }
  }

  /** A bound on every key carries over to a list with one more element. */
  lemma MultisetBound<T>(r: seq<T>, s: seq<T>, x: T, key: T -> int, k: int)
    requires multiset(r) == multiset(s) + multiset{x}
    requires forall y :: y in s ==> key(y) <= k
    requires key(x) <= k
    ensures forall y :: y in r ==> key(y) <= k
  {
    forall y | y in r ensures key(y) <= k {
      assert y in multiset(r);
      if y != x {
        assert y in multiset(s);
      }
    }
  }

  /** Inserts `x` before the first element whose key is not greater than its own. */
  function InsertByKey<T>(x: T, s: seq<T>, key: T -> int): (r: seq<T>)
    requires Descending(s, key)
    ensures Descending(r, key)
    ensures multiset(r) == multiset(s) + multiset{x}
    ensures r[0] == x || (s != [] && r[0] == s[0])
  {
    if s == [] || key(s[0]) <= key(x) then
      DescendingBound(s, key, key(x));
      DescendingCons(x, s, key);
      [x] + s
    else
      var tail := s[1..];
      assert s == [s[0]] + tail;
      var rest := InsertByKey(x, tail, key);
      DescendingBound(s, key, key(s[0]));
      MultisetBound(rest, tail, x, key, key(s[0]));
      DescendingCons(s[0], rest, key);
      [s[0]] + rest
  }

  lemma SwapUnlessBoth<T>(a: seq<T>, b: seq<T>, t: seq<T>)
    requires a == [] || b == []
    ensures a + (b + t) == b + (a + t)
  {
    if a == [] {
      assert a + (b + t) == b + t == b + (a + t);
    } else {
      assert a + (b + t) == a + t == b + (a + t);
    }
  }

  /** Insertion puts `x` ahead of every element with its own key. */
  lemma {:induction false} InsertByKeyStable<T>(x: T, s: seq<T>, key: T -> int, k: int)
    requires Descending(s, key)
    ensures Filter(InsertByKey(x, s, key), KeyIs(k, key)) ==
      (if key(x) == k then [x] else []) + Filter(s, KeyIs(k, key))
  {
    var p := KeyIs(k, key);
    if s == [] || key(s[0]) <= key(x) {
      FilterCons(x, s, p);
    } else {
      var head, tail := s[0], s[1..];
      assert s == [head] + tail;
      var rest := InsertByKey(x, tail, key);
      assert InsertByKey(x, s, key) == [head] + rest;
      InsertByKeyStable(x, tail, key, k);
      FilterCons(head, rest, p);
      FilterCons(head, tail, p);
      SwapUnlessBoth(if p(head) then [head] else [], if p(x) then [x] else [], Filter(tail, p));
    }
  }

  /** Insertion sort: the output is a permutation of the input with keys
      descending. */
  function SortByKey<T>(s: seq<T>, key: T -> int): (r: seq<T>)
    ensures Descending(r, key)
    ensures multiset(r) == multiset(s)
  {
    if s == [] then []
    else
      assert s == [s[0]] + s[1..];
      InsertByKey(s[0], SortByKey(s[1..], key), key)
  }

  /** Stability: the elements with any one key appear in the output in the
      order they had in the input. */
  lemma {:induction false} SortByKeyStable<T>(s: seq<T>, key: T -> int, k: int)
    ensures Filter(SortByKey(s, key), KeyIs(k, key)) == Filter(s, KeyIs(k, key))
  {
    if s != [] {
      SortByKeyStable(s[1..], key, k);
      InsertByKeyStable(s[0], SortByKey(s[1..], key), key, k);
      FilterCons(s[0], s[1..], KeyIs(k, key));
      assert s == [s[0]] + s[1..];
    }
  }

  /** A list already in descending order is returned unchanged. */
  lemma {:induction false} SortDescendingIsIdentity<T>(s: seq<T>, key: T -> int)
    requires Descending(s, key)
    ensures SortByKey(s, key) == s
  {
    if s != [] {
      SortDescendingIsIdentity(s[1..], key);
      assert s == [s[0]] + s[1..];
    }
  }

  /** The score of a task at time `now`, as the sort compares it. */
  function ScoreAt(now: int): Task -> int
  {
    t => Score(Some(t), now)
  }

  /** sortTasksByPriority: [] when given no array, else a copy that is a
      permutation of the input in descending score order; among tasks of equal
      score the input order is kept. The argument is a value, so it is left as
      it was. */
  function SortTasksByPriority(tasks: Option<seq<Task>>, now: int): (r: seq<Task>)
    ensures tasks.None? ==> r == []
    ensures tasks.Some? ==> multiset(r) == multiset(tasks.value)
    ensures tasks.Some? ==> forall i, j :: 0 <= i < j < |r| ==> Score(Some(r[i]), now) >= Score(Some(r[j]), now)
  {
    match tasks
    case None => []
    case Some(ts) => SortByKey(ts, ScoreAt(now))
  }

  /** Tasks of equal score keep their relative input order. */
  lemma SortTasksByPriorityStable(tasks: seq<Task>, now: int, k: int)
    ensures Filter(SortTasksByPriority(Some(tasks), now), KeyIs(k, ScoreAt(now)))
         == Filter(tasks, KeyIs(k, ScoreAt(now)))
  {
    SortByKeyStable(tasks, ScoreAt(now), k);
  }

  /** Sorting twice is sorting once. */
  lemma SortIdempotent(tasks: seq<Task>, now: int)
    ensures SortTasksByPriority(Some(SortTasksByPriority(Some(tasks), now)), now)
         == SortTasksByPriority(Some(tasks), now)
  {
    SortDescendingIsIdentity(SortByKey(tasks, ScoreAt(now)), ScoreAt(now));
  }

  /** A high-priority task due within a day with a ten-minute estimate scores
      50 + 30 + 15 and goes ahead of a low-priority task due in ten days with an
      hour's estimate, which scores 10 + 10 + 5. */
  lemma RankingExampleScores(now: int, a: Task, b: Task)
    requires a.priority == "high" && a.dueDate == Some(now + MsPerDay) && a.estimatedMinutes == Some(10)
    requires b.priority == "low" && b.dueDate == Some(now + 10 * MsPerDay) && b.estimatedMinutes == Some(60)
    ensures Score(Some(a), now) == 95 && Score(Some(b), now) == 25
  {
    assert DaysUntilDue(now + MsPerDay, now) == 1;
    assert DaysUntilDue(now + 10 * MsPerDay, now) == 10;
    assert LowerStr("high") == "high";
    assert LowerStr("low") == "low";
    assert DueTerm(a.dueDate, now) == 50 && DueTerm(b.dueDate, now) == 10;
  }

  /** Two elements are swapped exactly when the second has the larger key. */
  lemma SortTwo<T>(a: T, b: T, key: T -> int)
    ensures SortByKey([a, b], key) == if key(b) <= key(a) then [a, b] else [b, a]
  {
    assert [a, b][1..] == [b];
    assert [b][1..] == [];
    assert SortByKey([b], key) == InsertByKey(b, [], key) == [b];
    assert key(b) > key(a) ==> InsertByKey(a, [b], key) == [b] + InsertByKey(a, [], key);
  }

  lemma RankingExampleUrgentFirst(now: int, a: Task, b: Task)
    requires a.priority == "high" && a.dueDate == Some(now + MsPerDay) && a.estimatedMinutes == Some(10)
    requires b.priority == "low" && b.dueDate == Some(now + 10 * MsPerDay) && b.estimatedMinutes == Some(60)
    ensures SortTasksByPriority(Some([b, a]), now) == [a, b]
  {
    RankingExampleScores(now, a, b);
    SortTwo(b, a, ScoreAt(now));
  }

  lemma TieScores(now: int, x: Task)
    requires x.priority == "medium" && x.dueDate.None? && x.estimatedMinutes.None?
    ensures Score(Some(x), now) == 20
  {
    assert LowerStr("medium") == "medium";
    assert PriorityTerm(x.priority) == 20;
  }

  /** Two medium-priority tasks with no deadline and no estimate both score 20
      and keep their order. */
  lemma RankingExampleTieKeepsOrder(now: int, x: Task, y: Task)
    requires x.priority == "medium" && x.dueDate.None? && x.estimatedMinutes.None?
    requires y.priority == "medium" && y.dueDate.None? && y.estimatedMinutes.None?
    ensures SortTasksByPriority(Some([x, y]), now) == [x, y]
  {
    TieScores(now, x);
    TieScores(now, y);
    SortTwo(x, y, ScoreAt(now));
  }

  // ---------------------------------------------------------------------------
  // groupTasksByDate

  /** The group a task belongs to: 'No Date' without a due date, else the
      label the date formatter gives its due date. */
  function GroupKey(t: Task, dateLabel: int -> string): string
  {
    if t.dueDate.None? then "No Date" else dateLabel(t.dueDate.value)
  }

  function InGroup(k: string, dateLabel: int -> string): Task -> bool
  {
    t => GroupKey(t, dateLabel) == k
  }

  /** One entry per label that some task of `tasks` has, and no other. */
  ghost predicate KeysOfTasks(grouped: map<string, seq<Task>>, tasks: seq<Task>, dateLabel: int -> string)
  {
    forall k :: k in grouped <==> exists i :: 0 <= i < |tasks| && GroupKey(tasks[i], dateLabel) == k
  }

  /** Every entry holds the tasks with its label, in input order. */
  predicate GroupsInOrder(grouped: map<string, seq<Task>>, tasks: seq<Task>, dateLabel: int -> string)
  {
    forall k :: k in grouped ==> grouped[k] == Filter(tasks, InGroup(k, dateLabel))
  }

  /** The grouping of `tasks`: one entry per label that some task has, holding
      the tasks with that label in input order. */
  ghost predicate IsGrouping(grouped: map<string, seq<Task>>, tasks: seq<Task>, dateLabel: int -> string)
  {
    KeysOfTasks(grouped, tasks, dateLabel) && GroupsInOrder(grouped, tasks, dateLabel)
  }

  /** The dictionary after the tasks of `tasks` have been added in order:
      each task is appended to the list under its label, which is created
      empty when missing. */
  function Grouped(tasks: seq<Task>, dateLabel: int -> string): map<string, seq<Task>>
  {
    if tasks == [] then map[]
    else
      var prev := Grouped(tasks[..|tasks| - 1], dateLabel);
      var t := tasks[|tasks| - 1];
      var key := GroupKey(t, dateLabel);
      prev[key := (if key in prev then prev[key] else []) + [t]]
  }

  /** Filling the dictionary task by task yields the grouping. */
  lemma {:induction false} GroupedIsGrouping(tasks: seq<Task>, dateLabel: int -> string)
    ensures IsGrouping(Grouped(tasks, dateLabel), tasks, dateLabel)
  {
    if tasks != [] {
      var done := tasks[..|tasks| - 1];
      GroupedIsGrouping(done, dateLabel);
      assert tasks == done + [tasks[|tasks| - 1]];
      GroupingStep(Grouped(done, dateLabel), Grouped(tasks, dateLabel), done, tasks[|tasks| - 1], dateLabel);
    }
  }

  /** groupTasksByDate: fills the dictionary one task at a time; a non-array
      gives the empty dictionary. */
  method GroupTasksByDate(tasks: Option<seq<Task>>, dateLabel: int -> string)
    returns (grouped: map<string, seq<Task>>)
    ensures tasks.None? ==> grouped == map[]
    ensures tasks.Some? ==> grouped == Grouped(tasks.value, dateLabel)
    ensures tasks.Some? ==> IsGrouping(grouped, tasks.value, dateLabel)
  {
    grouped := map[];
    if tasks.None? {
      return;
    }
    var ts := tasks.value;
    var i := 0;
    while i < |ts|
      invariant 0 <= i <= |ts|
      invariant grouped == Grouped(ts[..i], dateLabel)
    {
      var t := ts[i];
      var key := GroupKey(t, dateLabel);
      var group := if key in grouped then grouped[key] else [];
      grouped := grouped[key := group + [t]];
      assert ts[..i + 1][..i] == ts[..i];
      i := i + 1;
    }
    assert ts[..|ts|] == ts;
    GroupedIsGrouping(ts, dateLabel);
  }

  /** Adding `t` to its group keeps the keys those of the tasks seen. */
  lemma GroupingStepKeys(prev: map<string, seq<Task>>, grouped: map<string, seq<Task>>,
                         done: seq<Task>, t: Task, dateLabel: int -> string)
    requires KeysOfTasks(prev, done, dateLabel)
    requires var key := GroupKey(t, dateLabel);
      grouped.Keys == prev.Keys + {key}
    ensures KeysOfTasks(grouped, done + [t], dateLabel)
  {
    var key := GroupKey(t, dateLabel);
    var all := done + [t];
    forall k ensures k in grouped <==> exists i :: 0 <= i < |all| && GroupKey(all[i], dateLabel) == k {
      if k in prev {
        var j :| 0 <= j < |done| && GroupKey(done[j], dateLabel) == k;
        assert all[j] == done[j];
      }
      if k == key {
        assert all[|done|] == t;
      }
      if exists i :: 0 <= i < |all| && GroupKey(all[i], dateLabel) == k {
        var i :| 0 <= i < |all| && GroupKey(all[i], dateLabel) == k;
        if i < |done| { assert done[i] == all[i]; }
      }
    }
  }

  /** Adding `t` to the end of its group keeps every group in input order. */
  lemma GroupingStepGroups(prev: map<string, seq<Task>>, grouped: map<string, seq<Task>>,
                           done: seq<Task>, t: Task, dateLabel: int -> string)
    requires KeysOfTasks(prev, done, dateLabel) && GroupsInOrder(prev, done, dateLabel)
    requires var key := GroupKey(t, dateLabel);
      grouped == prev[key := (if key in prev then prev[key] else []) + [t]]
    ensures GroupsInOrder(grouped, done + [t], dateLabel)
  {
    var key := GroupKey(t, dateLabel);
    var all := done + [t];
    assert all[..|all| - 1] == done && all[|all| - 1] == t;
    if key !in prev {
      FilterNone(done, InGroup(key, dateLabel));
    }
  }

  /** One step of the loop above: adding `t` to its group keeps the grouping. */
  lemma GroupingStep(prev: map<string, seq<Task>>, grouped: map<string, seq<Task>>,
                     done: seq<Task>, t: Task, dateLabel: int -> string)
    requires IsGrouping(prev, done, dateLabel)
    requires var key := GroupKey(t, dateLabel);
      grouped == prev[key := (if key in prev then prev[key] else []) + [t]]
    ensures IsGrouping(grouped, done + [t], dateLabel)
  {
    GroupingStepKeys(prev, grouped, done, t, dateLabel);
    GroupingStepGroups(prev, grouped, done, t, dateLabel);
  }

  /** Every task is in the group of its own label, in no other group, and no
      group is empty. */
  lemma GroupingPartitions(grouped: map<string, seq<Task>>, tasks: seq<Task>, dateLabel: int -> string)
    requires IsGrouping(grouped, tasks, dateLabel)
    ensures forall i :: 0 <= i < |tasks| ==>
      GroupKey(tasks[i], dateLabel) in grouped && tasks[i] in grouped[GroupKey(tasks[i], dateLabel)]
    ensures forall k, t :: k in grouped && t in grouped[k] ==> GroupKey(t, dateLabel) == k
    ensures forall k :: k in grouped ==> grouped[k] != []
  {
    forall i | 0 <= i < |tasks|
      ensures tasks[i] in grouped[GroupKey(tasks[i], dateLabel)]
    {
      FilterKeeps(tasks, InGroup(GroupKey(tasks[i], dateLabel), dateLabel), tasks[i]);
    }
    forall k | k in grouped ensures grouped[k] != [] {
      var i :| 0 <= i < |tasks| && GroupKey(tasks[i], dateLabel) == k;
      FilterKeeps(tasks, InGroup(k, dateLabel), tasks[i]);
    }
  }

  // ---------------------------------------------------------------------------
  // calculateProductiveTime

  /** What one session adds: its `actual` if it is completed and `actual` is
      truthy (non-zero); a zero `actual` would add nothing anyway. */
  function Contribution(session: FocusSession): int
  {
    if session.completed && session.actual != 0 then session.actual else 0
  }

  /** The sum of the contributions, folded left to right as `reduce` does. */
  function SumProductive(sessions: seq<FocusSession>): int
  {
    if sessions == [] then 0
    else SumProductive(sessions[..|sessions| - 1]) + Contribution(sessions[|sessions| - 1])
  }

  /** calculateProductiveTime: the summed `actual` of the completed sessions;
      a non-array gives 0. */
  function ProductiveTime(sessions: Option<seq<FocusSession>>): (total: int)
    ensures sessions.None? ==> total == 0
    ensures sessions.Some? && (forall i :: 0 <= i < |sessions.value| ==> sessions.value[i].actual >= 0)
      ==> total >= 0
  {
    match sessions
    case None => 0
    case Some(s) => SumProductiveNonNegative(s); SumProductive(s)
  }

  lemma {:induction false} SumProductiveNonNegative(sessions: seq<FocusSession>)
    ensures (forall i :: 0 <= i < |sessions| ==> sessions[i].actual >= 0) ==> SumProductive(sessions) >= 0
  {
    if sessions != [] {
      SumProductiveNonNegative(sessions[..|sessions| - 1]);
    }
  }

  /** The total over two histories is the sum of their totals. */
  lemma {:induction false} SumProductiveAppend(a: seq<FocusSession>, b: seq<FocusSession>)
    ensures SumProductive(a + b) == SumProductive(a) + SumProductive(b)
    decreases |b|
  {
    if b == [] {
      assert a + b == a;
    } else {
      assert (a + b)[..|a + b| - 1] == a + b[..|b| - 1];
      SumProductiveAppend(a, b[..|b| - 1]);
    }
  }

  predicate IsCompleted(session: FocusSession)
  {
    session.completed
  }

  /** Sessions that are not completed never count: the total over the history
      equals the total over its completed sessions. */
  lemma {:induction false} ProductiveTimeIgnoresOpenSessions(sessions: seq<FocusSession>)
    ensures SumProductive(sessions) == SumProductive(Filter(sessions, IsCompleted))
    decreases |sessions|
  {
    if sessions != [] {
      var init := sessions[..|sessions| - 1];
      ProductiveTimeIgnoresOpenSessions(init);
      if IsCompleted(sessions[|sessions| - 1]) {
        var f := Filter(init, IsCompleted);
        assert (f + [sessions[|sessions| - 1]])[..|f|] == f;
      }
    }
  }

  // ---------------------------------------------------------------------------
  // getMostProductiveHour

  /** An hour of the day, as Date.prototype.getHours returns it. */
  type Hour = h: int | 0 <= h < 24

  /** Summed `actual` of the completed sessions that have a start time whose
      local hour (as `hourOf` gives it) is `h`. */
  function HourTotal(sessions: seq<FocusSession>, hourOf: int -> Hour, h: int): int
  {
    if sessions == [] then 0
    else
      var last := sessions[|sessions| - 1];
      HourTotal(sessions[..|sessions| - 1], hourOf, h)
        + (if last.completed && last.startTime.Some? && hourOf(last.startTime.value) == h
           then last.actual else 0)
  }

  /** `hour` is what getMostProductiveHour must return: null for a non-array or
      an empty array, and otherwise the hour with the strictly largest positive
      total, the earliest such hour on a tie, or null when no total is positive. */
  ghost predicate IsMostProductiveHour(sessions: Option<seq<FocusSession>>, hourOf: int -> Hour, hour: Option<int>)
  {
    if sessions.None? || sessions.value == [] then hour.None?
    else
      var s := sessions.value;
      && (hour.None? <==> forall h :: 0 <= h < 24 ==> HourTotal(s, hourOf, h) <= 0)
      && (hour.Some? ==>
            && 0 <= hour.value < 24
            && HourTotal(s, hourOf, hour.value) > 0
            && (forall h :: 0 <= h < hour.value ==> HourTotal(s, hourOf, h) < HourTotal(s, hourOf, hour.value))
            && (forall h :: hour.value < h < 24 ==> HourTotal(s, hourOf, h) <= HourTotal(s, hourOf, hour.value)))
  }

  /** The specification above admits exactly one answer. */
  lemma MostProductiveHourUnique(sessions: Option<seq<FocusSession>>, hourOf: int -> Hour, h1: Option<int>, h2: Option<int>)
    requires IsMostProductiveHour(sessions, hourOf, h1) && IsMostProductiveHour(sessions, hourOf, h2)
    ensures h1 == h2
  {
  }

  /** Value stored under an hour key, absent keys reading as 0. */
  function Stored(durations: map<int, int>, h: int): int
  {
    if h in durations then durations[h] else 0
  }

  /** getMostProductiveHour: sums `actual` per start hour into a dictionary,
      then scans the hours in ascending order (the order JavaScript gives
      integer keys) keeping the first strictly larger total. */
  method GetMostProductiveHour(sessions: Option<seq<FocusSession>>, hourOf: int -> Hour)
    returns (hour: Option<int>)
    ensures IsMostProductiveHour(sessions, hourOf, hour)
  {
    if sessions.None? || sessions.value == [] {
      return None;
    }
    var s := sessions.value;
    var durations: map<int, int> := map[];
    var i := 0;
    while i < |s|
      invariant 0 <= i <= |s|
      invariant forall h :: h in durations ==> 0 <= h < 24
      invariant forall h :: 0 <= h < 24 ==> Stored(durations, h) == HourTotal(s[..i], hourOf, h)
    {
      var session := s[i];
      if session.startTime.Some? && session.completed {
        var h := hourOf(session.startTime.value);
        assert 0 <= h < 24;
        if h !in durations {
          durations := durations[h := 0];
        }
        durations := durations[h := durations[h] + session.actual];
      }
      assert s[..i + 1][..i] == s[..i];
      i := i + 1;
    }
    assert s[..|s|] == s;
    hour := None;
    var maxDuration := 0;
    var h := 0;
    while h < 24
      invariant 0 <= h <= 24
      invariant hour.None? ==> maxDuration == 0 && forall g :: 0 <= g < h ==> HourTotal(s, hourOf, g) <= 0
      invariant hour.Some? ==>
        && 0 <= hour.value < h
        && maxDuration == HourTotal(s, hourOf, hour.value) > 0
        && (forall g :: 0 <= g < hour.value ==> HourTotal(s, hourOf, g) < maxDuration)
        && (forall g :: hour.value < g < h ==> HourTotal(s, hourOf, g) <= maxDuration)
    {
      if h in durations && durations[h] > maxDuration {
        maxDuration := durations[h];
        hour := Some(h);
      }
      h := h + 1;
    }
  }
}
