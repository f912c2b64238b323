/** The list logic of src/screens/TasksScreen.js: the search and filter
    predicate behind `filteredTasks`, the displayed order, the "remaining"
    count and the list of filter chips (`getAvailableFilters`). */
module TasksScreen {
  import opened Common
  import opened Text
  import opened Entities
  import Helpers

  /** The search test: the query, lower-cased, occurs in the lower-cased title,
      or in the lower-cased description when the task has one. */
  predicate MatchesSearch(task: Task, query: string)
  {
    Includes(LowerStr(task.title), LowerStr(query))
    || (task.description != "" && Includes(LowerStr(task.description), LowerStr(query)))
  }

  /** The filter test: 'all' admits everything, 'completed' and 'active' split
      on the completion flag, and any value also admits the tasks listing it
      as a category. */
  predicate MatchesFilter(task: Task, filter: string)
  {
    filter == "all"
    || (filter == "completed" && task.completed)
    || (filter == "active" && !task.completed)
    || filter in task.categories
  }

  function Passes(query: string, filter: string): Task -> bool
  {
    t => MatchesSearch(t, query) && MatchesFilter(t, filter)
  }

  /** filteredTasks: the tasks passing both tests, in list order. */
  function FilteredTasks(tasks: seq<Task>, query: string, filter: string): (r: seq<Task>)
    ensures |r| <= |tasks|
    ensures forall t :: t in r <==> t in tasks && MatchesSearch(t, query) && MatchesFilter(t, filter)
  {
    forall t | t in tasks && MatchesSearch(t, query) && MatchesFilter(t, filter)
      ensures t in Filter(tasks, Passes(query, filter))
    {
      FilterKeeps(tasks, Passes(query, filter), t);
    }
    Filter(tasks, Passes(query, filter))
  }

  /** An empty search box matches every task. */
  lemma EmptyQueryMatches(task: Task)
    ensures MatchesSearch(task, "")
  {
    IncludesEmpty(LowerStr(task.title));
  }

  /** With an empty search and the 'all' filter the whole list is shown, in
      its own order. */
  lemma ShowAllIsIdentity(tasks: seq<Task>)
    ensures FilteredTasks(tasks, "", "all") == tasks
  {
    forall i | 0 <= i < |tasks| ensures Passes("", "all")(tasks[i]) {
      EmptyQueryMatches(tasks[i]);
    }
    FilterAll(tasks, Passes("", "all"));
  }

  /** The list shown: the filtered tasks by descending priority score. */
  function DisplayedTasks(tasks: seq<Task>, query: string, filter: string, now: int): (r: seq<Task>)
  {
    Helpers.SortTasksByPriority(Some(FilteredTasks(tasks, query, filter)), now)
  }

  /** The displayed list holds exactly the filtered tasks, each as often as it
      occurs there, with scores never increasing down the list. */
  lemma DisplayedIsSortedFilter(tasks: seq<Task>, query: string, filter: string, now: int)
    ensures multiset(DisplayedTasks(tasks, query, filter, now)) == multiset(FilteredTasks(tasks, query, filter))
    ensures forall t :: t in DisplayedTasks(tasks, query, filter, now) ==>
      MatchesSearch(t, query) && MatchesFilter(t, filter)
    ensures Helpers.Descending(DisplayedTasks(tasks, query, filter, now), Helpers.ScoreAt(now))
  {
    var f := FilteredTasks(tasks, query, filter);
    var d := DisplayedTasks(tasks, query, filter, now);
    forall t | t in d ensures MatchesSearch(t, query) && MatchesFilter(t, filter) {
      assert t in multiset(d);
    }
  }

  predicate IsOpen(task: Task)
  {
    !task.completed
  }

  /** The "N tasks remaining" count. */
  function Remaining(tasks: seq<Task>, query: string, filter: string): (n: nat)
  {
    Count(FilteredTasks(tasks, query, filter), IsOpen)
  }

  /** An incomplete task passing search and filter. */
  function OpenAndPasses(query: string, filter: string): Task -> bool
  {
    t => MatchesSearch(t, query) && MatchesFilter(t, filter) && !t.completed
  }

  /** The count is the number of incomplete tasks that pass search and
      filter; under the 'completed' filter it counts only tasks listing
      "completed" as a category. */
  lemma RemainingCountsOpenPassing(tasks: seq<Task>, query: string, filter: string)
    ensures Remaining(tasks, query, filter) == Count(tasks, OpenAndPasses(query, filter))
  {
    FilterFilter(tasks, Passes(query, filter), IsOpen, OpenAndPasses(query, filter));
  }

  // ---------------------------------------------------------------------------
  // getAvailableFilters

  /** A filter chip: the object's `value` and `label` keys (`label` is a
      reserved word in Dafny, hence `labelText`). */
  datatype FilterChip = FilterChip(value: string, labelText: string)

  const BaseFilters: seq<FilterChip> :=
    [FilterChip("all", "All"), FilterChip("active", "Active"), FilterChip("completed", "Completed")]

  /** All categories of all tasks, task by task, in list order. */
  function AllCategories(tasks: seq<Task>): seq<string>
  {
    if tasks == [] then [] else AllCategories(tasks[..|tasks| - 1]) + tasks[|tasks| - 1].categories
  }

  /** A Set filled in insertion order and read back: each value once, at the
      place it was first seen. */
  function Distinct(s: seq<string>): (r: seq<string>)
    ensures forall x :: x in r <==> x in s
    ensures forall i, j :: 0 <= i < j < |r| ==> r[i] != r[j]
  {
    if s == [] then []
    else
      var init := Distinct(s[..|s| - 1]);
      if s[|s| - 1] in init then init else init + [s[|s| - 1]]
  }

  /** One chip per distinct category, value and label both the category. */
  function CategoryChips(categories: seq<string>): (r: seq<FilterChip>)
    ensures |r| == |categories|
    ensures forall i :: 0 <= i < |r| ==> r[i] == FilterChip(categories[i], categories[i])
  {
    seq(|categories|, i requires 0 <= i < |categories| => FilterChip(categories[i], categories[i]))
  }

  /** Adding one value to the set. */
  lemma DistinctSnoc(s: seq<string>, x: string)
    ensures Distinct(s + [x]) == if x in Distinct(s) then Distinct(s) else Distinct(s) + [x]
  {
    assert (s + [x])[..|s|] == s;
  }

  /** The inner forEach: one task's categories added to the set in order. */
  method AddCategories(categories: seq<string>, ghost seen: seq<string>, cs: seq<string>)
    returns (r: seq<string>)
    requires categories == Distinct(seen)
    ensures r == Distinct(seen + cs)
  {
    r := categories;
    assert seen + cs[..0] == seen;
    for j := 0 to |cs|
      invariant r == Distinct(seen + cs[..j])
    {
      DistinctSnoc(seen + cs[..j], cs[j]);
      assert seen + cs[..j + 1] == (seen + cs[..j]) + [cs[j]];
      if cs[j] !in r {
        r := r + [cs[j]];
      }
    }
    assert cs[..|cs|] == cs;
  }

  /** getAvailableFilters: the three base chips, then one chip per distinct
      category in first-seen order. A category spelled like a base value gets
      a chip of its own as well. */
  method GetAvailableFilters(tasks: seq<Task>) returns (filters: seq<FilterChip>)
    ensures filters == BaseFilters + CategoryChips(Distinct(AllCategories(tasks)))
  {
    var categories: seq<string> := [];
    for i := 0 to |tasks|
      invariant categories == Distinct(AllCategories(tasks[..i]))
    {
      assert tasks[..i + 1][..i] == tasks[..i];
      categories := AddCategories(categories, AllCategories(tasks[..i]), tasks[i].categories);
    }
    assert tasks[..|tasks|] == tasks;
    filters := BaseFilters + CategoryChips(categories);
  }

  /** Every category some task lists gets exactly one chip after the base
      chips, and no other chip is there. */
  lemma CategoryChipsCover(tasks: seq<Task>)
    ensures forall c :: (exists t :: t in tasks && c in t.categories) <==>
      FilterChip(c, c) in CategoryChips(Distinct(AllCategories(tasks)))
    ensures forall i, j :: 0 <= i < j < |CategoryChips(Distinct(AllCategories(tasks)))| ==>
      CategoryChips(Distinct(AllCategories(tasks)))[i] != CategoryChips(Distinct(AllCategories(tasks)))[j]
  {
    CategoriesOfTasks(tasks);
    var d := Distinct(AllCategories(tasks));
    var chips := CategoryChips(d);
    forall c ensures FilterChip(c, c) in chips <==> c in d {
      if c in d {
        var k :| 0 <= k < |d| && d[k] == c;
        assert chips[k] == FilterChip(c, c);
      }
    }
  }

  /** A value is among all categories exactly when some task lists it. */
  lemma {:induction false} CategoriesOfTasks(tasks: seq<Task>)
    ensures forall c :: c in AllCategories(tasks) <==> exists t :: t in tasks && c in t.categories
    decreases |tasks|
  {
    if tasks != [] {
      var init := tasks[..|tasks| - 1];
      var last := tasks[|tasks| - 1];
      CategoriesOfTasks(init);
      assert tasks == init + [last];
      forall c | c in AllCategories(tasks) ensures exists t :: t in tasks && c in t.categories {
        if c in last.categories {
          assert last in tasks;
        } else {
          assert c in AllCategories(init);
          var t :| t in init && c in t.categories;
          assert t in tasks;
        }
      }
      forall c | exists t :: t in tasks && c in t.categories ensures c in AllCategories(tasks) {
        var t :| t in tasks && c in t.categories;
        if t != last {
          assert t in init;
        }
      }
    }
  }
}
