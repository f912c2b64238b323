/** The form logic of src/screens/TaskFormScreen.js: the initial field values,
    validation, the action a submit dispatches, and the category editing.
    `isNumeric(s)` stands for `!isNaN(Number(s))` and `toNumber(s)` for
    `Number(s)`; the fresh id and the current time are parameters. */
module TaskFormScreen {
  import opened Common
  import opened Text
  import opened Decimal
  import opened Entities
  import opened TasksSlice

  /** The form's fields. The due date always has a value. */
  datatype Form = Form(
    title: string,
    description: string,
    priority: string,
    dueDate: int,
    estimatedMinutes: string,   // the text typed in the field
    categories: seq<string>)

  /** The initial state hooks: the edited task's values, with 'medium' for a
      missing priority and the current time for a missing due date. */
  function InitialForm(existing: Option<Task>, now: int): (f: Form)
    ensures existing.None? ==> f == Form("", "", "medium", now, "", [])
    ensures existing.Some? ==> f.title == existing.value.title && f.categories == existing.value.categories
    ensures existing.Some? ==> f.description == existing.value.description
    ensures existing.Some? ==>
      f.dueDate == (if existing.value.dueDate.Some? then existing.value.dueDate.value else now)
    ensures existing.Some? && existing.value.priority != "" ==> f.priority == existing.value.priority
    ensures existing.Some? && existing.value.priority == "" ==> f.priority == "medium"
    ensures existing.Some? && existing.value.estimatedMinutes.None? ==> f.estimatedMinutes == ""
    ensures f.priority != ""
    ensures existing.Some? && existing.value.estimatedMinutes.Some? ==>
      f.estimatedMinutes == IntToString(existing.value.estimatedMinutes.value)
  {
    match existing
    case None => Form("", "", "medium", now, "", [])
    case Some(t) =>
      Form(t.title, t.description,
           if t.priority != "" then t.priority else "medium",
           if t.dueDate.Some? then t.dueDate.value else now,
           if t.estimatedMinutes.Some? then IntToString(t.estimatedMinutes.value) else "",
           t.categories)
  }

  /** The `errors` object: one message per failing field. */
  datatype FormErrors = FormErrors(title: Option<string>, estimatedMinutes: Option<string>)

  /** What makes the form acceptable. */
  predicate FormValid(form: Form, isNumeric: string -> bool)
  {
    Trim(form.title) != "" && (form.estimatedMinutes == "" || isNumeric(form.estimatedMinutes))
  }

  /** validateForm: a blank title (after trimming) and a non-empty,
      non-numeric estimate each add their message and clear the flag. */
  method ValidateForm(form: Form, isNumeric: string -> bool) returns (isValid: bool, errors: FormErrors)
    ensures isValid <==> FormValid(form, isNumeric)
    ensures errors.title.Some? <==> Trim(form.title) == ""
    ensures errors.title.Some? ==> errors.title.value == "Title is required"
    ensures errors.estimatedMinutes.Some? <==> form.estimatedMinutes != "" && !isNumeric(form.estimatedMinutes)
    ensures errors.estimatedMinutes.Some? ==> errors.estimatedMinutes.value == "Must be a number"
  {
    errors := FormErrors(None, None);
    isValid := true;
    if Trim(form.title) == "" {
      errors := errors.(title := Some("Title is required"));
      isValid := false;
    }
    if form.estimatedMinutes != "" && !isNumeric(form.estimatedMinutes) {
      errors := errors.(estimatedMinutes := Some("Must be a number"));
      isValid := false;
    }
  }

  /** The action handleSubmit dispatches, if any. */
  datatype Submission = NoDispatch | Add(task: Task) | Update(id: string, patch: TaskPatch)

  /** The estimate as stored: null for an empty field, otherwise the number. */
  function EstimateOf(text: string, toNumber: string -> int): (m: Option<int>)
    ensures m.None? <==> text == ""
  {
    if text == "" then None else Some(toNumber(text))
  }

  /** handleSubmit: nothing when the form is invalid; otherwise an update of
      the edited task (its id kept, every form field written, completion kept)
      or a new task with a fresh id and creation time, not completed. */
  method HandleSubmit(existing: Option<Task>, form: Form, isNumeric: string -> bool,
                      toNumber: string -> int, freshId: string, now: int)
    returns (action: Submission)
    ensures action.NoDispatch? <==> !FormValid(form, isNumeric)
    ensures action.Update? <==> FormValid(form, isNumeric) && existing.Some?
    ensures action.Update? ==> action.id == existing.value.id
    ensures action.Update? ==> action.patch == TaskPatch(Some(form.title), Some(form.description), Some(form.priority),
                                   Some(Some(form.dueDate)), Some(EstimateOf(form.estimatedMinutes, toNumber)),
                                   Some(form.categories), Some(existing.value.completed), None)
    ensures action.Add? ==> action.task == Task(freshId, form.title, form.description, form.priority,
                                               Some(form.dueDate), EstimateOf(form.estimatedMinutes, toNumber),
                                               form.categories, false, Some(now))
  {
    var isValid, _ := ValidateForm(form, isNumeric);
    if !isValid {
      return NoDispatch;
    }
    var estimate := EstimateOf(form.estimatedMinutes, toNumber);
    var completed := if existing.Some? then existing.value.completed else false;
    if existing.Some? {
      action := Update(existing.value.id,
        TaskPatch(Some(form.title), Some(form.description), Some(form.priority), Some(Some(form.dueDate)),
                  Some(estimate), Some(form.categories), Some(completed), None));
    } else {
      action := Add(Task(freshId, form.title, form.description, form.priority, Some(form.dueDate),
                         estimate, form.categories, completed, Some(now)));
    }
  }

  /** Opening a task in the form and saving without touching a field gives
      the task back, provided it has a title, a priority and a due date and
      the number parser reads back the rendering of its estimate. */
  lemma UnchangedEditKeepsTask(t: Task, now: int, toNumber: string -> int)
    requires Trim(t.title) != "" && t.priority != "" && t.dueDate.Some?
    requires t.estimatedMinutes.Some? ==> toNumber(IntToString(t.estimatedMinutes.value)) == t.estimatedMinutes.value
    ensures var form := InitialForm(Some(t), now);
      ApplyPatch(t, TaskPatch(Some(form.title), Some(form.description), Some(form.priority),
                              Some(Some(form.dueDate)), Some(EstimateOf(form.estimatedMinutes, toNumber)),
                              Some(form.categories), Some(t.completed), None)) == t
  {
  }

  function IsNot(category: string): string -> bool
  {
    c => c != category
  }

  /** toggleCategory: a selected category is removed wherever it occurs, the
      others keeping their order; an unselected one is appended. */
  function ToggleCategory(categories: seq<string>, category: string): (r: seq<string>)
    ensures category in categories ==> category !in r && r == Filter(categories, IsNot(category))
    ensures category !in categories ==> r == categories + [category]
    ensures category in r <==> category !in categories
  {
    if category in categories then Filter(categories, IsNot(category)) else categories + [category]
  }

  /** Toggling an unselected category twice restores the list; toggling a
      selected one twice removes its duplicates and moves it to the end. */
  lemma ToggleTwice(categories: seq<string>, category: string)
    ensures category !in categories ==> ToggleCategory(ToggleCategory(categories, category), category) == categories
    ensures category in categories ==>
      ToggleCategory(ToggleCategory(categories, category), category) == Filter(categories, IsNot(category)) + [category]
  {
    if category !in categories {
      FilterAppend(categories, [category], IsNot(category));
      assert [category][..0] == [];
      forall i | 0 <= i < |categories| ensures IsNot(category)(categories[i]) {
        assert categories[i] in categories;
      }
      FilterAll(categories, IsNot(category));
    }
  }

  /** addNewCategory: a name that trims to nothing changes nothing; any other
      is appended trimmed, even when already present. */
  function AddNewCategory(categories: seq<string>, name: string): (r: seq<string>)
    ensures Trim(name) == "" ==> r == categories
    ensures Trim(name) != "" ==> |r| == |categories| + 1 && r[..|categories|] == categories
    ensures Trim(name) != "" ==> r[|categories|] == Trim(name) && IsTrimmed(r[|categories|])
  {
    if Trim(name) != "" then categories + [Trim(name)] else categories
  }
}
