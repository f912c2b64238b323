/** The task list store of src/store/slices/tasksSlice.js: a class whose
    methods are the reducers, each specified by a function of the old list. */
module TasksSlice {
  import opened Common
  import opened Entities

  /** The fields an update carries, `id` already split off: each present key
      overwrites the task's value (`Some(None)` is an explicit null). */
  datatype TaskPatch = TaskPatch(
    title: Option<string>,
    description: Option<string>,
    priority: Option<string>,
    dueDate: Option<Option<int>>,
    estimatedMinutes: Option<Option<int>>,
    categories: Option<seq<string>>,
    completed: Option<bool>,
    createdAt: Option<Option<int>>)

  /** `{...task, ...updates}`: present keys overwrite; the id is kept. */
  function ApplyPatch(t: Task, p: TaskPatch): (r: Task)
    ensures r.id == t.id
    ensures r.title == (if p.title.Some? then p.title.value else t.title)
    ensures r.description == (if p.description.Some? then p.description.value else t.description)
    ensures r.priority == (if p.priority.Some? then p.priority.value else t.priority)
    ensures r.dueDate == (if p.dueDate.Some? then p.dueDate.value else t.dueDate)
    ensures r.estimatedMinutes == (if p.estimatedMinutes.Some? then p.estimatedMinutes.value else t.estimatedMinutes)
    ensures r.categories == (if p.categories.Some? then p.categories.value else t.categories)
    ensures r.completed == (if p.completed.Some? then p.completed.value else t.completed)
    ensures r.createdAt == (if p.createdAt.Some? then p.createdAt.value else t.createdAt)
  {
    t.(title := if p.title.Some? then p.title.value else t.title,
       description := if p.description.Some? then p.description.value else t.description,
       priority := if p.priority.Some? then p.priority.value else t.priority,
       dueDate := if p.dueDate.Some? then p.dueDate.value else t.dueDate,
       estimatedMinutes := if p.estimatedMinutes.Some? then p.estimatedMinutes.value else t.estimatedMinutes,
       categories := if p.categories.Some? then p.categories.value else t.categories,
       completed := if p.completed.Some? then p.completed.value else t.completed,
       createdAt := if p.createdAt.Some? then p.createdAt.value else t.createdAt)
  }

  /** Array.prototype.findIndex on the id: the first position holding a task
      with that id, or -1 when there is none. */
  function FindIndex(tasks: seq<Task>, id: string): (index: int)
    ensures -1 <= index < |tasks|
    ensures index == -1 <==> forall j :: 0 <= j < |tasks| ==> tasks[j].id != id
    ensures index >= 0 ==> tasks[index].id == id && forall j :: 0 <= j < index ==> tasks[j].id != id
  {
    if tasks == [] then -1
    else if tasks[0].id == id then 0
    else
      var k := FindIndex(tasks[1..], id);
      if k == -1 then -1 else k + 1
  }

  /** completeTask: the first task with the id is marked completed. */
  function CompleteFirst(tasks: seq<Task>, id: string): (r: seq<Task>)
    ensures |r| == |tasks|
    ensures forall j :: 0 <= j < |tasks| && j != FindIndex(tasks, id) ==> r[j] == tasks[j]
    ensures FindIndex(tasks, id) >= 0 ==> r[FindIndex(tasks, id)] == tasks[FindIndex(tasks, id)].(completed := true)
  {
    var i := FindIndex(tasks, id);
    if i == -1 then tasks else tasks[i := tasks[i].(completed := true)]
  }

  /** Completing twice is completing once. */
  lemma CompleteFirstIdempotent(tasks: seq<Task>, id: string)
    ensures CompleteFirst(CompleteFirst(tasks, id), id) == CompleteFirst(tasks, id)
  {
    var r := CompleteFirst(tasks, id);
    var i := FindIndex(tasks, id);
    if i >= 0 {
      assert forall j :: 0 <= j < i ==> r[j].id != id;
      assert FindIndex(r, id) == i;
    } else {
      assert r == tasks;
    }
  }

  /** An unknown id leaves the list as it was. */
  lemma CompleteUnknownIsNoOp(tasks: seq<Task>, id: string)
    requires forall j :: 0 <= j < |tasks| ==> tasks[j].id != id
    ensures CompleteFirst(tasks, id) == tasks
  {
  }

  /** updateTask: the first task with the id gets the patch; its id stays. */
  function UpdateFirst(tasks: seq<Task>, id: string, patch: TaskPatch): (r: seq<Task>)
    ensures |r| == |tasks|
    ensures forall j :: 0 <= j < |tasks| ==> r[j].id == tasks[j].id
    ensures forall j :: 0 <= j < |tasks| && j != FindIndex(tasks, id) ==> r[j] == tasks[j]
    ensures FindIndex(tasks, id) >= 0 ==> r[FindIndex(tasks, id)] == ApplyPatch(tasks[FindIndex(tasks, id)], patch)
  {
    var i := FindIndex(tasks, id);
    if i == -1 then tasks else tasks[i := ApplyPatch(tasks[i], patch)]
  }

  function HasOtherId(id: string): Task -> bool
  {
    (t: Task) => t.id != id
  }

  /** deleteTask: every task with the id goes, the rest stay in order. */
  function RemoveAll(tasks: seq<Task>, id: string): (r: seq<Task>)
    ensures forall t :: t in r ==> t in tasks && t.id != id
    ensures forall t :: t in tasks && t.id != id ==> t in r
  {
    forall t | t in tasks && t.id != id ensures t in Filter(tasks, HasOtherId(id)) {
      FilterKeeps(tasks, HasOtherId(id), t);
    }
    Filter(tasks, HasOtherId(id))
  }

  /** Deleting an id nobody has changes nothing. */
  lemma RemoveUnknownIsNoOp(tasks: seq<Task>, id: string)
    requires forall j :: 0 <= j < |tasks| ==> tasks[j].id != id
    ensures RemoveAll(tasks, id) == tasks
  {
    FilterAll(tasks, HasOtherId(id));
  }

  class TasksState {
    var tasks: seq<Task>
    var loading: bool
    var error: Option<string>

    /** initialState. */
    constructor ()
      ensures tasks == [] && !loading && error.None?
    {
      tasks := [];
      loading := false;
      error := None;
    }

    /** addTask: appends the payload; ids are not checked. */
    method AddTask(task: Task)
      modifies this
      ensures tasks == old(tasks) + [task]
      ensures loading == old(loading) && error == old(error)
    {
      tasks := tasks + [task];
    }

    method CompleteTask(id: string)
      modifies this
      ensures tasks == CompleteFirst(old(tasks), id)
      ensures loading == old(loading) && error == old(error)
    {
      var index := FindIndex(tasks, id);
      if index != -1 {
        tasks := tasks[index := tasks[index].(completed := true)];
      }
    }

    method DeleteTask(id: string)
      modifies this
      ensures tasks == RemoveAll(old(tasks), id)
      ensures loading == old(loading) && error == old(error)
    {
      tasks := Filter(tasks, HasOtherId(id));
    }

    method UpdateTask(id: string, updates: TaskPatch)
      modifies this
      ensures tasks == UpdateFirst(old(tasks), id, updates)
      ensures loading == old(loading) && error == old(error)
    {
      var index := FindIndex(tasks, id);
      if index != -1 {
        tasks := tasks[index := ApplyPatch(tasks[index], updates)];
      }
    }

    method SetTasks(newTasks: seq<Task>)
      modifies this
      ensures tasks == newTasks
      ensures loading == old(loading) && error == old(error)
    {
      tasks := newTasks;
    }

    method SetLoading(value: bool)
      modifies this
      ensures loading == value
      ensures tasks == old(tasks) && error == old(error)
    {
      loading := value;
    }

    method SetError(value: Option<string>)
      modifies this
      ensures error == value
      ensures tasks == old(tasks) && loading == old(loading)
    {
      error := value;
    }
  }
}
