/** The records the core passes around. JavaScript objects with optional keys
    become datatypes; a missing or null value is `None`. A missing string is
    the empty string, since every use of title, description and priority treats
    undefined and "" alike (both are falsy). Dates are integer milliseconds. */
module Entities {
  import opened Common

  /** A task as created by the task form and kept in the task list. */
  datatype Task = Task(
    id: string,
    title: string,
    description: string,
    priority: string,               // "high", "medium", "low", other text, or "" when absent
    dueDate: Option<int>,           // milliseconds since the epoch
    estimatedMinutes: Option<int>,  // None when null or absent
    categories: seq<string>,
    completed: bool,
    createdAt: Option<int>)

  /** A focus session as recorded by the focus store. */
  datatype FocusSession = FocusSession(
    id: string,
    startTime: Option<int>,         // milliseconds; sessions read back from storage may lack it
    endTime: Option<int>,
    taskId: Option<string>,
    planned: int,                   // seconds
    actual: int,                    // seconds, as last reported
    completed: bool)
}
