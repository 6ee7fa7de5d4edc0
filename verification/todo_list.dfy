/** The state of the `TodoList` component and its five handlers, each a
    pure transition from one state value to the next. */
module TodoList {
  import opened Wrappers
  import opened Whitespace
  import opened Tasks

  /** The component's state: the task list, the pending new-task input,
      the id of the task being edited (`None` for `null`) and the edit
      buffer. */
  datatype State = State(
    tasks: seq<Task>,
    newTask: string,
    editingTaskId: Option<int>,
    editedTaskText: string)

  /** The state before anything is loaded or typed. */
  const Initial: State := State([], "", None, "")

  /** `addTask`, with `now` the value of the clock read for the new id.
      Blank input changes nothing; otherwise the raw input is appended as
      an open task at the end, every earlier task stays where it was, and
      the input is cleared. */
  function AddTask(s: State, now: int): (r: State)
    ensures IsBlank(s.newTask) ==> r == s
    ensures !IsBlank(s.newTask) ==>
      && |r.tasks| == |s.tasks| + 1
      && r.tasks[..|s.tasks|] == s.tasks
      && r.tasks[|s.tasks|] == Task(now, s.newTask, false)
      && r.newTask == ""
      && r.editingTaskId == s.editingTaskId
      && r.editedTaskText == s.editedTaskText
    ensures DistinctIds(s.tasks) && !HasId(s.tasks, now) ==> DistinctIds(r.tasks)
    ensures TextsNonBlank(s.tasks) ==> TextsNonBlank(r.tasks)
  {
    TrimEmptyIffBlank(s.newTask);
    AppendKeepsInvariants(s.tasks, Task(now, s.newTask, false));
    if Trim(s.newTask) != "" then
      s.(tasks := s.tasks + [Task(now, s.newTask, false)], newTask := "")
    else
      s
  }

  /** `toggleTaskCompletion`: only the task list changes, keeping its
      length, order, ids and texts, and flipping completion exactly on the
      tasks that carry `id`. */
  function ToggleTaskCompletion(s: State, id: int): (r: State)
    ensures r.newTask == s.newTask && r.editingTaskId == s.editingTaskId
    ensures r.editedTaskText == s.editedTaskText
    ensures |r.tasks| == |s.tasks|
    ensures forall i :: 0 <= i < |s.tasks| ==>
      r.tasks[i].id == s.tasks[i].id && r.tasks[i].text == s.tasks[i].text &&
      (r.tasks[i].completed != s.tasks[i].completed <==> s.tasks[i].id == id)
    ensures DistinctIds(s.tasks) ==> DistinctIds(r.tasks)
    ensures TextsNonBlank(s.tasks) ==> TextsNonBlank(r.tasks)
  {
    s.(tasks := Toggle(s.tasks, id))
  }

  /** `startEditingTask`: the edit target becomes `id` and the buffer
      `text`, whatever edit was in progress; the task list and the pending
      input stay as they were. */
  function StartEditingTask(s: State, id: int, text: string): (r: State)
    ensures r.editingTaskId == Some(id) && r.editedTaskText == text
    ensures r.tasks == s.tasks && r.newTask == s.newTask
  {
    s.(editingTaskId := Some(id), editedTaskText := text)
  }

  /** `updateTask`: a blank buffer changes nothing. Otherwise the buffer
      becomes the text of exactly the tasks whose id is the edit target
      (ids, completion, length and order kept), and edit mode is left with
      an empty buffer. */
  function UpdateTask(s: State): (r: State)
    ensures IsBlank(s.editedTaskText) ==> r == s
    ensures !IsBlank(s.editedTaskText) ==>
      && r.editingTaskId == None && r.editedTaskText == ""
      && r.newTask == s.newTask
      && |r.tasks| == |s.tasks|
      && forall i :: 0 <= i < |s.tasks| ==>
           r.tasks[i].id == s.tasks[i].id &&
           r.tasks[i].completed == s.tasks[i].completed &&
           r.tasks[i].text ==
             (if s.editingTaskId == Some(s.tasks[i].id) then s.editedTaskText
              else s.tasks[i].text)
    ensures s.editingTaskId == None ==> r.tasks == s.tasks
    ensures DistinctIds(s.tasks) ==> DistinctIds(r.tasks)
    ensures TextsNonBlank(s.tasks) ==> TextsNonBlank(r.tasks)
  {
    TrimEmptyIffBlank(s.editedTaskText);
    RenameNone(s.tasks, s.editedTaskText);
    RenameKeepsTextsNonBlank(s.tasks, s.editingTaskId, s.editedTaskText);
    if Trim(s.editedTaskText) != "" then
      s.(tasks := Rename(s.tasks, s.editingTaskId, s.editedTaskText),
         editingTaskId := None, editedTaskText := "")
    else
      s
  }

  /** `deleteTask`: the task list becomes the order-preserving subsequence
      of the tasks whose id is not `id`; the pending input and the edit
      state are left alone, so the edit target may name a deleted task. */
  function DeleteTask(s: State, id: int): (r: State)
    ensures r.newTask == s.newTask && r.editingTaskId == s.editingTaskId
    ensures r.editedTaskText == s.editedTaskText
    ensures Subsequence(r.tasks, s.tasks)
    ensures !HasId(r.tasks, id)
    ensures forall t :: t in r.tasks <==> t in s.tasks && t.id != id
    ensures |r.tasks| == |s.tasks| - CountId(s.tasks, id)
    ensures !HasId(s.tasks, id) ==> r.tasks == s.tasks
    ensures DistinctIds(s.tasks) ==> DistinctIds(r.tasks)
    ensures DistinctIds(s.tasks) && HasId(s.tasks, id) ==> |r.tasks| == |s.tasks| - 1
    ensures TextsNonBlank(s.tasks) ==> TextsNonBlank(r.tasks)
  {
    RemoveDistinct(s.tasks, id);
    assert forall i :: 0 <= i < |Remove(s.tasks, id)| ==>
      Remove(s.tasks, id)[i] in s.tasks;
    s.(tasks := Remove(s.tasks, id))
  }

  /** A user action: one of the five handlers, or typing into the new-task
      field or the edit field (their `onChange` setters). */
  datatype Event =
    | Add(now: int)
    | ToggleCompletion(id: int)
    | StartEditing(id: int, text: string)
    | Save
    | Delete(id: int)
    | TypeNewTask(text: string)
    | TypeEditedText(text: string)

  /** The state after one event. */
  function Step(s: State, e: Event): State {
    match e
    case Add(now) => AddTask(s, now)
    case ToggleCompletion(id) => ToggleTaskCompletion(s, id)
    case StartEditing(id, text) => StartEditingTask(s, id, text)
    case Save => UpdateTask(s)
    case Delete(id) => DeleteTask(s, id)
    case TypeNewTask(text) => s.(newTask := text)
    case TypeEditedText(text) => s.(editedTaskText := text)
  }

  /** The state after the events of `es`, in order. */
  function Run(s: State, es: seq<Event>): State
    decreases |es|
  {
    if es == [] then s else Run(Step(s, es[0]), es[1..])
  }

  /** Blank text is rejected at both entry points, so whatever the user
      does, starting from the empty list, no stored text is blank. */
  lemma {:induction false} RunKeepsTextsNonBlank(s: State, es: seq<Event>)
    requires TextsNonBlank(s.tasks)
    ensures TextsNonBlank(Run(s, es).tasks)
    decreases |es|
  {
    if es != [] {
      var s' := Step(s, es[0]);
      assert TextsNonBlank(s'.tasks);
      RunKeepsTextsNonBlank(s', es[1..]);
    }
  }

  /** Every state reachable from `Initial` stores only non-blank texts. */
  lemma ReachableTextsNonBlank(es: seq<Event>)
    ensures TextsNonBlank(Run(Initial, es).tasks)
  {
    RunKeepsTextsNonBlank(Initial, es);
  }

  /** Toggling the same id twice restores the state. */
  lemma ToggleTwice(s: State, id: int)
    ensures ToggleTaskCompletion(ToggleTaskCompletion(s, id), id) == s
  {
  }

  /** Toggling an id that no task carries changes nothing. */
  lemma ToggleUnknownId(s: State, id: int)
    requires !HasId(s.tasks, id)
    ensures ToggleTaskCompletion(s, id) == s
  {
  }

  /** Starting an edit abandons the one in progress: only the last call
      counts. */
  lemma StartEditingOverwrites(s: State, a: int, x: string, b: int, y: string)
    ensures StartEditingTask(StartEditingTask(s, a, x), b, y) == StartEditingTask(s, b, y)
  {
  }

  /** Saving twice is the same as saving once: a successful save empties the
      buffer, which makes the second save a no-op. */
  lemma UpdateTaskIdempotent(s: State)
    ensures UpdateTask(UpdateTask(s)) == UpdateTask(s)
  {
  }

  /** Opening a task for editing with its own text, as the Edit button
      does, and saving at once leaves the task list as it was. */
  lemma EditAndSaveUnchanged(s: State, k: int)
    requires DistinctIds(s.tasks) && 0 <= k < |s.tasks|
    ensures UpdateTask(StartEditingTask(s, s.tasks[k].id, s.tasks[k].text)).tasks == s.tasks
  {
    var e := StartEditingTask(s, s.tasks[k].id, s.tasks[k].text);
    if !IsBlank(e.editedTaskText) {
      RenameSameText(s.tasks, k);
      assert UpdateTask(e).tasks == Rename(s.tasks, Some(s.tasks[k].id), s.tasks[k].text) by {
        TrimEmptyIffBlank(e.editedTaskText);
      }
    }
  }

  /** Deleting the task being edited keeps edit mode on an id no task
      carries; a save at the handler level then leaves the list unchanged
      and only clears the edit state. No button can issue that save, since
      the Save button and the edit field are drawn only on the row of the
      edit target; the stale target lasts until the next Edit click
      replaces it (`StartEditingOverwrites`). */
  lemma DeleteWhileEditing(s: State, id: int)
    requires s.editingTaskId == Some(id)
    requires !IsBlank(s.editedTaskText)
    ensures DeleteTask(s, id).editingTaskId == Some(id)
    ensures !HasId(DeleteTask(s, id).tasks, id)
    ensures UpdateTask(DeleteTask(s, id)) ==
      DeleteTask(s, id).(editingTaskId := None, editedTaskText := "")
  {
  }

  /** The walk-through of adding "Buy milk", ticking it, renaming it to
      "Buy oat milk" and deleting it, driven as the page drives it: the Edit
      button seeds the buffer with the row's own text and typing replaces
      it. Completion survives the rename and the list ends empty. */
  lemma BuyMilkScenario(now: int)
    ensures
      var s1 := AddTask(Initial.(newTask := "Buy milk"), now);
      var s2 := ToggleTaskCompletion(s1, now);
      var s3 := UpdateTask(StartEditingTask(s2, now, "Buy milk").(editedTaskText := "Buy oat milk"));
      var s4 := DeleteTask(s3, now);
      && s1.tasks == [Task(now, "Buy milk", false)]
      && s2.tasks == [Task(now, "Buy milk", true)]
      && s3.tasks == [Task(now, "Buy oat milk", true)]
      && s4.tasks == []
  {
    var s0 := Initial.(newTask := "Buy milk");
    assert !IsWhitespace(s0.newTask[0]);
    var s1 := AddTask(s0, now);
    var s2 := ToggleTaskCompletion(s1, now);
    assert s2.tasks[0] == Task(now, "Buy milk", true);
    var e := StartEditingTask(s2, now, "Buy milk").(editedTaskText := "Buy oat milk");
    assert !IsWhitespace(e.editedTaskText[0]);
    var s3 := UpdateTask(e);
    assert s3.tasks[0] == Task(now, "Buy oat milk", true);
  }
}
