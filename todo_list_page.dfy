/**
 * The to-do list page (ToDoListPage.js): the add-task form with its title
 * check, the colour of a task by priority, and the list of tasks from which
 * a click removes one entry by position.
 */
module ToDoListPage {
  import opened Wrappers
  import opened JsText
  import Cookies

  const TitleEmptyMessage: string := "Title must not be empty."

  /** `getPriorityColor`: fixed colours for the three priorities, another for anything else. */
  function PriorityColor(priority: string): (colour: string)
    ensures priority == "low" <==> colour == "#7F7F7F"
    ensures priority == "medium" <==> colour == "#b47714"
    ensures priority == "high" <==> colour == "#8C1D2C"
    ensures priority != "low" && priority != "medium" && priority != "high" <==> colour == "#31A26B"
  {
    match priority
    case "low" => "#7F7F7F"
    case "medium" => "#b47714"
    case "high" => "#8C1D2C"
    case _ => "#31A26B"
  }

  /** A task as `GET /api/get-events` lists it. */
  datatype TaskItem = TaskItem(taskId: nat, name: string, isCompleted: bool, dueDate: Option<string>, priority: string)

  /** The JSON body of `POST /api/add-event`; the due time is an instant, `None` when the picker is cleared. */
  datatype AddTaskBody = AddTaskBody(name: string, dueDate: Option<int>, isCompleted: bool, priority: string)

  datatype AddTaskRequest = AddTaskRequest(csrfToken: string, body: AddTaskBody)

  /** The JSON body of `POST /api/remove-event`. */
  datatype RemoveTaskRequest = RemoveTaskRequest(csrfToken: string, taskId: nat)

  class ToDoList {
    var title: string
    var priority: string
    var dueTime: Option<int>
    var titleError: string
    var tasks: seq<TaskItem>
    var loading: bool

    /** The page as mounted: an empty title, priority `medium`, the current time as due time, loading. */
    constructor (now: int)
      ensures title == "" && priority == "medium" && dueTime == Some(now)
      ensures titleError == "" && tasks == [] && loading
    {
      title, priority, dueTime := "", "medium", Some(now);
      titleError, tasks, loading := "", [], true;
    }

    /**
     * `validateForm`: the form passes exactly when the title is not empty
     * (the `dueTime != NaN` test holds for every due time); `titleError`
     * says so exactly when it fails.
     */
    method ValidateForm() returns (ok: bool)
      modifies this
      ensures ok <==> title != []
      ensures ok <==> titleError == ""
      ensures !ok ==> titleError == TitleEmptyMessage
      ensures title == old(title) && priority == old(priority) && dueTime == old(dueTime)
      ensures tasks == old(tasks) && loading == old(loading)
    {
      if JsLength(title) < 1 {
        titleError := TitleEmptyMessage;
      } else {
        titleError := "";
      }
      // `dueTime != NaN` compares with NaN, which nothing equals: it is always true.
      ok := JsLength(title) >= 1 && true;
    }

    /**
     * `handleSubmit`: a request is made only for a valid form and a CSRF
     * token, and it always posts the title, the due time and the priority
     * with `is_completed` false.
     */
    method HandleSubmit(cookie: string) returns (r: Option<AddTaskRequest>)
      modifies this
      ensures r.Some? <==> title != [] && Cookies.CsrfToken(cookie).Some?
      ensures r.Some? ==> r.value == AddTaskRequest(Cookies.CsrfToken(cookie).value,
                                                    AddTaskBody(title, dueTime, false, priority))
      ensures titleError == "" <==> title != []
      ensures title == [] ==> titleError == TitleEmptyMessage
      ensures title == old(title) && priority == old(priority) && dueTime == old(dueTime)
      ensures tasks == old(tasks) && loading == old(loading)
    {
      var valid := ValidateForm();
      if !valid {
        return None;
      }
      var token := Cookies.CsrfToken(cookie);
      if token.None? {
        return None;
      }
      r := Some(AddTaskRequest(token.value, AddTaskBody(title, dueTime, false, priority)));
    }

    /**
     * `handleRemoveTask(index)`: the entry at `index` leaves the list at
     * once, whatever happens next; the request, made only with a CSRF
     * token, names the id of the entry removed.
     */
    method RemoveTask(index: nat, cookie: string) returns (r: Option<RemoveTaskRequest>)
      requires index < |tasks|
      modifies this
      ensures |tasks| == |old(tasks)| - 1
      ensures tasks == old(tasks)[..index] + old(tasks)[index + 1..]
      ensures r.Some? <==> Cookies.CsrfToken(cookie).Some?
      ensures r.Some? ==> r.value == RemoveTaskRequest(Cookies.CsrfToken(cookie).value, old(tasks)[index].taskId)
      ensures title == old(title) && priority == old(priority) && dueTime == old(dueTime)
      ensures titleError == old(titleError) && loading == old(loading)
    {
      var taskToRemove := tasks[index];
      tasks := RemoveAt(tasks, index);
      var token := Cookies.CsrfToken(cookie);
      if token.None? {
        return None;
      }
      r := Some(RemoveTaskRequest(token.value, taskToRemove.taskId));
    }

    /** The fetch effect: the list the server returns replaces the page's, and loading ends either way. */
    method Load(fetched: Option<seq<TaskItem>>)
      modifies this
      ensures fetched.Some? ==> tasks == fetched.value
      ensures fetched.None? ==> tasks == old(tasks)
      ensures !loading
      ensures title == old(title) && priority == old(priority) && dueTime == old(dueTime)
      ensures titleError == old(titleError)
    {
      if fetched.Some? {
        tasks := fetched.value;
      }
      loading := false;
    }
  }

  /** Removing by position keeps every other entry, in order: the entries before `index` stay put, the rest move up by one. */
  lemma RemoveTaskKeepsOthers(tasks: seq<TaskItem>, index: nat)
    requires index < |tasks|
    ensures |RemoveAt(tasks, index)| == |tasks| - 1
    ensures forall j :: 0 <= j < index ==> RemoveAt(tasks, index)[j] == tasks[j]
    ensures forall j :: index < j < |tasks| ==> RemoveAt(tasks, index)[j - 1] == tasks[j]
    ensures multiset(RemoveAt(tasks, index)) + multiset{tasks[index]} == multiset(tasks)
  {
    RemoveAtShifts(tasks, index);
    var pre, post := tasks[..index], tasks[index + 1..];
    assert tasks == pre + [tasks[index]] + post;
    assert multiset(tasks) == multiset(pre) + multiset{tasks[index]} + multiset(post);
    assert multiset(RemoveAt(tasks, index)) == multiset(pre) + multiset(post);
  }
}
