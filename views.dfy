/**
 * The API views that read and change a Person's tasks and availabilities,
 * and the existence check, over the `Database` of the Models module. A
 * view answers with a status and a body; the order of its checks decides
 * which error a request gets (401 before 404 before 400).
 */
module Views {
  import opened Wrappers
  import JsText
  import opened Models
  import opened Serializers
  import opened Schemas

  /** `request.user`: anonymous, or the key of the signed-in user. */
  datatype Caller = Anonymous | SignedIn(userId: nat)

  /** An availability as `GET /api/get-availabilities` lists it (the key is named `availability_id`). */
  datatype AvailabilityEntry = AvailabilityEntry(availabilityId: nat, dayOfWeek: string, startTime: Time, endTime: Time)

  /** `serializer.data` of a saved task: the four declared fields. */
  datatype TaskData = TaskData(name: string, isCompleted: bool, dueDate: Option<int>, priority: string)

  datatype Body =
    | Message(text: string)
    | Error(text: string)
      /** `serializer.errors`, by key. */
    | Errors(keys: set<ErrorKey>)
      /** The dictionary the existence check raises. */
    | Taken(username: string, email: string)
    | Tasks(tasks: seq<TaskSchema>)
    | Availabilities(entries: seq<AvailabilityEntry>)
    | TaskAdded(message: string, task: TaskData)

  datatype Response = Response(status: nat, body: Body)

  const NotLoggedIn: Response := Response(401, Error("Not logged in"))
  const NoPerson: Response := Response(404, Error("Person object not found for the user"))
  const TaskIdRequired: Response := Response(400, Error("Task ID is required"))
  const TaskNotFound: Response := Response(404, Error("Task not found for the user"))
  const TaskRemoved: Response := Response(200, Message("Task removed successfully"))
  const NotAList: Response := Response(400, Error("Invalid data format. Expected a list of availabilities."))
  const AvailabilitiesSaved: Response := Response(201, Message("Availabilities added successfully"))
  const Available: Response := Response(200, Message("Username or email is available"))
  const TaskAddedMessage: string := "Task added successfully"

  // ---- GetTasksView: the caller's tasks, sorted by due date

  predicate AllDue(xs: seq<TaskSchema>) {
    forall i :: 0 <= i < |xs| ==> xs[i].dueDate.Some?
  }

  /**
   * Python's `sorted` compares due dates with `<`, which fails on a `None`
   * as soon as two entries are compared: a list of two or more sorts only
   * when every entry has a due date.
   */
  predicate Sortable(xs: seq<TaskSchema>) {
    |xs| <= 1 || AllDue(xs)
  }

  predicate SortedByDue(xs: seq<TaskSchema>)
    requires AllDue(xs)
  {
    forall i, j :: 0 <= i < j < |xs| ==> xs[i].dueDate.value <= xs[j].dueDate.value
  }

  /** `x` goes before the first entry that is not due earlier than `x`. */
  function Insert(x: TaskSchema, s: seq<TaskSchema>): (r: seq<TaskSchema>)
    requires s == [] || (x.dueDate.Some? && AllDue(s))
    ensures |r| == |s| + 1
  {
    if s == [] then [x]
    else if x.dueDate.value <= s[0].dueDate.value then [x] + s
    else [s[0]] + Insert(x, s[1..])
  }

  /** Inserting adds `x` and loses nothing. */
  lemma {:induction false} InsertPermutes(x: TaskSchema, s: seq<TaskSchema>)
    requires s == [] || (x.dueDate.Some? && AllDue(s))
    ensures multiset(Insert(x, s)) == multiset(s) + multiset{x}
  {
    if s == [] {
      assert Insert(x, s) == [x];
    } else if x.dueDate.value <= s[0].dueDate.value {
      assert Insert(x, s) == [x] + s;
    } else {
      var t := Insert(x, s[1..]);
      InsertPermutes(x, s[1..]);
      assert Insert(x, s) == [s[0]] + t;
      assert multiset([s[0]] + t) == multiset{s[0]} + multiset(t);
      assert s == [s[0]] + s[1..];
      assert multiset(s) == multiset{s[0]} + multiset(s[1..]);
    }
  }

  /** `sorted(tasks_data, key=lambda x: x['due_date'])`, a stable sort. */
  function SortByDue(xs: seq<TaskSchema>): (r: seq<TaskSchema>)
    requires Sortable(xs)
    ensures multiset(r) == multiset(xs)
    ensures |r| == |xs|
  {
    if xs == [] then []
    else
      var rest := SortByDue(xs[1..]);
      assert xs == [xs[0]] + xs[1..];
      assert rest != [] ==> AllDue(rest) by {
        if rest != [] {
          forall i | 0 <= i < |rest| ensures rest[i].dueDate.Some? {
            assert rest[i] in multiset(xs[1..]);
          }
        }
      }
      InsertPermutes(xs[0], rest);
      Insert(xs[0], rest)
  }

  /** A bound below `x` and below every entry of `s` is below every entry after the insertion. */
  lemma {:induction false} InsertLowerBound(x: TaskSchema, s: seq<TaskSchema>, bound: int)
    requires x.dueDate.Some? && AllDue(s)
    requires bound <= x.dueDate.value && forall i :: 0 <= i < |s| ==> bound <= s[i].dueDate.value
    ensures AllDue(Insert(x, s))
    ensures forall i :: 0 <= i < |Insert(x, s)| ==> bound <= Insert(x, s)[i].dueDate.value
  {
    if s != [] && x.dueDate.value > s[0].dueDate.value {
      InsertLowerBound(x, s[1..], bound);
    }
  }

  lemma {:induction false} InsertSorted(x: TaskSchema, s: seq<TaskSchema>)
    requires x.dueDate.Some? && AllDue(s) && SortedByDue(s)
    ensures AllDue(Insert(x, s)) && SortedByDue(Insert(x, s))
  {
    var r := Insert(x, s);
    if s == [] {
    } else if x.dueDate.value <= s[0].dueDate.value {
      assert r == [x] + s;
    } else {
      var t := Insert(x, s[1..]);
      InsertSorted(x, s[1..]);
      InsertLowerBound(x, s[1..], s[0].dueDate.value);
      assert r == [s[0]] + t;
      forall i, j | 0 <= i < j < |r| ensures r[i].dueDate.value <= r[j].dueDate.value {
        assert r[j] == t[j - 1];
        if i > 0 {
          assert r[i] == t[i - 1];
        }
      }
    }
  }

  /** The listing is in ascending order of due date. */
  lemma {:induction false} SortByDueSorted(xs: seq<TaskSchema>)
    requires AllDue(xs)
    ensures AllDue(SortByDue(xs)) && SortedByDue(SortByDue(xs))
  {
    if xs != [] {
      assert AllDue(xs[1..]) by {
        forall i | 0 <= i < |xs[1..]| ensures xs[1..][i].dueDate.Some? {
          assert xs[1..][i] == xs[i + 1];
        }
      }
      SortByDueSorted(xs[1..]);
      InsertSorted(xs[0], SortByDue(xs[1..]));
    }
  }

  /** The entries due at `d`, in order. */
  function DueAt(xs: seq<TaskSchema>, d: Option<int>): (r: seq<TaskSchema>)
    ensures |r| <= |xs|
  {
    if xs == [] then []
    else if xs[0].dueDate == d then [xs[0]] + DueAt(xs[1..], d)
    else DueAt(xs[1..], d)
  }

  lemma {:induction false} InsertStable(x: TaskSchema, s: seq<TaskSchema>, d: Option<int>)
    requires x.dueDate.Some? && AllDue(s) && SortedByDue(s)
    ensures DueAt(Insert(x, s), d) == if x.dueDate == d then [x] + DueAt(s, d) else DueAt(s, d)
  {
    if s == [] {
      assert DueAt([x], d) == (if x.dueDate == d then [x] else []);
    } else if x.dueDate.value <= s[0].dueDate.value {
      assert ([x] + s)[1..] == s;
    } else {
      assert AllDue(s[1..]) && SortedByDue(s[1..]) by {
        assert forall i :: 0 <= i < |s[1..]| ==> s[1..][i] == s[i + 1];
      }
      InsertStable(x, s[1..], d);
      assert ([s[0]] + Insert(x, s[1..]))[1..] == Insert(x, s[1..]);
      if x.dueDate == d {
        assert s[0].dueDate != d;
      }
    }
  }

  /** The sort is stable: the entries due at any one time keep their original order. */
  lemma {:induction false} SortByDueStable(xs: seq<TaskSchema>, d: Option<int>)
    requires AllDue(xs)
    ensures DueAt(SortByDue(xs), d) == DueAt(xs, d)
  {
    if xs != [] {
      assert AllDue(xs[1..]) by {
        forall i | 0 <= i < |xs[1..]| ensures xs[1..][i].dueDate.Some? {
          assert xs[1..][i] == xs[i + 1];
        }
      }
      SortByDueStable(xs[1..], d);
      SortByDueSorted(xs[1..]);
      InsertStable(xs[0], SortByDue(xs[1..]), d);
    }
  }

  /** The caller's Person, when the caller is signed in and has one. */
  function PersonOfCaller(db: Database, caller: Caller): Option<nat>
    reads db
  {
    if caller.SignedIn? && caller.userId in db.personOf then Some(db.personOf[caller.userId]) else None
  }

  /**
   * `GetTasksView.get`: 401 for an anonymous caller; otherwise 200 with
   * the caller's tasks as five-field records, sorted by due date. (A
   * signed-in user without a Person, or two tasks one of which has no due
   * date, makes the view raise: those are excluded.)
   */
  function GetTasks(db: Database, caller: Caller): (resp: Response)
    reads db
    requires db.Valid()
    requires caller.SignedIn? ==> caller.userId in db.personOf
    requires caller.SignedIn? ==> Sortable(TaskSchemas(db.tasks[db.personOf[caller.userId]]))
    ensures caller.Anonymous? <==> resp == NotLoggedIn
    ensures caller.SignedIn? ==>
              && resp.status == 200 && resp.body.Tasks?
              && multiset(resp.body.tasks) == multiset(TaskSchemas(db.tasks[db.personOf[caller.userId]]))
  {
    if caller.SignedIn? then
      var rows := db.tasks[db.personOf[caller.userId]];
      Response(200, Tasks(SortByDue(TaskSchemas(rows))))
    else NotLoggedIn
  }

  /**
   * When every task of the caller has a due date, the listing is in
   * ascending order of due date, and tasks due at the same time keep the
   * order in which the Person's tasks are stored.
   */
  lemma GetTasksOrder(db: Database, caller: Caller, d: Option<int>)
    requires db.Valid() && caller.SignedIn? && caller.userId in db.personOf
    requires AllDue(TaskSchemas(db.tasks[db.personOf[caller.userId]]))
    ensures var listing := GetTasks(db, caller).body.tasks;
            && AllDue(listing) && SortedByDue(listing)
            && DueAt(listing, d) == DueAt(TaskSchemas(db.tasks[db.personOf[caller.userId]]), d)
  {
    var xs := TaskSchemas(db.tasks[db.personOf[caller.userId]]);
    SortByDueSorted(xs);
    SortByDueStable(xs, d);
  }

  // ---- AddTaskView

  /**
   * `AddTaskView.post`: 401, then 404 without a Person, then 400 with the
   * serializer's errors; only a valid body adds a task, exactly one, to the
   * caller's Person, and nothing else changes.
   */
  method AddTask(db: Database, caller: Caller, data: Json, now: int, parsers: Parsers) returns (resp: Response)
    requires db.Valid()
    modifies db
    ensures db.Valid()
    ensures caller.Anonymous? ==> resp == NotLoggedIn && unchanged(db)
    ensures caller.SignedIn? && caller.userId !in old(db.personOf) ==> resp == NoPerson && unchanged(db)
    ensures caller.SignedIn? && caller.userId in old(db.personOf) && ValidateTask(data, parsers).Err? ==>
              resp == Response(400, Errors(ValidateTask(data, parsers).error)) && unchanged(db)
    ensures resp.status == 201 <==> old(PersonOfCaller(db, caller)).Some? && ValidateTask(data, parsers).Ok?
    ensures resp.status == 201 ==>
              var person, input := old(db.personOf[caller.userId]), ValidateTask(data, parsers).value;
              var row := NewTask(old(db.nextTaskId), input.name, now, input.isCompleted, input.dueDate, input.priority);
              && resp == Response(201, TaskAdded(TaskAddedMessage, TaskData(row.name, row.isCompleted, row.dueDate, row.priority)))
              && db.tasks == old(db.tasks)[person := old(db.tasks[person]) + [row]]
              && db.users == old(db.users) && db.personOf == old(db.personOf) && db.people == old(db.people)
              && db.availabilities == old(db.availabilities)
              && db.nextTaskId == old(db.nextTaskId) + 1
              && db.nextUserId == old(db.nextUserId) && db.nextPersonId == old(db.nextPersonId) && db.nextAvailId == old(db.nextAvailId)
  {
    if !caller.SignedIn? {
      return NotLoggedIn;
    }
    if caller.userId !in db.personOf {
      return NoPerson;
    }
    var person := db.personOf[caller.userId];
    var validated := ValidateTask(data, parsers);
    if validated.Err? {
      return Response(400, Errors(validated.error));
    }
    var input := validated.value;
    var row := db.InsertTask(person, input.name, now, input.isCompleted, input.dueDate, input.priority);
    resp := Response(201, TaskAdded(TaskAddedMessage, TaskData(row.name, row.isCompleted, row.dueDate, row.priority)));
  }

  // ---- RemoveTaskView

  /** Python truthiness of a JSON value. */
  predicate Truthy(j: Json) {
    match j
    case JNull => false
    case JBool(b) => b
    case JInt(i) => i != 0
    case JString(s) => s != ""
    case JArray(items) => items != []
    case JObject(fields) => fields != map[]
  }

  /** `request.data.get("task_id")`. */
  function TaskIdParam(data: Json): Option<Json>
    requires data.JObject?
  {
    if "task_id" in data.fields then Some(data.fields["task_id"]) else None
  }

  /**
   * The `task_id` values the `id` lookup converts with `int()`: a JSON
   * integer, a boolean, or a non-empty text of decimal digits.
   */
  predicate IsTaskKey(j: Json) {
    j.JInt? || j.JBool? || (j.JString? && j.s != [] && JsText.AllDigits(j.s))
  }

  /** The key a `task_id` selects: `int()` of it (`True` is 1, `"05"` is 5). */
  function TaskKey(j: Json): (k: int)
    requires IsTaskKey(j)
    ensures j.JInt? ==> k == j.i
    ensures j.JBool? ==> (k == 1 <==> Truthy(j)) && 0 <= k <= 1
    ensures j.JString? ==> k >= 0 && JsText.ParseInt(j.s) == Some(k)
  {
    if j.JInt? then j.i
    else if j.JBool? then (if j.b then 1 else 0)
    else
      JsText.ParseIntOfDigits(j.s);
      JsText.DigitsValue(j.s)
  }

  /** `Task.objects.get(id=..., person=person)` as a position: the row with that key, or `|rows|` for none. */
  function IndexOfTask(rows: seq<TaskRow>, id: int): (i: nat)
    ensures i <= |rows|
    ensures i < |rows| ==> rows[i].id == id
    ensures forall j :: 0 <= j < i ==> rows[j].id != id
  {
    if rows == [] then 0
    else if rows[0].id == id then 0
    else
      var k := IndexOfTask(rows[1..], id);
      assert forall j :: 1 <= j < 1 + k ==> rows[j] == rows[1..][j - 1];
      1 + k
  }

  /** The rows other than those with key `id`, in order. */
  function WithoutId(rows: seq<TaskRow>, id: int): seq<TaskRow> {
    if rows == [] then []
    else if rows[0].id == id then WithoutId(rows[1..], id)
    else [rows[0]] + WithoutId(rows[1..], id)
  }

  lemma {:induction false} WithoutAbsentId(rows: seq<TaskRow>, id: int)
    requires forall j :: 0 <= j < |rows| ==> rows[j].id != id
    ensures WithoutId(rows, id) == rows
  {
    if rows != [] {
      WithoutAbsentId(rows[1..], id);
      assert [rows[0]] + rows[1..] == rows;
    }
  }

  /**
   * Keys are distinct, so deleting the row `get` finds removes every row
   * with that key and keeps all the others, in order.
   */
  lemma {:induction false} RemoveFoundTask(rows: seq<TaskRow>, id: int)
    requires DistinctTaskIds(rows)
    ensures JsText.RemoveAt(rows, IndexOfTask(rows, id)) == WithoutId(rows, id)
  {
    if rows != [] {
      if rows[0].id == id {
        assert forall j :: 0 <= j < |rows[1..]| ==> rows[1..][j] == rows[j + 1];
        WithoutAbsentId(rows[1..], id);
      } else {
        assert DistinctTaskIds(rows[1..]) by {
          assert forall j :: 0 <= j < |rows[1..]| ==> rows[1..][j] == rows[j + 1];
        }
        RemoveFoundTask(rows[1..], id);
        assert IndexOfTask(rows, id) == IndexOfTask(rows[1..], id) + 1;
      }
    }
  }

  /**
   * `RemoveTaskView.post`: 401, then 404 without a Person, then 400 when
   * `task_id` is missing or falsy (so key 0 is refused), then 404 when no
   * task of the caller's has that key; otherwise that one task is deleted
   * and nothing else changes. The body is read only past the first two
   * checks; a truthy `task_id` there is one `int()` converts (any other
   * value makes the lookup raise).
   */
  method RemoveTask(db: Database, caller: Caller, data: Json) returns (resp: Response)
    requires db.Valid()
    requires caller.SignedIn? && caller.userId in db.personOf ==>
               && data.JObject?
               && var id := TaskIdParam(data); id.Some? && Truthy(id.value) ==> IsTaskKey(id.value)
    modifies db
    ensures db.Valid()
    ensures caller.Anonymous? ==> resp == NotLoggedIn && unchanged(db)
    ensures caller.SignedIn? && caller.userId !in old(db.personOf) ==> resp == NoPerson && unchanged(db)
    ensures old(PersonOfCaller(db, caller)).Some? && data.JObject? ==>
              if TaskIdParam(data).None? || !Truthy(TaskIdParam(data).value) then resp == TaskIdRequired && unchanged(db)
              else resp == TaskRemoved || resp == TaskNotFound
    ensures resp.status == 200 || resp == TaskNotFound ==>
              old(PersonOfCaller(db, caller)).Some? && data.JObject? && TaskIdParam(data).Some? && Truthy(TaskIdParam(data).value)
    ensures resp.status == 200 || resp == TaskNotFound ==>
              var person, id := old(db.personOf[caller.userId]), TaskKey(TaskIdParam(data).value);
              var rows := old(db.tasks[person]);
              && (resp == TaskNotFound <==> IndexOfTask(rows, id) == |rows|)
              && (resp == TaskNotFound ==> unchanged(db))
              && (resp.status == 200 ==>
                    && resp == TaskRemoved
                    && db.tasks == old(db.tasks)[person := JsText.RemoveAt(rows, IndexOfTask(rows, id))]
                    && db.users == old(db.users) && db.personOf == old(db.personOf) && db.people == old(db.people)
                    && db.availabilities == old(db.availabilities)
                    && db.nextUserId == old(db.nextUserId) && db.nextPersonId == old(db.nextPersonId)
                    && db.nextTaskId == old(db.nextTaskId) && db.nextAvailId == old(db.nextAvailId))
  {
    if !caller.SignedIn? {
      return NotLoggedIn;
    }
    if caller.userId !in db.personOf {
      return NoPerson;
    }
    var person := db.personOf[caller.userId];
    var taskId := TaskIdParam(data);
    if taskId.None? || !Truthy(taskId.value) {
      return TaskIdRequired;
    }
    var rows := db.tasks[person];
    var index := IndexOfTask(rows, TaskKey(taskId.value));
    if index == |rows| {
      return TaskNotFound;
    }
    db.DeleteTask(person, index);
    resp := TaskRemoved;
  }

  // ---- GetAvailabilitiesView

  function EntryOf(a: AvailRow): AvailabilityEntry {
    AvailabilityEntry(a.id, DayName(a.dayOfWeek), a.startTime, a.endTime)
  }

  function Entries(rows: seq<AvailRow>): (r: seq<AvailabilityEntry>)
    ensures |r| == |rows| && forall i :: 0 <= i < |rows| ==> r[i] == EntryOf(rows[i])
  {
    if rows == [] then [] else [EntryOf(rows[0])] + Entries(rows[1..])
  }

  /**
   * `GetAvailabilitiesView.get`: 401 for an anonymous caller; otherwise
   * 200 with one entry per availability of the caller's Person, in order.
   * (A signed-in user without a Person makes the view raise.)
   */
  function GetAvailabilities(db: Database, caller: Caller): (resp: Response)
    reads db
    requires db.Valid()
    requires caller.SignedIn? ==> caller.userId in db.personOf
    ensures caller.Anonymous? <==> resp == NotLoggedIn
    ensures caller.SignedIn? ==> resp.status == 200 && resp.body.Availabilities?
    ensures caller.SignedIn? ==>
              var rows := db.availabilities[db.personOf[caller.userId]];
              && |resp.body.entries| == |rows|
              && forall i :: 0 <= i < |rows| ==> resp.body.entries[i].availabilityId == rows[i].id
                                                 && DayFromName(resp.body.entries[i].dayOfWeek) == Some(rows[i].dayOfWeek)
                                                 && resp.body.entries[i].startTime == rows[i].startTime
                                                 && resp.body.entries[i].endTime == rows[i].endTime
  {
    if caller.SignedIn? then
      var rows := db.availabilities[db.personOf[caller.userId]];
      assert forall i :: 0 <= i < |rows| ==> DayFromName(DayName(rows[i].dayOfWeek)) == Some(rows[i].dayOfWeek) by {
        forall i | 0 <= i < |rows| { DayNameRoundTrip(rows[i].dayOfWeek); }
      }
      Response(200, Availabilities(Entries(rows)))
    else NotLoggedIn
  }

  // ---- SaveAvailabilitiesView

  /** The serializer's verdict on each entry of the list, in order. */
  function Validations(items: seq<Json>, parsers: Parsers): seq<Result<AvailInput, set<ErrorKey>>> {
    if items == [] then [] else [ValidateAvailability(items[0], parsers)] + Validations(items[1..], parsers)
  }

  /** One verdict per entry, each the serializer's verdict on that entry. */
  lemma {:induction false} ValidationsAt(items: seq<Json>, parsers: Parsers)
    ensures |Validations(items, parsers)| == |items|
    ensures forall i :: 0 <= i < |items| ==> Validations(items, parsers)[i] == ValidateAvailability(items[i], parsers)
  {
    if items != [] {
      ValidationsAt(items[1..], parsers);
      assert forall i :: 1 <= i < |items| ==> items[1..][i - 1] == items[i];
    }
  }

  /** The position of the first refused entry, or `|rs|` when all pass. */
  function FirstInvalid(rs: seq<Result<AvailInput, set<ErrorKey>>>): (k: nat)
    ensures k <= |rs|
    ensures forall i :: 0 <= i < k ==> rs[i].Ok?
    ensures k < |rs| ==> rs[k].Err?
  {
    if rs == [] then 0
    else if rs[0].Err? then 0
    else
      var k := FirstInvalid(rs[1..]);
      assert forall i :: 1 <= i < 1 + k ==> rs[i] == rs[1..][i - 1];
      1 + k
  }

  /** The row saved for a validated entry under key `id`. */
  function RowOf(id: nat, input: AvailInput): AvailRow {
    AvailRow(id, input.day, input.startTime, input.endTime)
  }

  /** The rows the save loop creates for entries that all pass, keys counting up from `firstId`. */
  function SavedRows(rs: seq<Result<AvailInput, set<ErrorKey>>>, firstId: nat): (rows: seq<AvailRow>)
    requires forall i :: 0 <= i < |rs| ==> rs[i].Ok?
    ensures |rows| == |rs|
    ensures forall i :: 0 <= i < |rs| ==> rows[i] == RowOf(firstId + i, rs[i].value)
    decreases |rs|
  {
    if rs == [] then []
    else
      var n := |rs| - 1;
      var front := SavedRows(rs[..n], firstId);
      assert forall i :: 0 <= i < n ==> rs[..n][i] == rs[i];
      front + [RowOf(firstId + n, rs[n].value)]
  }

  /** Saving one more passing entry appends its row, under the next key. */
  lemma SavedRowsSnoc(rs: seq<Result<AvailInput, set<ErrorKey>>>, i: nat, firstId: nat)
    requires i < |rs|
    requires forall j :: 0 <= j <= i ==> rs[j].Ok?
    ensures SavedRows(rs[..i + 1], firstId) == SavedRows(rs[..i], firstId) + [RowOf(firstId + i, rs[i].value)]
  {
    assert rs[..i + 1][..i] == rs[..i];
  }

  /**
   * `SaveAvailabilitiesView.post`: 401, then 404 without a Person, then
   * 400 when `availabilities` is not a list, all before anything changes.
   * Otherwise every availability of the caller's Person is deleted and the
   * entries are saved in order until the first one the serializer refuses:
   * the entries before it stay saved, it and those after it are not, and
   * the answer is 400 with its errors; when all pass, 201. (The body must
   * hold the key `availabilities`, or the view raises.)
   */
  method SaveAvailabilities(db: Database, caller: Caller, data: Json, parsers: Parsers) returns (resp: Response)
    requires db.Valid()
    requires caller.SignedIn? && caller.userId in db.personOf ==> data.JObject? && "availabilities" in data.fields
    modifies db
    ensures db.Valid()
    ensures caller.Anonymous? ==> resp == NotLoggedIn && unchanged(db)
    ensures caller.SignedIn? && caller.userId !in old(db.personOf) ==> resp == NoPerson && unchanged(db)
    ensures old(PersonOfCaller(db, caller)).Some? && !data.fields["availabilities"].JArray? ==>
              resp == NotAList && unchanged(db)
    ensures old(PersonOfCaller(db, caller)).Some? && data.fields["availabilities"].JArray? ==>
              var person, rs := old(db.personOf[caller.userId]), Validations(data.fields["availabilities"].items, parsers);
              var k := FirstInvalid(rs);
              && db.availabilities == old(db.availabilities)[person := SavedRows(rs[..k], old(db.nextAvailId))]
              && db.nextAvailId == old(db.nextAvailId) + k
              && (k == |rs| ==> resp == AvailabilitiesSaved)
              && (k < |rs| ==> resp == Response(400, Errors(rs[k].error)))
              && db.users == old(db.users) && db.personOf == old(db.personOf) && db.people == old(db.people) && db.tasks == old(db.tasks)
              && db.nextUserId == old(db.nextUserId) && db.nextPersonId == old(db.nextPersonId) && db.nextTaskId == old(db.nextTaskId)
  {
    if !caller.SignedIn? {
      return NotLoggedIn;
    }
    if caller.userId !in db.personOf {
      return NoPerson;
    }
    var person := db.personOf[caller.userId];
    var dataList := data.fields["availabilities"];
    if !dataList.JArray? {
      return NotAList;
    }
    var rs := Validations(dataList.items, parsers);
    resp := ReplaceAvailabilities(db, person, rs);
  }

  lemma UpdateTwice<K, V>(m: map<K, V>, k: K, a: V, b: V)
    ensures m[k := a][k := b] == m[k := b]
  {
  }

  /**
   * The caller's availabilities are deleted, then each passing entry is
   * saved in turn, and the first refused one ends the loop with 400.
   */
  method ReplaceAvailabilities(db: Database, person: nat, rs: seq<Result<AvailInput, set<ErrorKey>>>)
    returns (resp: Response)
    requires db.Valid() && person in db.people
    modifies db
    ensures db.Valid()
    ensures var k := FirstInvalid(rs);
            && db.availabilities == old(db.availabilities)[person := SavedRows(rs[..k], old(db.nextAvailId))]
            && db.nextAvailId == old(db.nextAvailId) + k
            && (k == |rs| ==> resp == AvailabilitiesSaved)
            && (k < |rs| ==> resp == Response(400, Errors(rs[k].error)))
    ensures db.users == old(db.users) && db.personOf == old(db.personOf) && db.people == old(db.people) && db.tasks == old(db.tasks)
    ensures db.nextUserId == old(db.nextUserId) && db.nextPersonId == old(db.nextPersonId) && db.nextTaskId == old(db.nextTaskId)
  {
    ghost var k := FirstInvalid(rs);
    ghost var start, first := db.availabilities, db.nextAvailId;
    ghost var users, personOf, people, tasks := db.users, db.personOf, db.people, db.tasks;
    ghost var nextUser, nextPerson, nextTask := db.nextUserId, db.nextPersonId, db.nextTaskId;
    db.ClearAvailabilities(person);
    assert rs[..0] == [];
    var i := 0;
    while i < |rs|
      invariant 0 <= i <= k
      invariant db.Valid() && person in db.people
      invariant db.availabilities == start[person := SavedRows(rs[..i], first)]
      invariant db.nextAvailId == first + i
      invariant db.users == users && db.personOf == personOf && db.people == people && db.tasks == tasks
      invariant db.nextUserId == nextUser && db.nextPersonId == nextPerson && db.nextTaskId == nextTask
    {
      var validated := rs[i];
      if validated.Err? {
        assert i == k;
        return Response(400, Errors(validated.error));
      }
      SaveEntry(db, person, rs, i, start, first);
      i := i + 1;
    }
    assert i == k && rs[..i] == rs;
    resp := AvailabilitiesSaved;
  }

  /**
   * `serializer.save(person=person)` for the entry at `i`, which passed:
   * the Person's saved rows grow by the row of that entry.
   */
  method SaveEntry(db: Database, person: nat, rs: seq<Result<AvailInput, set<ErrorKey>>>, i: nat,
                   ghost start: map<nat, seq<AvailRow>>, ghost first: nat)
    requires db.Valid() && person in db.people && i < FirstInvalid(rs)
    requires db.availabilities == start[person := SavedRows(rs[..i], first)] && db.nextAvailId == first + i
    modifies db
    ensures db.Valid()
    ensures db.availabilities == start[person := SavedRows(rs[..i + 1], first)] && db.nextAvailId == first + i + 1
    ensures db.users == old(db.users) && db.personOf == old(db.personOf) && db.people == old(db.people) && db.tasks == old(db.tasks)
    ensures db.nextUserId == old(db.nextUserId) && db.nextPersonId == old(db.nextPersonId) && db.nextTaskId == old(db.nextTaskId)
  {
    var input := rs[i].value;
    SavedRowsSnoc(rs, i, first);
    var row := db.InsertAvailability(person, input.day, input.startTime, input.endTime);
    assert row == RowOf(first + i, input);
    UpdateTwice(start, person, SavedRows(rs[..i], first), SavedRows(rs[..i], first) + [row]);
  }

  // ---- CheckPersonExistenceView

  /** The data the view passes on: only the query parameters that are present and not empty. */
  function ExistenceOfQuery(query: map<string, string>): (data: ExistenceData)
    ensures data.username.Some? <==> "username" in query && query["username"] != ""
    ensures data.email.Some? <==> "email" in query && query["email"] != ""
    ensures data.username.Some? ==> data.username.value == query["username"]
    ensures data.email.Some? ==> data.email.value == query["email"]
  {
    ExistenceData(
      if "username" in query && query["username"] != "" then Some(query["username"]) else None,
      if "email" in query && query["email"] != "" then Some(query["email"]) else None)
  }

  /**
   * `CheckPersonExistenceView.get`: 200 exactly when the existence check
   * passes on the non-empty parameters, against the usernames and emails
   * of users that have a Person; otherwise 400 carrying the field errors,
   * or the username and email messages of a taken value.
   */
  function CheckPersonExistence(db: Database, query: map<string, string>, parsers: Parsers): (resp: Response)
    reads db
    ensures resp.status == 200 <==> CheckExistence(ExistenceOfQuery(query), db.PersonUsernames(), db.PersonEmails(), parsers).Ok?
    ensures resp.status == 200 ==> resp == Available
    ensures resp.status != 200 ==> resp.status == 400
    ensures var check := CheckExistence(ExistenceOfQuery(query), db.PersonUsernames(), db.PersonEmails(), parsers);
            && (check.Err? && check.error.FieldErrors? ==> resp.body == Errors(check.error.fields))
            && (check.Err? && check.error.AlreadyTaken? ==>
                  resp.body == Taken(check.error.username, check.error.email))
  {
    match CheckExistence(ExistenceOfQuery(query), db.PersonUsernames(), db.PersonEmails(), parsers)
    case Ok(_) => Available
    case Err(FieldErrors(keys)) => Response(400, Errors(keys))
    case Err(AlreadyTaken(username, email)) => Response(400, Taken(username, email))
  }
}
