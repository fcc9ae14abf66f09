/**
 * The pydantic schemas of the API: a row projected to the record the API
 * sends, with the primary key renamed (`id` to `task_id` or `avail_id`),
 * and a Person with the username and email of its user and its related
 * rows, one entry each, in order.
 */
module Schemas {
  import opened Wrappers
  import opened Models

  datatype TaskSchema = TaskSchema(taskId: nat, name: string, isCompleted: bool, dueDate: Option<int>, priority: string)

  datatype AvailabilitySchema = AvailabilitySchema(availId: nat, dayOfWeek: string, startTime: Time, endTime: Time)

  datatype PersonSchema = PersonSchema(username: string, email: string, tasks: seq<TaskSchema>,
                                       availabilities: seq<AvailabilitySchema>)

  /** `TaskSchema.model_validate(task)`. */
  function TaskSchemaOf(t: TaskRow): TaskSchema {
    TaskSchema(t.id, t.name, t.isCompleted, t.dueDate, t.priority)
  }

  /** The row a task record describes, given the one field the record leaves out. */
  function TaskRowOf(s: TaskSchema, createdAt: int): TaskRow {
    TaskRow(s.taskId, s.name, s.isCompleted, createdAt, s.dueDate, s.priority)
  }

  /** The projection keeps everything but `created_at`: the record and that time give the row back. */
  lemma TaskSchemaRoundTrip(t: TaskRow)
    ensures TaskRowOf(TaskSchemaOf(t), t.createdAt) == t
  {
  }

  /** Two rows have the same record exactly when they differ at most in `created_at`. */
  lemma TaskSchemaSame(a: TaskRow, b: TaskRow)
    ensures TaskSchemaOf(a) == TaskSchemaOf(b) <==> a.(createdAt := b.createdAt) == b
  {
  }

  /** `AvailabilitySchema.model_validate(availability)`: the day as stored, by name. */
  function AvailabilitySchemaOf(a: AvailRow): AvailabilitySchema {
    AvailabilitySchema(a.id, DayName(a.dayOfWeek), a.startTime, a.endTime)
  }

  /** The row an availability record describes; `None` when the day is not one of the seven. */
  function AvailRowOf(s: AvailabilitySchema): (r: Option<AvailRow>)
    ensures r.Some? <==> s.dayOfWeek in DayChoices
  {
    match DayFromName(s.dayOfWeek)
    case Some(d) => Some(AvailRow(s.availId, d, s.startTime, s.endTime))
    case None => None
  }

  /** An availability record loses nothing: the row comes back from it. */
  lemma AvailabilitySchemaRoundTrip(a: AvailRow)
    ensures AvailRowOf(AvailabilitySchemaOf(a)) == Some(a)
  {
    DayNameRoundTrip(a.dayOfWeek);
  }

  /** `PersonSchema.model_validate(person)`: the user's username and email, and the Person's rows projected in order. */
  function PersonSchemaOf(user: User, tasks: seq<TaskRow>, availabilities: seq<AvailRow>): (p: PersonSchema)
    ensures p.username == user.username && p.email == user.email
    ensures |p.tasks| == |tasks| && |p.availabilities| == |availabilities|
    ensures forall i :: 0 <= i < |tasks| ==> p.tasks[i] == TaskSchemaOf(tasks[i])
    ensures forall i :: 0 <= i < |availabilities| ==> p.availabilities[i] == AvailabilitySchemaOf(availabilities[i])
  {
    PersonSchema(user.username, user.email, TaskSchemas(tasks), AvailabilitySchemas(availabilities))
  }

  function TaskSchemas(tasks: seq<TaskRow>): (r: seq<TaskSchema>)
    ensures |r| == |tasks| && forall i :: 0 <= i < |tasks| ==> r[i] == TaskSchemaOf(tasks[i])
  {
    if tasks == [] then [] else [TaskSchemaOf(tasks[0])] + TaskSchemas(tasks[1..])
  }

  function AvailabilitySchemas(availabilities: seq<AvailRow>): (r: seq<AvailabilitySchema>)
    ensures |r| == |availabilities|
    ensures forall i :: 0 <= i < |availabilities| ==> r[i] == AvailabilitySchemaOf(availabilities[i])
  {
    if availabilities == [] then [] else [AvailabilitySchemaOf(availabilities[0])] + AvailabilitySchemas(availabilities[1..])
  }

  /** The rows read back from a Person's record are its rows, in order. */
  lemma {:induction false} PersonSchemaRecoversAvailabilities(availabilities: seq<AvailRow>)
    ensures forall i :: 0 <= i < |availabilities| ==>
              AvailRowOf(AvailabilitySchemas(availabilities)[i]) == Some(availabilities[i])
  {
    forall i | 0 <= i < |availabilities|
      ensures AvailRowOf(AvailabilitySchemas(availabilities)[i]) == Some(availabilities[i])
    {
      AvailabilitySchemaRoundTrip(availabilities[i]);
    }
  }

  /** The task ids of a Person's record are the keys of its tasks, in order, so they are distinct. */
  lemma PersonSchemaTaskIds(tasks: seq<TaskRow>)
    requires DistinctTaskIds(tasks)
    ensures forall i, j :: 0 <= i < j < |tasks| ==> TaskSchemas(tasks)[i].taskId != TaskSchemas(tasks)[j].taskId
  {
  }
}
