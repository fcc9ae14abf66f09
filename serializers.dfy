/**
 * The serializers of the API: the field checks Django REST framework runs
 * for `TaskSerializer`, `AvailabilitySerializer` and
 * `PersonExistenceSerializer`, the existence check of
 * `PersonExistenceSerializer.validate`, and `CreatePersonSerializer.create`.
 */
module Serializers {
  import opened Wrappers
  import opened PyText
  import JsText
  import opened Models

  /** A JSON value of a request (JSON numbers are integers in this model). */
  datatype Json =
    | JNull
    | JBool(b: bool)
    | JInt(i: int)
    | JString(s: string)
    | JArray(items: seq<Json>)
    | JObject(fields: map<string, Json>)

  /**
   * The framework's own value parsers, taken as given: `BooleanField`,
   * `DateTimeField` (to an instant), `TimeField` and the `EmailValidator`.
   */
  datatype Parsers = Parsers(
    boolean: Json -> Option<bool>,
    dateTime: Json -> Option<int>,
    time: Json -> Option<Time>,
    isEmail: string -> bool)

  /** The keys of a serializer's `errors`; `NonFieldErrors` reports an input that is not an object. */
  datatype ErrorKey = NonFieldErrors | NameKey | IsCompletedKey | DueDateKey | PriorityKey
                    | DayOfWeekKey | StartTimeKey | EndTimeKey | UsernameKey | EmailKey

  /** The outcome of one field: left out (and not required), a value, or a validation error. */
  datatype Field<T> = Skipped | Given(value: T) | Invalid {
    function ToOption(): Option<T> {
      if Given? then Some(value) else None
    }
  }

  /**
   * A text as a `CharField` with `allow_blank=False` accepts it: stripped
   * of surrounding white space, then refused if nothing is left or it holds
   * a NUL character.
   */
  function CleanText(s: string): (r: Option<string>)
    ensures r.Some? <==> Strip(s) != "" && '\0' !in Strip(s)
    ensures r.Some? ==> r.value == Strip(s) && Strip(r.value) == r.value
  {
    var v := Strip(s);
    StripIdempotent(s);
    if v == "" || '\0' in v then None else Some(v)
  }

  /**
   * A `CharField(max_length=maxLength)` that is neither blank nor null:
   * strings are cleaned, integers are taken as their decimal text, anything
   * else is refused; the cleaned text is non-empty, within the limit, and
   * already stripped.
   */
  function CharFieldValue(j: Json, maxLength: nat): (r: Option<string>)
    ensures r.Some? ==> 1 <= |r.value| <= maxLength && Strip(r.value) == r.value && '\0' !in r.value
    ensures j.JString? ==> (r.Some? <==> CleanText(j.s).Some? && |CleanText(j.s).value| <= maxLength)
    ensures j.JString? && r.Some? ==> r.value == Strip(j.s)
    ensures !j.JString? && !j.JInt? ==> r.None?
  {
    var text := match j
      case JString(s) => CleanText(s)
      case JInt(n) => CleanText(JsText.IntToString(n))
      case _ => None;
    if text.Some? && |text.value| <= maxLength then text else None
  }

  // ---- TaskSerializer: fields `name`, `is_completed`, `due_date`, `priority`

  const TaskFields: set<string> := {"name", "is_completed", "due_date", "priority"}
  const TaskErrorKeys: set<ErrorKey> := {NameKey, IsCompletedKey, DueDateKey, PriorityKey}

  /** The validated data of a task; `None` is a field left out, for which the model default applies. */
  datatype TaskInput = TaskInput(name: string, isCompleted: Option<bool>, dueDate: Option<Option<int>>, priority: Option<string>)

  /** `name`: required, a `CharField(max_length=100)`. */
  function NameField(m: map<string, Json>): (r: Field<string>)
    ensures !r.Skipped? && ("name" !in m ==> r.Invalid?)
    ensures "name" in m ==> (r.Given? <==> CharFieldValue(m["name"], NameMaxLength).Some?)
    ensures r.Given? ==> r.value == CharFieldValue(m["name"], NameMaxLength).value
    ensures r.Given? ==> 1 <= |r.value| <= NameMaxLength && Strip(r.value) == r.value
  {
    if "name" !in m then Invalid
    else match CharFieldValue(m["name"], NameMaxLength)
      case Some(v) => Given(v)
      case None => Invalid
  }

  /** `is_completed`: optional (the model has a default), not null. */
  function IsCompletedField(m: map<string, Json>, parsers: Parsers): (r: Field<bool>)
    ensures r.Skipped? <==> "is_completed" !in m
    ensures "is_completed" in m && m["is_completed"].JNull? ==> r.Invalid?
    ensures "is_completed" in m && !m["is_completed"].JNull? ==>
              (r.Given? <==> parsers.boolean(m["is_completed"]).Some?)
    ensures r.Given? ==> parsers.boolean(m["is_completed"]).Some? && r.value == parsers.boolean(m["is_completed"]).value
  {
    if "is_completed" !in m then Skipped
    else if m["is_completed"].JNull? then Invalid
    else match parsers.boolean(m["is_completed"])
      case Some(b) => Given(b)
      case None => Invalid
  }

  /** `due_date`: optional and nullable (`null=True, blank=True`). */
  function DueDateField(m: map<string, Json>, parsers: Parsers): (r: Field<Option<int>>)
    ensures r.Skipped? <==> "due_date" !in m
    ensures "due_date" in m && m["due_date"].JNull? ==> r == Given(None)
    ensures r.Invalid? <==> "due_date" in m && !m["due_date"].JNull? && parsers.dateTime(m["due_date"]).None?
    ensures r.Given? && !m["due_date"].JNull? ==>
              parsers.dateTime(m["due_date"]).Some? && r.value == Some(parsers.dateTime(m["due_date"]).value)
  {
    if "due_date" !in m then Skipped
    else if m["due_date"].JNull? then Given(None)
    else match parsers.dateTime(m["due_date"])
      case Some(t) => Given(Some(t))
      case None => Invalid
  }

  /** `priority`: optional (default `"medium"`), a `CharField(max_length=100)`. */
  function PriorityField(m: map<string, Json>): (r: Field<string>)
    ensures r.Skipped? <==> "priority" !in m
    ensures "priority" in m ==> (r.Given? <==> CharFieldValue(m["priority"], PriorityMaxLength).Some?)
    ensures r.Given? ==> r.value == CharFieldValue(m["priority"], PriorityMaxLength).value
    ensures r.Given? ==> 1 <= |r.value| <= PriorityMaxLength && Strip(r.value) == r.value
  {
    if "priority" !in m then Skipped
    else match CharFieldValue(m["priority"], PriorityMaxLength)
      case Some(v) => Given(v)
      case None => Invalid
  }

  function TaskErrors(m: map<string, Json>, parsers: Parsers): set<ErrorKey> {
    (if NameField(m).Invalid? then {NameKey} else {})
    + (if IsCompletedField(m, parsers).Invalid? then {IsCompletedKey} else {})
    + (if DueDateField(m, parsers).Invalid? then {DueDateKey} else {})
    + (if PriorityField(m).Invalid? then {PriorityKey} else {})
  }

  /**
   * `TaskSerializer(data=...).is_valid()`: the error keys, or the validated
   * data. A valid task has a stripped, non-blank name of at most 100
   * characters; a field left out stays out, so the model default applies.
   */
  function ValidateTask(data: Json, parsers: Parsers): (r: Result<TaskInput, set<ErrorKey>>)
    ensures r.Err? ==> r.error != {} && r.error <= TaskErrorKeys + {NonFieldErrors}
    ensures !data.JObject? ==> r == Err({NonFieldErrors})
    ensures data.JObject? && "name" !in data.fields ==> r.Err? && NameKey in r.error
    ensures r.Ok? ==> data.JObject? && "name" in data.fields
    ensures r.Ok? ==> 1 <= |r.value.name| <= NameMaxLength && Strip(r.value.name) == r.value.name
    ensures r.Ok? && data.fields["name"].JString? ==> r.value.name == Strip(data.fields["name"].s)
    ensures r.Ok? ==> (r.value.isCompleted.None? <==> "is_completed" !in data.fields)
    ensures r.Ok? ==> (r.value.dueDate.None? <==> "due_date" !in data.fields)
    ensures r.Ok? ==> (r.value.priority.None? <==> "priority" !in data.fields)
    ensures r.Ok? && r.value.priority.Some? ==> 1 <= |r.value.priority.value| <= PriorityMaxLength
    ensures data.JObject? ==>
              (r.Ok? <==> NameField(data.fields).Given? && !IsCompletedField(data.fields, parsers).Invalid?
                          && !DueDateField(data.fields, parsers).Invalid? && !PriorityField(data.fields).Invalid?)
    ensures r.Ok? ==>
              && r.value.name == NameField(data.fields).value
              && r.value.isCompleted == IsCompletedField(data.fields, parsers).ToOption()
              && r.value.dueDate == DueDateField(data.fields, parsers).ToOption()
              && r.value.priority == PriorityField(data.fields).ToOption()
    ensures data.JObject? && r.Err? ==>
              && NonFieldErrors !in r.error
              && (NameKey in r.error <==> NameField(data.fields).Invalid?)
              && (IsCompletedKey in r.error <==> IsCompletedField(data.fields, parsers).Invalid?)
              && (DueDateKey in r.error <==> DueDateField(data.fields, parsers).Invalid?)
              && (PriorityKey in r.error <==> PriorityField(data.fields).Invalid?)
  {
    if !data.JObject? then Err({NonFieldErrors})
    else
      var m := data.fields;
      var name, isCompleted, dueDate, priority :=
        NameField(m), IsCompletedField(m, parsers), DueDateField(m, parsers), PriorityField(m);
      if name.Invalid? || isCompleted.Invalid? || dueDate.Invalid? || priority.Invalid? then Err(TaskErrors(m, parsers))
      else Ok(TaskInput(name.value, isCompleted.ToOption(), dueDate.ToOption(), priority.ToOption()))
  }

  /** The entries of `m` under the given keys only. */
  function Restrict(m: map<string, Json>, keys: set<string>): (r: map<string, Json>)
    ensures r.Keys == m.Keys * keys
    ensures forall k :: k in r ==> r[k] == m[k]
  {
    map k | k in m && k in keys :: m[k]
  }

  /** Only the four declared fields matter: anything else in the body is ignored. */
  lemma TaskFieldsOnly(m: map<string, Json>, parsers: Parsers)
    ensures ValidateTask(JObject(m), parsers) == ValidateTask(JObject(Restrict(m, TaskFields)), parsers)
  {
    var m' := Restrict(m, TaskFields);
    assert NameField(m) == NameField(m');
    assert IsCompletedField(m, parsers) == IsCompletedField(m', parsers);
    assert DueDateField(m, parsers) == DueDateField(m', parsers);
    assert PriorityField(m) == PriorityField(m');
  }

  /**
   * A body holding only a name the `CharField` accepts is a valid task: the
   * name is stored stripped and every other field takes the model default.
   */
  lemma NameOnlyAccepted(s: string, parsers: Parsers)
    requires CleanText(s).Some? && |CleanText(s).value| <= NameMaxLength
    ensures ValidateTask(JObject(map["name" := JString(s)]), parsers) == Ok(TaskInput(Strip(s), None, None, None))
  {
  }

  // ---- AvailabilitySerializer: fields `day_of_week`, `start_time`, `end_time`

  const AvailabilityFields: set<string> := {"day_of_week", "start_time", "end_time"}
  const AvailabilityErrorKeys: set<ErrorKey> := {DayOfWeekKey, StartTimeKey, EndTimeKey}

  datatype AvailInput = AvailInput(day: Day, startTime: Time, endTime: Time)

  /** `day_of_week`: required; a `ChoiceField` takes the text of the value and accepts only a day name. */
  function DayField(m: map<string, Json>): (r: Field<Day>)
    ensures !r.Skipped?
    ensures r.Given? <==> "day_of_week" in m && m["day_of_week"].JString? && m["day_of_week"].s in DayChoices
    ensures r.Given? ==> DayName(r.value) == m["day_of_week"].s
  {
    if "day_of_week" !in m || !m["day_of_week"].JString? then Invalid
    else match DayFromName(m["day_of_week"].s)
      case Some(d) => Given(d)
      case None => Invalid
  }

  /** A required, non-null `TimeField`. */
  function TimeField(m: map<string, Json>, key: string, parsers: Parsers): (r: Field<Time>)
    ensures !r.Skipped? && (key !in m ==> r.Invalid?)
    ensures r.Given? <==> key in m && !m[key].JNull? && parsers.time(m[key]).Some? && parsers.time(m[key]).value.Valid()
    ensures r.Given? ==> r.value.Valid() && parsers.time(m[key]) == Some(r.value)
  {
    if key !in m || m[key].JNull? then Invalid
    else match parsers.time(m[key])
      case Some(t) => if t.Valid() then Given(t) else Invalid
      case None => Invalid
  }

  function AvailabilityErrors(m: map<string, Json>, parsers: Parsers): set<ErrorKey> {
    (if DayField(m).Invalid? then {DayOfWeekKey} else {})
    + (if TimeField(m, "start_time", parsers).Invalid? then {StartTimeKey} else {})
    + (if TimeField(m, "end_time", parsers).Invalid? then {EndTimeKey} else {})
  }

  /**
   * `AvailabilitySerializer(data=...).is_valid()`: all three fields are
   * required; a valid entry names one of the seven days exactly and has
   * two valid times.
   */
  function ValidateAvailability(data: Json, parsers: Parsers): (r: Result<AvailInput, set<ErrorKey>>)
    ensures r.Err? ==> r.error != {} && r.error <= AvailabilityErrorKeys + {NonFieldErrors}
    ensures !data.JObject? ==> r == Err({NonFieldErrors})
    ensures r.Ok? ==> data.JObject? && "day_of_week" in data.fields
    ensures r.Ok? ==> data.fields["day_of_week"] == JString(DayName(r.value.day))
    ensures r.Ok? ==> r.value.startTime.Valid() && r.value.endTime.Valid()
    ensures data.JObject? && (exists k :: k in AvailabilityFields && k !in data.fields) ==> r.Err?
    ensures data.JObject? ==>
              (r.Ok? <==> DayField(data.fields).Given? && TimeField(data.fields, "start_time", parsers).Given?
                          && TimeField(data.fields, "end_time", parsers).Given?)
    ensures r.Ok? ==>
              && r.value.day == DayField(data.fields).value
              && r.value.startTime == TimeField(data.fields, "start_time", parsers).value
              && r.value.endTime == TimeField(data.fields, "end_time", parsers).value
    ensures data.JObject? && r.Err? ==>
              && NonFieldErrors !in r.error
              && (DayOfWeekKey in r.error <==> DayField(data.fields).Invalid?)
              && (StartTimeKey in r.error <==> TimeField(data.fields, "start_time", parsers).Invalid?)
              && (EndTimeKey in r.error <==> TimeField(data.fields, "end_time", parsers).Invalid?)
  {
    if !data.JObject? then Err({NonFieldErrors})
    else
      var m := data.fields;
      var day, start, end := DayField(m), TimeField(m, "start_time", parsers), TimeField(m, "end_time", parsers);
      if day.Invalid? || start.Invalid? || end.Invalid? then Err(AvailabilityErrors(m, parsers))
      else Ok(AvailInput(day.value, start.value, end.value))
  }

  /** Only the three declared fields matter. */
  lemma AvailabilityFieldsOnly(m: map<string, Json>, parsers: Parsers)
    ensures ValidateAvailability(JObject(m), parsers)
            == ValidateAvailability(JObject(Restrict(m, AvailabilityFields)), parsers)
  {
    var m' := Restrict(m, AvailabilityFields);
    assert DayField(m) == DayField(m');
    assert TimeField(m, "start_time", parsers) == TimeField(m', "start_time", parsers);
    assert TimeField(m, "end_time", parsers) == TimeField(m', "end_time", parsers);
  }

  /**
   * An entry naming a day exactly, with two times the parser reads as valid
   * times, is accepted as that day and those times.
   */
  lemma WellFormedEntryAccepted(d: Day, start: Json, end: Json, parsers: Parsers)
    requires !start.JNull? && parsers.time(start).Some? && parsers.time(start).value.Valid()
    requires !end.JNull? && parsers.time(end).Some? && parsers.time(end).value.Valid()
    ensures var entry := JObject(map["day_of_week" := JString(DayName(d)), "start_time" := start, "end_time" := end]);
            ValidateAvailability(entry, parsers) == Ok(AvailInput(d, parsers.time(start).value, parsers.time(end).value))
  {
    var m := map["day_of_week" := JString(DayName(d)), "start_time" := start, "end_time" := end];
    DayNameRoundTrip(d);
    assert DayField(m) == Given(d);
  }

  // ---- PersonExistenceSerializer

  /** The data the existence check receives; `None` is a key left out. */
  datatype ExistenceData = ExistenceData(username: Option<string>, email: Option<string>)

  datatype ExistenceError =
    | FieldErrors(fields: set<ErrorKey>)
      /** The dictionary `validate` raises, field by field. */
    | AlreadyTaken(username: string, email: string)

  const UsernameTakenMessage: string := "This username is already taken."
  const EmailTakenMessage: string := "This email is already taken."

  /** `username = CharField(max_length=150, required=False)` and `email = EmailField(required=False)`. */
  function CleanExistence(data: ExistenceData, parsers: Parsers): (r: Result<ExistenceData, set<ErrorKey>>)
    ensures r.Err? ==> r.error != {} && r.error <= {UsernameKey, EmailKey}
    ensures r.Ok? ==> (r.value.username.Some? <==> data.username.Some?) && (r.value.email.Some? <==> data.email.Some?)
    ensures r.Ok? && data.username.Some? ==> r.value.username.value == Strip(data.username.value)
                                             && 1 <= |r.value.username.value| <= UsernameMaxLength
    ensures r.Ok? && data.email.Some? ==> r.value.email.value == Strip(data.email.value)
                                          && parsers.isEmail(r.value.email.value)
    ensures r.Ok? <==> UsernameClean(data.username) && EmailClean(data.email, parsers)
    ensures r.Err? ==> (UsernameKey in r.error <==> !UsernameClean(data.username))
                       && (EmailKey in r.error <==> !EmailClean(data.email, parsers))
  {
    var username: Field<string> :=
      if data.username.None? then Skipped
      else match CharFieldValue(JString(data.username.value), UsernameMaxLength)
        case Some(v) => Given(v)
        case None => Invalid;
    var email: Field<string> :=
      if data.email.None? then Skipped
      else match CleanText(data.email.value)
        case Some(v) => if parsers.isEmail(v) then Given(v) else Invalid
        case None => Invalid;
    if username.Invalid? || email.Invalid? then
      Err((if username.Invalid? then {UsernameKey} else {}) + (if email.Invalid? then {EmailKey} else {}))
    else Ok(ExistenceData(username.ToOption(), email.ToOption()))
  }

  /** `username` is left out, or a text a `CharField(max_length=150)` accepts. */
  predicate UsernameClean(username: Option<string>) {
    username.None? || CharFieldValue(JString(username.value), UsernameMaxLength).Some?
  }

  /** `email` is left out, or its cleaned text passes the `EmailValidator`. */
  predicate EmailClean(email: Option<string>, parsers: Parsers) {
    email.None? || (CleanText(email.value).Some? && parsers.isEmail(CleanText(email.value).value))
  }

  /** A value the check looks up: given and not empty (`if username:`), and held by some Person's user. */
  predicate CheckedAndTaken(value: Option<string>, taken: set<string>) {
    value.Some? && value.value != "" && value.value in taken
  }

  /**
   * `PersonExistenceSerializer.validate`: a taken username is reported
   * first, with an empty email message, even when the email is taken too;
   * a taken email alone is reported with an empty username message;
   * otherwise the data passes through unchanged.
   */
  function ValidateExistence(data: ExistenceData, usernames: set<string>, emails: set<string>): (r: Result<ExistenceData, ExistenceError>)
    ensures r.Ok? <==> !CheckedAndTaken(data.username, usernames) && !CheckedAndTaken(data.email, emails)
    ensures r.Ok? ==> r.value == data
    ensures CheckedAndTaken(data.username, usernames) ==> r == Err(AlreadyTaken(UsernameTakenMessage, ""))
    ensures !CheckedAndTaken(data.username, usernames) && CheckedAndTaken(data.email, emails) ==>
              r == Err(AlreadyTaken("", EmailTakenMessage))
  {
    if data.username.Some? && data.username.value != "" && data.username.value in usernames then
      Err(AlreadyTaken(UsernameTakenMessage, ""))
    else if data.email.Some? && data.email.value != "" && data.email.value in emails then
      Err(AlreadyTaken("", EmailTakenMessage))
    else
      Ok(data)
  }

  /** An absent or empty username is never looked up: which usernames are taken does not matter. */
  lemma UncheckedUsernameIgnored(data: ExistenceData, usernames1: set<string>, usernames2: set<string>, emails: set<string>)
    requires data.username.None? || data.username.value == ""
    ensures ValidateExistence(data, usernames1, emails) == ValidateExistence(data, usernames2, emails)
  {
  }

  /** An absent or empty email is never looked up. */
  lemma UncheckedEmailIgnored(data: ExistenceData, usernames: set<string>, emails1: set<string>, emails2: set<string>)
    requires data.email.None? || data.email.value == ""
    ensures ValidateExistence(data, usernames, emails1) == ValidateExistence(data, usernames, emails2)
  {
  }

  /** `is_valid()`: the field checks, then `validate` on the cleaned data. */
  function CheckExistence(data: ExistenceData, usernames: set<string>, emails: set<string>, parsers: Parsers): (r: Result<ExistenceData, ExistenceError>)
    ensures r.Ok? ==> CleanExistence(data, parsers).Ok? && r.value == CleanExistence(data, parsers).value
    ensures CleanExistence(data, parsers).Err? ==> r == Err(FieldErrors(CleanExistence(data, parsers).error))
    ensures r.Ok? ==> !CheckedAndTaken(r.value.username, usernames) && !CheckedAndTaken(r.value.email, emails)
    ensures CleanExistence(data, parsers).Ok? ==>
              r == ValidateExistence(CleanExistence(data, parsers).value, usernames, emails)
    ensures r.Ok? <==> CleanExistence(data, parsers).Ok?
                       && !CheckedAndTaken(CleanExistence(data, parsers).value.username, usernames)
                       && !CheckedAndTaken(CleanExistence(data, parsers).value.email, emails)
  {
    match CleanExistence(data, parsers)
    case Err(fields) => Err(FieldErrors(fields))
    case Ok(clean) => ValidateExistence(clean, usernames, emails)
  }

  /**
   * `CreatePersonSerializer.create`: `create_user` with the validated
   * username, email and password (the user gets the defaults for every
   * other field), then exactly one Person linked to the new user, returned
   * by key. When `create_user` raises, nothing is created.
   */
  method CreatePerson(db: Database, username: string, email: string, hashedPassword: string,
                      normalizeEmail: string -> string) returns (r: Result<nat, CreateUserError>)
    requires db.Valid()
    modifies db
    ensures db.Valid()
    ensures r.Err? ==> unchanged(db)
    ensures email == "" ==> r == Err(EmptyEmail)
    ensures r.Ok? <==> email != "" && !old(db.UsernameTaken(username)) && !old(db.EmailTaken(normalizeEmail(email)))
    ensures r.Ok? ==>
              var user := old(db.nextUserId);
              && r.value == old(db.nextPersonId) && user !in old(db.users)
              && db.users == old(db.users)[user := User(username, normalizeEmail(email), hashedPassword, true, false, false)]
              && db.personOf == old(db.personOf)[user := r.value] && db.people == old(db.people)[r.value := user]
              && r.value !in old(db.tasks) && db.tasks == old(db.tasks)[r.value := []]
              && db.availabilities == old(db.availabilities)[r.value := []]
              && db.nextUserId == old(db.nextUserId) + 1 && db.nextPersonId == old(db.nextPersonId) + 1
              && db.nextTaskId == old(db.nextTaskId) && db.nextAvailId == old(db.nextAvailId)
  {
    var created := db.CreateUser(username, email, hashedPassword, ExtraFields(None, None, None), normalizeEmail);
    match created {
      case Err(e) =>
        r := Err(e);
      case Ok(user) =>
        var person := db.AddPerson(user);
        r := Ok(person);
    }
  }
}
