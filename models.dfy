/**
 * The database tables of the API (users, people, tasks and weekly
 * availabilities), their defaults and constraints, and the user manager's
 * `create_user` / `create_superuser`.
 *
 * The database is a `Database` object whose maps the operations update in
 * place; a Person's tasks and availabilities are kept under the person's id,
 * oldest row first, which is the order `person.tasks.all()` and
 * `person.availabilities.all()` yield in this model.
 */
module Models {
  import opened Wrappers
  import JsText

  /** The seven choices of `Availability.day_of_week`. */
  datatype Day = Monday | Tuesday | Wednesday | Thursday | Friday | Saturday | Sunday

  const DayOfWeekMaxLength: nat := 9
  const DayChoices: seq<string> :=
    ["Monday", "Tuesday", "Wednesday", "Thursday", "Friday", "Saturday", "Sunday"]

  /** The stored (and displayed) text of a day. */
  function DayName(d: Day): (name: string)
    ensures name in DayChoices && 1 <= |name| <= DayOfWeekMaxLength
  {
    match d
    case Monday => "Monday"
    case Tuesday => "Tuesday"
    case Wednesday => "Wednesday"
    case Thursday => "Thursday"
    case Friday => "Friday"
    case Saturday => "Saturday"
    case Sunday => "Sunday"
  }

  /** The choice check on `day_of_week`: only the seven day names are accepted. */
  function DayFromName(s: string): (r: Option<Day>)
    ensures r.Some? <==> s in DayChoices
    ensures r.Some? ==> DayName(r.value) == s
  {
    if s == "Monday" then Some(Monday)
    else if s == "Tuesday" then Some(Tuesday)
    else if s == "Wednesday" then Some(Wednesday)
    else if s == "Thursday" then Some(Thursday)
    else if s == "Friday" then Some(Friday)
    else if s == "Saturday" then Some(Saturday)
    else if s == "Sunday" then Some(Sunday)
    else None
  }

  /** The name a day is stored under passes the choice check as that same day. */
  lemma DayNameRoundTrip(d: Day)
    ensures DayFromName(DayName(d)) == Some(d)
  {
  }

  /** A `TimeField` value (microseconds are not modelled). */
  datatype Time = Time(hour: nat, minute: nat, second: nat) {
    predicate Valid() {
      hour < 24 && minute < 60 && second < 60
    }
  }

  /** Two decimal digits, as Python's `time.isoformat` writes each component. */
  function Pad2(n: nat): (r: string)
    requires n < 100
    ensures |r| == 2 && JsText.AllDigits(r) && JsText.DigitsValue(r) == n
  {
    if n < 10 then
      var d := JsText.NatToString(n);
      assert ("0" + d)[..1] == "0";
      "0" + d
    else
      var r := JsText.NatToString(n);
      assert |r| == 2 by {
        if |r| > 2 { TwoDigitsAtMost(r); }
      }
      r
  }

  lemma TwoDigitsAtMost(r: string)
    requires JsText.AllDigits(r) && |r| > 2 && r[0] != '0'
    ensures JsText.DigitsValue(r) >= 100
  {
    var k := |r| - 1;
    assert r[..k][..k - 1] == r[..k - 1];
    assert JsText.AllDigits(r[..k - 1]);
    LeadingNonZero(r[..k - 1]);
  }

  lemma {:induction false} LeadingNonZero(r: string)
    requires JsText.AllDigits(r) && |r| >= 1 && r[0] != '0'
    ensures JsText.DigitsValue(r) >= 1
  {
    if |r| > 1 {
      assert r[..|r| - 1][0] == r[0];
      LeadingNonZero(r[..|r| - 1]);
    }
  }

  /**
   * `time.isoformat()`: `HH:MM:SS`, the text the API's JSON carries for a
   * time; each component is two digits holding its value.
   */
  function IsoFormat(t: Time): (r: string)
    requires t.Valid()
    ensures |r| == 8 && r[2] == ':' && r[5] == ':'
    ensures JsText.AllDigits(r[..2]) && JsText.DigitsValue(r[..2]) == t.hour
    ensures JsText.AllDigits(r[3..5]) && JsText.DigitsValue(r[3..5]) == t.minute
    ensures JsText.AllDigits(r[6..]) && JsText.DigitsValue(r[6..]) == t.second
  {
    var hh, mm, ss := Pad2(t.hour), Pad2(t.minute), Pad2(t.second);
    var r := hh + ":" + mm + ":" + ss;
    assert r[..2] == hh && r[3..5] == mm && r[6..] == ss;
    r
  }

  /** A `CustomUser` row; `password` holds the salted hash `set_password` stores. */
  datatype User = User(
    username: string,
    email: string,
    password: string,
    isActive: bool,
    isStaff: bool,
    isSuperuser: bool)

  const UsernameMaxLength: nat := 150

  /** The `**extra_fields` a caller may pass to `create_user`; `None` is a field not supplied. */
  datatype ExtraFields = ExtraFields(isActive: Option<bool>, isStaff: Option<bool>, isSuperuser: Option<bool>)

  /** A `Task` row. Times are instants on an abstract integer clock. */
  datatype TaskRow = TaskRow(
    id: nat,
    name: string,
    isCompleted: bool,
    createdAt: int,
    dueDate: Option<int>,
    priority: string)

  const NameMaxLength: nat := 100
  const PriorityMaxLength: nat := 100
  const DefaultPriority: string := "medium"

  /** The values a new Task takes for the fields its creator does not give. */
  function NewTask(id: nat, name: string, createdAt: int, isCompleted: Option<bool>, dueDate: Option<Option<int>>, priority: Option<string>): (t: TaskRow)
    ensures t.id == id && t.name == name && t.createdAt == createdAt
    ensures isCompleted.None? ==> !t.isCompleted
    ensures dueDate.None? ==> t.dueDate.None?
    ensures priority.None? ==> t.priority == "medium"
    ensures isCompleted.Some? ==> t.isCompleted == isCompleted.value
    ensures dueDate.Some? ==> t.dueDate == dueDate.value
    ensures priority.Some? ==> t.priority == priority.value
  {
    TaskRow(id, name, isCompleted.GetOr(false), createdAt, dueDate.GetOr(None), priority.GetOr(DefaultPriority))
  }

  /** An `Availability` row. */
  datatype AvailRow = AvailRow(id: nat, dayOfWeek: Day, startTime: Time, endTime: Time)

  /** Why `create_user` fails: the `ValueError` of an empty email, or a unique constraint on save. */
  datatype CreateUserError = EmptyEmail | IntegrityError

  const EmptyEmailMessage: string := "The Email field must be set"

  predicate DistinctTaskIds(rows: seq<TaskRow>) {
    forall i, j :: 0 <= i < j < |rows| ==> rows[i].id != rows[j].id
  }

  predicate TaskIdsBelow(rows: seq<TaskRow>, bound: nat) {
    forall i :: 0 <= i < |rows| ==> 1 <= rows[i].id < bound
  }

  predicate AvailIdsBelow(rows: seq<AvailRow>, bound: nat) {
    forall i :: 0 <= i < |rows| ==> 1 <= rows[i].id < bound
  }

  /** Usernames and emails are unique (`unique=True` on both); user keys lie below the next one handed out. */
  ghost predicate UsersOk(users: map<nat, User>, nextUserId: nat) {
    && 1 <= nextUserId
    && (forall u :: u in users ==> 1 <= u < nextUserId)
    && (forall u, v {:trigger users[u].username, users[v].username} ::
          u in users && v in users && u != v ==> users[u].username != users[v].username)
    && (forall u, v {:trigger users[u].email, users[v].email} ::
          u in users && v in users && u != v ==> users[u].email != users[v].email)
  }

  /**
   * `Person.user` is one-to-one: `personOf` (a user's Person) and `people`
   * (a Person's user) are inverse to each other, every Person belongs to an
   * existing user, and exactly the existing people own a task list and an
   * availability list.
   */
  ghost predicate PeopleOk(users: map<nat, User>, personOf: map<nat, nat>, people: map<nat, nat>,
                           tasks: map<nat, seq<TaskRow>>, availabilities: map<nat, seq<AvailRow>>, nextPersonId: nat) {
    && 1 <= nextPersonId
    && (forall u :: u in personOf ==> u in users && personOf[u] in people && people[personOf[u]] == u)
    && (forall p :: p in people ==>
          && 1 <= p < nextPersonId && people[p] in personOf && personOf[people[p]] == p
          && p in tasks && p in availabilities)
    && (forall p {:trigger Orphan(tasks, people, p)} :: !Orphan(tasks, people, p))
    && (forall p {:trigger Orphan(availabilities, people, p)} :: !Orphan(availabilities, people, p))
  }

  /** Rows filed under `p` although no Person has that key. */
  ghost predicate Orphan<T>(rows: map<nat, T>, people: map<nat, nat>, p: nat) {
    p in rows && p !in people
  }

  /** Every task and availability row has its own primary key below the next one handed out. */
  ghost predicate RowsOk(tasks: map<nat, seq<TaskRow>>, availabilities: map<nat, seq<AvailRow>>,
                         nextTaskId: nat, nextAvailId: nat) {
    && 1 <= nextTaskId && 1 <= nextAvailId
    && (forall p :: p in tasks ==> DistinctTaskIds(tasks[p]) && TaskIdsBelow(tasks[p], nextTaskId))
    && (forall p :: p in availabilities ==> AvailIdsBelow(availabilities[p], nextAvailId))
  }

  /** A new user with a fresh key and an unused username and email keeps usernames and emails unique. */
  lemma UsersOkAdd(users: map<nat, User>, next: nat, user: User)
    requires UsersOk(users, next)
    requires forall u :: u in users ==> users[u].username != user.username && users[u].email != user.email
    ensures UsersOk(users[next := user], next + 1)
  {
  }

  /** Adding a user disturbs no Person. */
  lemma PeopleOkMoreUsers(users: map<nat, User>, personOf: map<nat, nat>, people: map<nat, nat>,
                          tasks: map<nat, seq<TaskRow>>, availabilities: map<nat, seq<AvailRow>>,
                          nextPersonId: nat, id: nat, user: User)
    requires PeopleOk(users, personOf, people, tasks, availabilities, nextPersonId)
    ensures PeopleOk(users[id := user], personOf, people, tasks, availabilities, nextPersonId)
  {
  }

  /** A new Person for a user that has none, with empty lists, under the next person key. */
  lemma PeopleOkAdd(users: map<nat, User>, personOf: map<nat, nat>, people: map<nat, nat>,
                    tasks: map<nat, seq<TaskRow>>, availabilities: map<nat, seq<AvailRow>>, next: nat, user: nat)
    requires PeopleOk(users, personOf, people, tasks, availabilities, next)
    requires user in users && user !in personOf
    ensures next !in people && next !in tasks && next !in availabilities
    ensures PeopleOk(users, personOf[user := next], people[next := user], tasks[next := []],
                     availabilities[next := []], next + 1)
  {
    assert !Orphan(tasks, people, next) && !Orphan(availabilities, people, next);
    var tasks', availabilities', people' := tasks[next := []], availabilities[next := []], people[next := user];
    forall p ensures !Orphan(tasks', people', p) && !Orphan(availabilities', people', p) {
      assert !Orphan(tasks, people, p) && !Orphan(availabilities, people, p);
    }
  }

  /** Replacing a Person's lists keeps the link between people and lists. */
  lemma PeopleOkReplace(users: map<nat, User>, personOf: map<nat, nat>, people: map<nat, nat>,
                        tasks: map<nat, seq<TaskRow>>, availabilities: map<nat, seq<AvailRow>>, next: nat,
                        person: nat, newTasks: seq<TaskRow>, newAvailabilities: seq<AvailRow>)
    requires PeopleOk(users, personOf, people, tasks, availabilities, next) && person in people
    ensures PeopleOk(users, personOf, people, tasks[person := newTasks],
                     availabilities[person := newAvailabilities], next)
  {
    var tasks', availabilities' := tasks[person := newTasks], availabilities[person := newAvailabilities];
    forall p ensures !Orphan(tasks', people, p) && !Orphan(availabilities', people, p) {
      assert !Orphan(tasks, people, p) && !Orphan(availabilities, people, p);
    }
  }

  /** The cascade: the user, its Person and that Person's lists go together. */
  lemma PeopleOkDelete(users: map<nat, User>, personOf: map<nat, nat>, people: map<nat, nat>,
                       tasks: map<nat, seq<TaskRow>>, availabilities: map<nat, seq<AvailRow>>, next: nat, user: nat)
    requires PeopleOk(users, personOf, people, tasks, availabilities, next) && user in personOf
    ensures PeopleOk(users - {user}, personOf - {user}, people - {personOf[user]}, tasks - {personOf[user]},
                     availabilities - {personOf[user]}, next)
  {
    var person := personOf[user];
    var tasks', availabilities', people' := tasks - {person}, availabilities - {person}, people - {person};
    forall p ensures !Orphan(tasks', people', p) && !Orphan(availabilities', people', p) {
      assert !Orphan(tasks, people, p) && !Orphan(availabilities, people, p);
    }
  }

  lemma PeopleOkDeleteLoner(users: map<nat, User>, personOf: map<nat, nat>, people: map<nat, nat>,
                            tasks: map<nat, seq<TaskRow>>, availabilities: map<nat, seq<AvailRow>>,
                            next: nat, user: nat)
    requires PeopleOk(users, personOf, people, tasks, availabilities, next) && user !in personOf
    ensures PeopleOk(users - {user}, personOf, people, tasks, availabilities, next)
  {
  }

  lemma UsersOkDelete(users: map<nat, User>, next: nat, user: nat)
    requires UsersOk(users, next)
    ensures UsersOk(users - {user}, next)
  {
  }

  /** Dropping a Person's lists, or setting them to empty, keeps every other row and its key. */
  lemma RowsOkDelete(tasks: map<nat, seq<TaskRow>>, availabilities: map<nat, seq<AvailRow>>,
                     nextTaskId: nat, nextAvailId: nat, person: nat)
    requires RowsOk(tasks, availabilities, nextTaskId, nextAvailId)
    ensures RowsOk(tasks - {person}, availabilities - {person}, nextTaskId, nextAvailId)
    ensures RowsOk(tasks, availabilities[person := []], nextTaskId, nextAvailId)
    ensures RowsOk(tasks[person := []], availabilities[person := []], nextTaskId, nextAvailId)
  {
  }

  /** Appending a task under the next key keeps keys distinct and below the (advanced) next key. */
  lemma RowsOkAddTask(tasks: map<nat, seq<TaskRow>>, availabilities: map<nat, seq<AvailRow>>,
                      nextTaskId: nat, nextAvailId: nat, person: nat, row: TaskRow)
    requires RowsOk(tasks, availabilities, nextTaskId, nextAvailId) && person in tasks
    requires row.id == nextTaskId
    ensures RowsOk(tasks[person := tasks[person] + [row]], availabilities, nextTaskId + 1, nextAvailId)
  {
    var rows := tasks[person] + [row];
    assert DistinctTaskIds(rows) && TaskIdsBelow(rows, nextTaskId + 1) by {
      assert forall i :: 0 <= i < |tasks[person]| ==> rows[i] == tasks[person][i];
    }
  }

  /** Deleting a task by position keeps keys distinct. */
  lemma RowsOkRemoveTask(tasks: map<nat, seq<TaskRow>>, availabilities: map<nat, seq<AvailRow>>,
                         nextTaskId: nat, nextAvailId: nat, person: nat, index: nat)
    requires RowsOk(tasks, availabilities, nextTaskId, nextAvailId) && person in tasks
    requires index < |tasks[person]|
    ensures RowsOk(tasks[person := JsText.RemoveAt(tasks[person], index)], availabilities, nextTaskId, nextAvailId)
  {
    var old_ := tasks[person];
    var rows := JsText.RemoveAt(old_, index);
    JsText.RemoveAtShifts(old_, index);
    assert DistinctTaskIds(rows) by {
      forall i, j | 0 <= i < j < |rows| ensures rows[i].id != rows[j].id {
        var i' := if i < index then i else i + 1;
        var j' := if j < index then j else j + 1;
        assert rows[i] == old_[i'] && rows[j] == old_[j'];
      }
    }
    assert TaskIdsBelow(rows, nextTaskId) by {
      forall i | 0 <= i < |rows| ensures 1 <= rows[i].id < nextTaskId {
        if i < index { assert rows[i] == old_[i]; } else { assert rows[i] == old_[i + 1]; }
      }
    }
  }

  lemma RowsOkAddAvailability(tasks: map<nat, seq<TaskRow>>, availabilities: map<nat, seq<AvailRow>>,
                              nextTaskId: nat, nextAvailId: nat, person: nat, row: AvailRow)
    requires RowsOk(tasks, availabilities, nextTaskId, nextAvailId) && person in availabilities
    requires row.id == nextAvailId
    ensures RowsOk(tasks, availabilities[person := availabilities[person] + [row]], nextTaskId, nextAvailId + 1)
  {
    var rows := availabilities[person] + [row];
    assert AvailIdsBelow(rows, nextAvailId + 1) by {
      assert forall i :: 0 <= i < |availabilities[person]| ==> rows[i] == availabilities[person][i];
    }
  }

  class Database {
    /** `CustomUser` rows by primary key. */
    var users: map<nat, User>
    /** `user.person`: the id of the Person linked one-to-one to a user. */
    var personOf: map<nat, nat>
    /** `Person` rows by primary key: the id of the user each one belongs to. */
    var people: map<nat, nat>
    /** `person.tasks`, oldest first. */
    var tasks: map<nat, seq<TaskRow>>
    /** `person.availabilities`, oldest first. */
    var availabilities: map<nat, seq<AvailRow>>
    /** The next primary key each table hands out. */
    var nextUserId: nat
    var nextPersonId: nat
    var nextTaskId: nat
    var nextAvailId: nat

    /** The constraints of the schema, as `UsersOk`, `PeopleOk` and `RowsOk` state them. */
    ghost predicate Valid()
      reads this
    {
      && UsersOk(users, nextUserId)
      && PeopleOk(users, personOf, people, tasks, availabilities, nextPersonId)
      && RowsOk(tasks, availabilities, nextTaskId, nextAvailId)
    }

    constructor ()
      ensures Valid()
      ensures users == map[] && personOf == map[] && people == map[] && tasks == map[] && availabilities == map[]
    {
      users, personOf, people, tasks, availabilities := map[], map[], map[], map[], map[];
      nextUserId, nextPersonId, nextTaskId, nextAvailId := 1, 1, 1, 1;
    }

    /** Whether some user already has `name` as username. */
    predicate UsernameTaken(name: string)
      reads this
    {
      exists u :: u in users && users[u].username == name
    }

    /** Whether some user already has `email` as email. */
    predicate EmailTaken(email: string)
      reads this
    {
      exists u :: u in users && users[u].email == email
    }

    /** The usernames of users that have a Person: the only ones `Person.objects.filter(user__username=...)` finds. */
    function PersonUsernames(): set<string>
      reads this
    {
      set u | u in personOf && u in users :: users[u].username
    }

    /** The emails of users that have a Person. */
    function PersonEmails(): set<string>
      reads this
    {
      set u | u in personOf && u in users :: users[u].email
    }

    /**
     * `CustomUserManager.create_user`: an empty email is refused before
     * anything is built; otherwise the email is normalised, the user gets
     * the model defaults for the extra fields it was not given, the salted
     * password hash, and is saved, which the unique constraints on
     * username and email can refuse.
     */
    method CreateUser(username: string, email: string, hashedPassword: string, extra: ExtraFields,
                      normalizeEmail: string -> string) returns (r: Result<nat, CreateUserError>)
      requires Valid()
      modifies this
      ensures Valid()
      ensures email == "" ==> r == Err(EmptyEmail)
      ensures email != "" && (old(UsernameTaken(username)) || old(EmailTaken(normalizeEmail(email)))) ==>
                r == Err(IntegrityError)
      ensures r.Err? ==> unchanged(this)
      ensures r.Ok? <==> email != "" && !old(UsernameTaken(username)) && !old(EmailTaken(normalizeEmail(email)))
      ensures r.Ok? ==>
                && r.value == old(nextUserId) && r.value !in old(users)
                && users == old(users)[r.value := User(username, normalizeEmail(email), hashedPassword,
                                                       extra.isActive.GetOr(true), extra.isStaff.GetOr(false),
                                                       extra.isSuperuser.GetOr(false))]
                && personOf == old(personOf) && people == old(people)
                && tasks == old(tasks) && availabilities == old(availabilities)
                && nextUserId == old(nextUserId) + 1 && nextPersonId == old(nextPersonId)
                && nextTaskId == old(nextTaskId) && nextAvailId == old(nextAvailId)
    {
      if email == "" {
        return Err(EmptyEmail);
      }
      var normalized := normalizeEmail(email);
      var user := User(username, normalized, hashedPassword,
                       extra.isActive.GetOr(true), extra.isStaff.GetOr(false), extra.isSuperuser.GetOr(false));
      if UsernameTaken(username) || EmailTaken(normalized) {
        return Err(IntegrityError);
      }
      var id := nextUserId;
      assert id !in users;
      UsersOkAdd(users, id, user);
      PeopleOkMoreUsers(users, personOf, people, tasks, availabilities, nextPersonId, id, user);
      users := users[id := user];
      nextUserId := nextUserId + 1;
      r := Ok(id);
    }

    /**
     * `CustomUserManager.create_superuser`: `is_staff` and `is_superuser`
     * become true unless the caller supplied them, then `create_user` runs.
     */
    method CreateSuperuser(username: string, email: string, hashedPassword: string, extra: ExtraFields,
                           normalizeEmail: string -> string) returns (r: Result<nat, CreateUserError>)
      requires Valid()
      modifies this
      ensures Valid()
      ensures email == "" ==> r == Err(EmptyEmail)
      ensures email != "" && (old(UsernameTaken(username)) || old(EmailTaken(normalizeEmail(email)))) ==>
                r == Err(IntegrityError)
      ensures r.Err? ==> unchanged(this)
      ensures r.Ok? <==> email != "" && !old(UsernameTaken(username)) && !old(EmailTaken(normalizeEmail(email)))
      ensures r.Ok? ==>
                && r.value == old(nextUserId) && r.value !in old(users)
                && users == old(users)[r.value := User(username, normalizeEmail(email), hashedPassword,
                                                       extra.isActive.GetOr(true), extra.isStaff.GetOr(true),
                                                       extra.isSuperuser.GetOr(true))]
                && personOf == old(personOf) && people == old(people)
                && tasks == old(tasks) && availabilities == old(availabilities)
                && nextUserId == old(nextUserId) + 1 && nextPersonId == old(nextPersonId)
                && nextTaskId == old(nextTaskId) && nextAvailId == old(nextAvailId)
    {
      var withDefaults := extra.(isStaff := Some(extra.isStaff.GetOr(true)),
                                 isSuperuser := Some(extra.isSuperuser.GetOr(true)));
      r := CreateUser(username, email, hashedPassword, withDefaults, normalizeEmail);
    }

    /**
     * `Person.objects.create(user=user)`: a new Person, linked to a user
     * that has none yet, starting with no tasks and no availabilities.
     */
    method AddPerson(user: nat) returns (person: nat)
      requires Valid() && user in users && user !in personOf
      modifies this
      ensures Valid()
      ensures person == old(nextPersonId) && person !in old(people) && person !in old(tasks) && person !in old(availabilities)
      ensures personOf == old(personOf)[user := person] && people == old(people)[person := user]
      ensures tasks == old(tasks)[person := []] && availabilities == old(availabilities)[person := []]
      ensures users == old(users) && nextUserId == old(nextUserId) && nextPersonId == old(nextPersonId) + 1
      ensures nextTaskId == old(nextTaskId) && nextAvailId == old(nextAvailId)
    {
      person := nextPersonId;
      PeopleOkAdd(users, personOf, people, tasks, availabilities, person, user);
      RowsOkDelete(tasks, availabilities, nextTaskId, nextAvailId, person);
      personOf, people := personOf[user := person], people[person := user];
      tasks, availabilities := tasks[person := []], availabilities[person := []];
      nextPersonId := nextPersonId + 1;
    }

    /**
     * Deleting a user: `on_delete=CASCADE` on `Person.user` deletes the
     * user's Person, and the same rule on `Task.person` and
     * `Availability.person` deletes that Person's tasks and availabilities.
     */
    method DeleteUser(user: nat)
      requires Valid() && user in users
      modifies this
      ensures Valid()
      ensures users == old(users) - {user}
      ensures personOf == old(personOf) - {user}
      ensures user in old(personOf) ==>
                && people == old(people) - {old(personOf[user])}
                && tasks == old(tasks) - {old(personOf[user])}
                && availabilities == old(availabilities) - {old(personOf[user])}
      ensures user !in old(personOf) ==> people == old(people) && tasks == old(tasks) && availabilities == old(availabilities)
      ensures nextUserId == old(nextUserId) && nextPersonId == old(nextPersonId)
      ensures nextTaskId == old(nextTaskId) && nextAvailId == old(nextAvailId)
    {
      if user in personOf {
        var person := personOf[user];
        PeopleOkDelete(users, personOf, people, tasks, availabilities, nextPersonId, user);
        RowsOkDelete(tasks, availabilities, nextTaskId, nextAvailId, person);
        tasks, availabilities := tasks - {person}, availabilities - {person};
        personOf, people := personOf - {user}, people - {person};
      } else {
        PeopleOkDeleteLoner(users, personOf, people, tasks, availabilities, nextPersonId, user);
      }
      UsersOkDelete(users, nextUserId, user);
      users := users - {user};
    }

    /**
     * `serializer.save(person=person)` for a task: a row with the next
     * key, the creation time `now` and the model defaults, appended to the
     * Person's tasks.
     */
    method InsertTask(person: nat, name: string, now: int, isCompleted: Option<bool>,
                      dueDate: Option<Option<int>>, priority: Option<string>) returns (row: TaskRow)
      requires Valid() && person in people
      modifies this
      ensures Valid()
      ensures row == NewTask(old(nextTaskId), name, now, isCompleted, dueDate, priority)
      ensures tasks == old(tasks)[person := old(tasks[person]) + [row]]
      ensures nextTaskId == old(nextTaskId) + 1
      ensures users == old(users) && personOf == old(personOf) && people == old(people) && availabilities == old(availabilities)
      ensures nextUserId == old(nextUserId) && nextPersonId == old(nextPersonId) && nextAvailId == old(nextAvailId)
    {
      row := NewTask(nextTaskId, name, now, isCompleted, dueDate, priority);
      RowsOkAddTask(tasks, availabilities, nextTaskId, nextAvailId, person, row);
      PeopleOkReplace(users, personOf, people, tasks, availabilities, nextPersonId, person,
                      tasks[person] + [row], availabilities[person]);
      assert availabilities[person := availabilities[person]] == availabilities;
      tasks := tasks[person := tasks[person] + [row]];
      nextTaskId := nextTaskId + 1;
    }

    /** `task.delete()` for the task at position `index` of the Person's tasks. */
    method DeleteTask(person: nat, index: nat)
      requires Valid() && person in people && index < |tasks[person]|
      modifies this
      ensures Valid()
      ensures tasks == old(tasks)[person := JsText.RemoveAt(old(tasks[person]), index)]
      ensures users == old(users) && personOf == old(personOf) && people == old(people) && availabilities == old(availabilities)
      ensures nextUserId == old(nextUserId) && nextPersonId == old(nextPersonId)
      ensures nextTaskId == old(nextTaskId) && nextAvailId == old(nextAvailId)
    {
      var rows := JsText.RemoveAt(tasks[person], index);
      RowsOkRemoveTask(tasks, availabilities, nextTaskId, nextAvailId, person, index);
      PeopleOkReplace(users, personOf, people, tasks, availabilities, nextPersonId, person, rows, availabilities[person]);
      assert availabilities[person := availabilities[person]] == availabilities;
      tasks := tasks[person := rows];
    }

    /** `person.availabilities.all().delete()`. */
    method ClearAvailabilities(person: nat)
      requires Valid() && person in people
      modifies this
      ensures Valid()
      ensures availabilities == old(availabilities)[person := []]
      ensures users == old(users) && personOf == old(personOf) && people == old(people) && tasks == old(tasks)
      ensures nextUserId == old(nextUserId) && nextPersonId == old(nextPersonId)
      ensures nextTaskId == old(nextTaskId) && nextAvailId == old(nextAvailId)
    {
      PeopleOkReplace(users, personOf, people, tasks, availabilities, nextPersonId, person, tasks[person], []);
      RowsOkDelete(tasks, availabilities, nextTaskId, nextAvailId, person);
      assert tasks[person := tasks[person]] == tasks;
      availabilities := availabilities[person := []];
    }

    /** `serializer.save(person=person)` for an availability: a row with the next key, appended. */
    method InsertAvailability(person: nat, day: Day, startTime: Time, endTime: Time) returns (row: AvailRow)
      requires Valid() && person in people
      modifies this
      ensures Valid()
      ensures row == AvailRow(old(nextAvailId), day, startTime, endTime)
      ensures availabilities == old(availabilities)[person := old(availabilities[person]) + [row]]
      ensures nextAvailId == old(nextAvailId) + 1
      ensures users == old(users) && personOf == old(personOf) && people == old(people) && tasks == old(tasks)
      ensures nextUserId == old(nextUserId) && nextPersonId == old(nextPersonId) && nextTaskId == old(nextTaskId)
    {
      row := AvailRow(nextAvailId, day, startTime, endTime);
      RowsOkAddAvailability(tasks, availabilities, nextTaskId, nextAvailId, person, row);
      PeopleOkReplace(users, personOf, people, tasks, availabilities, nextPersonId, person,
                      tasks[person], availabilities[person] + [row]);
      assert tasks[person := tasks[person]] == tasks;
      availabilities := availabilities[person := availabilities[person] + [row]];
      nextAvailId := nextAvailId + 1;
    }
  }
}
