# Tempora, modelled in Dafny

Tempora is a weekly planner. A React front end sends requests to a Django REST API that keeps, for every user:
- a Person record;
- a to-do list of tasks;
- a set of weekly availability slots.

This project models the parts of both sides whose behaviour can be stated, and proves what they promise.

**Front end**
- The availability grid of `AvailabilityPage.js` (`AvailabilityPage.Grid`). It keeps a list of slots and a map of coloured cells in step, and converts between cell keys, grid hours and server times.
- The form checks and their error texts in `ToDoListPage.js`, `CreateUserPage.js` and `LoginPage.js`.
- The priority colours.
- Removal of a task by position.
- The CSRF-token cookie lookup the pages repeat before every POST (`Cookies`).
- The JavaScript string primitives all of these rely on (`JsText`).

**API**
- The database as one `Models.Database` object, with the constraints of the schema as its invariant:
  - usernames and emails are unique;
  - each user has at most one Person;
  - the rows of a Person go with it when it is deleted;
  - task keys are distinct within each Person's list, and every task and availability key is below the counter that issues the next one.
- The model defaults and the choice of seven days.
- `create_user` and `create_superuser`.
- The serializers' field checks and the username/email existence check (`Serializers`).
- The pydantic projections (`Schemas`).
- The views that read and change a Person's tasks and availabilities, in the order they check things (`Views`).

Module layout follows the program's files:

| module | file | models |
|---|---|---|
| `Wrappers` | wrappers.dfy | `Option` and `Result` |
| `JsText` | js_text.dfy | JavaScript `split`, `trim`, `startsWith`, `length`, `parseInt`, `toString`, `filter` by index, `find`/`findIndex` |
| `PyText` | py_text.dfy | Python `str.strip`, which the framework's `CharField` applies |
| `Images` | images.dfy | the set of keys of a list and key uniqueness, under append and removal |
| `Cookies` | cookies.dfy | the `csrftoken` extractor and the shape of `document.cookie` |
| `AvailabilityPage` | availability_page.dfy | AvailabilityPage.js |
| `ToDoListPage` | todo_list_page.dfy | ToDoListPage.js |
| `CreateUserPage` | create_user_page.dfy | CreateUserPage.js |
| `LoginPage` | login_page.dfy | LoginPage.js |
| `Models` | models.dfy | api/models.py and the database |
| `Serializers` | serializers.dfy | api/serializers.py |
| `Schemas` | schemas.dfy | api/schemas.py |
| `Views` | views.dfy | api/views.py |

Things that change state in place are classes whose methods carry `modifies` clauses:
- a React component's state;
- the database.

Page actions that talk to the server are modelled as follows:
- A method returns the request the page would send, or `None` when it sends nothing.
- A method takes the server's answer as a parameter.

A view of the API answers with a `Response`, a status plus a body.

## Model

| member | source | states |
|---|---|---|
| JsText.TrimStart | frontend/src/components/AvailabilityPage.js:60 | what `trimStart` keeps is a suffix of the input that does not start with white space |
| JsText.TrimStartRemovesSpaces | frontend/src/components/AvailabilityPage.js:60 | everything `trimStart` removes is white space |
| JsText.TrimEnd | frontend/src/components/AvailabilityPage.js:60 | what `trimEnd` keeps is a prefix of the input that does not end with white space |
| JsText.TrimEndRemovesSpaces | frontend/src/components/AvailabilityPage.js:60 | everything `trimEnd` removes is white space |
| JsText.Trim | frontend/src/components/AvailabilityPage.js:60 | what `trim` keeps neither starts nor ends with white space |
| JsText.TrimEmpty | frontend/src/components/AvailabilityPage.js:60 | `trim` leaves nothing exactly when the text is white space only |
| JsText.Split | frontend/src/components/AvailabilityPage.js:59 | `split` gives at least one piece; no piece holds the separator; joining the pieces with it gives the input back |
| JsText.SplitWithoutSeparator | frontend/src/components/AvailabilityPage.js:21 | a text without the separator splits into itself alone |
| JsText.SplitAtFirstSeparator | frontend/src/components/AvailabilityPage.js:21 | the text before the first separator is the first piece, and the rest splits as it would alone |
| JsText.SplitJoin | frontend/src/components/AvailabilityPage.js:59 | splitting undoes joining pieces free of the separator |
| JsText.JsLength | frontend/src/components/CreateUserPage.js:40 | `length` counts UTF-16 code units: between one and two per character |
| JsText.NatToString | frontend/src/components/AvailabilityPage.js:50 | `toString` of a non-negative integer is a non-empty digit string whose value is the number, with no leading zero |
| JsText.LeadingDigits | frontend/src/components/AvailabilityPage.js:24 | the digits `parseInt` reads are the longest run of digits at the front |
| JsText.ParseIntOfDecimal | frontend/src/components/AvailabilityPage.js:47 | `parseInt` reads back the decimal text of a number when what follows is neither a digit nor a hex marker |
| JsText.ParseIntOfDigits | frontend/src/components/AvailabilityPage.js:129 | `parseInt` of a text of digits is their value |
| JsText.ParseIntOfSigned | frontend/src/components/AvailabilityPage.js:47 | `parseInt` of `-` followed by the decimal text of a number is that number negated |
| JsText.IntToStringParses | frontend/src/components/AvailabilityPage.js:50 | `parseInt` reads back the text `toString` writes for any integer, negative or not |
| JsText.RemoveAt | frontend/src/components/ToDoListPage.js:124 | `filter((_, i) => i !== index)` drops exactly the element at a valid index and changes nothing otherwise |
| JsText.RemoveAtShifts | frontend/src/components/AvailabilityPage.js:29 | after removal, elements before the index stay put and later ones move up by one |
| JsText.FirstWhere | frontend/src/components/AvailabilityPage.js:60 | `find` selects the first element that passes the test, or none when no element passes |
| PyText.StripStartSuffix | api/serializers.py:48 | the leading strip leaves a suffix that does not start with white space |
| PyText.StripEndPrefix | api/serializers.py:48 | the trailing strip leaves a prefix that does not end with white space |
| PyText.StripRemovesSpaces | api/serializers.py:48 | `strip` keeps a contiguous slice of the text and removes only white space around it |
| PyText.StripKeeps | api/serializers.py:48 | a text with no white space at either end is left unchanged |
| PyText.StripIdempotent | api/serializers.py:48 | stripping twice equals stripping once |
| Images.ImageSnoc | frontend/src/components/AvailabilityPage.js:128-131 | appending an element adds exactly its key to the set of keys |
| Images.ImageRemoveAt | frontend/src/components/AvailabilityPage.js:29 | under unique keys, removing an element takes exactly its key out of the set of keys |
| Images.InjectiveRemoveAt | frontend/src/components/AvailabilityPage.js:29 | removing an element keeps keys unique |
| Images.InjectiveSnoc | frontend/src/components/AvailabilityPage.js:32-39 | appending an element with a new key keeps keys unique |
| Cookies.FirstCsrfPiece | frontend/src/components/AvailabilityPage.js:58-60 | the piece chosen is the first whose trimmed text starts with `csrftoken=`; no earlier piece does |
| Cookies.CsrfToken | frontend/src/components/AvailabilityPage.js:58-65 | a token is produced only when it is non-empty, and it never contains `=` |
| Cookies.FirstNamed | frontend/src/components/AvailabilityPage.js:58-61 | the reference the token lookup is checked against: the first cookie of the jar with a given name, no earlier cookie having it (`FirstPieceIsFirstNamed` shows `find` picks that cookie's piece) |
| Cookies.PieceTrims | frontend/src/components/AvailabilityPage.js:60 | trimming a piece of `document.cookie` leaves exactly `name=value` |
| Cookies.PrefixMeansName | frontend/src/components/AvailabilityPage.js:60 | a piece starts with `csrftoken=` exactly when the cookie's name is `csrftoken` |
| Cookies.SplitRender | frontend/src/components/AvailabilityPage.js:59 | splitting the cookie header at `;` gives one piece per cookie, in order |
| Cookies.FirstPieceIsFirstNamed | frontend/src/components/AvailabilityPage.js:59-60 | the piece `find` picks belongs to the first cookie named `csrftoken` |
| Cookies.PieceFields | frontend/src/components/AvailabilityPage.js:61 | splitting a piece at `=` gives two fields, the second being the cookie's value |
| Cookies.CsrfTokenOfRender | frontend/src/components/AvailabilityPage.js:58-65 | the token read from a cookie header is the value of the first `csrftoken` cookie; there is none when no such cookie exists or its value is empty |
| AvailabilityPage.GridHour | frontend/src/components/AvailabilityPage.js:6 | a row label `${i}:00` contains a colon and no dash |
| AvailabilityPage.CellKeySplit | frontend/src/components/AvailabilityPage.js:13-21 | `key.split("-")` gives back exactly the day and the hour of the cell |
| AvailabilityPage.CellKeyInjective | frontend/src/components/AvailabilityPage.js:13 | two cells have the same key if and only if they are the same cell |
| AvailabilityPage.GridHourParses | frontend/src/components/AvailabilityPage.js:47 | `parseInt` of row label `i:00` is `i` |
| AvailabilityPage.GridHourSplits | frontend/src/components/AvailabilityPage.js:24 | the text before the colon of a row label is the hour's digits |
| AvailabilityPage.HourLabelIsRow | frontend/src/components/AvailabilityPage.js:24 | `parseInt(start_time.split(":")[0]) + ":00"` is the grid row of the hour before the first colon; with no number there it is `NaN:00`, which is no row of the grid |
| AvailabilityPage.EndTimeIsNextRow | frontend/src/components/AvailabilityPage.js:45-51 | `calculateEndTime` gives the row after the start's hour; `23:00`, later hours and an unreadable start give `0:00` |
| AvailabilityPage.EndTimeOfGridHour | frontend/src/components/AvailabilityPage.js:45-51 | `calculateEndTime` of row `h` is row `h+1`, and row 23 wraps to `0:00` |
| AvailabilityPage.HourLabelOfGridHour | frontend/src/components/AvailabilityPage.js:24 | a row label normalises to itself |
| AvailabilityPage.HourLabelOfServerTime | frontend/src/components/AvailabilityPage.js:129 | a start time `HH:…` normalises to the label of hour `HH`, so `09:00:00` becomes `9:00` |
| AvailabilityPage.IsoTimeRow | frontend/src/components/AvailabilityPage.js:129 | every time the API writes (`HH:MM:SS`) normalises to the row of its hour |
| AvailabilityPage.FindIndex | frontend/src/components/AvailabilityPage.js:23-25 | `findIndex` gives the first matching slot, or -1 when no slot matches |
| AvailabilityPage.LitFlip | frontend/src/components/AvailabilityPage.js:14-17 | flipping one key colours that cell exactly when it was not coloured and leaves every other cell as it was |
| AvailabilityPage.MatchesIffKey | frontend/src/components/AvailabilityPage.js:24 | a slot matches a cell exactly when the slot's normalised key is that cell's key |
| AvailabilityPage.DaysWithoutDash | frontend/src/components/AvailabilityPage.js:5 | no day name contains a dash |
| AvailabilityPage.RowLabelIsRow | frontend/src/components/AvailabilityPage.js:6 | every row label of the grid normalises to itself |
| AvailabilityPage.GridCell | frontend/src/components/AvailabilityPage.js:171-180 | every button of the grid is a cell whose key splits back, and whose hour is its own label |
| AvailabilityPage.FoundIffListed | frontend/src/components/AvailabilityPage.js:23-27 | `findIndex` finds a slot exactly when the clicked cell is among the slots' keys, and the slot it finds has that key |
| AvailabilityPage.ToggledKeys | frontend/src/components/AvailabilityPage.js:19-40 | a click on a listed cell removes exactly its key from the list's keys; a click on an unlisted cell adds exactly its key; keys stay unique either way |
| AvailabilityPage.Toggled | frontend/src/components/AvailabilityPage.js:19-40 | the key is split back into the cell at the dash, then the click removes the first matching slot, or appends `{day, hour, calculateEndTime(hour)}` at the end |
| AvailabilityPage.ToggleKeepsColours | frontend/src/components/AvailabilityPage.js:12-40 | when each cell holds at most one slot, flipping the cell's colour together with its slot keeps the coloured cells exactly those of the listed slots, one slot per cell |
| AvailabilityPage.ToggleTwiceRestores | frontend/src/components/AvailabilityPage.js:19-40 | clicking an unlisted cell twice gives back the original list |
| AvailabilityPage.FindIndexSnoc | frontend/src/components/AvailabilityPage.js:32-39 | the slot appended for a cell is the one the next click on that cell finds |
| AvailabilityPage.PreSelected | frontend/src/components/AvailabilityPage.js:124-135 | the rebuilt `selected` map has exactly the keys of the listed slots, each set to true |
| AvailabilityPage.PreSelectedSnoc | frontend/src/components/AvailabilityPage.js:128-131 | one `forEach` step adds the slot's key as true |
| AvailabilityPage.Grid.constructor | frontend/src/components/AvailabilityPage.js:8-9 | nothing is selected and nothing listed, and the grid invariant holds |
| AvailabilityPage.Grid.Toggle | frontend/src/components/AvailabilityPage.js:12-43 | `toggleButton` flips one key of `selected` (an absent key counts as false) and toggles the slot list, on any list; a page whose cells each hold at most one slot keeps the grid invariant: coloured cells are exactly the cells of the listed slots |
| AvailabilityPage.Grid.PreSelect | frontend/src/components/AvailabilityPage.js:124-135 | the effect's loop rebuilds `selected` so that it colours exactly the listed cells; the list is untouched |
| AvailabilityPage.Grid.Load | frontend/src/components/AvailabilityPage.js:104-122 | a successful fetch replaces the list and colours exactly its cells; a failed fetch changes nothing |
| AvailabilityPage.Grid.AvailabilityData | frontend/src/components/AvailabilityPage.js:68-77 | the submit loop produces one entry per slot, in order, carrying its day, start and end |
| AvailabilityPage.Grid.Submit | frontend/src/components/AvailabilityPage.js:54-88 | a request is sent exactly when a CSRF token is found; it carries that token and every slot, in order, without its id |
| AvailabilityPage.Click | frontend/src/components/AvailabilityPage.js:180 | after a click on any button and the effect that follows, on any list (a fetched one may hold two slots in one cell), `selected` is the map rebuilt from the toggled list and colours exactly its cells; a page with one slot per cell keeps the grid invariant |
| Models.DayName | api/models.py:63-71 | a day is stored as one of the seven choices, within `max_length=9` |
| Models.DayFromName | api/models.py:63-71 | the choice check accepts a text exactly when it is one of the seven day names, and reads it as that day |
| Models.DayNameRoundTrip | api/models.py:63-71 | a stored day name reads back as the same day |
| Models.Pad2 | api/models.py:72-73 | each time component is written as two digits with its value |
| Models.IsoFormat | api/models.py:72-73 | a time field is written `HH:MM:SS`: eight characters, colons at 2 and 5, each component two digits holding its value |
| Models.NewTask | api/models.py:51-56 | a new task takes the given fields; otherwise `is_completed` is false, `due_date` is null and `priority` is `"medium"` |
| Models.UsersOkAdd | api/models.py:31-32 | a user with an unused username and email, under a fresh key, keeps both unique |
| Models.PeopleOkMoreUsers | api/models.py:46 | adding a user leaves every Person link intact |
| Models.PeopleOkAdd | api/models.py:45-61 | a new Person for a user without one, with empty task and availability lists, keeps the one-to-one link |
| Models.PeopleOkReplace | api/models.py:58-61 | replacing a Person's task or availability list keeps the links |
| Models.PeopleOkDelete | api/models.py:45-61 | deleting a user together with its Person and that Person's rows keeps the links |
| Models.PeopleOkDeleteLoner | api/models.py:46 | deleting a user without a Person keeps the links |
| Models.UsersOkDelete | api/models.py:31-32 | deleting a user keeps usernames and emails unique |
| Models.RowsOkDelete | api/models.py:58-61 | dropping or emptying a Person's lists keeps every other row's key distinct and below the counter |
| Models.RowsOkAddTask | api/models.py:51-58 | a task saved under the next key keeps task keys distinct |
| Models.RowsOkRemoveTask | api/models.py:51-58 | deleting a task keeps task keys distinct |
| Models.RowsOkAddAvailability | api/models.py:60-73 | an availability saved under the next key keeps keys below the counter |
| Models.Database.constructor | api/models.py:30-73 | an empty database satisfies the constraints of the schema |
| Models.Database.CreateUser | api/models.py:15-22 | `create_user`: an empty email fails with `ValueError` and changes nothing; a taken username or email fails on save and changes nothing; otherwise exactly one user is added, under the next key, with the normalised email, the hashed password and the defaults for the extra fields not given |
| Models.Database.CreateSuperuser | api/models.py:24-28 | `create_superuser`: an empty email fails with `ValueError` and a taken username or email fails on save, changing nothing; otherwise exactly one user is added under the next key, with the normalised email and the hashed password, `is_staff` and `is_superuser` true unless given, `is_active` true unless given; nothing else changes |
| Models.Database.AddPerson | api/serializers.py:35 | `Person.objects.create`: one new Person under the next key, linked both ways to the user, with empty lists; nothing else changes |
| Models.Database.DeleteUser | api/models.py:45-61 | deleting a user cascades to its Person and that Person's tasks and availabilities, and to nothing else |
| Models.Database.InsertTask | api/views.py:206 | saving a task appends exactly one row, with the next key and the defaults, to that Person's tasks; nothing else changes |
| Models.Database.DeleteTask | api/views.py:241 | `task.delete()` removes exactly that row from that Person's tasks; nothing else changes |
| Models.Database.ClearAvailabilities | api/views.py:307 | `person.availabilities.all().delete()` empties that Person's availabilities and nothing else |
| Models.Database.InsertAvailability | api/views.py:312 | saving an availability appends exactly one row, with the next key, to that Person's list; nothing else changes |
| ToDoListPage.PriorityColor | frontend/src/components/ToDoListPage.js:108-119 | each of `low`, `medium` and `high` has its own colour; every other value gets `#31A26B`, in both directions |
| ToDoListPage.ToDoList.constructor | frontend/src/components/ToDoListPage.js:6-13 | the initial state: empty title, priority `medium`, due time now, no error, no tasks, loading |
| ToDoListPage.ToDoList.ValidateForm | frontend/src/components/ToDoListPage.js:41-51 | the form passes exactly when the title is non-empty (the `NaN` test always holds); `titleError` holds its message exactly when the form fails |
| ToDoListPage.ToDoList.HandleSubmit | frontend/src/components/ToDoListPage.js:54-98 | a request is sent exactly when the title is non-empty and a CSRF token is found, and an empty title shows its message; it posts the title, the due time, the priority and `is_completed: false` |
| ToDoListPage.ToDoList.RemoveTask | frontend/src/components/ToDoListPage.js:121-157 | the entry at the index leaves the list and the others stay in order; the request, sent only when a token is found, names the id of the removed entry |
| ToDoListPage.ToDoList.Load | frontend/src/components/ToDoListPage.js:18-38 | the fetched list replaces the page's list, and loading ends whether or not the fetch succeeded |
| ToDoListPage.RemoveTaskKeepsOthers | frontend/src/components/ToDoListPage.js:124 | removal by position keeps every other entry in order, so the old list is the new list plus the removed entry |
| CreateUserPage.SignUpForm.constructor | frontend/src/components/CreateUserPage.js:7-15 | all fields and errors start empty |
| CreateUserPage.SignUpForm.ValidateForm | frontend/src/components/CreateUserPage.js:25-53 | each of the four errors holds its message exactly when its own check fails, independently of the others; the form passes exactly when all four checks pass |
| CreateUserPage.SignUpForm.HandleSubmit | frontend/src/components/CreateUserPage.js:56-85 | the availability check is asked only for a valid form; the user is created, and the page moves to `/home`, only when the check answers ok; an invalid form sends nothing and shows the four messages for exactly the checks that failed; a refusal sets both the username error and the email error to "Username or Email is taken." |
| LoginPage.LoginForm.constructor | frontend/src/components/LoginPage.js:7-11 | fields and errors start empty |
| LoginPage.LoginForm.ValidateForm | frontend/src/components/LoginPage.js:21-35 | `usernameError` is set exactly when the username is empty; `passwordError` exactly when the password is under 8 code units; the form passes exactly when neither is set |
| LoginPage.LoginForm.HandleSubmit | frontend/src/components/LoginPage.js:38-58 | an invalid form sends nothing and shows the empty-username and short-password messages for exactly the checks that failed; the page moves to `/` only on an ok answer; a refusal sets both errors to "Username/Password is not recognized." |
| Serializers.CleanText | api/serializers.py:48 | a `CharField` accepts a text exactly when its stripped form is non-blank and free of NUL, and keeps that stripped form |
| Serializers.CharFieldValue | api/serializers.py:48 | an accepted value is stripped, non-empty, within `max_length` and free of NUL; a string is accepted exactly when its cleaned text fits |
| Serializers.NameField | api/serializers.py:73-76 | `name` is required and accepted exactly when the `CharField` accepts it, as that cleaned text: stripped, non-empty and at most 100 characters |
| Serializers.IsCompletedField | api/serializers.py:73-76 | `is_completed` is skipped exactly when left out and `null` is refused; any other value is accepted exactly when the boolean parser reads it, as that boolean |
| Serializers.DueDateField | api/serializers.py:73-76 | `due_date` is skipped exactly when left out and `null` is accepted as no due date; any other value is refused exactly when the date-time parser cannot read it, and otherwise accepted as the instant read |
| Serializers.PriorityField | api/serializers.py:73-76 | `priority` is skipped exactly when left out; otherwise it is accepted exactly when the `CharField` accepts it, as that cleaned text of at most 100 characters |
| Serializers.ValidateTask | api/serializers.py:73-76 | a non-object is refused as a whole. An object is accepted exactly when `name` is given and no field is refused, and the data is then the four fields' values, a field left out staying out so the model default applies. Otherwise the errors name exactly the refused fields |
| Serializers.TaskFieldsOnly | api/serializers.py:76 | fields other than the four declared ones do not affect the verdict |
| Serializers.NameOnlyAccepted | api/serializers.py:73-76 | a body holding only a name the `CharField` accepts is a valid task, with the stripped name and every other field left to the model default |
| Serializers.DayField | api/serializers.py:78-81 | `day_of_week` is required and accepted exactly when it is one of the seven day names, which it reads as that day |
| Serializers.TimeField | api/serializers.py:78-81 | a time is accepted exactly when it is present, not `null`, and read by the parser as a valid time, which is the value |
| Serializers.ValidateAvailability | api/serializers.py:78-81 | a non-object is refused as a whole. An object is accepted exactly when all three fields are, and the entry is their day and times. Otherwise the errors name exactly the refused fields |
| Serializers.AvailabilityFieldsOnly | api/serializers.py:81 | fields other than the three declared ones do not affect the verdict |
| Serializers.WellFormedEntryAccepted | api/serializers.py:78-81 | an entry naming a day exactly, with two times the parser reads as valid, is accepted as that day and those times |
| Serializers.CleanExistence | api/serializers.py:48-49 | the data passes exactly when the username is left out or fits its 150-character `CharField`, and the email is left out or its stripped text is an email; passing data is stripped and keeps which fields were given; otherwise the errors name exactly the failing fields |
| Serializers.ValidateExistence | api/serializers.py:51-71 | a taken username is reported first, with an empty email message; a taken email alone is reported with an empty username message; otherwise the data is returned unchanged |
| Serializers.UncheckedUsernameIgnored | api/serializers.py:58-62 | an absent or empty username is never looked up |
| Serializers.UncheckedEmailIgnored | api/serializers.py:66-67 | an absent or empty email is never looked up |
| Serializers.CheckExistence | api/serializers.py:40-71 | `is_valid()`: field errors come first; clean data goes on to `validate`, so it passes exactly when clean and holding no taken value, and is otherwise refused with the taken message |
| Serializers.CreatePerson | api/serializers.py:21-37 | `create` adds exactly one user, with the default extra fields, and exactly one Person linked to it, with empty lists, and returns the Person's key; when `create_user` fails, nothing changes |
| Schemas.TaskSchemaRoundTrip | api/schemas.py:16-24 | `TaskSchema.model_validate` renames `id` to `task_id` and copies every other field except `created_at`: the record and that time give the row back |
| Schemas.TaskSchemaSame | api/schemas.py:16-24 | two tasks give the same record exactly when they differ at most in `created_at` |
| Schemas.AvailRowOf | api/schemas.py:36-43 | an availability record describes a row exactly when its day is one of the seven |
| Schemas.AvailabilitySchemaRoundTrip | api/schemas.py:36-43 | `AvailabilitySchema.model_validate` renames `id` to `avail_id` and loses nothing |
| Schemas.PersonSchemaOf | api/schemas.py:55-62 | `PersonSchema.model_validate` takes the username and email from the user, and gives one task entry and one availability entry per row, in order |
| Schemas.TaskSchemas | api/schemas.py:60 | one task record per row, in order |
| Schemas.AvailabilitySchemas | api/schemas.py:61 | one availability record per row, in order |
| Schemas.PersonSchemaRecoversAvailabilities | api/schemas.py:61 | a Person's availability rows can be read back from its record, in order |
| Schemas.PersonSchemaTaskIds | api/schemas.py:60 | a Person's task ids in the record are distinct |
| Views.InsertPermutes | api/views.py:178 | one insertion step of the sort loses nothing and adds only the inserted task |
| Views.SortByDue | api/views.py:178 | `sorted` gives a permutation of its input |
| Views.InsertSorted | api/views.py:178 | inserting into a sorted list keeps it sorted by due date |
| Views.SortByDueSorted | api/views.py:178 | the sorted listing is in ascending order of due date |
| Views.InsertStable | api/views.py:178 | insertion keeps the order of tasks with equal due dates |
| Views.SortByDueStable | api/views.py:178 | the sort is stable: tasks due at the same time keep their original order |
| Views.GetTasks | api/views.py:161-184 | an anonymous caller gets 401 and nothing else does; the caller's listing is 200 with exactly that Person's tasks as records, as a permutation |
| Views.GetTasksOrder | api/views.py:161-178 | the caller's listing is sorted by due date, and tasks due at the same time keep their stored order |
| Views.AddTask | api/views.py:194-209 | the checks run in order: 401, then 404 without a Person, then 400 with the serializer's errors, and none of these changes anything; 201 exactly when a Person exists and the body is valid, in which case one task row is appended to the caller's tasks and nothing else changes |
| Views.TaskKey | api/views.py:229-236 | the key `get(id=task_id)` looks up: an integer as is, `true` as 1, a text of digits as its value |
| Views.IndexOfTask | api/views.py:236 | `Task.objects.get(id=…, person=person)` finds the first row with that key, or none when no row has it |
| Views.RemoveFoundTask | api/views.py:236-241 | keys are distinct, so deleting the row found removes every row with that key and keeps all the others in order |
| Views.RemoveTask | api/views.py:219-243 | the checks run in order: 401, then 404 without a Person, both before the body is read, then 400 when `task_id` is missing or falsy (key 0 included), then 404 when the caller has no such task, and none of these changes anything; past the 400 the answer is always 200 or 404, and on 200 exactly that task of the caller is deleted, and no other user's data changes |
| Views.Entries | api/views.py:266-275 | one entry per availability, in order |
| Views.GetAvailabilities | api/views.py:260-281 | an anonymous caller gets 401; otherwise 200 with one entry per availability of the caller, in order, with its key, its day, its start time and its end time |
| Views.ValidationsAt | api/views.py:309-311 | the verdict on each entry is the serializer's verdict on that entry |
| Views.FirstInvalid | api/views.py:309-314 | the first entry refused; every earlier entry passed |
| Views.SavedRows | api/views.py:309-312 | the rows saved for passing entries, one per entry in order, with keys counting up |
| Views.SavedRowsSnoc | api/views.py:312 | saving one more entry appends its row under the next key |
| Views.SaveAvailabilities | api/views.py:291-315 | the checks run in order: 401, then 404 without a Person, then 400 for a non-list, all before anything changes. Otherwise the availabilities are replaced by the rows of the entries before the first refused one, and the answer is 400 with that entry's errors, or 201 when every entry passes. Other tables do not change |
| Views.ReplaceAvailabilities | api/views.py:307-315 | the delete followed by the save loop leaves exactly the rows of the entries before the first refused one, with keys counting up |
| Views.SaveEntry | api/views.py:310-312 | one loop step appends the row of a passing entry |
| Views.ExistenceOfQuery | api/views.py:53-61 | only query parameters that are present and non-empty are passed on, unchanged |
| Views.CheckPersonExistence | api/views.py:53-71 | 200 exactly when the existence check passes against the users that have a Person; otherwise 400 carrying the check's field errors, or its username and email messages for a taken value |

## Left out

- Network I/O is not modelled:
  - `fetch`, JSON encoding, `response.json()`;
  - `window.location.reload` and `navigate` are not modelled as such; the route a page moves to is part of its outcome;
  - the server's answers are parameters (`checkOk`, `loginOk`, `fetched`);
  - the query strings of `CreateUserPage.CheckQuery` and `LoginPage.LoginQuery` carry the raw fields. The pages build those URLs by plain concatenation, without encoding, so a field holding `&`, `+` or `#` reaches the server changed; that change is not modelled.
- React rendering, JSX and styles are not modelled, nor the scheduling of effects and the batching of state updates. Each setter is one atomic assignment, and the list effect of the availability page is called explicitly (`Click`, `Load`).
- `formatDate` and the `DateTimePicker` are not modelled: they rely on `Intl.DateTimeFormat` and a widget. The due time is an abstract instant.
- The following are parameters rather than models:
  - Django authentication (`authenticate`, `login`, `logout`);
  - `set_password` hashing, via `hashedPassword`;
  - `normalize_email`, via `normalizeEmail`;
  - the framework's boolean, date-time and time parsers and the `EmailValidator` (`Serializers.Parsers`).
- `request.user` is the `Views.Caller` parameter.
- JSON numbers are integers; floating point is not modelled.
- Times have no microseconds.
- `parseInt` reads arbitrarily long digit runs exactly; the rounding of very large numbers to double precision is not modelled.
- The database's ordering is a modelling choice. `person.tasks.all()` and `person.availabilities.all()` are taken to yield rows oldest first; the query has no ORDER BY.
- The following are preconditions rather than exceptions:
  - a signed-in user with no Person in `GetTasks` and `GetAvailabilities` (`request.user.person` raises);
  - a body without the `availabilities` key in `SaveAvailabilities` (`KeyError`);
  - a request body that is not a JSON object, in `RemoveTask` and `SaveAvailabilities`, for a caller with a Person (`.get` or the subscript raises);
  - two or more tasks of which one has no due date in `GetTasks` (`sorted` raises `TypeError`);
  - in `RemoveTask`, a truthy `task_id` other than an integer, `true` or a plain text of decimal digits. `int()` accepts more texts (surrounding white space, a sign, underscores between digits); those are left out. Texts it cannot convert make the lookup raise.
- `generate_unique_id` is not modelled: it draws random UUIDs in a retry loop, and nothing calls it. Primary keys come from per-table counters.
- Several pieces are not part of this model: api/agent.py, `GetRecommendationView`, RecommendationPage.js, FrontPage.js (whose CSRF lookup is the one `Cookies` models), Home.js, App.js and the route tables.
- Several views are not modelled: `CreatePersonView`, `LoginPersonView`, `CheckLoggedInView` and `LogoutPersonView`. They only wrap a serializer or the authentication library:
  - `CreatePersonSerializer.create` is `Serializers.CreatePerson`;
  - the log-in answer is the `loginOk` parameter of `LoginPage.LoginForm.HandleSubmit`.
- `PersonSerializer` is not modelled; it only echoes the Person's fields.
- AvailabilityPage.Grid.Toggle and AvailabilityPage.Toggled take any cell satisfying `IsCell`, not only the buttons of the grid; `GridCell` shows every button is one.
- AvailabilityPage.Grid.Toggle and AvailabilityPage.Click: on a fetched list with two slots in one cell (`09:00:00` and `09:30:00` on the same day), a click removes only the first. The model states the resulting list for any list, but proves the grid invariant only for lists with at most one slot per cell, which the page's own clicks keep.
- Views.SaveAvailabilities: the parsed request body is assumed to arrive as a value. The serializer is run on every entry up front (`Validations`), with the same verdicts, because validation does not read the database.
