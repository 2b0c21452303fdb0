/** The in-memory backend: one store holding the `users` and `tasks` arrays and
    one method per request handler. Every handler either answers with an error
    and changes nothing, or succeeds: register and create task append one
    record, and PUT, PATCH and the two deletes leave the tasks that
    `UpdateTask`, `DeleteTask` and `DeleteAllOf` of module Edits give. */
module Server {
  import opened Model
  import opened Text
  import opened Filters
  import opened Queries
  import opened Edits

  ghost predicate DistinctEmails(users: seq<User>)
  {
    forall i, j :: 0 <= i < j < |users| ==> users[i].email != users[j].email
  }

  ghost predicate DistinctUserIds(users: seq<User>)
  {
    forall i, j :: 0 <= i < j < |users| ==> users[i].id != users[j].id
  }

  /** The records' invariant: emails and ids are unique, tasks are held in
      creation order, timestamps lie in the past of the clock, and every task
      belongs to a registered user. */
  ghost predicate Consistent(users: seq<User>, tasks: seq<Task>, clock: nat)
  {
    && DistinctEmails(users)
    && DistinctUserIds(users)
    && DistinctTaskIds(tasks)
    && OldestFirst(tasks)
    && (forall u :: u in users ==> u.createdAt < clock)
    && (forall t :: t in tasks ==> t.createdAt < clock)
    && (forall t :: t in tasks ==> FindUserById(users, t.userId).Some?)
  }

  /** Registering a user whose email and id are new, stamped with the clock,
      keeps the records consistent once the clock moves on. */
  lemma RegisterKeepsConsistent(users: seq<User>, tasks: seq<Task>, clock: nat, u: User)
    requires Consistent(users, tasks, clock)
    requires u.createdAt == clock
    requires forall v :: v in users ==> v.email != u.email && v.id != u.id
    ensures Consistent(users + [u], tasks, clock + 1)
  {
    var users' := users + [u];
    forall i, j | 0 <= i < j < |users'|
      ensures users'[i].email != users'[j].email && users'[i].id != users'[j].id
    {
      if j == |users| {
        assert users'[i] in users;
      }
    }
    forall t | t in tasks ensures FindUserById(users', t.userId).Some? {
      var owner := FindUserById(users, t.userId).value;
      var k :| 0 <= k < |users| && users[k] == owner && owner.id == t.userId;
      assert users'[k] == owner;
    }
  }

  /** Appending a task with a new id, stamped with the clock and owned by a
      registered user, keeps the records consistent once the clock moves on. */
  lemma CreateKeepsConsistent(users: seq<User>, tasks: seq<Task>, clock: nat, t: Task)
    requires Consistent(users, tasks, clock)
    requires t.createdAt == clock
    requires FindUserById(users, t.userId).Some?
    requires forall o :: o in tasks ==> o.id != t.id
    ensures Consistent(users, tasks + [t], clock + 1)
  {
    var tasks' := tasks + [t];
    forall i, j | 0 <= i < j < |tasks'|
      ensures tasks'[i].id != tasks'[j].id && tasks'[i].createdAt < tasks'[j].createdAt
    {
      if j == |tasks| {
        assert tasks'[i] in tasks;
      }
    }
  }

  /** Replacing the tasks by ones that keep ids distinct and creation order,
      each carrying the owner and timestamp of a stored task, keeps the
      records consistent. */
  lemma TaskEditKeepsConsistent(users: seq<User>, tasks: seq<Task>, clock: nat, tasks': seq<Task>)
    requires Consistent(users, tasks, clock)
    requires DistinctTaskIds(tasks') && OldestFirst(tasks')
    requires forall t :: t in tasks' ==>
      exists o :: o in tasks && o.userId == t.userId && o.createdAt == t.createdAt
    ensures Consistent(users, tasks', clock)
  {
    forall t | t in tasks' ensures t.createdAt < clock && FindUserById(users, t.userId).Some? {
      var o :| o in tasks && o.userId == t.userId && o.createdAt == t.createdAt;
    }
  }

  /** Keeping only stored tasks, with ids distinct and in creation order,
      keeps the records consistent. */
  lemma RemovalKeepsConsistent(users: seq<User>, tasks: seq<Task>, clock: nat, tasks': seq<Task>)
    requires Consistent(users, tasks, clock)
    requires DistinctTaskIds(tasks') && OldestFirst(tasks')
    requires forall t :: t in tasks' ==> t in tasks
    ensures Consistent(users, tasks', clock)
  {
  }

  /** The PUT handler's field-by-field overwrite of one task: each field the
      body supplies replaces the stored one, in the handler's order. */
  method OverwriteFields(t: Task, patch: TaskPatch) returns (task: Task)
    ensures task == ApplyPatch(t, patch)
  {
    task := t;
    if patch.title.Some? {
      task := task.(title := patch.title.value);
    }
    if patch.description.Some? {
      task := task.(description := patch.description.value);
    }
    if patch.completed.Some? {
      task := task.(completed := patch.completed.value);
    }
    if patch.dueDate.Some? {
      task := task.(dueDate := patch.dueDate.value);
    }
  }

  class Store {
    var users: seq<User>
    var tasks: seq<Task>
    /** Logical time standing for `new Date()`: the timestamp the next created
        record gets; it moves forward on every creation. */
    var clock: nat
    /** The password hash, with the salt it draws; stands for `bcrypt.hash`. */
    const hash: (string, nat) -> string
    /** The password check; stands for `bcrypt.compare`. */
    const matches: (string, string) -> bool

    ghost predicate HashSound()
      reads this
    {
      forall pw, salt :: matches(pw, hash(pw, salt))
    }

    /** The store's invariant: the password check accepts every hash of its
        password, and the records are `Consistent`. */
    ghost predicate Valid()
      reads this
    {
      HashSound() && Consistent(users, tasks, clock)
    }

    /** An id that no stored user or task carries, as `generateId` yields. */
    ghost predicate Fresh(id: string)
      reads this
    {
      (forall u :: u in users ==> u.id != id) && (forall t :: t in tasks ==> t.id != id)
    }

    constructor (hash: (string, nat) -> string, matches: (string, string) -> bool)
      requires forall pw, salt :: matches(pw, hash(pw, salt))
      ensures Valid()
      ensures users == [] && tasks == [] && clock == 0
      ensures this.hash == hash && this.matches == matches
    {
      this.hash := hash;
      this.matches := matches;
      users := [];
      tasks := [];
      clock := 0;
    }

    /** POST /api/register. */
    method Register(name: Option<string>, email: Option<string>, password: Option<string>, id: string, salt: nat)
      returns (r: Response<Profile>)
      requires Valid()
      requires Fresh(id)
      modifies this
      ensures Valid() && DistinctEmails(users)
      ensures tasks == old(tasks)
      ensures !Given(name) || !Given(email) || !Given(password) ==>
        r == Err(400, MissingRegistrationFields) && unchanged(this)
      ensures Given(name) && Given(email) && Given(password) && |password.value| < MinPasswordLength ==>
        r == Err(400, PasswordTooShort) && unchanged(this)
      ensures Given(name) && Given(email) && Given(password) && |password.value| >= MinPasswordLength
              && (exists u :: u in old(users) && u.email == email.value) ==>
        r == Err(400, EmailTaken) && unchanged(this)
      ensures r.Ok? <==>
        Given(name) && Given(email) && Given(password) && |password.value| >= MinPasswordLength
        && forall u :: u in old(users) ==> u.email != email.value
      ensures r.Ok? ==>
        && r == Ok(201, Profile(id, name.value, email.value))
        && users == old(users) + [User(id, name.value, email.value, hash(password.value, salt), old(clock))]
        && clock == old(clock) + 1
    {
      if !Given(name) || !Given(email) || !Given(password) {
        return Err(400, MissingRegistrationFields);
      }
      if |password.value| < MinPasswordLength {
        return Err(400, PasswordTooShort);
      }
      if FindUserByEmail(users, email.value).Some? {
        return Err(400, EmailTaken);
      }
      var hashed := hash(password.value, salt);
      var newUser := User(id, name.value, email.value, hashed, clock);
      RegisterKeepsConsistent(users, tasks, clock, newUser);
      users := users + [newUser];
      clock := clock + 1;
      r := Ok(201, Profile(newUser.id, newUser.name, newUser.email));
    }

    /** POST /api/login: an unknown email and a wrong password get the same answer. */
    method Login(email: Option<string>, password: Option<string>) returns (r: Response<Profile>)
      requires Valid()
      ensures !Given(email) || !Given(password) ==> r == Err(400, MissingLoginFields)
      ensures Given(email) && Given(password) ==>
        (r.Ok? <==> exists u :: u in users && u.email == email.value && matches(password.value, u.passwordHash))
      ensures Given(email) && Given(password) && (forall u :: u in users ==> u.email != email.value) ==>
        r == Err(401, InvalidCredentials)
      ensures Given(email) && Given(password) && r.Err? ==> r == Err(401, InvalidCredentials)
      ensures r.Ok? ==> r.status == 200 && exists u :: u in users && u.email == email.value && r.payload == View(u)
    {
      if !Given(email) || !Given(password) {
        return Err(400, MissingLoginFields);
      }
      var user := FindUserByEmail(users, email.value);
      if user.None? {
        return Err(401, InvalidCredentials);
      }
      var isValidPassword := matches(password.value, user.value.passwordHash);
      if !isValidPassword {
        forall u | u in users && u.email == email.value ensures u == user.value {
          var i :| 0 <= i < |users| && users[i] == u;
          var k :| 0 <= k < |users| && users[k] == user.value;
          assert !(i < k) && !(k < i);
        }
        return Err(401, InvalidCredentials);
      }
      r := Ok(200, View(user.value));
    }

    /** POST /api/tasks. */
    method CreateTask(userId: Option<string>, title: Option<string>, description: Option<string>,
                      dueDate: Option<string>, id: string)
      returns (r: Response<Task>)
      requires Valid()
      requires Fresh(id)
      modifies this
      ensures Valid()
      ensures users == old(users)
      ensures !Given(userId) || !Given(title) ==> r == Err(400, MissingTaskFields) && unchanged(this)
      ensures Given(userId) && Given(title) && FindUserById(users, userId.value).None? ==>
        r == Err(404, UserNotFound) && unchanged(this)
      ensures r.Ok? <==> Given(userId) && Given(title) && FindUserById(users, userId.value).Some?
      ensures r.Ok? ==>
        && r.status == 201
        && tasks == old(tasks) + [r.payload]
        && clock == old(clock) + 1
        && r.payload == Task(id, userId.value, title.value,
                             if Given(description) then description.value else "",
                             if Given(dueDate) then Some(dueDate.value) else None,
                             false, old(clock))
    {
      if !Given(userId) || !Given(title) {
        return Err(400, MissingTaskFields);
      }
      var user := FindUserById(users, userId.value);
      if user.None? {
        return Err(404, UserNotFound);
      }
      var newTask := Task(id, userId.value, title.value,
                          if Given(description) then description.value else "",
                          if Given(dueDate) then Some(dueDate.value) else None,
                          false, clock);
      CreateKeepsConsistent(users, tasks, clock, newTask);
      tasks := tasks + [newTask];
      clock := clock + 1;
      r := Ok(201, newTask);
    }

    /** GET /api/tasks/:userId with the optional `status` and `search` query
        parameters. */
    method ListTasks(userId: string, status: Option<string>, search: Option<string>)
      returns (r: Response<seq<Task>>)
      requires Valid()
      ensures FindUserById(users, userId).None? ==> r == Err(404, UserNotFound)
      ensures FindUserById(users, userId).Some? ==> r.Ok? && r.status == 200
      ensures r.Ok? ==>
        && r.payload == Listing(tasks, userId, status, search)
        && (forall t :: t in r.payload <==>
              t in tasks && t.userId == userId && StatusAdmits(status, t) && SearchAdmits(search, t))
        && NewestFirst(r.payload)
        && r.payload == Reverse(Selected(tasks, userId, status, search))
    {
      var user := FindUserById(users, userId);
      if user.None? {
        return Err(404, UserNotFound);
      }
      var userTasks := FindTasksByUserId(tasks, userId);
      if Given(status) {
        if status.value == "completed" {
          userTasks := Filter(userTasks, Completed);
        } else if status.value == "pending" {
          userTasks := Filter(userTasks, Pending);
        }
      }
      if Given(search) {
        userTasks := Filter(userTasks, TitleContains(Lower(search.value)));
      }
      userTasks := SortNewestFirst(userTasks);
      ListingMembership(tasks, userId, status, search);
      ListingIsNewestFirst(tasks, userId, status, search);
      ListingReversesStorage(tasks, userId, status, search);
      r := Ok(200, userTasks);
    }

    /** PUT /api/tasks/:taskId: overwrites the fields the body supplies on the
        first task with the id, without validating them. */
    method UpdateFields(taskId: string, patch: TaskPatch) returns (r: Response<Task>)
      requires Valid()
      modifies this
      ensures Valid()
      ensures users == old(users) && clock == old(clock)
      ensures tasks == UpdateTask(old(tasks), taskId, patch)
      ensures FindTaskIndex(old(tasks), taskId) == -1 ==> r == Err(404, TaskNotFound) && unchanged(this)
      ensures FindTaskIndex(old(tasks), taskId) != -1 ==>
        var i := FindTaskIndex(old(tasks), taskId);
        r == Ok(200, tasks[i]) && tasks[i] == ApplyPatch(old(tasks)[i], patch)
    {
      var taskIndex := FindTaskIndex(tasks, taskId);
      if taskIndex == -1 {
        return Err(404, TaskNotFound);
      }
      var task := OverwriteFields(tasks[taskIndex], patch);
      UpdateKeepsInvariants(tasks, taskId, patch);
      TaskEditKeepsConsistent(users, tasks, clock, UpdateTask(tasks, taskId, patch));
      tasks := tasks[taskIndex := task];
      assert tasks == UpdateTask(old(tasks), taskId, patch);
      r := Ok(200, tasks[taskIndex]);
    }

    /** PATCH /api/tasks/:taskId: sets only `completed`, which must be a JSON
        boolean; the type is checked before the task is looked up. */
    method SetCompleted(taskId: string, completed: JsonValue) returns (r: Response<Task>)
      requires Valid()
      modifies this
      ensures Valid()
      ensures users == old(users) && clock == old(clock)
      ensures !completed.JBool? ==> r == Err(400, CompletedNotBoolean) && unchanged(this)
      ensures completed.JBool? ==> tasks == UpdateTask(old(tasks), taskId, CompletedOnly(completed.b))
      ensures completed.JBool? && FindTaskIndex(old(tasks), taskId) == -1 ==>
        r == Err(404, TaskNotFound) && unchanged(this)
      ensures completed.JBool? && FindTaskIndex(old(tasks), taskId) != -1 ==>
        var i := FindTaskIndex(old(tasks), taskId);
        r == Ok(200, tasks[i]) && tasks[i] == old(tasks)[i].(completed := completed.b)
    {
      if !completed.JBool? {
        return Err(400, CompletedNotBoolean);
      }
      var taskIndex := FindTaskIndex(tasks, taskId);
      if taskIndex == -1 {
        return Err(404, TaskNotFound);
      }
      UpdateKeepsInvariants(tasks, taskId, CompletedOnly(completed.b));
      TaskEditKeepsConsistent(users, tasks, clock, UpdateTask(tasks, taskId, CompletedOnly(completed.b)));
      tasks := tasks[taskIndex := tasks[taskIndex].(completed := completed.b)];
      assert tasks == UpdateTask(old(tasks), taskId, CompletedOnly(completed.b));
      r := Ok(200, tasks[taskIndex]);
    }

    /** DELETE /api/tasks/:taskId: removes the first task with the id and
        answers with it. */
    method DeleteTaskById(taskId: string) returns (r: Response<Task>)
      requires Valid()
      modifies this
      ensures Valid()
      ensures users == old(users) && clock == old(clock)
      ensures tasks == DeleteTask(old(tasks), taskId)
      ensures FindTaskIndex(old(tasks), taskId) == -1 ==> r == Err(404, TaskNotFound) && unchanged(this)
      ensures FindTaskIndex(old(tasks), taskId) != -1 ==>
        && r == Ok(200, old(tasks)[FindTaskIndex(old(tasks), taskId)])
        && |tasks| == |old(tasks)| - 1
        && multiset(tasks) + multiset{r.payload} == multiset(old(tasks))
        && forall t :: t in tasks ==> t.id != taskId
    {
      var taskIndex := FindTaskIndex(tasks, taskId);
      if taskIndex == -1 {
        return Err(404, TaskNotFound);
      }
      var deletedTask := tasks[taskIndex];
      assert tasks[..taskIndex] + tasks[taskIndex + 1..] == DeleteTask(tasks, taskId);
      DeleteRemovesFirstMatch(tasks, taskId);
      DeleteKeepsInvariants(tasks, taskId);
      RemovalKeepsConsistent(users, tasks, clock, DeleteTask(tasks, taskId));
      tasks := tasks[..taskIndex] + tasks[taskIndex + 1..];
      r := Ok(200, deletedTask);
    }

    /** DELETE /api/tasks/user/:userId: removes every task of the user and
        answers with how many there were. */
    method DeleteAllTasksOf(userId: string) returns (r: Response<nat>)
      requires Valid()
      modifies this
      ensures Valid()
      ensures users == old(users) && clock == old(clock)
      ensures FindUserById(users, userId).None? ==> r == Err(404, UserNotFound) && unchanged(this)
      ensures FindUserById(users, userId).Some? ==>
        && r == Ok(200, |FindTasksByUserId(old(tasks), userId)|)
        && tasks == DeleteAllOf(old(tasks), userId)
        && r.payload + |tasks| == |old(tasks)|
        && FindTasksByUserId(tasks, userId) == []
        && forall other :: other != userId ==>
             FindTasksByUserId(tasks, other) == FindTasksByUserId(old(tasks), other)
    {
      var user := FindUserById(users, userId);
      if user.None? {
        return Err(404, UserNotFound);
      }
      var deletedTasks := FindTasksByUserId(tasks, userId);
      DeleteAllCounts(tasks, userId);
      DeleteAllKeepsInvariants(tasks, userId);
      RemovalKeepsConsistent(users, tasks, clock, DeleteAllOf(tasks, userId));
      tasks := Filter(tasks, NotOwnedBy(userId));
      r := Ok(200, |deletedTasks|);
    }
  }
}
