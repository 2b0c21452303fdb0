/** Clients of the store: the walk-through a user of the web page makes
    (register, log in, create a task, mark it done, filter by status, delete),
    with every answer derived from the handlers' contracts alone. */
module Scenarios {
  import opened Model
  import opened Filters
  import opened Queries
  import opened Server

  /** A second registration with a taken email fails whatever the other
      fields, and a 5-character password is refused. */
  method RegistrationScenario(hash: (string, nat) -> string, matches: (string, string) -> bool)
    requires forall pw, salt :: matches(pw, hash(pw, salt))
  {
    var store := new Store(hash, matches);
    var maria := store.Register(Some("Maria"), Some("maria@x.com"), Some("123456"), "u1", 7);
    assert maria == Ok(201, Profile("u1", "Maria", "maria@x.com"));
    assert store.users == [User("u1", "Maria", "maria@x.com", hash("123456", 7), 0)];
    var maria2 := store.Register(Some("Outra"), Some("maria@x.com"), Some("654321"), "u2", 8);
    assert maria2 == Err(400, EmailTaken);
    var ana := store.Register(Some("Ana"), Some("ana@x.com"), Some("12345"), "u3", 9);
    assert ana == Err(400, PasswordTooShort);
  }

  /** Login with the registered password succeeds and an unknown email gets
      the credentials message. */
  method LoginScenario(store: Store)
    requires store.Valid()
    requires store.users == [User("u1", "Maria", "maria@x.com", store.hash("123456", 7), 0)]
  {
    var login := store.Login(Some("maria@x.com"), Some("123456"));
    assert store.users[0] in store.users;
    assert login == Ok(200, Profile("u1", "Maria", "maria@x.com"));
    var stranger := store.Login(Some("ana@x.com"), Some("123456"));
    assert stranger == Err(401, InvalidCredentials);
  }

  /** A new task is pending, with an empty description and a null due date,
      and shows under "pending". */
  method CreationScenario(store: Store)
    requires store.Valid() && store.tasks == []
    requires FindUserById(store.users, "u1").Some? && store.Fresh("t1")
    modifies store
  {
    var created := store.CreateTask(Some("u1"), Some("Buy milk"), None, None, "t1");
    assert created.Ok? && !created.payload.completed;
    var milk := created.payload;
    assert milk.description == "" && milk.dueDate == None;
    assert store.tasks == [milk];

    var pending := store.ListTasks("u1", Some("pending"), None);
    assert pending.Ok? && milk in pending.payload;
  }

  /** After a pending task is marked done, it shows under "completed" and no
      longer under "pending". */
  method CompletionScenario(store: Store, milk: Task)
    requires store.Valid() && store.tasks == [milk]
    requires milk.id == "t1" && milk.userId == "u1" && !milk.completed
    requires FindUserById(store.users, "u1").Some?
    modifies store
  {
    var patched := store.SetCompleted("t1", JBool(true));
    var finished := milk.(completed := true);
    assert patched == Ok(200, finished) && store.tasks == [finished];

    var done := store.ListTasks("u1", Some("completed"), None);
    assert done.Ok? && finished in done.payload;
    var nowPending := store.ListTasks("u1", Some("pending"), None);
    assert nowPending.Ok? && finished !in nowPending.payload;
    assert forall t :: t in nowPending.payload ==> t == finished;
  }

  /** Deleting an unknown id is a 404 that changes nothing; deleting all of a
      user's tasks reports how many there were. */
  method DeletionScenario(store: Store)
    requires store.Valid()
    requires FindUserById(store.users, "u1").Some?
    requires store.tasks == [Task("t1", "u1", "Buy milk", "", None, true, 0)]
    modifies store
  {
    var gone := store.DeleteTaskById("t9");
    assert gone == Err(404, TaskNotFound) && |store.tasks| == 1;
    var before := store.tasks;
    assert before[1..] == [] && Filter(before[1..], OwnedBy("u1")) == [];
    assert Filter(before, OwnedBy("u1")) == before;
    var cleared := store.DeleteAllTasksOf("u1");
    assert cleared == Ok(200, 1) && store.tasks == [];
  }
}
