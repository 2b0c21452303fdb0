/** The records of the in-memory backend, the shape of its HTTP answers and the
    request values a handler reads from a JSON body or a query string. */
module Model {

  datatype Option<+T> = None | Some(value: T)

  /** A handler's answer: a success status with its payload, or an error status
      with the message the backend sends in the JSON body. */
  datatype Response<+T> = Ok(status: int, payload: T) | Err(status: int, message: string)

  /** A stored account. `passwordHash` is the output of the password hash, never
      the raw password. */
  datatype User = User(id: string, name: string, email: string, passwordHash: string, createdAt: nat)

  /** The public view of an account that register and login send back. */
  datatype Profile = Profile(id: string, name: string, email: string)

  /** A stored task; `dueDate` is `None` for JSON null. */
  datatype Task = Task(
    id: string,
    userId: string,
    title: string,
    description: string,
    dueDate: Option<string>,
    completed: bool,
    createdAt: nat)

  /** The fields a PUT body may carry: `None` is a field that is absent
      (undefined), and for `dueDate` the inner `None` is an explicit null. */
  datatype TaskPatch = TaskPatch(
    title: Option<string>,
    description: Option<string>,
    completed: Option<bool>,
    dueDate: Option<Option<string>>)

  /** A scalar JSON value as the PATCH handler receives it, with `JUndefined`
      for a field that is not in the body. */
  datatype JsonValue = JUndefined | JNull | JBool(b: bool) | JNumber(n: int) | JString(s: string)

  /** JavaScript truthiness of an optional string field: a field that is absent,
      null or the empty string counts as missing. */
  predicate Given(field: Option<string>)
  {
    field.Some? && field.value != ""
  }

  function View(u: User): (p: Profile)
  {
    Profile(u.id, u.name, u.email)
  }

  /** Tasks in the order they were created: strictly increasing timestamps. */
  ghost predicate OldestFirst(s: seq<Task>)
  {
    forall i, j :: 0 <= i < j < |s| ==> s[i].createdAt < s[j].createdAt
  }

  /** Tasks with the most recent first; equal timestamps may stand in any order. */
  ghost predicate NewestFirst(s: seq<Task>)
  {
    forall i, j :: 0 <= i < j < |s| ==> s[i].createdAt >= s[j].createdAt
  }

  /** No two tasks share an id. */
  ghost predicate DistinctTaskIds(s: seq<Task>)
  {
    forall i, j :: 0 <= i < j < |s| ==> s[i].id != s[j].id
  }

  const MissingRegistrationFields := "Nome, email e senha são obrigatórios"
  const PasswordTooShort := "A senha deve ter pelo menos 6 caracteres"
  const EmailTaken := "Usuário já cadastrado com este email"
  const MissingLoginFields := "Email e senha são obrigatórios"
  const InvalidCredentials := "Email ou senha inválidos"
  const MissingTaskFields := "ID do usuário e título são obrigatórios"
  const UserNotFound := "Usuário não encontrado"
  const TaskNotFound := "Tarefa não encontrada"
  const CompletedNotBoolean := "O campo \"completed\" é obrigatório e deve ser um boolean"

  /** The shortest password register accepts. */
  const MinPasswordLength := 6
}
