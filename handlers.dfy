/** The request-decision logic of the four routes in src/index.ts, as
    functions of the request, the contents of the `users` table and the
    auth helpers. Each handler is a chain of early returns; the order of
    the checks decides which error a caller sees. */
module Handlers {
  import opened Wrappers
  import opened Crypto
  import opened Users
  import opened Session

  const MIN_PASSWORD_LENGTH := 8
  const MISMATCH_MESSAGE := "Passwords do not match"
  const WEAK_PASSWORD_MESSAGE := "Password must be at least 8 characters"
  const REGISTERED_MESSAGE := "User registered"
  const LOGIN_MESSAGE := "Login successful"

  datatype ErrorCode =
    | InvalidInput
    | EmailAlreadyExists
    | WeakPassword
    | InvalidCredentials
    | Unauthorized
    | UserNotFound

  /** The `error` string each code is sent as. */
  function ErrorTag(code: ErrorCode): string {
    match code
    case InvalidInput => "INVALID_INPUT"
    case EmailAlreadyExists => "EMAIL_ALREADY_EXISTS"
    case WeakPassword => "WEAK_PASSWORD"
    case InvalidCredentials => "INVALID_CREDENTIALS"
    case Unauthorized => "UNAUTHORIZED"
    case UserNotFound => "USER_NOT_FOUND"
  }

  /** The JSON body of a response (`NoContent` is `c.body(null, 204)`). */
  datatype Body =
    | NoContent
    | Failure(error: ErrorCode, detail: Option<string>)
    | Authenticated(message: string, user: Profile, token: string)
    | UserBody(user: Profile)

  datatype Response = Response(status: int, body: Body)

  /** The fields of the register request body. */
  datatype RegisterRequest = RegisterRequest(
    name: Option<string>,
    email: Option<string>,
    phoneNumber: Option<string>,
    password: Option<string>,
    confirmPassword: Option<string>,
    profileImageUrl: Option<string>)

  /** The fields of the login request body. */
  datatype LoginRequest = LoginRequest(email: Option<string>, password: Option<string>)

  /** A request field that is truthy in JavaScript: present and not "". */
  predicate Present(field: Option<string>) {
    field.Some? && field.value != ""
  }

  /** A registration that has passed every check (src/index.ts:13-26). */
  datatype NewUser = NewUser(
    name: string,
    email: string,
    phoneNumber: Option<string>,
    password: string,
    profileImageUrl: Option<string>)

  /** The four early returns of the register handler, in source order;
      `Ok` carries the fields to insert. */
  function RegisterCheck(req: RegisterRequest, rows: seq<UserRow>): Result<NewUser, Response> {
    if !Present(req.name) || !Present(req.email) || !Present(req.password) || !Present(req.confirmPassword) then
      Err(Response(400, Failure(InvalidInput, None)))
    else if req.password.value != req.confirmPassword.value then
      Err(Response(400, Failure(InvalidInput, Some(MISMATCH_MESSAGE))))
    else if Select(rows, ByEmail(req.email.value)).Some? then
      Err(Response(409, Failure(EmailAlreadyExists, None)))
    else if |req.password.value| < MIN_PASSWORD_LENGTH then
      Err(Response(400, Failure(WeakPassword, Some(WEAK_PASSWORD_MESSAGE))))
    else
      Ok(NewUser(req.name.value, req.email.value, req.phoneNumber, req.password.value, req.profileImageUrl))
  }

  /** The row `INSERT ... RETURNING` creates for an accepted registration. */
  function NewRow(user: NewUser, id: int, h: Helpers, salt: Salt, now: Time): UserRow {
    UserRow(id, user.name, user.email, user.phoneNumber, h.hash(user.password, salt), user.profileImageUrl, now)
  }

  /** The response of a register request together with the table (and the
      id counter) it leaves behind. */
  datatype Registration = Registration(response: Response, users: seq<UserRow>, nextId: int)

  function Register(req: RegisterRequest, rows: seq<UserRow>, nextId: int, h: Helpers, salt: Salt, now: Time): Registration {
    match RegisterCheck(req, rows)
    case Err(rejection) => Registration(rejection, rows, nextId)
    case Ok(user) =>
      var row := NewRow(user, nextId, h, salt, now);
      var token := h.sign(Identity(row.id, row.email), now);
      Registration(Response(201, Authenticated(REGISTERED_MESSAGE, ToProfile(row), token)), rows + [row], nextId + 1)
  }

  /** The login handler: required fields, lookup by email, password
      comparison, then a token for `{ userId, email }`. */
  function Login(req: LoginRequest, rows: seq<UserRow>, h: Helpers, now: Time): Response {
    if !Present(req.email) || !Present(req.password) then
      Response(400, Failure(InvalidInput, None))
    else match Select(rows, ByEmail(req.email.value))
      case None => Response(401, Failure(InvalidCredentials, None))
      case Some(user) =>
        if !h.compare(req.password.value, user.passwordHash) then
          Response(401, Failure(InvalidCredentials, None))
        else
          Response(200, Authenticated(LOGIN_MESSAGE, ToProfile(user), h.sign(Identity(user.id, user.email), now)))
  }

  /** Tokens are stateless, so logging out does nothing but answer 204. */
  function Logout(header: Option<string>): Response {
    Response(204, NoContent)
  }

  /** The profile handler: the bearer guard, then a lookup by the token's `userId`. */
  function GetProfile(header: Option<string>, rows: seq<UserRow>, h: Helpers, now: Time): Response {
    match GetUserFromAuth(header, h, now)
    case None => Response(401, Failure(Unauthorized, None))
    case Some(payload) =>
      match Select(rows, ById(payload.userId.value))
      case None => Response(404, Failure(UserNotFound, None))
      case Some(user) => Response(200, UserBody(ToProfile(user)))
  }
}
