/** The running service: the `users` table as state, and the register,
    login and profile handlers as methods over it. Register is the only
    handler that writes (`INSERT ... RETURNING`); login and profile only
    read the table, so they have no `modifies` clause. Each handler is
    sequential: every `await` is taken to complete before the next step. */
module Server {
  import opened Wrappers
  import opened Crypto
  import opened Users
  import opened Session
  import opened Handlers
  import Properties

  class App {
    /** The rows of `users`, in table order. */
    var users: seq<UserRow>
    /** The next value of the `id` serial. */
    var nextId: int

    ghost predicate Valid()
      reads this
    {
      WellFormed(users, nextId)
    }

    /** A fresh deployment: an empty table whose serial starts at 1. */
    constructor ()
      ensures Valid() && users == [] && nextId == 1
    {
      users := [];
      nextId := 1;
    }

    /** POST /auth/register. The table gains a row exactly when the
        response is 201, and the table stays well formed. */
    method Register(req: RegisterRequest, h: Helpers, salt: Salt, now: Time) returns (resp: Response)
      requires Valid()
      modifies this
      ensures Valid()
      ensures Registration(resp, users, nextId) == Handlers.Register(req, old(users), old(nextId), h, salt, now)
    {
      Properties.RegisterPreservesWellFormed(req, users, nextId, h, salt, now);
      var checked := RegisterCheck(req, users);
      if checked.Err? {
        return checked.error;
      }
      var user := checked.value;
      var passwordHash := h.hash(user.password, salt);
      var row := UserRow(nextId, user.name, user.email, user.phoneNumber, passwordHash, user.profileImageUrl, now);
      users := users + [row];
      nextId := nextId + 1;
      var token := h.sign(Identity(row.id, row.email), now);
      resp := Response(201, Authenticated(REGISTERED_MESSAGE, ToProfile(row), token));
    }

    /** POST /auth/login; reads the table and never changes it. */
    method Login(req: LoginRequest, h: Helpers, now: Time) returns (resp: Response)
      ensures resp == Handlers.Login(req, users, h, now)
      ensures resp.status in {200, 400, 401}
    {
      if !Present(req.email) || !Present(req.password) {
        return Response(400, Failure(InvalidInput, None));
      }
      var found := Select(users, ByEmail(req.email.value));
      if found.None? {
        return Response(401, Failure(InvalidCredentials, None));
      }
      var user := found.value;
      var valid := h.compare(req.password.value, user.passwordHash);
      if !valid {
        return Response(401, Failure(InvalidCredentials, None));
      }
      var token := h.sign(Identity(user.id, user.email), now);
      resp := Response(200, Authenticated(LOGIN_MESSAGE, ToProfile(user), token));
    }

    /** GET /user/profile; reads the table and never changes it. */
    method Profile(header: Option<string>, h: Helpers, now: Time) returns (resp: Response)
      ensures resp == GetProfile(header, users, h, now)
      ensures resp.status in {200, 401, 404}
    {
      var payload := GetUserFromAuth(header, h, now);
      if payload.None? {
        return Response(401, Failure(Unauthorized, None));
      }
      var found := Select(users, ById(payload.value.userId.value));
      if found.None? {
        return Response(404, Failure(UserNotFound, None));
      }
      resp := Response(200, UserBody(ToProfile(found.value)));
    }
  }
}
