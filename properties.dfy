/** What the register, login, logout and profile handlers promise, stated
    over the decision functions of `Handlers` for every request and every
    table. */
module Properties {
  import opened Wrappers
  import opened Crypto
  import opened Users
  import opened Session
  import opened Handlers

  /** Every required register field is present (JavaScript-truthy). */
  predicate AllPresent(req: RegisterRequest) {
    Present(req.name) && Present(req.email) && Present(req.password) && Present(req.confirmPassword)
  }

  predicate EmailTaken(rows: seq<UserRow>, email: string) {
    exists j :: 0 <= j < |rows| && rows[j].email == email
  }

  // ---------------------------------------------------------------- register

  /** A missing field is refused first, before the table is consulted. */
  lemma RegisterMissingField(req: RegisterRequest, rows: seq<UserRow>, nextId: int, h: Helpers, salt: Salt, now: Time)
    requires !AllPresent(req)
    ensures Register(req, rows, nextId, h, salt, now) ==
      Registration(Response(400, Failure(InvalidInput, None)), rows, nextId)
  {
  }

  /** A confirmation mismatch is refused next, whether or not the email is
      taken and however short the password is. */
  lemma RegisterPasswordMismatch(req: RegisterRequest, rows: seq<UserRow>, nextId: int, h: Helpers, salt: Salt, now: Time)
    requires AllPresent(req) && req.password.value != req.confirmPassword.value
    ensures Register(req, rows, nextId, h, salt, now) ==
      Registration(Response(400, Failure(InvalidInput, Some(MISMATCH_MESSAGE))), rows, nextId)
  {
  }

  /** A taken email is refused with 409 whatever the password's length:
      the existence check precedes the strength check. */
  lemma RegisterDuplicateEmail(req: RegisterRequest, rows: seq<UserRow>, nextId: int, h: Helpers, salt: Salt, now: Time)
    requires AllPresent(req) && req.password.value == req.confirmPassword.value
    requires EmailTaken(rows, req.email.value)
    ensures Register(req, rows, nextId, h, salt, now) ==
      Registration(Response(409, Failure(EmailAlreadyExists, None)), rows, nextId)
  {
  }

  /** A fresh email with a password shorter than 8 is refused as weak. */
  lemma RegisterWeakPassword(req: RegisterRequest, rows: seq<UserRow>, nextId: int, h: Helpers, salt: Salt, now: Time)
    requires AllPresent(req) && req.password.value == req.confirmPassword.value
    requires !EmailTaken(rows, req.email.value)
    requires |req.password.value| < 8
    ensures Register(req, rows, nextId, h, salt, now) ==
      Registration(Response(400, Failure(WeakPassword, Some(WEAK_PASSWORD_MESSAGE))), rows, nextId)
  {
  }

  /** A registration succeeds exactly when it passes all four checks, and
      only then does the table change. */
  lemma RegisterCreatedIff(req: RegisterRequest, rows: seq<UserRow>, nextId: int, h: Helpers, salt: Salt, now: Time)
    ensures
      var out := Register(req, rows, nextId, h, salt, now);
      && (out.response.status == 201 <==>
            AllPresent(req) && req.password.value == req.confirmPassword.value &&
            !EmailTaken(rows, req.email.value) && |req.password.value| >= 8)
      && (out.response.status != 201 ==> out.users == rows && out.nextId == nextId)
  {
  }

  /** A successful registration appends exactly one row, with the next id,
      the given fields and the hash of the password; the earlier rows are
      untouched. The response carries that row without its password hash
      and a token signed over `{ userId: new id, email }`. */
  lemma RegisterSuccess(req: RegisterRequest, rows: seq<UserRow>, nextId: int, h: Helpers, salt: Salt, now: Time)
    requires AllPresent(req) && req.password.value == req.confirmPassword.value
    requires !EmailTaken(rows, req.email.value)
    requires |req.password.value| >= 8
    ensures
      var out := Register(req, rows, nextId, h, salt, now);
      var row := UserRow(nextId, req.name.value, req.email.value, req.phoneNumber,
                         h.hash(req.password.value, salt), req.profileImageUrl, now);
      && out.users == rows + [row]
      && out.nextId == nextId + 1
      && out.response == Response(201, Authenticated(REGISTERED_MESSAGE, ToProfile(row),
                                                     h.sign(Identity(nextId, req.email.value), now)))
  {
  }

  /** Registration keeps the table well formed: ids stay unique and below
      the counter, and emails stay unique. */
  lemma RegisterPreservesWellFormed(req: RegisterRequest, rows: seq<UserRow>, nextId: int, h: Helpers, salt: Salt, now: Time)
    requires WellFormed(rows, nextId)
    ensures
      var out := Register(req, rows, nextId, h, salt, now);
      WellFormed(out.users, out.nextId)
  {
    var out := Register(req, rows, nextId, h, salt, now);
    if out.response.status == 201 {
      RegisterCreatedIff(req, rows, nextId, h, salt, now);
      RegisterSuccess(req, rows, nextId, h, salt, now);
      var all := out.users;
      assert all[|rows|].email == req.email.value && all[|rows|].id == nextId;
      assert forall j :: 0 <= j < |rows| ==> all[j] == rows[j];
    }
  }

  // ------------------------------------------------------------------- login

  /** In a well-formed table, the row `SELECT ... WHERE email` returns is
      the one row with that email. */
  lemma SelectByUniqueEmail(rows: seq<UserRow>, nextId: int, i: int)
    requires WellFormed(rows, nextId)
    requires 0 <= i < |rows|
    ensures Select(rows, ByEmail(rows[i].email)) == Some(rows[i])
  {
    var k := FirstMatch(rows, ByEmail(rows[i].email)).value;
    assert !(k < i) && !(i < k);
  }

  /** An unknown email and a wrong password get the identical response, so
      a caller cannot tell which emails are registered. */
  lemma LoginFailuresIndistinguishable(unknown: LoginRequest, wrong: LoginRequest, rows: seq<UserRow>, nextId: int,
                                       i: int, h: Helpers, now: Time)
    requires WellFormed(rows, nextId)
    requires Present(unknown.email) && Present(unknown.password)
    requires !EmailTaken(rows, unknown.email.value)
    requires Present(wrong.email) && Present(wrong.password)
    requires 0 <= i < |rows| && rows[i].email == wrong.email.value
    requires !h.compare(wrong.password.value, rows[i].passwordHash)
    ensures Login(unknown, rows, h, now) == Login(wrong, rows, h, now)
    ensures Login(unknown, rows, h, now) == Response(401, Failure(InvalidCredentials, None))
  {
    SelectByUniqueEmail(rows, nextId, i);
  }

  /** A login with the email of a row whose hash accepts the password
      returns that row without its hash and a token for its id and email. */
  lemma LoginSuccess(req: LoginRequest, rows: seq<UserRow>, nextId: int, i: int, h: Helpers, now: Time)
    requires WellFormed(rows, nextId)
    requires Present(req.email) && Present(req.password)
    requires 0 <= i < |rows| && rows[i].email == req.email.value
    requires h.compare(req.password.value, rows[i].passwordHash)
    ensures Login(req, rows, h, now) ==
      Response(200, Authenticated(LOGIN_MESSAGE, ToProfile(rows[i]), h.sign(Identity(rows[i].id, rows[i].email), now)))
  {
    SelectByUniqueEmail(rows, nextId, i);
  }

  /** A missing or empty email or password is refused with 400 before any
      lookup, on every table: a registered email with an empty password
      gets 400, not 401. */
  lemma LoginMissingField(req: LoginRequest, rows: seq<UserRow>, h: Helpers, now: Time)
    requires !Present(req.email) || !Present(req.password)
    ensures Login(req, rows, h, now) == Response(400, Failure(InvalidInput, None))
  {
  }

  /** Conversely, a login that answers 200 found a row with that email
      whose hash accepted the password, and answers with that row. */
  lemma LoginSucceedsOnlyWithMatch(req: LoginRequest, rows: seq<UserRow>, h: Helpers, now: Time)
    requires Login(req, rows, h, now).status == 200
    ensures Present(req.email) && Present(req.password)
    ensures exists i ::
              && 0 <= i < |rows| && rows[i].email == req.email.value
              && h.compare(req.password.value, rows[i].passwordHash)
              && Login(req, rows, h, now).body ==
                   Authenticated(LOGIN_MESSAGE, ToProfile(rows[i]), h.sign(Identity(rows[i].id, rows[i].email), now))
  {
    var i := FirstMatch(rows, ByEmail(req.email.value)).value;
    assert rows[i].email == req.email.value;
  }

  /** Distinct failure kinds are sent as distinct `error` strings, so a
      client can always tell them apart on the wire. */
  lemma ErrorTagsDistinct(a: ErrorCode, b: ErrorCode)
    requires ErrorTag(a) == ErrorTag(b)
    ensures a == b
  {
  }

  // ------------------------------------------------------ logout and profile

  /** Logout answers 204 with no body whatever the request carries. */
  lemma LogoutAlwaysNoContent(header: Option<string>)
    ensures Logout(header) == Response(204, NoContent)
    ensures Logout(header) == Logout(None)
  {
  }

  /** A profile request is refused with 401 exactly when the guard rejects it. */
  lemma ProfileUnauthorizedIff(header: Option<string>, rows: seq<UserRow>, h: Helpers, now: Time)
    ensures GetProfile(header, rows, h, now) == Response(401, Failure(Unauthorized, None)) <==>
      GetUserFromAuth(header, h, now).None?
  {
  }

  /** No header at all and a bearer token that fails verification are
      answered identically. */
  lemma ProfileRejectionsIndistinguishable(token: string, rows: seq<UserRow>, h: Helpers, now: Time)
    requires h.verify(token, now).None?
    ensures GetProfile(Some(BEARER_PREFIX + token), rows, h, now) == GetProfile(None, rows, h, now)
    ensures GetProfile(None, rows, h, now) == Response(401, Failure(Unauthorized, None))
  {
    GuardVerifiesSuffix(token, h, now);
  }

  /** A token that verifies to a truthy `userId` is answered with the row of
      that id, or 404 when the table has none. */
  lemma ProfileLookup(token: string, rows: seq<UserRow>, nextId: int, h: Helpers, now: Time)
    requires WellFormed(rows, nextId)
    requires h.verify(token, now).Some? && IsTruthyUserId(h.verify(token, now).value.userId)
    ensures
      var id := h.verify(token, now).value.userId.value;
      var resp := GetProfile(Some(BEARER_PREFIX + token), rows, h, now);
      && (!(exists j :: 0 <= j < |rows| && rows[j].id == id) ==> resp == Response(404, Failure(UserNotFound, None)))
      && (forall i :: 0 <= i < |rows| && rows[i].id == id ==> resp == Response(200, UserBody(ToProfile(rows[i]))))
  {
    GuardVerifiesSuffix(token, h, now);
    var id := h.verify(token, now).value.userId.value;
    forall i | 0 <= i < |rows| && rows[i].id == id
      ensures Select(rows, ById(id)) == Some(rows[i])
    {
      var k := FirstMatch(rows, ById(id)).value;
      assert !(k < i) && !(i < k);
    }
  }

  // --------------------------------------------------------------- sequences

  /** After a successful registration, logging in with the same email and
      password succeeds and returns the new user, provided bcrypt accepts a
      password against its own hash. */
  lemma {:induction false} RegisterThenLogin(req: RegisterRequest, rows: seq<UserRow>, nextId: int, h: Helpers,
                                             salt: Salt, now: Time, later: Time)
    requires Register(req, rows, nextId, h, salt, now).response.status == 201
    requires h.compare(req.password.value, h.hash(req.password.value, salt))
    ensures
      var out := Register(req, rows, nextId, h, salt, now);
      Login(LoginRequest(req.email, req.password), out.users, h, later) ==
        Response(200, Authenticated(LOGIN_MESSAGE, out.response.body.user,
                                    h.sign(Identity(nextId, req.email.value), later)))
  {
    RegisterCreatedIff(req, rows, nextId, h, salt, now);
    RegisterSuccess(req, rows, nextId, h, salt, now);
    var out := Register(req, rows, nextId, h, salt, now);
    var row := out.users[|rows|];
    SelectAppendedRow(rows, row, ByEmail(req.email.value));
  }

  /** The token a successful registration returns opens the new user's
      profile, provided the verifier accepts what the signer produced. */
  lemma {:induction false} RegisterThenProfile(req: RegisterRequest, rows: seq<UserRow>, nextId: int, h: Helpers,
                                               salt: Salt, now: Time, later: Time)
    requires WellFormed(rows, nextId)
    requires Register(req, rows, nextId, h, salt, now).response.status == 201
    requires h.verify(h.sign(Identity(nextId, req.email.value), now), later) ==
      Some(Claims(Some(nextId), Some(req.email.value)))
    ensures
      var out := Register(req, rows, nextId, h, salt, now);
      GetProfile(Some(BEARER_PREFIX + out.response.body.token), out.users, h, later) ==
        Response(200, UserBody(out.response.body.user))
  {
    RegisterCreatedIff(req, rows, nextId, h, salt, now);
    RegisterSuccess(req, rows, nextId, h, salt, now);
    var out := Register(req, rows, nextId, h, salt, now);
    var row := out.users[|rows|];
    GuardVerifiesSuffix(out.response.body.token, h, later);
    SelectAppendedRow(rows, row, ById(nextId));
  }
}
