/** `getUserFromAuth` (src/index.ts:63-72): the bearer-header guard in front
    of the profile resource. A case-sensitive, single-space form of the
    `Bearer` scheme of section 2.1 of RFC 6750. */
module Session {
  import opened Wrappers
  import opened Crypto

  const BEARER_PREFIX: string := "Bearer "

  predicate StartsWith(s: string, prefix: string) {
    |prefix| <= |s| && s[..|prefix|] == prefix
  }

  /** `if (!auth || !auth.startsWith('Bearer ')) return null; auth.slice(7)`.
      An empty header value is falsy in JavaScript, and fails the prefix
      test anyway. */
  function BearerToken(header: Option<string>): (token: Option<string>)
    ensures token.Some? <==> header.Some? && StartsWith(header.value, BEARER_PREFIX)
    ensures token.Some? ==> header.value == BEARER_PREFIX + token.value
  {
    if header.None? || header.value == "" || !StartsWith(header.value, BEARER_PREFIX) then None
    else Some(header.value[7..])
  }

  /** JavaScript truthiness of `payload.userId`: absent and 0 are falsy. */
  predicate IsTruthyUserId(userId: Option<int>) {
    userId.Some? && userId.value != 0
  }

  /** The verified payload, or `None` when the header is missing or not a
      bearer header, the token does not verify, or it has no truthy `userId`. */
  function GetUserFromAuth(header: Option<string>, h: Helpers, now: Time): (payload: Option<Claims>)
    ensures payload.Some? ==>
      exists token :: header == Some(BEARER_PREFIX + token) && h.verify(token, now) == payload
    ensures payload.Some? ==> IsTruthyUserId(payload.value.userId)
  {
    match BearerToken(header)
    case None => None
    case Some(token) =>
      var verified := h.verify(token, now);
      if verified.None? || !IsTruthyUserId(verified.value.userId) then None
      else verified
  }

  /** The guard refuses a request whose header is absent or lacks the prefix,
      whatever the verifier would say. */
  lemma GuardNeedsBearerPrefix(header: Option<string>, h: Helpers, now: Time)
    requires header.None? || !StartsWith(header.value, BEARER_PREFIX)
    ensures GetUserFromAuth(header, h, now) == None
  {
  }

  /** For a bearer header the guard verifies exactly the text after the
      prefix, and passes the payload through when its `userId` is truthy. */
  lemma GuardVerifiesSuffix(token: string, h: Helpers, now: Time)
    ensures GetUserFromAuth(Some(BEARER_PREFIX + token), h, now) ==
      var verified := h.verify(token, now);
      if verified.Some? && IsTruthyUserId(verified.value.userId) then verified else None
  {
    assert BearerToken(Some(BEARER_PREFIX + token)) == Some(token);
  }
}
