/** The helpers the handlers obtain from `getAuthHelpers` (src/auth.ts).
    Their implementations live in the bcryptjs and jose libraries, so the
    model keeps them uninterpreted: a `Helpers` value is any choice of the
    four functions, built once from the signing secret. Randomness (the
    bcrypt salt) and the clock (JWT `iat`/`exp`) are explicit parameters. */
module Crypto {
  import opened Wrappers

  /** A clock reading in seconds; `created_at`, `iat` and `exp` are drawn from it. */
  type Time = int

  /** The random salt bcrypt draws on each call to `hash`. */
  type Salt = int

  /** The claims `signJWT` is given: `{ userId, email }`. */
  datatype Identity = Identity(userId: int, email: string)

  /** The fields of a verified JWT payload that the handlers read. A payload
      is arbitrary JSON, so `userId` may be missing; non-numeric `userId`
      values are not modelled. */
  datatype Claims = Claims(userId: Option<int>, email: Option<string>)

  datatype Helpers = Helpers(
    /** bcrypt.hash(password, 10) with the given salt */
    hash: (string, Salt) -> string,
    /** bcrypt.compare(password, hash) */
    compare: (string, string) -> bool,
    /** HS256 signing of the identity, stamped with `iat` and a 7-day `exp` */
    sign: (Identity, Time) -> string,
    /** jwtVerify at the given time; every failure is collapsed to `None` */
    verify: (string, Time) -> Option<Claims>)
}
