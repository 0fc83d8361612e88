/** The password hashing and token signing the routes rely on, as opaque
    function values with the laws the routes need of them. */
module Tokens {
  import opened Base
  import opened Store

  /** The signed token payload `{ id, username }`. */
  datatype Claims = Claims(id: UserId, username: string)

  /** bcrypt's `hash` (password, salt) and `compare`, and jwt's `sign` and
      `verify` under the server's secret; `verify` answers `None` where jwt
      throws. */
  datatype Crypto = Crypto(
    hash: (string, string) -> string,
    matches: (string, string) -> bool,
    sign: Claims -> string,
    verify: string -> Option<Claims>)

  /** A password matches its own hash, a signed token verifies to its
      payload, and a token is never the empty string. */
  ghost predicate Sound(c: Crypto) {
    && (forall pw, salt :: c.matches(pw, c.hash(pw, salt)))
    && (forall x :: c.verify(c.sign(x)) == Some(x))
    && (forall x :: c.sign(x) != "")
  }
}
