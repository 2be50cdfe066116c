/** The cryptographic primitives the server delegates to libraries, kept
    uninterpreted: bcrypt's salted hash and comparison, and JSON Web Token
    signing and verification. Each is a function value supplied by the
    caller, so nothing about them is assumed beyond what a lemma states in
    its own requires. */
module Crypto {
  import opened Common

  /** bcrypt: `hash(password, salt)` and `compare(candidate, storedHash)`. */
  datatype Bcrypt = Bcrypt(hash: (string, nat) -> string, compare: (string, string) -> bool)

  /** The claims the server signs into a session token: `{ id, role }`. */
  datatype TokenPayload = TokenPayload(id: Id, role: string)

  /** JSON Web Tokens under the server's secret: `sign(payload, lifetimeSeconds)`,
      and `verify(token)` which yields the payload of a token that has a valid
      signature and has not expired, and nothing otherwise (the clock is part
      of the function). */
  datatype Jwt = Jwt(sign: (TokenPayload, nat) -> string, verify: string -> Option<TokenPayload>)

  /** The lifetime `expiresIn: '1d'` stands for. */
  const OneDaySeconds: nat := 24 * 60 * 60

  /** A signer and verifier that agree: a token signed with a lifetime is
      accepted and yields the payload it was signed with. */
  ghost predicate Sound(jwt: Jwt)
  {
    forall p, ttl :: ttl > 0 ==> jwt.verify(jwt.sign(p, ttl)) == Some(p)
  }

  /** bcrypt's promise: a password matches its own salted hash. */
  ghost predicate Matches(bcrypt: Bcrypt)
  {
    forall password, salt :: bcrypt.compare(password, bcrypt.hash(password, salt))
  }

  /** A compact JWT is three base64url segments joined by dots: no spaces. */
  ghost predicate SpaceFree(jwt: Jwt)
  {
    forall p, ttl :: ' ' !in jwt.sign(p, ttl)
  }
}
