/**
 * Token issuing (utils/JWT.go). A token is modelled by what a verifier can
 * learn from it: its `id` and `exp` claims, the algorithm named in its
 * header and the key it was signed with. HMAC signing and the compact
 * encoding are an oracle `sign` that either yields the token string or fails.
 */
module Jwt {
  import opened Wrappers

  datatype Alg = HS256 | HS384 | HS512 | RS256 | ES256 | NoneAlg

  /** The family `*jwt.SigningMethodHMAC` covers exactly the three HS algorithms. */
  predicate IsHmac(a: Alg)
  {
    a.HS256? || a.HS384? || a.HS512?
  }

  datatype Token = Token(id: nat, exp: int, alg: Alg, key: string)

  /** The outcome of GenerateJWT, Go's `(string, error)`. */
  datatype Signed = Signed(token: string, failed: bool)

  /** The secret used when `JWT_SECRET` is empty or unset. */
  const FallbackSecret := "your-secret-key"

  /** `24 * time.Hour`, in seconds. */
  const Lifetime := 24 * 60 * 60

  /**
   * The one fact assumed of the signing and parsing oracles: a string that
   * `sign` produced parses back to the token it was made from.
   */
  ghost predicate CodecSound(sign: Token -> Option<string>, decode: string -> Option<Token>)
  {
    forall t :: sign(t).Some? ==> decode(sign(t).value) == Some(t)
  }

  /** The issuer's choice of secret: the environment value, or the fallback when it is empty. */
  function SigningKey(env: string): (key: string)
    ensures env != "" ==> key == env
    ensures env == "" ==> key == FallbackSecret
    ensures key != ""
  {
    if env == "" then FallbackSecret else env
  }

  /** The claims and header GenerateJWT signs, for a request at Unix time `now`. */
  function Claims(userId: nat, now: int, env: string): Token
  {
    Token(userId, now + Lifetime, HS256, SigningKey(env))
  }

  /**
   * GenerateJWT: sign the claims; on a signing error return the empty
   * string with the error.
   */
  function GenerateJWT(userId: nat, now: int, env: string, sign: Token -> Option<string>): (r: Signed)
    ensures r.failed <==> sign(Token(userId, now + Lifetime, HS256, SigningKey(env))).None?
    ensures r.failed ==> r.token == ""
    ensures !r.failed ==> sign(Token(userId, now + Lifetime, HS256, SigningKey(env))) == Some(r.token)
  {
    match sign(Claims(userId, now, env))
    case None => Signed("", true)
    case Some(s) => Signed(s, false)
  }

  /** The issued claims: the subject, an expiry 24 hours on, and an HMAC algorithm. */
  lemma IssuedClaims(userId: nat, now: int, env: string)
    ensures Claims(userId, now, env).id == userId
    ensures Claims(userId, now, env).exp == now + 86400
    ensures IsHmac(Claims(userId, now, env).alg)
    ensures Claims(userId, now, env).key != ""
  {
  }
}
