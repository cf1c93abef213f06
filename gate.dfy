/**
 * The authorization gate in front of the note routes (middleware/auth.go):
 * an ordered chain of rejections, each answering 401, ending with the
 * caller's user id attached to the request. `jwt.Parse` is split into an
 * oracle `decode` (malformed tokens give `None`) and the checks its key
 * function and validation perform: an HMAC algorithm, the key, the expiry.
 */
module Gate {
  import opened Wrappers
  import opened Models
  import opened Text
  import opened Jwt

  datatype Decision = Rejected(response: Response) | Authorized(userId: nat, user: User)

  const BearerPrefix := "Bearer "

  /** What `jwt.Parse` with the middleware's key function accepts, at Unix time `now`. */
  predicate Verifies(t: Token, key: string, now: int)
  {
    IsHmac(t.alg) && t.key == key && now < t.exp
  }

  /** The token part of a header that has the bearer prefix. */
  function BearerToken(header: string): string
    requires HasPrefix(header, BearerPrefix)
  {
    header[|BearerPrefix|..]
  }

  /** The whole chain, with the verification key as a parameter. */
  function Decide(header: string, key: string, now: int,
                  decode: string -> Option<Token>, users: map<nat, User>): (d: Decision)
    ensures header == "" ==> d == Rejected(Fail(StatusUnauthorized, "Unauthorized"))
    ensures header != "" && !HasPrefix(header, BearerPrefix) ==>
              d == Rejected(Fail(StatusUnauthorized, "Invalid token format"))
    ensures HasPrefix(header, BearerPrefix) ==>
              var t := decode(BearerToken(header));
              (t.None? || !Verifies(t.value, key, now)) ==>
                d == Rejected(Fail(StatusUnauthorized, "Invalid token"))
    ensures HasPrefix(header, BearerPrefix) ==>
              var t := decode(BearerToken(header));
              (t.Some? && Verifies(t.value, key, now) && t.value.id !in users) ==>
                d == Rejected(Fail(StatusUnauthorized, "User not found"))
    ensures d.Rejected? ==> d.response.status == StatusUnauthorized
    ensures d.Authorized? <==>
              HasPrefix(header, BearerPrefix) &&
              var t := decode(BearerToken(header));
              t.Some? && Verifies(t.value, key, now) && t.value.id in users
    ensures d.Authorized? ==>
              var t := decode(BearerToken(header)).value;
              d.userId == t.id && d.user == users[t.id]
  {
    if header == "" then
      Rejected(Fail(StatusUnauthorized, "Unauthorized"))
    else if !HasPrefix(header, BearerPrefix) then
      Rejected(Fail(StatusUnauthorized, "Invalid token format"))
    else
      match decode(BearerToken(header))
      case None => Rejected(Fail(StatusUnauthorized, "Invalid token"))
      case Some(t) =>
        if !IsHmac(t.alg) || t.key != key || !(now < t.exp) then
          Rejected(Fail(StatusUnauthorized, "Invalid token"))
        else if t.id !in users then
          Rejected(Fail(StatusUnauthorized, "User not found"))
        else
          Authorized(t.id, users[t.id])
  }

  /**
   * AuthMiddleware as written: the key is the raw `JWT_SECRET`, with no
   * fallback, so an accepted token was signed with exactly that value.
   */
  function Authorize(header: string, env: string, now: int,
                     decode: string -> Option<Token>, users: map<nat, User>): (d: Decision)
    ensures d.Authorized? ==>
              HasPrefix(header, BearerPrefix) && decode(BearerToken(header)).Some? &&
              decode(BearerToken(header)).value.key == env
    ensures env == "" && HasPrefix(header, BearerPrefix) && decode(BearerToken(header)).Some? &&
            decode(BearerToken(header)).value.key == FallbackSecret ==>
              d == Rejected(Fail(StatusUnauthorized, "Invalid token"))
  {
    Decide(header, env, now, decode, users)
  }

  /** The gate with the issuer's key choice: the intended verification key. */
  function AuthorizeFixed(header: string, env: string, now: int,
                          decode: string -> Option<Token>, users: map<nat, User>): (d: Decision)
    ensures d.Authorized? ==>
              HasPrefix(header, BearerPrefix) && decode(BearerToken(header)).Some? &&
              decode(BearerToken(header)).value.key == SigningKey(env)
  {
    Decide(header, SigningKey(env), now, decode, users)
  }

  /** When `JWT_SECRET` is set the two gates decide every request alike. */
  lemma FixedAgreesWhenSecretSet(header: string, env: string, now: int,
                                 decode: string -> Option<Token>, users: map<nat, User>)
    requires env != ""
    ensures AuthorizeFixed(header, env, now, decode, users) == Authorize(header, env, now, decode, users)
  {
  }
}
