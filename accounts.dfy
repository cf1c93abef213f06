/**
 * The account handlers (handlers/auth.go) over the `users` table. bcrypt is
 * an oracle: `hash` may fail (an error from GenerateFromPassword), and
 * `check` is the comparison; `Sound` is the one fact assumed of the pair,
 * that a password checks against its own hash.
 */
module Accounts {
  import opened Wrappers
  import opened Models
  import opened Jwt

  datatype Hasher = Hasher(hash: string -> Option<string>, check: (string, string) -> bool)

  ghost predicate Sound(h: Hasher)
  {
    forall p, d :: h.hash(p) == Some(d) ==> h.check(p, d)
  }

  /** Some stored user has this email (`WHERE email = ?` finds a row). */
  predicate EmailTaken(users: map<nat, User>, email: string)
  {
    exists id :: id in users && users[id].email == email
  }

  /** The unique index on `users.email` (models/User.go). */
  ghost predicate UniqueEmails(users: map<nat, User>)
  {
    forall a, b :: a in users && b in users && users[a].email == users[b].email ==> a == b
  }

  /** Every row is stored under its own primary key. */
  ghost predicate Keyed(users: map<nat, User>)
  {
    forall id :: id in users ==> users[id].id == id
  }

  predicate IsLeast(m: nat, s: set<nat>)
  {
    m in s && forall j | j in s :: m <= j
  }

  lemma LeastExists(s: set<nat>)
    requires s != {}
    ensures exists m :: IsLeast(m, s)
    decreases |s|
  {
    var x :| x in s;
    var rest := s - {x};
    if rest == {} {
      assert s == {x};
      assert IsLeast(x, s);
    } else {
      LeastExists(rest);
      var m :| IsLeast(m, rest);
      var least := if x < m then x else m;
      forall j | j in s
        ensures least <= j
      {
        if j != x {
          assert j in rest;
        }
      }
      assert IsLeast(least, s);
    }
  }

  /** `WHERE email = ? ... First`: the matching row with the least primary key. */
  function FirstByEmail(users: map<nat, User>, email: string): (r: Option<nat>)
    ensures r.Some? <==> EmailTaken(users, email)
    ensures r.Some? ==> r.value in users && users[r.value].email == email
    ensures r.Some? ==> forall j :: j in users && users[j].email == email ==> r.value <= j
  {
    var ids := set id | id in users && users[id].email == email;
    assert forall id :: id in users && users[id].email == email <==> id in ids;
    if ids == {} then None
    else
      LeastExists(ids);
      var m :| IsLeast(m, ids);
      Some(m)
  }

  /**
   * Login: decode the body, find the user by email, check the password,
   * issue a token for the user's id. Both credential failures give the same
   * 401 response.
   */
  function Login(users: map<nat, User>, body: Option<LoginInput>, hasher: Hasher,
                 env: string, now: int, sign: Token -> Option<string>): (r: Response)
    ensures body.None? ==> r == Fail(StatusBadRequest, "Bad request")
    ensures body.Some? && !EmailTaken(users, body.value.email) ==>
              r == Fail(StatusUnauthorized, "Invalid credentials")
    ensures body.Some? && UniqueEmails(users) ==>
              forall id :: id in users && users[id].email == body.value.email &&
                           !hasher.check(body.value.password, users[id].password) ==>
                r == Fail(StatusUnauthorized, "Invalid credentials")
    ensures r.status == StatusUnauthorized ==> r == Fail(StatusUnauthorized, "Invalid credentials")
    ensures r.status == StatusOK <==>
              body.Some? && EmailTaken(users, body.value.email) &&
              var id := FirstByEmail(users, body.value.email).value;
              hasher.check(body.value.password, users[id].password) &&
              !GenerateJWT(users[id].id, now, env, sign).failed
    ensures r.status == StatusOK ==>
              var id := FirstByEmail(users, body.value.email).value;
              r.body == TokenBody(GenerateJWT(users[id].id, now, env, sign).token)
    ensures r.status == StatusBadRequest <==> body.None?
    ensures body.Some? && EmailTaken(users, body.value.email) ==>
              (var id := FirstByEmail(users, body.value.email).value;
               hasher.check(body.value.password, users[id].password) &&
               GenerateJWT(users[id].id, now, env, sign).failed ==>
                 r == Fail(StatusInternalServerError, "Could not generate token"))
    ensures r.status in {StatusOK, StatusBadRequest, StatusUnauthorized, StatusInternalServerError}
  {
    match body
    case None => Fail(StatusBadRequest, "Bad request")
    case Some(input) =>
      match FirstByEmail(users, input.email)
      case None => Fail(StatusUnauthorized, "Invalid credentials")
      case Some(id) =>
        var user := users[id];
        if !hasher.check(input.password, user.password) then
          Fail(StatusUnauthorized, "Invalid credentials")
        else
          var signed := GenerateJWT(user.id, now, env, sign);
          if signed.failed then Fail(StatusInternalServerError, "Could not generate token")
          else Response(StatusOK, TokenBody(signed.token))
  }

  /** The `users` table with its auto-increment counter. */
  class UserTable {
    var users: map<nat, User>
    var nextId: nat

    ghost predicate Valid()
      reads this
    {
      && 1 <= nextId
      && (forall id :: id in users ==> 1 <= id < nextId)
      && Keyed(users)
      && UniqueEmails(users)
    }

    constructor ()
      ensures Valid() && users == map[] && nextId == 1
    {
      users := map[];
      nextId := 1;
    }

    /**
     * Register: decode the body, refuse a taken email, hash the password,
     * insert the row (`storeFails` is a failing INSERT), answer with the
     * public fields. No field is validated beyond that.
     */
    method Register(body: Option<RegisterInput>, hasher: Hasher, storeFails: bool) returns (r: Response)
      requires Valid()
      modifies this
      ensures Valid()
      ensures body.None? ==> r == Fail(StatusBadRequest, "Bad request")
      ensures body.Some? && EmailTaken(old(users), body.value.email) ==>
                r == Fail(StatusConflict, "Email already exists")
      ensures body.Some? && !EmailTaken(old(users), body.value.email) &&
              hasher.hash(body.value.password).None? ==>
                r == Fail(StatusInternalServerError, "Could not hash password")
      ensures body.Some? && !EmailTaken(old(users), body.value.email) &&
              hasher.hash(body.value.password).Some? && storeFails ==>
                r == Fail(StatusInternalServerError, "Could not create user")
      ensures r.status != StatusCreated ==> users == old(users) && nextId == old(nextId)
      ensures r.status == StatusCreated <==>
                body.Some? && !EmailTaken(old(users), body.value.email) &&
                hasher.hash(body.value.password).Some? && !storeFails
      ensures r.status == StatusCreated ==>
                var input := body.value;
                var id := old(nextId);
                && users == old(users)[id := User(id, input.name, input.email, hasher.hash(input.password).value)]
                && nextId == id + 1
                && r.body == AccountBody(id, input.name, input.email)
    {
      if body.None? {
        return Fail(StatusBadRequest, "Bad request");
      }
      var input := body.value;
      if exists id | id in users :: users[id].email == input.email {
        return Fail(StatusConflict, "Email already exists");
      }
      var hashed := hasher.hash(input.password);
      if hashed.None? {
        return Fail(StatusInternalServerError, "Could not hash password");
      }
      if storeFails {
        return Fail(StatusInternalServerError, "Could not create user");
      }
      var user := User(nextId, input.name, input.email, hashed.value);
      users := users[nextId := user];
      nextId := nextId + 1;
      r := Response(StatusCreated, AccountBody(user.id, user.name, user.email));
    }
  }

  /**
   * A user stored by Register can log in with the password given at
   * registration, and receives the token issued for that user's id.
   */
  lemma LoginAfterRegister(users: map<nat, User>, id: nat, password: string, hasher: Hasher,
                           env: string, now: int, sign: Token -> Option<string>)
    requires Keyed(users) && UniqueEmails(users) && Sound(hasher)
    requires id in users && hasher.hash(password) == Some(users[id].password)
    ensures var r := Login(users, Some(LoginInput(users[id].email, password)), hasher, env, now, sign);
            var signed := GenerateJWT(id, now, env, sign);
            r == if signed.failed then Fail(StatusInternalServerError, "Could not generate token")
                 else Response(StatusOK, TokenBody(signed.token))
  {
    var email := users[id].email;
    var found := FirstByEmail(users, email);
    assert found == Some(id);
    assert hasher.check(password, users[id].password);
  }
}
