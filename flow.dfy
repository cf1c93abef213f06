/**
 * How the parts fit together: a token that Login issues, presented as a
 * bearer header, against the gate as written and against the gate that
 * verifies with the issuer's key; and an ownership scenario on the note table.
 */
module Flow {
  import opened Wrappers
  import opened Models
  import opened StrConv
  import opened Text
  import opened Jwt
  import opened Gate
  import opened Accounts
  import opened Notes

  /** A header carrying `token` passes the prefix check and yields `token` back. */
  lemma BearerRoundTrip(token: string)
    ensures HasPrefix(BearerPrefix + token, BearerPrefix)
    ensures BearerToken(BearerPrefix + token) == token
  {
    var h := BearerPrefix + token;
    assert h[..|BearerPrefix|] == BearerPrefix;
    assert h[|BearerPrefix|..] == token;
  }

  /**
   * As written: a token issued at `issuedAt` opens the gate at `now` exactly
   * when `JWT_SECRET` is set, the token has not expired and its user exists.
   */
  lemma IssuedTokenAsWritten(userId: nat, issuedAt: int, env: string, sign: Token -> Option<string>,
                             decode: string -> Option<Token>, users: map<nat, User>, now: int)
    requires CodecSound(sign, decode)
    requires !GenerateJWT(userId, issuedAt, env, sign).failed
    ensures var header := BearerPrefix + GenerateJWT(userId, issuedAt, env, sign).token;
            var d := Authorize(header, env, now, decode, users);
            && (d.Authorized? <==> env != "" && now < issuedAt + Lifetime && userId in users)
            && (d.Authorized? ==> d.userId == userId)
  {
    var token := GenerateJWT(userId, issuedAt, env, sign).token;
    BearerRoundTrip(token);
    assert decode(token) == Some(Claims(userId, issuedAt, env));
  }

  /** As written: with `JWT_SECRET` empty every issued token is refused as invalid. */
  lemma FallbackTokenRejected(userId: nat, issuedAt: int, sign: Token -> Option<string>,
                              decode: string -> Option<Token>, users: map<nat, User>, now: int)
    requires CodecSound(sign, decode)
    requires !GenerateJWT(userId, issuedAt, "", sign).failed
    ensures var header := BearerPrefix + GenerateJWT(userId, issuedAt, "", sign).token;
            Authorize(header, "", now, decode, users) == Rejected(Fail(StatusUnauthorized, "Invalid token"))
  {
    var token := GenerateJWT(userId, issuedAt, "", sign).token;
    BearerRoundTrip(token);
    assert decode(token) == Some(Claims(userId, issuedAt, ""));
  }

  /**
   * Corrected: with the issuer's key the gate accepts an issued token until
   * it expires, for an existing user, whatever `JWT_SECRET` holds.
   */
  lemma IssuedTokenFixed(userId: nat, issuedAt: int, env: string, sign: Token -> Option<string>,
                         decode: string -> Option<Token>, users: map<nat, User>, now: int)
    requires CodecSound(sign, decode)
    requires !GenerateJWT(userId, issuedAt, env, sign).failed
    ensures var header := BearerPrefix + GenerateJWT(userId, issuedAt, env, sign).token;
            var d := AuthorizeFixed(header, env, now, decode, users);
            && (d.Authorized? <==> now < issuedAt + Lifetime && userId in users)
            && (d.Authorized? ==> d.userId == userId && d.user == users[userId])
  {
    var token := GenerateJWT(userId, issuedAt, env, sign).token;
    BearerRoundTrip(token);
    assert decode(token) == Some(Claims(userId, issuedAt, env));
  }

  /**
   * The token from a successful Login opens the corrected gate, before it
   * expires, as the user whose email logged in.
   */
  lemma LoginOpensGate(users: map<nat, User>, input: LoginInput, hasher: Hasher, env: string,
                       issuedAt: int, sign: Token -> Option<string>, decode: string -> Option<Token>,
                       now: int)
    requires Keyed(users) && CodecSound(sign, decode)
    requires Login(users, Some(input), hasher, env, issuedAt, sign).status == StatusOK
    requires now < issuedAt + Lifetime
    ensures var token := Login(users, Some(input), hasher, env, issuedAt, sign).body.token;
            var id := FirstByEmail(users, input.email).value;
            AuthorizeFixed(BearerPrefix + token, env, now, decode, users) == Authorized(id, users[id])
  {
    var id := FirstByEmail(users, input.email).value;
    IssuedTokenFixed(users[id].id, issuedAt, env, sign, decode, users, now);
  }

  /**
   * One owner's note, seen by another user and by its owner after deletion:
   * both get the 404 of a note that is not there.
   */
  method OwnershipScenario(owner: nat, intruder: nat)
    returns (created: Response, intruderView: Response, deleted: Response, ownerView: Response)
    requires owner != intruder
    ensures created.status == StatusCreated && created.body.NoteBody? && created.body.note.userId == owner
    ensures intruderView == Fail(StatusNotFound, "Note not found")
    ensures deleted == Response(StatusOK, MessageBody("Note deleted successfully"))
    ensures ownerView == Fail(StatusNotFound, "Note not found")
  {
    var table := new NoteTable();
    created := table.CreateNote(owner, Some(NoteInput("T", "C")), false);
    var id := Itoa(1);
    AtoiItoa(1);
    intruderView := GetNote(table.notes, intruder, id);
    deleted := table.DeleteNote(owner, id, false);
    ownerView := GetNote(table.notes, owner, id);
  }
}
