# Notes API core, modelled in Dafny

A model of the core of a small multi-user notes service written in Go on
Fiber and GORM. The core covers four parts:

- the note handlers: create, list (pagination and search), get, update and
  delete over a `notes` table in which every query is scoped by the caller's
  user id;
- the account handlers: register and login over a `users` table;
- the authorization gate that sits in front of every `/notes` route: an
  ordered chain of 401 rejections that ends by attaching the caller's user id;
- the token issuer: claim construction and the choice of signing secret.

Layout, one module per file:

| file | module | models |
|---|---|---|
| `wrappers.dfy` | `Wrappers` | `Option` |
| `models.dfy` | `Models` | the `User` and `Note` rows, the request bodies, `Response(status, body)` |
| `strconv.dfy` | `StrConv` | `strconv.Atoi` (an optional sign, then decimal digits) and `Itoa` as its reference inverse |
| `text.dfy` | `Text` | `strings.HasPrefix` and the substring match of `LIKE '%s%'` |
| `jwt.dfy` | `Jwt` | `GenerateJWT`, the fallback secret, the token datatype `Token(id, exp, alg, key)` |
| `gate.dfy` | `Gate` | the authorization middleware as written (`Authorize`) and with the issuer's key (`AuthorizeFixed`) |
| `accounts.dfy` | `Accounts` | `Login` as a function, and the `UserTable` class with `Register` |
| `notes.dfy` | `Notes` | `GetNotes` and `GetNote` as functions over the table, and the `NoteTable` class with `CreateNote`, `UpdateNote` and `DeleteNote` |
| `routes.dfy` | `Routes` | a protected request: the gate, then exactly one note handler |
| `flow.dfy` | `Flow` | issued tokens against the gate, login to gate, and an ownership scenario |

Everything the core reads from outside is a parameter:

- the `JWT_SECRET` environment value is `env`;
- the clock is `now`, in Unix seconds;
- bcrypt is a `Hasher` oracle. `hash` may fail, and `check` compares a password with a stored hash. The only assumption about them (`Sound`) is that a password checks against its own hash;
- signing and parsing a token are the oracles `sign` and `decode`. The only assumption about them (`CodecSound`) is that a signed string parses back to its token;
- a failing INSERT, UPDATE, DELETE or SELECT is a boolean parameter (`storeFails`, `findFails`);
- a request body that does not decode is `None`;
- the order in which the database returns rows is a sequence of ids, `scan`. A scan the database can produce (`Notes.IsScan`) names every row of the table exactly once and nothing else.

The tables are maps from primary key to row. Each table class keeps an
auto-increment counter. A soft-deleted row is no longer in the map, and its
id is never reused.

## Model

| member | source | states |
|---|---|---|
| `StrConv.Atoi` | handlers/notes.go:91 | succeeds exactly on strings of the form `[+-]?[0-9]+`, with the signed decimal value computed digit by digit |
| `StrConv.AtoiOrZero` | handlers/notes.go:57-58 | the discarded `Atoi` error leaves 0; a decimal string gives its value |
| `StrConv.AtoiItoa` | handlers/notes.go:91-96 | every integer's decimal rendering parses back to that integer |
| `Text.Contains` | handlers/notes.go:66-67 | true exactly when the term occurs at some position of the text |
| `Jwt.SigningKey` | utils/JWT.go:24-28 | an empty `JWT_SECRET` selects `"your-secret-key"`, otherwise the value is used verbatim; the key is never empty |
| `Jwt.GenerateJWT` | utils/JWT.go:11-36 | signs `id` = the user id, `exp` = issue time + 86400 s, HS256, the selected key; a signing error gives `("", err)` |
| `Jwt.IssuedClaims` | utils/JWT.go:13-22 | the issued id claim is the user id, the expiry is 24 hours on, the algorithm passes the HMAC check |
| `Gate.Decide` | middleware/auth.go:13-58 | rejections in order, all 401: empty header "Unauthorized"; no exact `"Bearer "` prefix "Invalid token format"; unparsable token, non-HMAC algorithm, wrong key or expired "Invalid token"; unknown user "User not found"; otherwise authorized with the `id` claim and that user's row |
| `Gate.Authorize` | middleware/auth.go:29-39 | verifies with the raw `JWT_SECRET`: an accepted token was signed with exactly that value, and with an empty secret a token signed with the fallback key is rejected |
| `Gate.AuthorizeFixed` | utils/JWT.go:25-28 | the corrected gate: an accepted token was signed with the issuer's key choice |
| `Gate.FixedAgreesWhenSecretSet` | middleware/auth.go:33 | with `JWT_SECRET` set, the corrected and the written gate decide every request alike |
| `Accounts.FirstByEmail` | handlers/auth.go:53 | finds a row exactly when one has that email, and it is the one with the least id |
| `Accounts.Login` | handlers/auth.go:45-69 | a bad body gives 400; an unknown email and a wrong password give the identical 401 "Invalid credentials"; a correct password whose token cannot be signed gives 500 "Could not generate token"; success is 200 with the token issued for the found user's id; 400 comes only from a body that does not decode; the table is only read |
| `Accounts.UserTable.Register` | handlers/auth.go:9-43 | a bad body gives 400; a taken email gives 409; a hash failure or a failed insert gives 500; every such failure leaves the table unchanged. Any other input is stored with the hasher's output as its password, and the answer is 201 with id, name and email only. Emails stay unique |
| `Accounts.LoginAfterRegister` | handlers/auth.go:28-63 | a stored user who presents the password that was hashed at registration receives the token issued for their id |
| `Notes.PaginationDefaults` | handlers/notes.go:57-58 | `page` and `limit` are 1 and 10 only when absent or empty; a present non-decimal value gives 0 |
| `Notes.Offset` | handlers/notes.go:59 | `(page - 1) * limit`, non-negative when page >= 1 and limit >= 0 |
| `Notes.Select` | handlers/notes.go:62-68 | every selected row is a row of the table, owned by the caller, and matches the search term |
| `Notes.Window` | handlers/notes.go:71 | a run of at most `limit` consecutive rows starting at `offset`, of exactly the length that remains |
| `Notes.GetNotes` | handlers/notes.go:52-83 | a failed query gives 500. Otherwise the answer is 200 and echoes the parsed page and limit. Every returned note belongs to the caller and is in the table. With a non-empty search term, its title or content contains the term |
| `Notes.GetNotesPage` | handlers/notes.go:57-82 | for page and limit >= 1 over a scan the database can produce: the consecutive matching rows starting at `(page - 1) * limit`, exactly `limit` of them when that many remain and otherwise all the rest. The rows paged through are the caller's matching notes, and no note appears twice on a page |
| `Notes.GetNote` | handlers/notes.go:86-108 | a non-decimal id gives 400 before any lookup; a missing note and another user's note both give 404 "Note not found"; 200 returns the caller's own row |
| `Notes.SelectComplete` | handlers/notes.go:63-68 | every owned row the scan reaches that matches the term is selected, and with an empty term every owned row is |
| `Notes.SelectDistinct` | handlers/notes.go:62-68 | a scan without repeated ids never lists the same note twice |
| `Notes.SelectExact` | handlers/notes.go:62-68 | over a scan the database can produce, a note is listed exactly when the caller owns it and it matches the term, and each is listed once; with an empty term, every note the caller owns is listed |
| `Notes.SelectIsolated` | handlers/notes.go:63 | the selected rows depend only on the caller's own rows |
| `Notes.GetNotesIsolated` | handlers/notes.go:63-71 | other users' notes never change what GetNotes answers |
| `Notes.GetNoteIsolated` | handlers/notes.go:100 | other users' notes never change what GetNote answers |
| `Notes.AbsentAndForeignAlike` | handlers/notes.go:100-104 | an id with no row and an id whose row belongs to someone else give the same 404 |
| `Notes.NoteTable.CreateNote` | handlers/notes.go:11-49 | a bad body or an empty title or content gives 400; a failed insert gives 500; both leave the table unchanged. Otherwise the new row has a fresh id and the caller as owner, the answer is 201 with it, and no other user's rows change |
| `Notes.NoteTable.UpdateNote` | handlers/notes.go:111-162 | the id 400, the body 400 and the empty-field 400 all come before the ownership 404; a failed save gives 500. Success changes only the target's title and content and answers 200 with the row. Other rows and other users' views are untouched |
| `Notes.NoteTable.DeleteNote` | handlers/notes.go:165-196 | id 400, then ownership 404, then store 500. Success removes exactly the target, which afterwards answers 404 to every caller. Other users' rows are untouched |
| `Routes.ServeNotes` | routes/routes.go:21-28 | a request the gate rejects gets the gate's 401 and changes nothing. An authorized request runs its handler once, as the gate's user id. A read answers what `GetNote` or `GetNotes` answers for that user and changes nothing. A create, update or delete gives its handler's responses in its handler's order, and on success changes the table exactly as its handler does, with the gate's user id as the caller. No write touches another user's rows |
| `Flow.IssuedTokenAsWritten` | middleware/auth.go:29-39 | an issued token opens the written gate exactly when `JWT_SECRET` is set, the token is unexpired and its user exists |
| `Flow.FallbackTokenRejected` | utils/JWT.go:25-28 | with `JWT_SECRET` empty, every issued token is refused with 401 "Invalid token" |
| `Flow.IssuedTokenFixed` | middleware/auth.go:33 | the corrected gate accepts an issued token exactly while it is unexpired and its user exists, as that user |
| `Flow.LoginOpensGate` | handlers/auth.go:63-68 | the token from a successful login opens the corrected gate as the user who logged in |
| `Flow.OwnershipScenario` | handlers/notes.go:179-183 | a created note is owned by its creator. Another user's lookup gets 404, and so does the owner's own lookup after deletion |

## Findings

| source | as written | input that shows it | evidently intended | confidence | as-written member | corrected member |
|---|---|---|---|---|---|---|
| middleware/auth.go:33 | verifies with the raw `JWT_SECRET`; the issuer (utils/JWT.go:25-28) signs with `"your-secret-key"` when it is empty | `JWT_SECRET` unset: login succeeds, and every `/notes` request bearing the issued token gets 401 "Invalid token" | verify with the same key choice the issuer signs with | high; not executed | `Flow.FallbackTokenRejected` | `Flow.IssuedTokenFixed` |

`Gate.Authorize` is the middleware as written. `Gate.AuthorizeFixed` verifies
with `Jwt.SigningKey(env)`, the issuer's key. The login-to-gate lemma
`Flow.LoginOpensGate` uses the corrected gate. `Gate.FixedAgreesWhenSecretSet`
shows that the two gates differ only when the secret is empty. For that
reason `Routes.ServeNotes` keeps the written gate: it describes the service
as deployed.

## Behaviour kept as the code has it

- Register performs no validation, although the input structs carry `validate` tags (models/User.go:14-16: `required`, `email`, `min=6`). Nothing invokes a validator, so there is no emptiness check, no email-format check and no 6-character minimum. Any body whose email is not yet stored is accepted.
- A present, non-numeric `page` or `limit` becomes 0, not the default 1 or 10 that `c.Query` supplies for an absent one, because the `Atoi` error is discarded (handlers/notes.go:57-58).
- The list query has no ORDER BY (handlers/notes.go:62-71), so no stable order is claimed. Pages are stated relative to the database's scan order `scan`.
- An unset `JWT_SECRET` is not fatal. The comment at utils/JWT.go:27 calls the fallback key not recommended for production, but the issuer uses it. The gate does not (see Findings).

## Left out

- I/O: `.env` loading, DSN building, the MySQL connection, auto-migration and server start-up (utils/database.go, main.go, test_db.go). `JWT_SECRET` and the clock enter as parameters.
- Fiber wiring: routes/routes.go is modelled only as far as `Routes.ServeNotes` (gate, then one note handler). The public routes `/`, `/register` and `/login` are the handlers themselves.
- utils/password.go: bcrypt, its salt and its cost are the `Hasher` oracle. The model assumes only `Sound`, that a password checks against its own hash.
- JWT internals: HMAC signing, base64url encoding and parsing are the `sign`/`decode` oracles. Expiry is modelled as jwt v5's check with zero leeway, valid while `now < exp`, in whole seconds.
- Gate.Decide: the "Invalid token claims" branch (middleware/auth.go:40-45) is not modelled, because `jwt.Parse` always produces map claims.
- Gate.Decide: the `id` claim is assumed to be a well-formed non-negative integer. The panicking `.(float64)` assertion and the float-to-uint conversion are not modelled.
- The panicking `c.Locals("userID").(uint)` assertions in handlers/notes.go: the caller's id is a `nat` handed over by the gate.
- Database errors of lookups: a failing `First` reads as "no row". This gives 404 in the note handlers, 401 in the gate and in Login, and lets Register proceed, as the code does. The failure itself is not a separate input.
- Accounts.FirstByEmail: emails are compared exactly. The source compares them in MySQL under the table's collation, which by default ignores letter case and, under PAD SPACE collations, trailing spaces. This applies both to `WHERE email = ?` (handlers/auth.go:17 and :53) and to the unique index on `email` (models/User.go:8). So a login with "A@X.COM" for a stored "a@x.com" finds the user in the source but answers 401 in the model. Collation is not modelled.
- Accounts.EmailTaken and Accounts.UserTable.Register: for the same reason, registering "A@x.com" after "a@x.com" answers 409 in the source, but the model answers 201 and stores a second row. `Accounts.UniqueEmails` is exact-string uniqueness, weaker than the index's case-insensitive uniqueness.
- Concurrency: the race between Register's email lookup and its insert, which only the unique index on `email` resolves. `UserTable.Valid` keeps emails unique because each Register runs to completion alone.
- Notes.Matches: SQL `LIKE` collation (case-insensitive by MySQL default) and the wildcards `%`, `_` and `\` inside the search term. The model is exact substring containment, correct for case-exact terms without wildcards.
- Notes.Window: GORM's handling of a negative or zero offset or limit is not claimed. The model fixes one reading: a non-positive offset skips nothing, a negative limit takes everything.
- Notes.Offset: computed on unbounded integers. Go's 64-bit multiplication would wrap only for page and limit values far beyond any real page.
- StrConv.Atoi: no 64-bit range error. Integers are unbounded.
- gorm.Model timestamps (`CreatedAt`, `UpdatedAt`, `DeletedAt`), JSON encoding of the responses, and the empty `User` association serialised with a note.
