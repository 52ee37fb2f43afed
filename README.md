# trove_server authentication core, in Dafny

This project models the authentication core of trove_server, a small actix-web
and Diesel service. It covers five parts:

- **The bearer-token gate.** `validate_token` decides whether a presented token
  admits a request. It looks up revocation first, then resolves the token's
  owner. `validator` turns that decision into "forward the request" or "reject
  with the bearer challenge".
- **API tokens.** Their alphabet (`CHARSET`) and length (`API_TOKEN_LEN`). The
  generator that draws them. The decoding of a base-64 bearer credential
  (`decode_token`).
- **The password hasher and verifier.** Only the way their failures are mapped
  to service errors. The hash itself is opaque.
- **The users table.** Registration (count the email, then insert), lookup by
  id, listing, and deletion by primary key. Also the HTTP handlers that wrap
  these operations.
- **`ServiceError`.** Its display text and its translation into an HTTP
  response.

Diesel and the connection pool are replaced by an in-memory store:

- `Handlers.Store` is a class. It holds the `users` and `api_token` tables as
  sequences of rows, plus the next id the `users` serial hands out.
- The read-only queries of the gate are functions of a `Models.StoreState`
  value, a snapshot of both tables.
- The helpers `db_is_token_revoked` and `db_get_user_by_api_token` are called
  by src/auth.rs but their source is not part of this model. They are modelled
  as the `revoked` flag of the first `api_token` row holding the token, and as
  the inner join of `api_token` with `users` on `user_id`.

Things the source gets from its environment become parameters:

- the random generator's draws;
- the clock;
- the `SECRET_KEY` and `VERIFY_EMAIL` settings of src/vars.rs;
- the Argon2 hasher and verifier, as opaque function values.

A panic becomes an explicit error value. This applies to the two in
`decode_token` and to the `unwrap` of a failed hash in `add_single_user`.

Modules, one file each:

- `Wrappers`: Option and Result.
- `Bytes`: bytes.
- `Models`: the row shapes of src/models.rs and src/schema.rs.
- `Http`: statuses, JSON bodies and responses.
- `Errors`: src/errors.rs.
- `Base64`: section 4 of RFC 4648, the decoder that `decode_token` calls.
- `Utf8`: `std::str::from_utf8`, after the well-formed byte sequences of Table
  3-7 of the Unicode Standard.
- `Utils`: src/utils.rs.
- `Auth`: src/auth.rs.
- `Gate`: `validator` of src/main.rs.
- `Handlers`: src/handlers.rs.

Some behaviour of the code that a reader may not expect:

- A duplicate email answers `AuthenticationError("Email already in use")`,
  which is 400. It does not answer a dedicated registration error.
- `api_token.user_id` is a foreign key to `users` (src/schema.rs:24). The
  store keeps it as an invariant: every token row belongs to a user. Deleting
  a user who still owns token rows is refused, and DELETE /users/{id} answers
  500. A delete that succeeds changes no decision of the gate
  (`Handlers.DeleteKeepsGateDecisions`). With the key in force, the gate never
  answers "No user for token" (`Handlers.OwnedTokensAreNeverOrphans`).
- Registration answers with the whole inserted row, `pw_hash` included.
- A missing user in GET /users/{id} answers 500, not 404.
- A hashing failure is an `AuthenticationError` in `hash_password`, and
  `add_single_user` panics at its `unwrap` (src/handlers.rs:105). The 500 comes
  from `register_user`'s `map_err` (src/handlers.rs:71). It is not treated as
  impossible.

## Model

| member | source | states |
|---|---|---|
| Auth.IsTokenRevoked | src/auth.rs:8-17 | The revocation query fails exactly when no `api_token` row holds the token. Otherwise it returns the `revoked` flag of the first row that holds it, in the one row order the model fixes for the table. |
| Auth.GetUserByApiToken | src/auth.rs:18-25 | The user lookup succeeds exactly when some row holding the token belongs to a user in the `users` table. The user it returns is that row's owner. |
| Auth.JoinOwner | src/auth.rs:18 | The inner join of token rows with users finds a user exactly when an owner exists. The user it finds is in the table and owns a row holding the token. |
| Auth.ValidateToken | src/auth.rs:7-27 | Never `Ok(false)`, and every error is an `AuthenticationError`. "No token" exactly when no row holds the token. "Token has revoked access" exactly when the first such row is revoked, whatever the users table holds. "No user for token" exactly when that row is live and no owner resolves. `Ok(true)` exactly when the token is live and has an owner. |
| Auth.RejectionBeforeLookupIgnoresUsers | src/auth.rs:8-18 | A missing or revoked token is decided before the user lookup: replacing the users table does not change the outcome. |
| Auth.AuthenticWithUniqueTokens | src/auth.rs:7-27 | When token values are unique, validation succeeds exactly when some row holding the token is unrevoked and its owner is a user. |
| Gate.EffectiveConfig | src/main.rs:23-26 | The registered bearer config when there is one, otherwise `Config::default()`. |
| Gate.Decide | src/main.rs:27-36 | The request is forwarded unchanged exactly when the outcome is `Ok(true)`. `Ok(false)` and every `Err`, whatever its message, become the same challenge built from the config. |
| Gate.Validator | src/main.rs:22-37 | The gate forwards the request unchanged exactly when the token is live and belongs to a user. Otherwise it rejects with the challenge of the effective config. |
| Gate.RejectionsAreIndistinguishable | src/main.rs:31-35 | Any two rejected tokens, in any two stores, get the identical rejection, a 401. The cause is not revealed. |
| Utils.CharsetIndex | src/utils.rs:7-9 | Every ASCII letter and digit has a position in `CHARSET` that holds it. |
| Utils.CharsetShape | src/utils.rs:7-9 | `CHARSET` has 62 symbols. They are pairwise distinct and are exactly the ASCII letters and digits. |
| Utils.GenerateApiToken | src/utils.rs:29-37 | Given 30 in-range draws, it fills a 30-character buffer so that position k holds `CHARSET[draws[k]]`. The result is a 30-character alphanumeric token. |
| Utils.DrawsFor | src/utils.rs:29-37 | Every well-formed token is spelled by some sequence of 30 in-range draws. |
| Utils.GeneratedTokensAreExactlyApiTokens | src/utils.rs:29-37 | The strings the generator can return are exactly the 30-character alphanumeric strings. |
| Utils.HashPassword | src/utils.rs:12-18 | Succeeds exactly when the hasher does, with the hasher's output. Any hasher failure becomes `AuthenticationError("Could not hash password")`. |
| Utils.Verify | src/utils.rs:20-27 | Succeeds exactly when the verifier does, with its verdict. Any verifier failure becomes `AuthenticationError("Unauthorized")`. |
| Utils.DecodeToken | src/utils.rs:39-46 | Succeeds exactly when the credential is base 64 and its bytes are UTF-8, and then returns the string whose UTF-8 bytes are the decoded bytes. Invalid base 64 is a panic carrying the decoder's reason. Invalid UTF-8 is the other panic. |
| Utils.DecodeTokenRoundTrip | src/utils.rs:39-46 | The accepted credentials are exactly the base-64 encodings of UTF-8 strings. Each one decodes back to its string. |
| Utils.DecodeTokenRejectsGeneratedTokens | src/utils.rs:31-40 | Under the strict RFC 4648 decoder modelled here, a generated token, 30 symbols long, is never valid padded base 64, so `decode_token` panics on it with an invalid length. |
| Base64.Decode | src/utils.rs:40 | Text whose length is not a multiple of four is rejected with an invalid length. |
| Base64.DecodeEncode | src/utils.rs:40 | Decoding undoes the padded encoding of section 4 of RFC 4648, for every byte string. |
| Base64.EncodeDecode | src/utils.rs:40 | Text that decodes is the padded encoding of its bytes. Decoding accepts only canonical text. |
| Base64.EncodeDecodeGroups | src/utils.rs:40 | Group by group, accepted text re-encodes to itself. Non-empty text decodes to non-empty bytes. |
| Utf8.DecodeEncode | src/utils.rs:41-44 | `from_utf8` accepts the UTF-8 encoding of every string and returns that string. |
| Utf8.EncodeDecode | src/utils.rs:41-44 | Bytes that `from_utf8` accepts are exactly the encoding of the string it returns. |
| Errors.Display | src/errors.rs:4-20 | Every variant displays a non-empty text. A variant with a message displays it as the text's suffix. |
| Errors.DisplayInjective | src/errors.rs:4-20 | Distinct errors never display the same text. |
| Errors.ErrorResponse | src/errors.rs:23-40 | The response is 500 exactly for the two variants without a message, and 400 exactly for the three with one (`AuthenticationError` included, not 401). A message variant's body is its message. The body "Internal Server Error, Please try later" goes with `InternalServerError` and only it. "Could not fetch JWKS" goes with `JWKSFetchError` and only it. |
| Errors.MessageResponsesHideVariant | src/errors.rs:29-38 | Two errors with messages get the same response exactly when their messages are equal. |
| Models.FindUser | src/handlers.rs:79 | `users.find(id)` finds a row exactly when some row has that id, and the row it returns has it. |
| Handlers.CountEmail | src/handlers.rs:87-90 | The count of rows with exactly this email is zero exactly when no row carries it. |
| Handlers.CountId | src/handlers.rs:121 | The count of rows with this id is zero exactly when no row carries it. |
| Handlers.CountEmailAppend | src/handlers.rs:115 | Inserting a row adds one to its own email's count and leaves every other email's count unchanged. |
| Handlers.UniqueEmailsIffCountsAtMostOne | src/handlers.rs:87-90 | Emails are unique across the table exactly when no email's count exceeds one. |
| Handlers.CountIdAtMostOne | src/handlers.rs:119-122 | With `id` as the primary key, at most one row matches an id. |
| Handlers.RemoveId | src/handlers.rs:121 | Deleting by id keeps exactly the rows with another id. The row count drops by the number of matches. |
| Handlers.RemoveIdKeepsUniqueIds | src/handlers.rs:121 | Deleting rows keeps the primary key unique. |
| Handlers.AfterRegisterCounts | src/handlers.rs:63-71 | After a registration, the registered email is counted once if it was absent. Every other count is unchanged. |
| Handlers.RegisterKeepsEmailsUnique | src/handlers.rs:63-71 | One registration keeps emails unique. |
| Handlers.RegistrationsKeepEmailsUnique | src/handlers.rs:63-71 | Starting from unique emails, any sequence of registrations keeps at most one row per email. |
| Handlers.Store.CountUserEmail | src/handlers.rs:82-92 | Returns the number of rows whose email equals the given one exactly, zero exactly when none does. It changes nothing. |
| Handlers.Store.GetUserById | src/handlers.rs:77-80 | Returns the row with that id exactly when one exists, and NotFound otherwise. It changes nothing. |
| Handlers.Store.GetAllUsers | src/handlers.rs:94-98 | Returns every row, in the one row order the model fixes for the table. It changes nothing. |
| Handlers.Store.AddSingleUser | src/handlers.rs:100-117 | A failed hash panics and inserts nothing. Otherwise it appends exactly one row with the next id and returns that row. The row copies the names and the email verbatim, takes the hasher's output as `pw_hash` and takes the configured `verified` flag. The token table is untouched. |
| Handlers.Store.RegisterUser | src/handlers.rs:56-75 | A taken email answers 400 "Email already in use" and leaves the store unchanged. A new email with a failed hash answers 500 and changes nothing. A new email with a successful hash appends the new row, advances the serial by one and answers 201 with the row. Unique emails and the primary key stay invariant. |
| Handlers.Store.DeleteSingleUser | src/handlers.rs:119-123 | While a token row references the user, the foreign key refuses the delete and nothing changes. Otherwise it removes exactly the row with that id, keeps every other row in order, and returns 1 if the row existed and 0 otherwise. A successful delete leaves every gate decision over the store unchanged. The token table and the serial are untouched, and the primary key and the foreign key stay invariant. |
| Handlers.Store.GetUsers | src/handlers.rs:22-28 | GET /users answers 200 with every row. |
| Handlers.Store.GetUserByIdHandler | src/handlers.rs:30-41 | GET /users/{id} answers 200 with the row exactly when it exists, and 500 with an empty body otherwise. |
| Handlers.Store.DeleteUser | src/handlers.rs:43-54 | DELETE /users/{id} answers 500 with an empty body, changing nothing, when the foreign key refuses the delete. Otherwise it removes the row and answers 200 with the number of rows removed. The serial is unchanged. |
| Handlers.AppendKeepsTokensOwned | src/handlers.rs:115 | Inserting a user keeps every token row's owner in the table. |
| Handlers.RemoveIdKeepsTokensOwned | src/handlers.rs:121 | Deleting a user that no token row references keeps the foreign key satisfied. |
| Handlers.DeleteKeepsGateDecisions | src/handlers.rs:121 | Deleting a user that no token row references leaves `validate_token`'s outcome unchanged for every token. |
| Handlers.OwnedTokensAreNeverOrphans | src/auth.rs:18-24 | When every token row has an owner, `validate_token` never answers "No user for token", and it succeeds exactly when the token's first row is live. |

## Left out

- Argon2 hashing and verification are foreign cryptographic calls. The hasher and verifier are opaque function parameters, so nothing is proved about `verify(hash(p), p)`, salting, or the hash never equalling the plaintext.
- Randomness quality of `generate_api_token` is out of scope: uniformity, a secure source and collision resistance are probabilistic. The draws are an input and only the token's shape is proved.
- Environment variables (src/vars.rs) are not read. `SECRET_KEY` and `VERIFY_EMAIL` are parameters.
- src/file.rs is not part of this model. It is multipart streaming and file-system I/O.
- The server plumbing of src/main.rs is not modelled: the HTTP server, routing, the r2d2 pool, `pool.get().unwrap()` and `web::block`. A store or pool failure never happens in the model, so the 500 answers that such failures produce at src/handlers.rs:27, 39, 52, 66 and 71 are modelled only for a failed hash, a missing row and a delete the foreign key refuses (src/handlers.rs:52).
- Concurrency is not modelled. Requests run one at a time, so the race window between the email count and the insert in `register_user` is not represented.
- Timestamps (`chrono::Local::now`) are an abstract parameter, copied into the row.
- Login, token issuance and token revocation have no code in the source, and none is invented here.
- Handlers.Store.AddSingleUser: ids are unbounded integers. The `i32` range of the `users` serial and of path ids is not modelled, so the serial's overflow is not represented.
- JSON serialization is abstract: a response body is a value of `Http.Json`, not serde's text. The WWW-Authenticate header of the bearer challenge is not modelled, only its config and the 401 status.
- Base64.Decode is the strict decoder of RFC 4648: padding required, alphabet enforced, non-zero pad bits rejected. The `base64` crate version is not pinned in the source, so any leniency of a particular version is not modelled. A decoder that accepts unpadded input (as some versions of the crate do) would decode a 30-symbol generated token, such as thirty `A`s, instead of rejecting it on length.
- Utils.DecodeTokenRejectsGeneratedTokens: holds for the strict decoder of this model only. It is not a claim about every version of the `base64` crate; see the line above.
- Auth.IsTokenRevoked and Auth.GetUserByApiToken: the helpers `db_is_token_revoked` and `db_get_user_by_api_token` are not part of this model. They receive the bearer credential itself (src/auth.rs:8, 18) and might decode it with `decode_token` first, in which case a malformed credential would panic instead of answering "No token". The model assumes they compare the raw token with the `token` column.
- Handlers.Store.DeleteSingleUser: the migrations that set the foreign key's ON DELETE action are not part of the source. The model takes PostgreSQL's default (NO ACTION): deleting a user who still owns token rows fails. Under ON DELETE CASCADE the delete would succeed and remove that user's token rows too, and that is not modelled.
- Row order: SQL without ORDER BY (`users.load`, the helpers' single-row lookups) promises no order. The model fixes one order, the order of its sequences, so "first row" and "every row in order" are relative to that choice.
- `APIToken` and `NewToken` of src/models.rs disagree with the `api_token` table of src/schema.rs (`created_at`, `user_id_fk`). The token row is modelled after the table.
- src/main.rs:27 calls `validate_token` with one argument, but src/auth.rs:7 takes the token and the pool. The two-argument form is modelled, with the store as a value parameter. The middleware is also never installed (src/main.rs:51 and 53 are commented out), so `Gate.Validator` describes the gate as written, not one in use.
- The routes for GET /users, GET /users/{id} and DELETE /users/{id} are commented out in src/main.rs. Their handlers are modelled regardless.
