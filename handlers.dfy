/**
 * src/handlers.rs: registration, lookup and deletion on the users table,
 * over an in-memory store that stands for the database behind the pool.
 */
module Handlers {
  import opened Wrappers
  import opened Models
  import opened Errors
  import opened Http
  import Utils
  import Auth

  const EMAIL_IN_USE: string := "Email already in use"

  /** How many rows carry exactly this email (case-sensitive equality). */
  function CountEmail(users: seq<User>, email: string): (n: nat)
    ensures n <= |users|
    ensures n == 0 <==> forall k :: 0 <= k < |users| ==> users[k].email != email
    decreases |users|
  {
    if users == [] then 0
    else
      var rest := CountEmail(users[1..], email);
      assert forall k :: 1 <= k < |users| ==> users[k] == users[1..][k - 1];
      (if users[0].email == email then 1 else 0) + rest
  }

  /** How many rows carry this id. */
  function CountId(users: seq<User>, id: int): (n: nat)
    ensures n <= |users|
    ensures n == 0 <==> forall k :: 0 <= k < |users| ==> users[k].id != id
    decreases |users|
  {
    if users == [] then 0
    else
      var rest := CountId(users[1..], id);
      assert forall k :: 1 <= k < |users| ==> users[k] == users[1..][k - 1];
      (if users[0].id == id then 1 else 0) + rest
  }

  /** No two rows share an email. */
  ghost predicate UniqueEmails(users: seq<User>)
  {
    forall i, j :: 0 <= i < j < |users| ==> users[i].email != users[j].email
  }

  /** No two rows share an id: `id` is the primary key. */
  ghost predicate UniqueIds(users: seq<User>)
  {
    forall i, j :: 0 <= i < j < |users| ==> users[i].id != users[j].id
  }

  /** Appending one row adds one to its email's count and leaves every other count alone. */
  lemma {:induction false} CountEmailAppend(users: seq<User>, row: User, email: string)
    ensures CountEmail(users + [row], email) == CountEmail(users, email) + (if row.email == email then 1 else 0)
    decreases |users|
  {
    if users != [] {
      assert (users + [row])[1..] == users[1..] + [row];
      CountEmailAppend(users[1..], row, email);
    }
  }

  /** With a primary key, an id is held by at most one row. */
  lemma {:induction false} CountIdAtMostOne(users: seq<User>, id: int)
    requires UniqueIds(users)
    ensures CountId(users, id) <= 1
    decreases |users|
  {
    if users != [] {
      CountIdAtMostOne(users[1..], id);
      if users[0].id == id {
        assert forall k :: 0 <= k < |users[1..]| ==> users[1..][k].id != id by {
          forall k | 0 <= k < |users[1..]| ensures users[1..][k].id != id {
            assert users[1..][k] == users[k + 1];
          }
        }
      }
    }
  }

  /** Every email is counted at most once. */
  ghost predicate CountsAtMostOne(users: seq<User>)
  {
    forall email :: CountEmail(users, email) <= 1
  }

  /** Unique emails means no email is counted more than once, and conversely. */
  lemma {:induction false} UniqueEmailsIffCountsAtMostOne(users: seq<User>)
    ensures UniqueEmails(users) <==> CountsAtMostOne(users)
    decreases |users|
  {
    if users != [] {
      var tail := users[1..];
      assert forall k :: 1 <= k < |users| ==> users[k] == tail[k - 1];
      UniqueEmailsIffCountsAtMostOne(tail);
      if UniqueEmails(users) {
        assert UniqueEmails(tail);
        forall email ensures CountEmail(users, email) <= 1 {
          assert CountEmail(users, email) == (if users[0].email == email then 1 else 0) + CountEmail(tail, email);
          if users[0].email == email {
            forall k | 0 <= k < |tail| ensures tail[k].email != email {
              assert users[0].email != users[k + 1].email;
            }
          }
        }
      }
      if CountsAtMostOne(users) {
        forall email ensures CountEmail(tail, email) <= 1 {
          assert CountEmail(users, email) == (if users[0].email == email then 1 else 0) + CountEmail(tail, email);
        }
        forall i, j | 0 <= i < j < |users| ensures users[i].email != users[j].email {
          if i == 0 {
            var e := users[0].email;
            assert CountEmail(users, e) == 1 + CountEmail(tail, e);
            assert tail[j - 1].email != users[0].email;
          } else {
            assert tail[i - 1].email != tail[j - 1].email;
          }
        }
      }
    }
  }

  /** The rows other than the one with this id, in their order. */
  function RemoveId(users: seq<User>, id: int): (r: seq<User>)
    ensures forall u :: u in r <==> u in users && u.id != id
    ensures |r| == |users| - CountId(users, id)
    decreases |users|
  {
    if users == [] then []
    else if users[0].id == id then RemoveId(users[1..], id)
    else [users[0]] + RemoveId(users[1..], id)
  }

  /** Removing rows keeps the primary key a key. */
  lemma {:induction false} RemoveIdKeepsUniqueIds(users: seq<User>, id: int)
    requires UniqueIds(users)
    ensures UniqueIds(RemoveId(users, id))
    decreases |users|
  {
    if users != [] {
      var tail := users[1..];
      assert UniqueIds(tail) by {
        forall i, j | 0 <= i < j < |tail| ensures tail[i].id != tail[j].id {
          assert tail[i] == users[i + 1] && tail[j] == users[j + 1];
        }
      }
      RemoveIdKeepsUniqueIds(tail, id);
      if users[0].id != id {
        var rest := RemoveId(tail, id);
        forall k | 0 <= k < |rest| ensures rest[k].id != users[0].id {
          assert rest[k] in tail;
          var m :| 0 <= m < |tail| && tail[m] == rest[k];
          assert tail[m] == users[m + 1];
        }
        assert RemoveId(users, id) == [users[0]] + rest;
      }
    }
  }

  /** The row that `add_single_user` asks the store to insert. */
  function NewUserRow(item: InputUser, pwHash: string, verified: bool, createdAt: Timestamp): NewUser
  {
    NewUser(item.firstName, item.lastName, item.email, pwHash, verified, createdAt)
  }

  /** The table after a registration whose password hashed to the row's hash. */
  function AfterRegister(users: seq<User>, row: User): seq<User>
  {
    if CountEmail(users, row.email) == 0 then users + [row] else users
  }

  /** A registration leaves at most one row more, and none for an email already present. */
  lemma AfterRegisterCounts(users: seq<User>, row: User, email: string)
    ensures CountEmail(AfterRegister(users, row), email) ==
      if email == row.email && CountEmail(users, email) == 0 then 1 else CountEmail(users, email)
  {
    if CountEmail(users, row.email) == 0 {
      CountEmailAppend(users, row, email);
    }
  }

  /** One registration keeps emails unique. */
  lemma RegisterKeepsEmailsUnique(users: seq<User>, row: User)
    requires UniqueEmails(users)
    ensures UniqueEmails(AfterRegister(users, row))
  {
    var next := AfterRegister(users, row);
    UniqueEmailsIffCountsAtMostOne(users);
    forall email ensures CountEmail(next, email) <= 1 {
      AfterRegisterCounts(users, row, email);
    }
    UniqueEmailsIffCountsAtMostOne(next);
  }

  /** The table after registrations in order (failed hashes change nothing and are left out). */
  function RegisterAll(users: seq<User>, rows: seq<User>): seq<User>
    decreases |rows|
  {
    if rows == [] then users else RegisterAll(AfterRegister(users, rows[0]), rows[1..])
  }

  /** Starting from unique emails, any sequence of registrations keeps one row per email. */
  lemma {:induction false} RegistrationsKeepEmailsUnique(users: seq<User>, rows: seq<User>)
    requires UniqueEmails(users)
    ensures UniqueEmails(RegisterAll(users, rows))
    decreases |rows|
  {
    if rows != [] {
      RegisterKeepsEmailsUnique(users, rows[0]);
      RegistrationsKeepEmailsUnique(AfterRegister(users, rows[0]), rows[1..]);
    }
  }

  /**
   * The foreign key `api_token.user_id -> users.id` (src/schema.rs:24): every
   * token row belongs to a user in the table.
   */
  ghost predicate TokensHaveOwners(users: seq<User>, tokens: seq<ApiToken>)
  {
    forall t :: t in tokens ==> exists u :: u in users && u.id == t.userId
  }

  /** Inserting a user keeps every token's owner in the table. */
  lemma AppendKeepsTokensOwned(users: seq<User>, row: User, tokens: seq<ApiToken>)
    requires TokensHaveOwners(users, tokens)
    ensures TokensHaveOwners(users + [row], tokens)
  {
  }

  /** Some token row references this user id. */
  predicate IsReferenced(tokens: seq<ApiToken>, id: int)
  {
    exists i :: 0 <= i < |tokens| && tokens[i].userId == id
  }

  /** A user whose id no token references is still found as an owner after removing that id. */
  lemma RemoveIdKeepsOwner(users: seq<User>, id: int, k: int)
    requires 0 <= k < |users| && users[k].id != id
    ensures exists k' :: 0 <= k' < |RemoveId(users, id)| && RemoveId(users, id)[k'] == users[k]
  {
    assert users[k] in RemoveId(users, id);
  }

  /** Deleting an unreferenced user keeps the foreign key satisfied. */
  lemma RemoveIdKeepsTokensOwned(users: seq<User>, tokens: seq<ApiToken>, id: int)
    requires TokensHaveOwners(users, tokens) && !IsReferenced(tokens, id)
    ensures TokensHaveOwners(RemoveId(users, id), tokens)
  {
    forall t | t in tokens ensures exists u :: u in RemoveId(users, id) && u.id == t.userId {
      var u :| u in users && u.id == t.userId;
      var i :| 0 <= i < |tokens| && tokens[i] == t;
      assert u in RemoveId(users, id);
    }
  }

  /**
   * Deleting a user that no token references changes no decision of the
   * gate: every token keeps its owner, or keeps lacking one.
   */
  lemma DeleteKeepsGateDecisions(s: StoreState, id: int, token: string)
    requires !IsReferenced(s.tokens, id)
    ensures Auth.ValidateToken(StoreState(RemoveId(s.users, id), s.tokens), token) == Auth.ValidateToken(s, token)
  {
    var after := StoreState(RemoveId(s.users, id), s.tokens);
    if Auth.HasOwner(s, token) {
      var i, k :| 0 <= i < |s.tokens| && 0 <= k < |s.users|
        && s.tokens[i].token == token && s.users[k].id == s.tokens[i].userId;
      RemoveIdKeepsOwner(s.users, id, k);
      assert Auth.HasOwner(after, token);
    }
    if Auth.HasOwner(after, token) {
      var i, k :| 0 <= i < |after.tokens| && 0 <= k < |after.users|
        && after.tokens[i].token == token && after.users[k].id == after.tokens[i].userId;
      assert after.users[k] in s.users;
      assert Auth.HasOwner(s, token);
    }
  }

  /**
   * With the foreign key in force a token never lacks an owner, so the gate
   * never answers "No user for token": a live token always passes.
   */
  lemma OwnedTokensAreNeverOrphans(s: StoreState, token: string)
    requires TokensHaveOwners(s.users, s.tokens)
    ensures Auth.ValidateToken(s, token) != Err(AuthenticationError(Auth.NO_USER))
    ensures Auth.ValidateToken(s, token) == Ok(true) <==> Auth.FirstRowLive(s.tokens, token)
  {
    if Auth.FirstRowLive(s.tokens, token) {
      var i :| Auth.IsFirstRow(s.tokens, token, i) && !s.tokens[i].revoked;
      var u :| u in s.users && u.id == s.tokens[i].userId;
      var k :| 0 <= k < |s.users| && s.users[k] == u;
      assert Auth.HasOwner(s, token);
    }
  }

  /** Why `add_single_user` produced no row: `hash_password(..).unwrap()` panicked. */
  datatype AddFailure = HashPanicked

  /** Both tables and the id the store assigns next. */
  class Store {
    var users: seq<User>
    var tokens: seq<ApiToken>
    var nextUserId: int

    /**
     * Ids are a primary key, every id so far was handed out below
     * `nextUserId`, and every token belongs to a user.
     */
    ghost predicate Valid()
      reads this
    {
      && UniqueIds(users)
      && (forall k :: 0 <= k < |users| ==> users[k].id < nextUserId)
      && TokensHaveOwners(users, tokens)
    }

    /** The tables as the read-only queries of the authentication core see them. */
    function State(): StoreState
      reads this
    {
      StoreState(users, tokens)
    }

    constructor (users0: seq<User>, tokens0: seq<ApiToken>, nextUserId0: int)
      requires UniqueIds(users0) && forall k :: 0 <= k < |users0| ==> users0[k].id < nextUserId0
      requires TokensHaveOwners(users0, tokens0)
      ensures Valid()
      ensures users == users0 && tokens == tokens0 && nextUserId == nextUserId0
    {
      users, tokens, nextUserId := users0, tokens0, nextUserId0;
    }

    /** `db_count_user_email`: the number of rows whose email equals this one exactly. */
    method CountUserEmail(email: string) returns (n: nat)
      ensures n == CountEmail(users, email)
      ensures n == 0 <==> forall k :: 0 <= k < |users| ==> users[k].email != email
    {
      n := CountEmail(users, email);
    }

    /** `db_get_user_by_id`: the row with this id, or NotFound. */
    method GetUserById(id: int) returns (r: Result<User, StoreError>)
      ensures r.Ok? <==> exists k :: 0 <= k < |users| && users[k].id == id
      ensures r.Ok? ==> r.value in users && r.value.id == id
    {
      match FindUser(users, id)
      case Some(u) => r := Ok(u);
      case None => r := Err(NotFound);
    }

    /** `get_all_users`: every row. */
    method GetAllUsers() returns (r: seq<User>)
      ensures r == users
    {
      r := users;
    }

    /**
     * `add_single_user`: hash the password, then insert the row with the
     * next id. A hashing failure panics at the `unwrap`, before the insert.
     */
    method AddSingleUser(item: InputUser, hasher: Utils.Hasher, secretKey: string, verifyEmail: bool, now: Timestamp)
      returns (r: Result<User, AddFailure>)
      requires Valid()
      modifies this
      ensures Valid() && tokens == old(tokens)
      ensures Utils.HashPassword(hasher, secretKey, item.password).Err? ==>
        r == Err(HashPanicked) && users == old(users) && nextUserId == old(nextUserId)
      ensures Utils.HashPassword(hasher, secretKey, item.password).Ok? ==>
        var row := Inserted(NewUserRow(item, Utils.HashPassword(hasher, secretKey, item.password).value, verifyEmail, now),
                            old(nextUserId));
        r == Ok(row) && users == old(users) + [row] && nextUserId == old(nextUserId) + 1
    {
      match Utils.HashPassword(hasher, secretKey, item.password)
      case Err(_) =>
        r := Err(HashPanicked);
      case Ok(hashed) =>
        var row := Inserted(NewUserRow(item, hashed, verifyEmail, now), nextUserId);
        AppendKeepsTokensOwned(users, row, tokens);
        users := users + [row];
        nextUserId := nextUserId + 1;
        r := Ok(row);
    }

    /**
     * `register_user`: insert only when no row has the email; a taken email
     * answers 400 "Email already in use" and changes nothing, a hashing panic
     * answers 500, a new user answers 201 with its row.
     */
    method RegisterUser(item: InputUser, hasher: Utils.Hasher, secretKey: string, verifyEmail: bool, now: Timestamp)
      returns (resp: Response)
      requires Valid()
      modifies this
      ensures Valid() && tokens == old(tokens)
      ensures CountEmail(old(users), item.email) != 0 ==>
        resp == ErrorResponse(AuthenticationError(EMAIL_IN_USE)) && users == old(users) && nextUserId == old(nextUserId)
      ensures CountEmail(old(users), item.email) == 0 && Utils.HashPassword(hasher, secretKey, item.password).Err? ==>
        resp == Response(INTERNAL_SERVER_ERROR, Empty) && users == old(users) && nextUserId == old(nextUserId)
      ensures Utils.HashPassword(hasher, secretKey, item.password).Ok? ==>
        var row := Inserted(NewUserRow(item, Utils.HashPassword(hasher, secretKey, item.password).value, verifyEmail, now),
                            old(nextUserId));
        users == AfterRegister(old(users), row)
        && (CountEmail(old(users), item.email) == 0 ==>
              resp == Response(CREATED, JsonBody(JUser(row))) && nextUserId == old(nextUserId) + 1)
      ensures old(UniqueEmails(users)) ==> UniqueEmails(users)
    {
      ghost var before := users;
      var count := CountUserEmail(item.email);
      if count == 0 {
        var added := AddSingleUser(item, hasher, secretKey, verifyEmail, now);
        match added {
          case Ok(row) => resp := Response(CREATED, JsonBody(JUser(row)));
          case Err(_) => resp := Response(INTERNAL_SERVER_ERROR, Empty);
        }
        if added.Ok? && UniqueEmails(before) {
          RegisterKeepsEmailsUnique(before, added.value);
        }
      } else {
        resp := ErrorResponse(AuthenticationError(EMAIL_IN_USE));
      }
    }

    /**
     * `delete_single_user`: remove the row with this id; the count is 1 if it
     * existed, else 0. While a token still references the row, the foreign
     * key refuses the delete and nothing changes.
     */
    method DeleteSingleUser(id: int) returns (r: Result<nat, StoreError>)
      requires Valid()
      modifies this
      ensures Valid() && tokens == old(tokens) && nextUserId == old(nextUserId)
      ensures r.Ok? <==> !IsReferenced(tokens, id)
      ensures r.Err? ==> r.error == ForeignKeyViolation && users == old(users)
      ensures r.Ok? ==> users == RemoveId(old(users), id) && r.value == CountId(old(users), id) && r.value <= 1
      ensures r.Ok? ==> (r.value == 1 <==> exists k :: 0 <= k < |old(users)| && old(users)[k].id == id)
      ensures r.Ok? ==> forall token :: Auth.ValidateToken(State(), token) == Auth.ValidateToken(old(State()), token)
    {
      if IsReferenced(tokens, id) {
        r := Err(ForeignKeyViolation);
      } else {
        var count := CountId(users, id);
        CountIdAtMostOne(users, id);
        RemoveIdKeepsUniqueIds(users, id);
        RemoveIdKeepsTokensOwned(users, tokens, id);
        forall token ensures Auth.ValidateToken(StoreState(RemoveId(users, id), tokens), token) == Auth.ValidateToken(State(), token) {
          DeleteKeepsGateDecisions(State(), id, token);
        }
        users := RemoveId(users, id);
        r := Ok(count);
      }
    }

    /** Handler for GET /users: 200 with every row. */
    method GetUsers() returns (resp: Response)
      ensures resp == Response(OK, JsonBody(JUsers(users)))
    {
      var all := GetAllUsers();
      resp := Response(OK, JsonBody(JUsers(all)));
    }

    /** Handler for GET /users/{id}: 200 with the row, and 500 (not 404) when there is none. */
    method GetUserByIdHandler(id: int) returns (resp: Response)
      ensures resp.status == OK <==> exists k :: 0 <= k < |users| && users[k].id == id
      ensures resp.status == OK ==> exists u :: u in users && u.id == id && resp.body == JsonBody(JUser(u))
      ensures resp.status != OK ==> resp == Response(INTERNAL_SERVER_ERROR, Empty)
    {
      var found := GetUserById(id);
      match found
      case Ok(u) => resp := Response(OK, JsonBody(JUser(u)));
      case Err(_) => resp := Response(INTERNAL_SERVER_ERROR, Empty);
    }

    /** Handler for DELETE /users/{id}: 200 with the number of rows removed, 500 when the delete fails. */
    method DeleteUser(id: int) returns (resp: Response)
      requires Valid()
      modifies this
      ensures Valid() && tokens == old(tokens) && nextUserId == old(nextUserId)
      ensures IsReferenced(tokens, id) ==> users == old(users) && resp == Response(INTERNAL_SERVER_ERROR, Empty)
      ensures !IsReferenced(tokens, id) ==>
        users == RemoveId(old(users), id) && resp == Response(OK, JsonBody(JCount(CountId(old(users), id))))
    {
      var deleted := DeleteSingleUser(id);
      match deleted {
        case Ok(count) => resp := Response(OK, JsonBody(JCount(count)));
        case Err(_) => resp := Response(INTERNAL_SERVER_ERROR, Empty);
      }
    }
  }
}
