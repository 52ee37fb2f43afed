/**
 * Row shapes of the two tables the authentication core reads and writes
 * (src/models.rs and src/schema.rs), and the request body of registration.
 */
module Models {
  import opened Wrappers

  /** chrono::NaiveDateTime; only ever copied, so an abstract number is enough. */
  type Timestamp = int

  /** A row of `users` (src/models.rs:5-13). */
  datatype User = User(
    id: int,
    firstName: string,
    lastName: string,
    email: string,
    pwHash: string,
    verified: bool,
    createdAt: Timestamp)

  /** The insertable row of `users`; the store adds the id (src/models.rs:17-24). */
  datatype NewUser = NewUser(
    firstName: string,
    lastName: string,
    email: string,
    pwHash: string,
    verified: bool,
    createdAt: Timestamp)

  /** A row of `api_token` as the table declares it (src/schema.rs:3-10). */
  datatype ApiToken = ApiToken(id: int, token: string, userId: int, revoked: bool)

  /** The JSON body of POST /register (src/handlers.rs:14-20). */
  datatype InputUser = InputUser(firstName: string, lastName: string, password: string, email: string)

  /**
   * Query failures the model has: no row matched (diesel's NotFound), or a
   * delete refused because `api_token.user_id` still references the row.
   */
  datatype StoreError = NotFound | ForeignKeyViolation

  /** Both tables at one moment, as the read-only queries see them. */
  datatype StoreState = StoreState(users: seq<User>, tokens: seq<ApiToken>)

  /** The row the store returns for an inserted NewUser given the id it assigns. */
  function Inserted(n: NewUser, id: int): User
  {
    User(id, n.firstName, n.lastName, n.email, n.pwHash, n.verified, n.createdAt)
  }

  /** `users.find(id)`: the row whose id is `id`, if there is one. */
  function FindUser(users: seq<User>, id: int): (r: Option<User>)
    ensures r.Some? <==> exists k :: 0 <= k < |users| && users[k].id == id
    ensures r.Some? ==> r.value in users && r.value.id == id
    decreases |users|
  {
    if users == [] then None
    else if users[0].id == id then Some(users[0])
    else
      var r := FindUser(users[1..], id);
      assert (exists k :: 0 <= k < |users| && users[k].id == id) ==> r.Some? by {
        if k :| 0 <= k < |users| && users[k].id == id {
          assert users[1..][k - 1].id == id;
        }
      }
      r
  }
}
