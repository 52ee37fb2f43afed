/** The parts of an HTTP response the handlers decide: status code and JSON body. */
module Http {
  import opened Models

  const OK: nat := 200
  const CREATED: nat := 201
  const BAD_REQUEST: nat := 400
  const UNAUTHORIZED: nat := 401
  const INTERNAL_SERVER_ERROR: nat := 500

  /** The values the handlers serialise with `.json(..)`. */
  datatype Json = JString(text: string) | JUser(user: User) | JUsers(users: seq<User>) | JCount(count: nat)

  datatype Body = Empty | JsonBody(json: Json)

  datatype Response = Response(status: nat, body: Body)
}
