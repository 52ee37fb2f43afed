/**
 * `validator` of src/main.rs: the bearer-authentication middleware's
 * callback, which lets a request through or rejects it with the bearer
 * challenge, whatever the reason.
 */
module Gate {
  import opened Wrappers
  import opened Models
  import opened Errors
  import opened Http
  import Auth

  /** actix-web-httpauth's bearer `Config`: the realm and scope of the challenge. */
  datatype BearerConfig = BearerConfig(realm: Option<string>, scope: Option<string>)

  /** `Config::default()`: neither realm nor scope. */
  const DEFAULT_CONFIG: BearerConfig := BearerConfig(None, None)

  /** `AuthenticationError::from(config)`: the bearer challenge built from the config. */
  datatype Rejection = Challenge(config: BearerConfig)

  /** The response of a challenge: 401 with an empty body (its WWW-Authenticate header is not modelled). */
  function RejectionResponse(r: Rejection): Response
  {
    Response(UNAUTHORIZED, Empty)
  }

  /** The config registered as app data, or the default one when none is. */
  function EffectiveConfig(registered: Option<BearerConfig>): (c: BearerConfig)
    ensures registered.None? ==> c == DEFAULT_CONFIG
    ensures registered.Some? ==> c == registered.value
  {
    match registered
    case Some(c) => c
    case None => DEFAULT_CONFIG
  }

  /**
   * The `match` on the validation outcome: only `Ok(true)` forwards the
   * request; `Ok(false)` and every `Err`, whatever its message, become the
   * same challenge.
   */
  function Decide<R>(req: R, config: BearerConfig, outcome: Result<bool, ServiceError>): (r: Result<R, Rejection>)
    ensures r.Ok? <==> outcome == Ok(true)
    ensures r.Ok? ==> r.value == req
    ensures r.Err? ==> r.error == Challenge(config)
  {
    match outcome
    case Ok(true) => Ok(req)
    case Ok(false) => Err(Challenge(config))
    case Err(_) => Err(Challenge(config))
  }

  /**
   * `validator`, with the store and the presented token passed in. The
   * request passes, untouched, exactly when the token is live and belongs
   * to a user; every rejection is the same challenge, so the cause is not
   * revealed.
   */
  function Validator<R>(req: R, registered: Option<BearerConfig>, s: StoreState, token: string): (r: Result<R, Rejection>)
    ensures r.Ok? <==> Auth.IsAuthentic(s, token)
    ensures r.Ok? ==> r.value == req
    ensures r.Err? ==> r.error == Challenge(EffectiveConfig(registered))
  {
    Decide(req, EffectiveConfig(registered), Auth.ValidateToken(s, token))
  }

  /**
   * Rejections do not depend on the cause: a missing, a revoked and an
   * orphaned token, in any two stores, are turned away identically.
   */
  lemma RejectionsAreIndistinguishable<R>(req: R, registered: Option<BearerConfig>,
                                          s1: StoreState, t1: string, s2: StoreState, t2: string)
    requires !Auth.IsAuthentic(s1, t1) && !Auth.IsAuthentic(s2, t2)
    ensures Validator(req, registered, s1, t1) == Validator(req, registered, s2, t2)
    ensures RejectionResponse(Validator(req, registered, s1, t1).error).status == UNAUTHORIZED
  {
  }
}
