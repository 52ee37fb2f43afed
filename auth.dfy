/**
 * src/auth.rs: the decision whether a bearer token admits a request. The two
 * store queries it relies on are read-only functions of the tables.
 */
module Auth {
  import opened Wrappers
  import opened Models
  import opened Errors

  const TOKEN_REVOKED: string := "Token has revoked access"
  const NO_TOKEN: string := "No token"
  const NO_USER: string := "No user for token"

  /** Some api_token row holds this value. */
  ghost predicate HasRow(tokens: seq<ApiToken>, token: string)
  {
    exists i :: 0 <= i < |tokens| && tokens[i].token == token
  }

  /** Row i is the first api_token row holding this value. */
  ghost predicate IsFirstRow(tokens: seq<ApiToken>, token: string, i: int)
  {
    0 <= i < |tokens| && tokens[i].token == token && forall j :: 0 <= j < i ==> tokens[j].token != token
  }

  /** The first row holding this value is marked revoked. */
  ghost predicate FirstRowRevoked(tokens: seq<ApiToken>, token: string)
  {
    exists i :: IsFirstRow(tokens, token, i) && tokens[i].revoked
  }

  /** The first row holding this value is not marked revoked. */
  ghost predicate FirstRowLive(tokens: seq<ApiToken>, token: string)
  {
    exists i :: IsFirstRow(tokens, token, i) && !tokens[i].revoked
  }

  /** Some row holding this value belongs to a user that is in the users table. */
  ghost predicate HasOwner(s: StoreState, token: string)
  {
    exists i, k :: 0 <= i < |s.tokens| && 0 <= k < |s.users|
      && s.tokens[i].token == token && s.users[k].id == s.tokens[i].userId
  }

  /** What the gate should let through: a live token that resolves to a user. */
  ghost predicate IsAuthentic(s: StoreState, token: string)
  {
    FirstRowLive(s.tokens, token) && HasOwner(s, token)
  }

  lemma FirstRowUnique(tokens: seq<ApiToken>, token: string, i: int, j: int)
    requires IsFirstRow(tokens, token, i) && IsFirstRow(tokens, token, j)
    ensures i == j
  {
  }

  /**
   * `db_is_token_revoked`: the `revoked` flag of the first row holding the
   * token, or NotFound when no row holds it.
   */
  function IsTokenRevoked(tokens: seq<ApiToken>, token: string): (r: Result<bool, StoreError>)
    ensures r.Err? <==> !HasRow(tokens, token)
    ensures r.Ok? ==> exists i :: IsFirstRow(tokens, token, i) && tokens[i].revoked == r.value
    decreases |tokens|
  {
    if tokens == [] then Err(NotFound)
    else if tokens[0].token == token then
      assert IsFirstRow(tokens, token, 0);
      Ok(tokens[0].revoked)
    else
      var r := IsTokenRevoked(tokens[1..], token);
      assert HasRow(tokens[1..], token) ==> HasRow(tokens, token) by {
        if HasRow(tokens[1..], token) {
          var i :| 0 <= i < |tokens[1..]| && tokens[1..][i].token == token;
          assert tokens[i + 1].token == token;
        }
      }
      assert HasRow(tokens, token) ==> HasRow(tokens[1..], token) by {
        if HasRow(tokens, token) {
          var i :| 0 <= i < |tokens| && tokens[i].token == token;
          assert tokens[1..][i - 1].token == token;
        }
      }
      assert r.Ok? ==> exists i :: IsFirstRow(tokens, token, i) && tokens[i].revoked == r.value by {
        if r.Ok? {
          var i :| IsFirstRow(tokens[1..], token, i) && tokens[1..][i].revoked == r.value;
          assert IsFirstRow(tokens, token, i + 1);
        }
      }
      r
  }

  /** The joined user of the first row among `tokens` that holds the token and has one. */
  function JoinOwner(tokens: seq<ApiToken>, users: seq<User>, token: string): (r: Option<User>)
    ensures r.Some? <==> HasOwner(StoreState(users, tokens), token)
    ensures r.Some? ==> r.value in users
    ensures r.Some? ==> exists i :: 0 <= i < |tokens| && tokens[i].token == token && tokens[i].userId == r.value.id
    decreases |tokens|
  {
    if tokens == [] then None
    else
      var here := if tokens[0].token == token then FindUser(users, tokens[0].userId) else None;
      if here.Some? then here
      else
        var r := JoinOwner(tokens[1..], users, token);
        assert HasOwner(StoreState(users, tokens), token) ==> HasOwner(StoreState(users, tokens[1..]), token) by {
          if HasOwner(StoreState(users, tokens), token) {
            var i, k :| 0 <= i < |tokens| && 0 <= k < |users|
              && tokens[i].token == token && users[k].id == tokens[i].userId;
            assert i != 0;
            assert tokens[1..][i - 1] == tokens[i];
          }
        }
        assert r.Some? ==> exists i :: 0 <= i < |tokens| && tokens[i].token == token && tokens[i].userId == r.value.id by {
          if r.Some? {
            var i :| 0 <= i < |tokens[1..]| && tokens[1..][i].token == token && tokens[1..][i].userId == r.value.id;
            assert tokens[i + 1] == tokens[1..][i];
          }
        }
        assert r.Some? ==> HasOwner(StoreState(users, tokens), token) by {
          if r.Some? {
            var i, k :| 0 <= i < |tokens[1..]| && 0 <= k < |users|
              && tokens[1..][i].token == token && users[k].id == tokens[1..][i].userId;
            assert tokens[i + 1] == tokens[1..][i];
          }
        }
        r
  }

  /**
   * `db_get_user_by_api_token`: the user that a row holding the token
   * belongs to (an inner join of api_token with users), or NotFound.
   */
  function GetUserByApiToken(s: StoreState, token: string): (r: Result<User, StoreError>)
    ensures r.Ok? <==> HasOwner(s, token)
    ensures r.Ok? ==> r.value in s.users
    ensures r.Ok? ==> exists i :: 0 <= i < |s.tokens| && s.tokens[i].token == token && s.tokens[i].userId == r.value.id
  {
    match JoinOwner(s.tokens, s.users, token)
    case Some(u) => Ok(u)
    case None => Err(NotFound)
  }

  /**
   * `validate_token`, with the store passed in: revocation is looked up
   * first, so a missing token and a revoked one are decided on the token
   * table alone; only a live token is then resolved to its user.
   */
  function ValidateToken(s: StoreState, token: string): (r: Result<bool, ServiceError>)
    ensures r != Ok(false)
    ensures r.Err? ==> r.error.AuthenticationError?
    ensures !HasRow(s.tokens, token) <==> r == Err(AuthenticationError(NO_TOKEN))
    ensures FirstRowRevoked(s.tokens, token) <==> r == Err(AuthenticationError(TOKEN_REVOKED))
    ensures FirstRowLive(s.tokens, token) && !HasOwner(s, token) <==> r == Err(AuthenticationError(NO_USER))
    ensures r == Ok(true) <==> IsAuthentic(s, token)
  {
    var revoked := IsTokenRevoked(s.tokens, token);
    assert FirstRowRevoked(s.tokens, token) <==> revoked == Ok(true) by {
      if revoked.Ok? {
        var i :| IsFirstRow(s.tokens, token, i) && s.tokens[i].revoked == revoked.value;
        forall j | IsFirstRow(s.tokens, token, j) ensures j == i { FirstRowUnique(s.tokens, token, i, j); }
      }
    }
    assert FirstRowLive(s.tokens, token) <==> revoked == Ok(false) by {
      if revoked.Ok? {
        var i :| IsFirstRow(s.tokens, token, i) && s.tokens[i].revoked == revoked.value;
        forall j | IsFirstRow(s.tokens, token, j) ensures j == i { FirstRowUnique(s.tokens, token, i, j); }
      }
    }
    match revoked
    case Err(_) => Err(AuthenticationError(NO_TOKEN))
    case Ok(true) => Err(AuthenticationError(TOKEN_REVOKED))
    case Ok(false) =>
      match GetUserByApiToken(s, token)
      case Err(_) => Err(AuthenticationError(NO_USER))
      case Ok(_) => Ok(true)
  }

  /**
   * A missing or revoked token is rejected on the token table alone: the
   * users table, which only the skipped user lookup reads, cannot change
   * the outcome.
   */
  lemma RejectionBeforeLookupIgnoresUsers(s: StoreState, users: seq<User>, token: string)
    requires !HasRow(s.tokens, token) || FirstRowRevoked(s.tokens, token)
    ensures ValidateToken(StoreState(users, s.tokens), token) == ValidateToken(s, token)
  {
  }

  /** With token values unique, as the column is meant to be. */
  ghost predicate UniqueTokenValues(tokens: seq<ApiToken>)
  {
    forall i, j :: 0 <= i < j < |tokens| ==> tokens[i].token != tokens[j].token
  }

  /**
   * With unique token values the gate's condition is the plain one: some
   * row holds the token, it is not revoked, and its owner is a user.
   */
  lemma AuthenticWithUniqueTokens(s: StoreState, token: string)
    requires UniqueTokenValues(s.tokens)
    ensures IsAuthentic(s, token) <==>
      exists i :: 0 <= i < |s.tokens| && s.tokens[i].token == token && !s.tokens[i].revoked
        && exists k :: 0 <= k < |s.users| && s.users[k].id == s.tokens[i].userId
  {
    if IsAuthentic(s, token) {
      var i :| IsFirstRow(s.tokens, token, i) && !s.tokens[i].revoked;
      var i', k :| 0 <= i' < |s.tokens| && 0 <= k < |s.users|
        && s.tokens[i'].token == token && s.users[k].id == s.tokens[i'].userId;
      assert i == i';
    }
    if i :| (0 <= i < |s.tokens| && s.tokens[i].token == token && !s.tokens[i].revoked
             && exists k :: 0 <= k < |s.users| && s.users[k].id == s.tokens[i].userId) {
      assert IsFirstRow(s.tokens, token, i);
    }
  }
}
