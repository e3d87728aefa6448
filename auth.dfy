/**
 * The handlers of wedding/auth.py: the bearer-token check the framework runs before every
 * secured operation, and the authentication endpoints, which are all still empty.
 */
module Auth {
  import opened Wrappers
  import opened Environment
  import opened Models

  /** What `check_token` hands the framework: `{'sub': user}`, the user possibly `None`. */
  datatype TokenInfo = TokenInfo(sub: Option<UserRow>)

  /**
   * `check_token`: validate the bearer token; a problem from validation is re-raised
   * unchanged, and otherwise the user it resolves to is passed on, even when there is none.
   */
  function CheckToken(db: Database, cfg: Config, jwt: Jwt, token: string, requiredScopes: Option<seq<string>>, now: Time)
    : (r: Outcome<TokenInfo>)
    reads db
    ensures r.Returned? <==> ValidateToken(db.tokens, db.users, jwt, cfg.secretKey, token, now).Returned?
    ensures r.Returned? ==> r.value.sub == ValidateToken(db.tokens, db.users, jwt, cfg.secretKey, token, now).value
    ensures r.Raised? ==> r.failure == ValidateToken(db.tokens, db.users, jwt, cfg.secretKey, token, now).failure
    // a caller reaches a secured handler only with a recorded, unrevoked token
    ensures r.Returned? ==> token in db.tokens && !db.tokens[token].revoked
  {
    match ValidateToken(db.tokens, db.users, jwt, cfg.secretKey, token, now)
    case Returned(u) => Returned(TokenInfo(u))
    case Raised(e) => Raised(e)
  }

  /** The scopes the framework passes are not consulted. */
  lemma CheckTokenIgnoresScopes(
    db: Database, cfg: Config, jwt: Jwt, token: string, s1: Option<seq<string>>, s2: Option<seq<string>>, now: Time)
    ensures CheckToken(db, cfg, jwt, token, s1, now) == CheckToken(db, cfg, jwt, token, s2, now)
  {
  }

  /** `change_password`: not implemented, answers nothing. */
  method ChangePassword() returns (r: Option<()>)
    ensures r.None?
  {
    r := None;
  }

  /** `forgotten_password`: not implemented, answers nothing. */
  method ForgottenPassword() returns (r: Option<()>)
    ensures r.None?
  {
    r := None;
  }

  /** `login`: not implemented, answers nothing. */
  method Login() returns (r: Option<()>)
    ensures r.None?
  {
    r := None;
  }

  /** `logout`: not implemented, answers nothing. */
  method Logout() returns (r: Option<()>)
    ensures r.None?
  {
    r := None;
  }

  /** `register_user`: not implemented, answers nothing. */
  method RegisterUser() returns (r: Option<()>)
    ensures r.None?
  {
    r := None;
  }

  /** `reset_password`: not implemented, answers nothing. */
  method ResetPassword() returns (r: Option<()>)
    ensures r.None?
  {
    r := None;
  }

  /** `verify_user`: not implemented, answers nothing. */
  method VerifyUser() returns (r: Option<()>)
    ensures r.None?
  {
    r := None;
  }
}
