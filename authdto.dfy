/**
 * The operations of `AuthDTO` (wedding/dto/authdto.py): the registration pre-check, login
 * and logout, with the replies exactly as that class builds them.
 */
module AuthDto {
  import opened Wrappers
  import opened Environment
  import opened Models
  import opened Query
  import opened Utils

  /** The `registration_model` payload. */
  datatype Registration = Registration(
    email: string, password: string, firstname: string, lastname: string, registrationCode: string)

  /** The `login_model` payload. */
  datatype Credentials = Credentials(email: string, password: string)

  function Status(s: string, message: string): Message {
    map["status" := JStr(s), "message" := JStr(message)]
  }

  const UnknownCode := Status("fail", "registration code does not exist")
  const AccountExists := Status("fail", "an account already exists with that email")
  const LoggedOut := Status("success", "logged out successfully")

  /** The login reply; `token` is what `generate_jwt` returned, possibly an exception. */
  function LoggedIn(token: Json): Message {
    Status("success", "logged in successfully")["token" := token]
  }

  /** Some group has `code` as its registration code. */
  predicate CodeExists(groups: seq<GroupRow>, code: string) {
    exists j :: 0 <= j < |groups| && groups[j].groupCode == code
  }

  /** Some user has `email`. */
  predicate EmailTaken(users: seq<UserRow>, email: string) {
    exists j :: 0 <= j < |users| && users[j].email == email
  }

  /**
   * `AuthDTO.create`: an unknown registration code and an email already in use are refused
   * with 409; when both checks pass the method falls off its end, so it answers nothing
   * and no account is created.
   */
  function Create(db: Database, data: Registration): (r: Option<Reply<()>>)
    reads db
    ensures !CodeExists(db.groups, data.registrationCode) ==> r == Some(Reply(Msg(UnknownCode), 409))
    ensures (CodeExists(db.groups, data.registrationCode) && EmailTaken(db.users, data.email))
              ==> r == Some(Reply(Msg(AccountExists), 409))
    ensures r.None? <==> CodeExists(db.groups, data.registrationCode) && !EmailTaken(db.users, data.email)
  {
    var code := data.registrationCode;
    match FindFirst(db.groups, (g: GroupRow) => g.groupCode == code)
    case None => Some(Reply(Msg(UnknownCode), 409))
    case Some(_) =>
      match FirstByEmail(db.users, data.email)
      case Some(_) => Some(Reply(Msg(AccountExists), 409))
      case None => None
  }

  /**
   * `AuthDTO.login`: a token is issued only for a known email whose password checks; any
   * other request answers nothing and records nothing. When the encoder fails, the reply
   * carries the exception in place of the token.
   */
  method Login(db: Database, cfg: Config, jwt: Jwt, bc: Bcrypt, data: Credentials, now: Time)
    returns (r: Outcome<Option<Reply<()>>>)
    modifies db`tokens
    ensures FirstByEmail(db.users, data.email).None? ==> r == Returned(None) && db.tokens == old(db.tokens)
    ensures (FirstByEmail(db.users, data.email).Some?
             && !CheckPassword(bc, FirstByEmail(db.users, data.email).value, data.password))
              ==> r == Returned(None) && db.tokens == old(db.tokens)
    ensures (FirstByEmail(db.users, data.email).Some?
             && CheckPassword(bc, FirstByEmail(db.users, data.email).value, data.password))
              ==> match jwt.encode(JwtClaims(FirstByEmail(db.users, data.email).value, now), cfg.secretKey)
                  case EncodeError(e) =>
                    r == Returned(Some(Reply(Msg(LoggedIn(JException(e))), 200))) && db.tokens == old(db.tokens)
                  case EncodeOk(s) =>
                    if s in old(db.tokens) then r == Raised(IntegrityError) && db.tokens == old(db.tokens)
                    else r == Returned(Some(Reply(Msg(LoggedIn(JStr(s))), 200)))
                         && db.tokens == LedgerStep(old(db.tokens), Record(s))
    // whatever happens, the ledger gains a row only for a user whose password checks
    ensures db.tokens != old(db.tokens) ==>
              FirstByEmail(db.users, data.email).Some?
              && CheckPassword(bc, FirstByEmail(db.users, data.email).value, data.password)
  {
    var user := FirstByEmail(db.users, data.email);
    if user.None? || !CheckPassword(bc, user.value, data.password) {
      return Returned(None);
    }
    var issued := db.GenerateJwt(user.value, jwt, cfg.secretKey, now);
    match issued
    case Raised(e) =>
      r := Raised(e);
    case Returned(Issued(s)) =>
      r := Returned(Some(Reply(Msg(LoggedIn(JStr(s))), 200)));
    case Returned(EncodeFailed(e)) =>
      r := Returned(Some(Reply(Msg(LoggedIn(JException(e))), 200)));
  }

  /**
   * `AuthDTO.logout`: a token that fails validation raises its problem and changes nothing;
   * a token that resolves to a user is revoked (which cannot fail, since validation found
   * its row) and the logout confirmed; a token whose subject no longer exists answers
   * nothing.
   */
  method Logout(db: Database, cfg: Config, jwt: Jwt, token: string, now: Time)
    returns (r: Outcome<Option<Reply<()>>>)
    modifies db`tokens
    ensures var v := ValidateToken(old(db.tokens), db.users, jwt, cfg.secretKey, token, now);
            && (v.Raised? ==> r == Raised(v.failure) && db.tokens == old(db.tokens))
            && (v == Returned(None) ==> r == Returned(None) && db.tokens == old(db.tokens))
            && (v.Returned? && v.value.Some? ==>
                  r == Returned(Some(Reply(Msg(LoggedOut), 200)))
                  && db.tokens == LedgerStep(old(db.tokens), Revocation(token, now)))
    // a confirmed logout leaves this token revoked, and it was usable until then
    ensures r.Returned? && r.value.Some? ==>
              token in old(db.tokens) && !old(db.tokens)[token].revoked
              && token in db.tokens && db.tokens[token].revoked
  {
    var v := ValidateToken(db.tokens, db.users, jwt, cfg.secretKey, token, now);
    match v
    case Raised(e) =>
      r := Raised(e);
    case Returned(None) =>
      r := Returned(None);
    case Returned(Some(_)) =>
      // validation found the token's row, so `Token.revoke` cannot raise here
      var revoked := db.Revoke(token, now);
      assert revoked == Returned(true);
      r := Returned(Some(Reply(Msg(LoggedOut), 200)));
  }

  /** After a confirmed logout the same token is refused at any time, before and after expiry. */
  lemma LoggedOutTokenRefused(ledger: Ledger, users: seq<UserRow>, jwt: Jwt, key: string, token: string, at: Time, later: Time)
    requires token in ledger
    ensures ValidateToken(LedgerStep(ledger, Revocation(token, at)), users, jwt, key, token, later).Raised?
  {
    assert LedgerStep(ledger, Revocation(token, at))[token].revoked;
  }
}
