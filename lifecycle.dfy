/**
 * Properties of the authentication state across several operations: the token ledger
 * under any sequence of writes, a freshly issued token, and the recovery and verification
 * codes held on a user record.
 */
module Lifecycle {
  import opened Wrappers
  import opened Environment
  import opened Models

  /** The ledger after a sequence of writes, in order. */
  function Replay(ledger: Ledger, writes: seq<LedgerWrite>): Ledger
    decreases |writes|
  {
    if |writes| == 0 then ledger else Replay(LedgerStep(ledger, writes[0]), writes[1..])
  }

  /**
   * No write ever removes a ledger row or un-revokes it: whatever is recorded stays
   * recorded, and a revoked token stays revoked.
   */
  lemma {:induction false} RevocationIsPermanent(ledger: Ledger, writes: seq<LedgerWrite>, t: string)
    requires t in ledger
    ensures t in Replay(ledger, writes)
    ensures ledger[t].revoked ==> Replay(ledger, writes)[t].revoked
    decreases |writes|
  {
    if |writes| > 0 {
      RevocationIsPermanent(LedgerStep(ledger, writes[0]), writes[1..], t);
    }
  }

  /** Once revoked, a token is refused by `validate_token` after any later ledger writes, at any time. */
  lemma RevokedTokenNeverValidates(
    ledger: Ledger, writes: seq<LedgerWrite>, users: seq<UserRow>, jwt: Jwt, key: string, t: string, now: Time)
    requires t in ledger && ledger[t].revoked
    ensures ValidateToken(Replay(ledger, writes), users, jwt, key, t, now).Raised?
    ensures jwt.decode(t, key).DecodeOk? ==>
              ValidateToken(Replay(ledger, writes), users, jwt, key, t, now) == Raised(RevokedProblem)
  {
    RevocationIsPermanent(ledger, writes, t);
  }

  /**
   * A token `generate_jwt` has just recorded, decoded by a verifier that gives back the
   * claims it was signed with, resolves to its user for one day after issue.
   */
  lemma FreshTokenValidates(
    ledger: Ledger, users: seq<UserRow>, i: nat, jwt: Jwt, key: string, s: string, issuedAt: Time, now: Time)
    requires i < |users| && EmailsUnique(users)
    requires s !in ledger
    requires jwt.decode(s, key) == DecodeOk(JwtClaims(users[i], issuedAt))
    requires now <= issuedAt + OneDay
    ensures ValidateToken(LedgerStep(ledger, Record(s)), users, jwt, key, s, now) == Returned(Some(users[i]))
  {
    FirstByEmailUnique(users, i);
  }

  /** Past one day after issue the same token is refused, whether or not it was revoked. */
  lemma TokenExpiresAfterOneDay(
    ledger: Ledger, users: seq<UserRow>, u: UserRow, jwt: Jwt, key: string, s: string, issuedAt: Time, now: Time)
    requires jwt.decode(s, key) == DecodeOk(JwtClaims(u, issuedAt))
    requires now > issuedAt + OneDay
    ensures ValidateToken(ledger, users, jwt, key, s, now) == Raised(RevokedProblem)
         || ValidateToken(ledger, users, jwt, key, s, now) == Raised(ExpiredProblem)
  {
  }

  /**
   * A recovery code superseded by a newer one for the same user is refused: no user holds
   * it any more under that email.
   */
  lemma {:induction false} SupersededRecoveryCodeRejected(
    users: seq<UserRow>, i: nat, previous: string, newer: string, now: Time)
    requires i < |users| && EmailsUnique(users)
    requires previous != newer
    ensures RecoveryHolder(users[i := WithRecoveryCode(users[i], newer, now)], users[i].email, previous).None?
  {
    var s := users[i := WithRecoveryCode(users[i], newer, now)];
    forall j | 0 <= j < |s|
      ensures !(s[j].email == users[i].email && s[j].recoveryCode == Some(previous))
    {
      if j != i {
        assert s[j] == users[j];
        assert j < i || i < j;
      }
    }
  }

  /** The newest recovery code is accepted for its user. */
  lemma CurrentRecoveryCodeAccepted(users: seq<UserRow>, i: nat, code: string, now: Time)
    requires i < |users| && EmailsUnique(users)
    ensures RecoveryHolder(users[i := WithRecoveryCode(users[i], code, now)], users[i].email, code) == Some(i)
  {
    var s := users[i := WithRecoveryCode(users[i], code, now)];
    assert s[i].email == users[i].email && s[i].recoveryCode == Some(code);
  }

  /** A recovery code that was used is cleared, so it cannot be used a second time by its user. */
  lemma {:induction false} UsedRecoveryCodeCannotBeReplayed(users: seq<UserRow>, i: nat, code: string)
    requires i < |users| && EmailsUnique(users)
    ensures RecoveryHolder(users[i := RecoveryCleared(users[i])], users[i].email, code).None?
  {
    var s := users[i := RecoveryCleared(users[i])];
    forall j | 0 <= j < |s|
      ensures !(s[j].email == users[i].email && s[j].recoveryCode == Some(code))
    {
      if j != i {
        assert s[j] == users[j];
        assert j < i || i < j;
      }
    }
  }

  /**
   * With the configuration as shipped (no `EMAIL_EXP`), no verification or recovery code
   * ever loads, so `validate_email_code` and `validate_recovery_code` always raise the
   * "expired" error.
   */
  lemma MissingEmailExpRejectsAllCodes(secretKey: string, signer: Signer, code: string, now: Time)
    ensures LoadCode(ShippedConfig(secretKey), signer, code, now) == LoadFailed
  {
  }

  /** The writes `wedding/models.py` makes to a user record. */
  datatype RecordWrite =
    | PasswordSet(password: string, salt: int)
    | EmailVerified(at: Time)
    | EmailUntrusted(code: string)
    | RecoveryIssued(code: string, at: Time)
    | RecoveryUsed

  /** The record after one write: the `password` setter, or the fields the code methods set. */
  function RecordStep(bc: Bcrypt, u: UserRow, w: RecordWrite): UserRow {
    match w
    case PasswordSet(password, salt) => u.(passwordHash := bc.hash(password, salt))
    case EmailVerified(at) => Verified(u, at)
    case EmailUntrusted(code) => Untrusted(u, code)
    case RecoveryIssued(code, at) => WithRecoveryCode(u, code, at)
    case RecoveryUsed => RecoveryCleared(u)
  }

  /** The record after a sequence of writes, in order. */
  function RecordReplay(bc: Bcrypt, u: UserRow, writes: seq<RecordWrite>): UserRow
    decreases |writes|
  {
    if |writes| == 0 then u else RecordStep(bc, RecordReplay(bc, u, writes[..|writes| - 1]), writes[|writes| - 1])
  }

  /** The last password set in a sequence of writes, if any. */
  function LastPasswordSet(writes: seq<RecordWrite>): (r: Option<RecordWrite>)
    ensures r.Some? ==> r.value.PasswordSet? && r.value in writes
    ensures r.None? <==> forall k :: 0 <= k < |writes| ==> !writes[k].PasswordSet?
    decreases |writes|
  {
    if |writes| == 0 then None
    else if writes[|writes| - 1].PasswordSet? then Some(writes[|writes| - 1])
    else LastPasswordSet(writes[..|writes| - 1])
  }

  /**
   * `check_password` answers with the last password the setter stored: after any sequence
   * of record writes, checking `q` is bcrypt's verdict of `q` against the hash of the last
   * password set, and against the original hash when none was set. Verifying an email,
   * untrusting it, and issuing or using a recovery code never change the verdict.
   */
  lemma {:induction false} LastPasswordSetDecides(bc: Bcrypt, u: UserRow, writes: seq<RecordWrite>, q: string)
    ensures LastPasswordSet(writes).None? ==>
              CheckPassword(bc, RecordReplay(bc, u, writes), q) == CheckPassword(bc, u, q)
    ensures LastPasswordSet(writes).Some? ==>
              var w := LastPasswordSet(writes).value;
              CheckPassword(bc, RecordReplay(bc, u, writes), q) == bc.check(bc.hash(w.password, w.salt), q)
    decreases |writes|
  {
    if |writes| > 0 {
      LastPasswordSetDecides(bc, u, writes[..|writes| - 1], q);
    }
  }

  /**
   * A user made untrusted holds the new code and is unverified; the code's email then
   * finds that same user, and verifying it clears the code and marks it verified.
   */
  lemma EmailVerificationRoundTrip(users: seq<UserRow>, i: nat, code: string, now: Time)
    requires i < |users| && EmailsUnique(users)
    ensures var s := users[i := Untrusted(users[i], code)];
            && !s[i].verified && s[i].verificationCode == Some(code) && s[i].verifiedOn.None?
            && UserIndexByEmail(s, users[i].email) == Some(i)
            && Verified(s[i], now).verified && Verified(s[i], now).verificationCode.None?
            && Verified(s[i], now).verifiedOn == Some(now)
  {
    var s := users[i := Untrusted(users[i], code)];
    forall j | 0 <= j < i ensures s[j].email != users[i].email {
      assert s[j] == users[j];
    }
  }
}
