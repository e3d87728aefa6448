/**
 * The ORM models of the wedding backend (wedding/models.py): the rows of each table, the
 * token ledger, session-token validation, and the database session whose User and Token
 * methods change rows in place.
 */
module Models {
  import opened Wrappers
  import opened Environment
  import opened Query

  datatype ResponseType = NoResponse | Confirmed | Declined
  datatype InvitationType = House | Weekend | Day
  datatype MenuCourse = Starter | Main | Desert

  /** A row of the `user` table. `groupId` is `invitation_group_id`. */
  datatype UserRow = UserRow(
    id: int,
    email: string,
    firstname: string,
    lastname: string,
    registeredOn: Time,
    admin: bool,
    passwordHash: string,
    verified: bool,
    verificationCode: Option<string>,
    verifiedOn: Option<Time>,
    recoveryCode: Option<string>,
    recoveryGendate: Option<Time>,
    groupId: Option<int>)

  /** The invitation a group owns (one per group, deleted with it). */
  datatype Invitation = Invitation(
    kind: InvitationType,
    response: ResponseType,
    requirements: Option<string>,
    plusOne: bool,
    plusOneName: Option<string>,
    locked: bool)

  /** A row of `invitation_group`, with its invitation. */
  datatype GroupRow = GroupRow(id: int, friendlyName: string, groupCode: string, invitation: Invitation)

  /** A guest: `groupId` places it in a group's `guests`, `user` is the account related to it. */
  datatype GuestRow = GuestRow(
    id: int,
    name: string,
    groupId: Option<int>,
    user: Option<int>,
    isComing: Option<bool>,
    firstCourse: Option<int>,
    mainCourse: Option<int>,
    desertCourse: Option<int>)

  /** A row of the menu. */
  datatype MenuItem = MenuItem(
    id: int,
    course: MenuCourse,
    description: string,
    glutenFree: bool,
    vegetarian: bool,
    additionalInfo: Option<string>)

  /** A row of the `token` table; the token text is its key in the ledger. */
  datatype TokenRow = TokenRow(revoked: bool, revokedOn: Option<Time>)

  /** The `token` table, keyed by the (unique) token text. */
  type Ledger = map<string, TokenRow>

  /** What `generate_jwt` returns: the token text, or the exception the encoder raised. */
  datatype Issued = Issued(token: string) | EncodeFailed(message: string)

  /** A session token lives for one day after it is issued. */
  const OneDay: int := 86400

  const SignatureExpiredProblem := Problem(401, "Unauthorized", "Signature expired. Please log in again.")
  const InvalidTokenProblem := Problem(401, "Unauthorized", "Invalid token. Please log in again.")
  const RevokedProblem := Problem(401, "Unauthorized", "Token has been revoked. Please log in again.")
  const ExpiredProblem := Problem(401, "Unauthorized", "Token has expired. Please log in again")

  const EmailCodeExpired := "Code has expired. Please try again"
  const RecoveryCodeExpired := "Code has expired. Please try and reset your password again"
  const RecoveryCodeInvalid := "Code is not valid. Please try and reset your password again"

  // ---------------------------------------------------------------------------------------
  // Table constraints: primary keys and the UNIQUE columns.

  predicate UserIdsUnique(users: seq<UserRow>) {
    forall i, j :: 0 <= i < j < |users| ==> users[i].id != users[j].id
  }

  /** `user.email` is UNIQUE. */
  predicate EmailsUnique(users: seq<UserRow>) {
    forall i, j :: 0 <= i < j < |users| ==> users[i].email != users[j].email
  }

  predicate GroupIdsUnique(groups: seq<GroupRow>) {
    forall i, j :: 0 <= i < j < |groups| ==> groups[i].id != groups[j].id
  }

  /** `invitation_group.friendly_name` is UNIQUE. */
  predicate GroupNamesUnique(groups: seq<GroupRow>) {
    forall i, j :: 0 <= i < j < |groups| ==> groups[i].friendlyName != groups[j].friendlyName
  }

  predicate GuestIdsUnique(guests: seq<GuestRow>) {
    forall i, j :: 0 <= i < j < |guests| ==> guests[i].id != guests[j].id
  }

  predicate ItemIdsUnique(items: seq<MenuItem>) {
    forall i, j :: 0 <= i < j < |items| ==> items[i].id != items[j].id
  }

  /** Rewriting one row without touching its key keeps the keys unique. */
  lemma UserUpdateKeepsKeys(users: seq<UserRow>, i: nat, u: UserRow)
    requires i < |users| && u.id == users[i].id && u.email == users[i].email
    requires UserIdsUnique(users) && EmailsUnique(users)
    ensures UserIdsUnique(users[i := u]) && EmailsUnique(users[i := u])
  {
    var s := users[i := u];
    forall a, b | 0 <= a < b < |s| ensures s[a].id != s[b].id && s[a].email != s[b].email {
      assert s[a].id == users[a].id && s[a].email == users[a].email;
      assert s[b].id == users[b].id && s[b].email == users[b].email;
    }
  }

  // ---------------------------------------------------------------------------------------
  // Lookups.

  /** `User.query.get(id)`: the position of the user with that primary key. */
  function UserAt(users: seq<UserRow>, id: int): Option<nat> {
    FindFirst(users, (u: UserRow) => u.id == id)
  }

  /** `InvitationGroup.query.get(id)`. */
  function GroupAt(groups: seq<GroupRow>, id: int): Option<nat> {
    FindFirst(groups, (g: GroupRow) => g.id == id)
  }

  /** `Guest.query.get(id)`. */
  function GuestAt(guests: seq<GuestRow>, id: int): Option<nat> {
    FindFirst(guests, (g: GuestRow) => g.id == id)
  }

  /** `MenuItem.query.get(id)`. */
  function ItemAt(items: seq<MenuItem>, id: int): Option<nat> {
    FindFirst(items, (m: MenuItem) => m.id == id)
  }

  /** `User.associated_guest`: the guest whose related account is the user `uid`. */
  function AssociatedGuest(guests: seq<GuestRow>, uid: int): Option<nat> {
    FindFirst(guests, (g: GuestRow) => g.user == Some(uid))
  }

  /** `User.query.filter_by(email=email)`: position of the first match. */
  function UserIndexByEmail(users: seq<UserRow>, email: string): Option<nat> {
    FindFirst(users, (u: UserRow) => u.email == email)
  }

  /** `User.query.filter_by(email=email).first()`. */
  function FirstByEmail(users: seq<UserRow>, email: string): (r: Option<UserRow>)
    ensures r.Some? ==> r.value in users && r.value.email == email
    ensures r.None? <==> forall j :: 0 <= j < |users| ==> users[j].email != email
  {
    First(users, (u: UserRow) => u.email == email)
  }

  /** With unique emails, the first user with a row's email is that row. */
  lemma FirstByEmailUnique(users: seq<UserRow>, i: nat)
    requires i < |users| && EmailsUnique(users)
    ensures FirstByEmail(users, users[i].email) == Some(users[i])
  {
  }

  // ---------------------------------------------------------------------------------------
  // The User record.

  /** `User.fullname`: first name, a space, last name. */
  function Fullname(u: UserRow): (r: string)
    ensures |r| == |u.firstname| + 1 + |u.lastname|
    ensures r[..|u.firstname|] == u.firstname && r[|u.firstname|] == ' '
    ensures r[|u.firstname| + 1..] == u.lastname
  {
    u.firstname + " " + u.lastname
  }

  /** `User.check_password`: bcrypt's verdict on the stored hash. */
  function CheckPassword(bc: Bcrypt, u: UserRow, password: string): bool {
    bc.check(u.passwordHash, password)
  }

  /** The payload `generate_jwt` signs for a user at time `now`. */
  function JwtClaims(u: UserRow, now: Time): (c: Claims)
    ensures c.iat == Some(now) && c.exp == Some(now + OneDay)
    ensures c.sub == Some(u.email) && c.name == Some(Fullname(u))
  {
    Claims(exp := Some(now + OneDay), iat := Some(now), sub := Some(u.email), name := Some(Fullname(u)))
  }

  /** The fields `validate_email_code` sets on the user its code names. */
  function Verified(u: UserRow, now: Time): UserRow {
    u.(verified := true, verificationCode := None, verifiedOn := Some(now))
  }

  /** The fields `untrust_email` sets: unverified, with `code` pending. */
  function Untrusted(u: UserRow, code: string): UserRow {
    u.(verified := false, verifiedOn := None, verificationCode := Some(code))
  }

  /** The fields `generate_recovery_code` sets: `code` replaces any earlier one. */
  function WithRecoveryCode(u: UserRow, code: string, now: Time): UserRow {
    u.(recoveryCode := Some(code), recoveryGendate := Some(now))
  }

  /** The fields `validate_recovery_code` clears on success. */
  function RecoveryCleared(u: UserRow): UserRow {
    u.(recoveryCode := None, recoveryGendate := None)
  }

  // ---------------------------------------------------------------------------------------
  // The token ledger.

  /**
   * `Token.check_token`: true ("unusable") unless the token has a row that is not revoked;
   * a token the ledger has never seen fails closed.
   */
  function TokenUnusable(ledger: Ledger, token: string): (r: bool)
    ensures !r <==> token in ledger && !ledger[token].revoked
  {
    if token in ledger then ledger[token].revoked else true
  }

  /** The only two writes to the ledger: recording an issued token, and revoking one. */
  datatype LedgerWrite = Record(token: string) | Revocation(token: string, at: Time)

  /**
   * The ledger after one write. Recording a token text that is already present violates
   * the UNIQUE column and changes nothing; revoking a token with no row raises and changes
   * nothing.
   */
  function LedgerStep(ledger: Ledger, w: LedgerWrite): (r: Ledger)
    ensures r.Keys == ledger.Keys + (if w.Record? then {w.token} else {})
    ensures w.Record? && w.token !in ledger ==> r[w.token] == TokenRow(false, None)
    ensures w.Revocation? && w.token in ledger ==> r[w.token] == TokenRow(true, Some(w.at))
    ensures forall t :: t in ledger && (t != w.token || w.Record?) ==> r[t] == ledger[t]
  {
    match w
    case Record(t) => if t in ledger then ledger else ledger[t := TokenRow(false, None)]
    case Revocation(t, at) => if t in ledger then ledger[t := TokenRow(true, Some(at))] else ledger
  }

  /** The claims of a decoded token are current at `now`: they carry an expiry not yet passed, and a subject. */
  predicate Current(c: Claims, now: Time) {
    c.exp.Some? && now <= c.exp.value && c.sub.Some?
  }

  /**
   * `User.validate_token`: decode the token, then refuse it if the ledger does not hold it
   * unrevoked, then if it has expired; otherwise the first user whose email is the token's
   * subject, which may be none.
   */
  function ValidateToken(ledger: Ledger, users: seq<UserRow>, jwt: Jwt, key: string, token: string, now: Time)
    : (r: Outcome<Option<UserRow>>)
    // decoding failures come first, whatever the ledger says
    ensures jwt.decode(token, key) == SignatureExpired ==> r == Raised(SignatureExpiredProblem)
    ensures jwt.decode(token, key) == InvalidToken ==> r == Raised(InvalidTokenProblem)
    // an absent or revoked token is refused before its expiry is looked at
    ensures jwt.decode(token, key).DecodeOk? && TokenUnusable(ledger, token) ==> r == Raised(RevokedProblem)
    ensures jwt.decode(token, key).DecodeOk? && !TokenUnusable(ledger, token)
            && jwt.decode(token, key).claims.exp.Some? && jwt.decode(token, key).claims.exp.value < now
            ==> r == Raised(ExpiredProblem)
    // success means: well signed, recorded and unrevoked, unexpired, with a subject
    ensures r.Returned? <==> jwt.decode(token, key).DecodeOk? && !TokenUnusable(ledger, token)
                             && Current(jwt.decode(token, key).claims, now)
    ensures r.Returned? ==> token in ledger && !ledger[token].revoked
    ensures r.Returned? ==> r.value == FirstByEmail(users, jwt.decode(token, key).claims.sub.value)
  {
    match jwt.decode(token, key)
    case SignatureExpired => Raised(SignatureExpiredProblem)
    case InvalidToken => Raised(InvalidTokenProblem)
    case DecodeOk(c) =>
      if TokenUnusable(ledger, token) then Raised(RevokedProblem)
      else if c.exp.None? then Raised(KeyError("exp"))
      else if c.exp.value < now then Raised(ExpiredProblem)
      else if c.sub.None? then Raised(KeyError("sub"))
      else Returned(FirstByEmail(users, c.sub.value))
  }

  // ---------------------------------------------------------------------------------------
  // Signed codes.

  /**
   * `serializer.loads(code, max_age=current_app.config["EMAIL_EXP"])` inside a
   * `try ... except Exception`: with no `EMAIL_EXP` the lookup raises `KeyError`, which the
   * same handler catches, so the load fails.
   */
  function LoadCode(cfg: Config, signer: Signer, code: string, now: Time): (r: Loaded)
    ensures cfg.emailExp.None? ==> r == LoadFailed
    ensures cfg.emailExp.Some? ==> r == signer.loads(cfg.secretKey, code, cfg.emailExp.value, now)
  {
    match cfg.emailExp
    case None => LoadFailed
    case Some(maxAge) => signer.loads(cfg.secretKey, code, maxAge, now)
  }

  /** `User.query.filter_by(email=email, password_recovery_code=code).first()`. */
  function RecoveryHolder(users: seq<UserRow>, email: string, code: string): Option<nat> {
    FindFirst(users, (u: UserRow) => u.email == email && u.recoveryCode == Some(code))
  }

  // ---------------------------------------------------------------------------------------
  // The database session.

  /**
   * The tables as the request's database session sees them. `Valid` holds the primary-key
   * and UNIQUE constraints; every modelled commit keeps it, and a commit that would break
   * it raises `IntegrityError` and changes nothing.
   */
  class Database {
    var users: seq<UserRow>
    var tokens: Ledger
    var groups: seq<GroupRow>
    var guests: seq<GuestRow>
    var items: seq<MenuItem>
    var nextGroupId: int
    var nextGuestId: int
    var nextItemId: int

    ghost predicate Valid()
      reads this
    {
      && UserIdsUnique(users) && EmailsUnique(users)
      && GroupIdsUnique(groups) && GroupNamesUnique(groups)
      && GuestIdsUnique(guests) && ItemIdsUnique(items)
      && (forall j :: 0 <= j < |groups| ==> groups[j].id < nextGroupId)
      && (forall j :: 0 <= j < |guests| ==> guests[j].id < nextGuestId)
      && (forall j :: 0 <= j < |items| ==> items[j].id < nextItemId)
    }

    constructor ()
      ensures Valid()
      ensures users == [] && tokens == map[] && groups == [] && guests == [] && items == []
    {
      users, tokens, groups, guests, items := [], map[], [], [], [];
      nextGroupId, nextGuestId, nextItemId := 1, 1, 1;
    }

    /** The `User.password` setter: store the bcrypt hash of the new password, never the password. */
    method SetPassword(uid: int, password: string, bc: Bcrypt, salt: int)
      requires Valid() && UserAt(users, uid).Some?
      modifies this`users
      ensures Valid()
      ensures var i := UserAt(old(users), uid).value;
              users == old(users)[i := old(users)[i].(passwordHash := bc.hash(password, salt))]
    ensures forall q :: CheckPassword(bc, users[UserAt(old(users), uid).value], q) == bc.check(bc.hash(password, salt), q)
    {
      var i := UserAt(users, uid).value;
      UserUpdateKeepsKeys(users, i, users[i].(passwordHash := bc.hash(password, salt)));
      users := users[i := users[i].(passwordHash := bc.hash(password, salt))];
    }

    /**
     * `User.generate_jwt`: sign the user's claims; an encoder exception is returned, not
     * raised, and records nothing; otherwise the token is recorded as a fresh unrevoked row
     * (the commit raises if that token text is already recorded) and returned.
     */
    method GenerateJwt(u: UserRow, jwt: Jwt, key: string, now: Time) returns (r: Outcome<Issued>)
      modifies this`tokens
      ensures match jwt.encode(JwtClaims(u, now), key)
              case EncodeError(e) => r == Returned(EncodeFailed(e)) && tokens == old(tokens)
              case EncodeOk(s) =>
                if s in old(tokens) then r == Raised(IntegrityError) && tokens == old(tokens)
                else r == Returned(Issued(s)) && tokens == LedgerStep(old(tokens), Record(s))
      ensures r.Returned? && r.value.Issued? ==>
                r.value.token !in old(tokens) && tokens == old(tokens)[r.value.token := TokenRow(false, None)]
    {
      match jwt.encode(JwtClaims(u, now), key)
      case EncodeError(e) =>
        r := Returned(EncodeFailed(e));
      case EncodeOk(s) =>
        if s in tokens {
          r := Raised(IntegrityError);
        } else {
          tokens := tokens[s := TokenRow(false, None)];
          r := Returned(Issued(s));
        }
    }

    /** `Token.revoke`: mark the token's row revoked at `now`; a token with no row raises. */
    method Revoke(token: string, now: Time) returns (r: Outcome<bool>)
      modifies this`tokens
      ensures r == (if token in old(tokens) then Returned(true) else Raised(AttributeError))
      ensures tokens == LedgerStep(old(tokens), Revocation(token, now))
    {
      if token !in tokens {
        r := Raised(AttributeError);
        return;
      }
      tokens := tokens[token := tokens[token].(revoked := true, revokedOn := Some(now))];
      r := Returned(true);
    }

    /**
     * `User.validate_email_code`: a code that fails to load raises and changes nothing;
     * otherwise the first user with the code's email becomes verified, its pending code
     * cleared and the time stamped (no such user: `None.verified` raises).
     */
    method ValidateEmailCode(signer: Signer, cfg: Config, code: string, now: Time) returns (r: Outcome<()>)
      requires Valid()
      modifies this`users
      ensures Valid()
      ensures LoadCode(cfg, signer, code, now) == LoadFailed ==>
                r == Raised(Error(EmailCodeExpired)) && users == old(users)
      ensures LoadCode(cfg, signer, code, now).LoadOk? ==>
                match UserIndexByEmail(old(users), LoadCode(cfg, signer, code, now).payload)
                case None => r == Raised(AttributeError) && users == old(users)
                case Some(i) =>
                  r == Returned(()) &&
                  users == old(users)[i := Verified(old(users)[i], now)]
    {
      match LoadCode(cfg, signer, code, now)
      case LoadFailed =>
        r := Raised(Error(EmailCodeExpired));
      case LoadOk(email) =>
        match UserIndexByEmail(users, email)
        case None =>
          r := Raised(AttributeError);
        case Some(i) =>
          var u := Verified(users[i], now);
          UserUpdateKeepsKeys(users, i, u);
          users := users[i := u];
          r := Returned(());
    }

    /** `User.untrust_email`: mark the user unverified, with a freshly signed code for its email. */
    method UntrustEmail(uid: int, signer: Signer, cfg: Config, now: Time)
      requires Valid() && UserAt(users, uid).Some?
      modifies this`users
      ensures Valid()
      ensures var i := UserAt(old(users), uid).value;
              users == old(users)[i := Untrusted(old(users)[i], signer.dumps(cfg.secretKey, old(users)[i].email, now))]
    {
      var i := UserAt(users, uid).value;
      var code := signer.dumps(cfg.secretKey, users[i].email, now);
      var u := Untrusted(users[i], code);
      UserUpdateKeepsKeys(users, i, u);
      users := users[i := u];
    }

    /**
     * `User.validate_recovery_code`: the code must load, and some user must have the
     * code's email and hold exactly this code; that user's code and its date are cleared
     * and the user returned.
     */
    method ValidateRecoveryCode(signer: Signer, cfg: Config, code: string, now: Time) returns (r: Outcome<UserRow>)
      requires Valid()
      modifies this`users
      ensures Valid()
      ensures LoadCode(cfg, signer, code, now) == LoadFailed ==>
                r == Raised(Error(RecoveryCodeExpired)) && users == old(users)
      ensures LoadCode(cfg, signer, code, now).LoadOk? ==>
                match RecoveryHolder(old(users), LoadCode(cfg, signer, code, now).payload, code)
                case None => r == Raised(Error(RecoveryCodeInvalid)) && users == old(users)
                case Some(i) =>
                  r == Returned(RecoveryCleared(old(users)[i])) && users == old(users)[i := RecoveryCleared(old(users)[i])]
    {
      match LoadCode(cfg, signer, code, now)
      case LoadFailed =>
        r := Raised(Error(RecoveryCodeExpired));
      case LoadOk(email) =>
        match RecoveryHolder(users, email, code)
        case None =>
          r := Raised(Error(RecoveryCodeInvalid));
        case Some(i) =>
          var u := RecoveryCleared(users[i]);
          UserUpdateKeepsKeys(users, i, u);
          users := users[i := u];
          r := Returned(u);
    }

    /** `User.generate_recovery_code`: replace any earlier recovery code with a fresh one, stamped `now`. */
    method GenerateRecoveryCode(uid: int, signer: Signer, cfg: Config, now: Time)
      requires Valid() && UserAt(users, uid).Some?
      modifies this`users
      ensures Valid()
      ensures var i := UserAt(old(users), uid).value;
              users == old(users)[i := WithRecoveryCode(old(users)[i], signer.dumps(cfg.secretKey, old(users)[i].email, now), now)]
    {
      var i := UserAt(users, uid).value;
      var code := signer.dumps(cfg.secretKey, users[i].email, now);
      var u := WithRecoveryCode(users[i], code, now);
      UserUpdateKeepsKeys(users, i, u);
      users := users[i := u];
    }

    // -------------------------------------------------------------------------------------
    // Row writes of the session (attribute assignment, `session.add`, `session.delete`),
    // each keeping the key constraints.

    /** A user row rewritten in place; its id is kept and no other account has its email. */
    method ReplaceUser(i: nat, u: UserRow)
      requires Valid() && i < |users| && u.id == users[i].id && EmailsUnique(users[i := u])
      modifies this`users
      ensures Valid() && users == old(users)[i := u]
    {
      UpdateKeepsKeys(users, i, u, (x: UserRow) => x.id);
      users := users[i := u];
    }

    /** Every user row rewritten, ids and emails kept. */
    method ReplaceUsers(rows: seq<UserRow>)
      requires Valid() && |rows| == |users|
      requires forall j :: 0 <= j < |rows| ==> rows[j].id == users[j].id && rows[j].email == users[j].email
      modifies this`users
      ensures Valid() && users == rows
    {
      assert forall a, b :: 0 <= a < b < |rows| ==> rows[a].id == users[a].id && rows[b].id == users[b].id;
      users := rows;
    }

    /** The user row at `i` deleted; no row keeps its id. */
    method RemoveUser(i: nat)
      requires Valid() && i < |users|
      modifies this`users
      ensures Valid() && users == RemoveAt(old(users), i)
      ensures forall j :: 0 <= j < |users| ==> users[j].id != old(users)[i].id
    {
      RemoveAtKeepsKeys(users, i, (x: UserRow) => x.id);
      RemoveAtKeepsKeys(users, i, (x: UserRow) => x.email);
      users := RemoveAt(users, i);
    }

    /** A group row rewritten in place; its id is kept and its name is still its own. */
    method ReplaceGroup(i: nat, g: GroupRow)
      requires Valid() && i < |groups| && g.id == groups[i].id
      requires g.friendlyName == groups[i].friendlyName || GroupNamesUnique(groups[i := g])
      modifies this`groups
      ensures Valid() && groups == old(groups)[i := g]
    {
      UpdateKeepsKeys(groups, i, g, (x: GroupRow) => x.id);
      if g.friendlyName == groups[i].friendlyName {
        UpdateKeepsKeys(groups, i, g, (x: GroupRow) => x.friendlyName);
      }
      groups := groups[i := g];
    }

    /** A new group under the next id, with a name no group has. */
    method AppendGroup(g: GroupRow)
      requires Valid() && g.id == nextGroupId
      requires forall j :: 0 <= j < |groups| ==> groups[j].friendlyName != g.friendlyName
      modifies this`groups, this`nextGroupId
      ensures Valid() && groups == old(groups) + [g] && nextGroupId == old(nextGroupId) + 1
    {
      AppendKeepsKeys(groups, g, (x: GroupRow) => x.id);
      AppendKeepsKeys(groups, g, (x: GroupRow) => x.friendlyName);
      groups := groups + [g];
      nextGroupId := nextGroupId + 1;
    }

    /** The group row at `i` deleted; no row keeps its id. */
    method RemoveGroup(i: nat)
      requires Valid() && i < |groups|
      modifies this`groups
      ensures Valid() && groups == RemoveAt(old(groups), i)
      ensures forall j :: 0 <= j < |groups| ==> groups[j].id != old(groups)[i].id
    {
      RemoveAtKeepsKeys(groups, i, (x: GroupRow) => x.id);
      RemoveAtKeepsKeys(groups, i, (x: GroupRow) => x.friendlyName);
      groups := RemoveAt(groups, i);
    }

    /** A guest row rewritten in place, its id kept. */
    method ReplaceGuest(i: nat, g: GuestRow)
      requires Valid() && i < |guests| && g.id == guests[i].id
      modifies this`guests
      ensures Valid() && guests == old(guests)[i := g]
    {
      UpdateKeepsKeys(guests, i, g, (x: GuestRow) => x.id);
      guests := guests[i := g];
    }

    /** Every guest row rewritten, ids kept. */
    method ReplaceGuests(rows: seq<GuestRow>)
      requires Valid() && |rows| == |guests|
      requires forall j :: 0 <= j < |rows| ==> rows[j].id == guests[j].id
      modifies this`guests
      ensures Valid() && guests == rows
    {
      assert forall a, b :: 0 <= a < b < |rows| ==> rows[a].id == guests[a].id && rows[b].id == guests[b].id;
      guests := rows;
    }

    /** A new guest under the next id. */
    method AppendGuest(g: GuestRow)
      requires Valid() && g.id == nextGuestId
      modifies this`guests, this`nextGuestId
      ensures Valid() && guests == old(guests) + [g] && nextGuestId == old(nextGuestId) + 1
    {
      AppendKeepsKeys(guests, g, (x: GuestRow) => x.id);
      guests := guests + [g];
      nextGuestId := nextGuestId + 1;
    }

    /** The guest row at `i` deleted; no row keeps its id. */
    method RemoveGuest(i: nat)
      requires Valid() && i < |guests|
      modifies this`guests
      ensures Valid() && guests == RemoveAt(old(guests), i)
      ensures forall j :: 0 <= j < |guests| ==> guests[j].id != old(guests)[i].id
    {
      RemoveAtKeepsKeys(guests, i, (x: GuestRow) => x.id);
      guests := RemoveAt(guests, i);
    }

    /** A menu item rewritten in place, its id kept. */
    method ReplaceItem(i: nat, m: MenuItem)
      requires Valid() && i < |items| && m.id == items[i].id
      modifies this`items
      ensures Valid() && items == old(items)[i := m]
    {
      UpdateKeepsKeys(items, i, m, (x: MenuItem) => x.id);
      items := items[i := m];
    }

    /** A new menu item under the next id. */
    method AppendItem(m: MenuItem)
      requires Valid() && m.id == nextItemId
      modifies this`items, this`nextItemId
      ensures Valid() && items == old(items) + [m] && nextItemId == old(nextItemId) + 1
    {
      AppendKeepsKeys(items, m, (x: MenuItem) => x.id);
      items := items + [m];
      nextItemId := nextItemId + 1;
    }

    /** The menu item at `i` deleted; no row keeps its id. */
    method RemoveItem(i: nat)
      requires Valid() && i < |items|
      modifies this`items
      ensures Valid() && items == RemoveAt(old(items), i)
      ensures forall j :: 0 <= j < |items| ==> items[j].id != old(items)[i].id
    {
      RemoveAtKeepsKeys(items, i, (x: MenuItem) => x.id);
      items := RemoveAt(items, i);
    }
  }
}
