# wedding-backend: authentication core and record handlers, in Dafny

This project models the Flask/connexion backend of a wedding guest-management service. The
service tracks invitation groups, guests, menu items and user accounts.

The heart of the model is the authentication state in `wedding/models.py`:

- a ledger of issued session tokens (JWT, HS512), each recorded unrevoked at login and
  revoked at logout;
- token validation, which refuses in a fixed order: bad signature, then a token the ledger
  does not hold unrevoked, then expiry;
- the email-verification and password-recovery codes kept on the user record.

Around it sit:

- the administrator guard and the message envelope (`wedding/utils.py`);
- the bearer-token hook (`wedding/auth.py`);
- the login/logout/registration flow (`wedding/dto/authdto.py`, a decompiled file, modelled
  as its reachable code runs);
- the CRUD handlers for users, groups, guests and menu items.

Structure:

- `wrappers.dfy` (`Wrappers`): optional values and the outcome of a call, either a returned
  value or a raised exception.
- `environment.dfy` (`Environment`): the clock, the configuration and the cryptographic
  libraries. Each library is a record of functions the caller supplies (JWT encode/decode,
  bcrypt hash/check, the timed serializer's dumps/loads). Nothing is assumed about what they
  compute, but each is total: the exceptions they can raise are listed under "Left out".
- `query.dfy` (`Query`): tables as sequences of rows in id order. It covers `.first()`,
  filters, deletion of a row and the key-uniqueness lemmas.
- `models.dfy` (`Models`): the rows of every table, the token ledger (`map` from token text
  to row), `validate_token`, and the class `Database`.
  - `Database` is the request's session; its fields are the tables.
  - Its methods are the `User`/`Token` methods that change rows in place.
  - `Valid()` holds the primary-key and UNIQUE constraints.
  - Its row writes (replace, append or remove one row, or rewrite a table with its keys
    unchanged) are the session's attribute assignments, `add` and `delete`. Each keeps
    `Valid()`.
- `lifecycle.dfy` (`Lifecycle`): properties across several operations. These cover
  revocation being permanent, a fresh token validating for one day, recovery codes
  being single-use and superseded, and the password check following the last password set.
- `utils.dfy`, `auth.dfy`, `authdto.dfy`, `user.dfy`, `group.dfy`, `guest.dfy`, `menu.dfy`:
  one module per source file, each handler a method (it changes tables) or a function (it
  only reads).

Conventions:

- A handler returns an `Outcome<Reply<T>>`: the reply body (a message envelope or a record)
  with its HTTP status, or the exception it raises.
- A commit that breaks a UNIQUE or NOT NULL constraint raises `IntegrityError` and changes
  nothing.
- A handler that returns or raises before its commit leaves the tables as they were, because
  the request's session is discarded.
- The `Database` methods model the session: `untrust_email` and `validate_recovery_code`
  change the session's rows without committing, as the source does.
- Every handler guarded by `admin_required` first applies `Utils.AdminCheck`. Its contract
  states the outcome for a non-administrator (403) and for a missing caller.

`wedding/config.py` defines no `EMAIL_EXP`. With the configuration as shipped, every
verification and recovery code fails to load (`Lifecycle.MissingEmailExpRejectsAllCodes`).
`Config.emailExp` models the key being present or absent.

## Model

| member | source | states |
|---|---|---|
| Models.UserUpdateKeepsKeys | wedding/models.py:38-39 | rewriting a user row without changing its id and email keeps ids and emails unique |
| Models.FirstByEmail | wedding/models.py:110 | the user found has the email and is in the table; none is found exactly when no user has the email |
| Models.FirstByEmailUnique | wedding/models.py:39 | with unique emails, looking up a user's email finds that user |
| Models.Fullname | wedding/models.py:77-79 | the full name is the first name, one space, then the last name |
| Models.JwtClaims | wedding/models.py:83-89 | the signed payload has iat = now, exp = now + one day, sub = the email, name = the full name |
| Models.TokenUnusable | wedding/models.py:228-235 | a token is usable exactly when the ledger holds it unrevoked; an unknown token is unusable (fail closed) |
| Models.LedgerStep | wedding/models.py:222-243 | recording adds exactly the new token, unrevoked; revocation marks exactly that row revoked at the given time; no other row changes and no row is removed |
| Models.ValidateToken | wedding/models.py:100-114 | decode errors give their 401 first; then an absent or revoked token gives 401 revoked; then exp < now gives 401 expired; success exactly when well signed, usable, unexpired and with a subject, returning the first user with that email (possibly none) |
| Models.LoadCode | wedding/models.py:118-122 | with no EMAIL_EXP configured the code never loads; otherwise it is the serializer's verdict with that maximum age |
| Models.Database.SetPassword | wedding/models.py:64-71 | only the user's stored hash changes, to the bcrypt hash of the new password; constraints kept; `check_password` on the user then gives bcrypt's verdict against that hash for every candidate |
| Models.Database.GenerateJwt | wedding/models.py:81-98 | an encoder failure is returned and records nothing; otherwise exactly one new unrevoked row whose text is the returned token, or IntegrityError if that text is already recorded |
| Models.Database.Revoke | wedding/models.py:237-243 | a recorded token becomes revoked at `now` and the call returns true; an unrecorded one raises and changes nothing |
| Models.Database.ValidateEmailCode | wedding/models.py:116-130 | a code that fails to load raises "Code has expired" with no change; otherwise the first user with the code's email becomes verified, its code cleared, verified_on = now |
| Models.Database.UntrustEmail | wedding/models.py:132-140 | the user becomes unverified, verified_on cleared, holding a freshly signed code for its email; nothing else changes |
| Models.Database.ValidateRecoveryCode | wedding/models.py:142-157 | expired code raises; a code no user with that email holds raises "not valid"; otherwise that user's code and date are cleared and the user returned |
| Models.Database.GenerateRecoveryCode | wedding/models.py:159-167 | the user's recovery code is replaced by a freshly signed one, stamped `now` |
| Lifecycle.RevocationIsPermanent | wedding/models.py:237-243 | after any sequence of ledger writes a recorded token stays recorded and a revoked token stays revoked |
| Lifecycle.RevokedTokenNeverValidates | wedding/models.py:101-106 | once revoked, a token is refused after any later writes, at any time |
| Lifecycle.FreshTokenValidates | wedding/models.py:81-114 | a just-recorded token that decodes to its claims yields its user for one day after issue |
| Lifecycle.TokenExpiresAfterOneDay | wedding/models.py:85-108 | after one day the token is refused as revoked or expired |
| Lifecycle.SupersededRecoveryCodeRejected | wedding/models.py:150-152 | after a newer recovery code is generated, the previous one is held by no user with that email |
| Lifecycle.CurrentRecoveryCodeAccepted | wedding/models.py:150-157 | the newest recovery code is found on its user |
| Lifecycle.UsedRecoveryCodeCannotBeReplayed | wedding/models.py:150-155 | once a recovery code is accepted and cleared, it is held by nobody with that email |
| Lifecycle.MissingEmailExpRejectsAllCodes | wedding/models.py:120 | with the shipped configuration every code fails to load |
| Lifecycle.LastPasswordSetDecides | wedding/models.py:64-71 | after any sequence of record writes (password set, email verified or untrusted, recovery code issued or used), `check_password` gives bcrypt's verdict against the hash of the last password set, or against the original hash when none was set |
| Lifecycle.EmailVerificationRoundTrip | wedding/models.py:124-140 | an untrusted user holds the new code unverified; the code's email finds that user, and verifying clears the code and sets verified |
| Utils.MakeMessage | wedding/utils.py:22-27 | the envelope holds exactly the keyword entries plus `status` and `message`, set to the given values, and every other keyword entry is kept |
| Utils.Success | wedding/utils.py:30-31 | status "SUCCESS" with the given message and extra entries |
| Utils.Fail | wedding/utils.py:34-35 | status "FAIL" with the given message and extra entries |
| Utils.Info | wedding/utils.py:38-39 | status "INFO" with the given message and extra entries |
| Utils.EnvelopesDistinct | wedding/utils.py:30-39 | success, fail and info envelopes never coincide |
| Utils.AdminCheck | wedding/utils.py:11-14 | the call proceeds exactly when the caller is an administrator; a missing caller raises AttributeError, a non-admin 403 |
| Utils.AdminRequired | wedding/utils.py:8-16 | an administrator gets the handler's own result; anyone else gets the guard's exception |
| Utils.AdminRequiredIgnoresHandler | wedding/utils.py:12-14 | for a non-administrator the result does not depend on the handler, and is 403 |
| Auth.CheckToken | wedding/auth.py:33-47 | returns {'sub': u} with u exactly the validated user, and re-raises validation's problem unchanged; a returned token is recorded and unrevoked |
| Auth.CheckTokenIgnoresScopes | wedding/auth.py:33-45 | required_scopes never changes the result |
| Auth.ChangePassword | wedding/auth.py:5-6 | returns None |
| Auth.ForgottenPassword | wedding/auth.py:9-10 | returns None |
| Auth.Login | wedding/auth.py:13-14 | returns None |
| Auth.Logout | wedding/auth.py:17-18 | returns None |
| Auth.RegisterUser | wedding/auth.py:21-22 | returns None |
| Auth.ResetPassword | wedding/auth.py:25-26 | returns None |
| Auth.VerifyUser | wedding/auth.py:29-30 | returns None |
| AuthDto.Create | wedding/dto/authdto.py:30-58 | unknown code gives 409 "registration code does not exist"; a used email gives 409 "an account already exists"; otherwise None and nothing is created |
| AuthDto.Login | wedding/dto/authdto.py:61-81 | a token is issued (one new ledger row) only for a known email whose password checks; otherwise None with no ledger change |
| AuthDto.Logout | wedding/dto/authdto.py:84-92 | validation problems propagate with no change; a token resolving to a user is revoked (which cannot fail) and 200 returned; an unknown subject gives None |
| AuthDto.LoggedOutTokenRefused | wedding/dto/authdto.py:86-89 | after logout the token is refused at any later time |
| UserApi.ProcessInvitation | wedding/user.py:31-33 | the invitation is confirmed and the requirements copied; type, plus-one and lock unchanged |
| UserApi.Answered | wedding/user.py:43-48 | is_coming is set; courses are set only when coming, otherwise kept; identity kept |
| UserApi.ApplyAnswer | wedding/user.py:41-48 | fails exactly when the group has no guest with the id; otherwise exactly that guest is answered |
| UserApi.AnswersApplied | wedding/user.py:40-48 | applying the answers keeps every guest's id, name, group and account |
| UserApi.AnswersAppliedNoneSticks | wedding/user.py:41-42 | once an answer names an unknown guest, the whole loop fails |
| UserApi.ProcessGuests | wedding/user.py:40-48 | the loop's result is the answers applied in order, or failure at the first unknown guest |
| UserApi.AnswersFailIffUnknownGuest | wedding/user.py:42 | processing fails exactly when some answer names a guest the group does not have |
| UserApi.UnlistedGuestUnchanged | wedding/user.py:40-48 | a guest no answer is about is unchanged |
| UserApi.CoursesChangeOnlyWhenComing | wedding/user.py:43-48 | a guest's courses change only through an answer saying it is coming |
| UserApi.LastAnswerDecides | wedding/user.py:41-48 | with unique ids, the last answer about a guest sets its is_coming, and its courses when coming |
| UserApi.InvitationGroupOf | wedding/user.py:15-17 | the group found is the group of the caller's associated guest; none is found exactly when the caller has no associated guest, that guest has no group, or no group has its group id |
| UserApi.SubmitInvitation | wedding/user.py:14-28 | DECLINED sets the response and touches no guest; otherwise confirm, copy requirements, apply answers; missing caller, guest or group raises; an unknown guest id raises IndexError with no change |
| UserApi.ApplyProfilePatch | wedding/user.py:60-62 | each of email, firstname and lastname takes the body's value when present and keeps the old value otherwise; nothing else changes |
| UserApi.ApplyUserPatch | wedding/user.py:91-95 | as the profile patch, plus the admin flag from the body unless the caller edits their own record |
| UserApi.PatchMe | wedding/user.py:59-64 | the caller's row is patched and 200 returned, or IntegrityError with no change when the new email is taken |
| UserApi.PatchUser | wedding/user.py:85-97 | non-admins refused; unknown id 404 with no change; otherwise the patched row is committed (IntegrityError on a taken email) with the "has been updated" message |
| UserApi.SelfEditKeepsAdmin | wedding/user.py:94-95 | editing one's own record never changes the admin flag |
| UserApi.FindUser | wedding/user.py:67-73 | exactly the users whose full name contains q (and with no associated guest when orphaned); no match at all raises IndexError |
| UserApi.GetUser | wedding/user.py:76-82 | non-admins refused; unknown id 404; otherwise the user with that id |
| UserApi.DetachUser | wedding/user.py:106-107 | guests related to the deleted user lose the relation; others unchanged |
| UserApi.DeleteUser | wedding/user.py:100-109 | non-admins refused; unknown id 404 with no change; otherwise exactly that user is removed, no guest refers to it, 204 |
| GroupApi.GroupGuests | wedding/group.py:39 | the group's guests are exactly the guests whose group is that group |
| GroupApi.GroupGuestsAppend | wedding/group.py:97-98 | appending a guest to a group's table puts it last among that group's guests |
| GroupApi.NewInvitation | wedding/group.py:16-19 | a new invitation has the given type, plus-one defaulting to false, no response, unlocked |
| GroupApi.CreateGroup | wedding/group.py:12-26 | non-admins refused; no invitation raises AttributeError; a missing type, name or code or a taken name gives IntegrityError with no change; otherwise (an admin, an invitation with a type, a name no group has, and a code) the call returns 201 with exactly one new group with the next id |
| GroupApi.ApplyInvitationPatch | wedding/group.py:66-74 | response, type, requirements and locked take the body's value when present; plus-one never changes |
| GroupApi.ApplyGroupPatch | wedding/group.py:63-74 | name and code patched or kept; invitation touched only when supplied; plus-one never changes |
| GroupApi.PatchGroup | wedding/group.py:58-76 | non-admins refused; unknown id 404 with no change; otherwise the patched group committed unless its name is taken |
| GroupApi.GetGroup | wedding/group.py:79-84 | non-admins refused; unknown id 404; otherwise the group with that id |
| GroupApi.DetachUsersFromGroup | wedding/group.py:53-54 | users of the deleted group lose their group; others unchanged |
| GroupApi.DetachGuestsFromGroup | wedding/group.py:53-54 | guests of the deleted group lose their group; others unchanged |
| GroupApi.DeleteGroup | wedding/group.py:48-55 | non-admins refused; unknown id 404 with no change; otherwise exactly that group is removed and nothing refers to it |
| GroupApi.FindByRegistrationCode | wedding/group.py:29-45 | no group with the code gives 404; otherwise a group with that code and exactly its guests with no related user |
| GroupApi.AddGuestToGroup | wedding/group.py:87-101 | non-admins refused; unknown group 404; missing or empty name fails with nothing added; otherwise the group's guests grow by exactly one guest with that name |
| GroupApi.RemoveGuestFromGroup | wedding/group.py:104-117 | non-admins refused; unknown group or guest 404; otherwise exactly that guest is deleted, whatever group it is in |
| GroupApi.RelateUserAndGuest | wedding/group.py:120-141 | non-admins refused; the first missing of group, guest, user gives its 404; otherwise only that guest's account becomes the user |
| GroupApi.RemoveRelationFromGuest | wedding/group.py:144-165 | non-admins refused; unknown group or guest 404; a guest without an account raises; otherwise only that guest's relation is cleared |
| GuestApi.FirstRejection | wedding/guest.py:17-38 | no rejection exactly when every positive course id names an item of that course; otherwise the first rejected of starter, main, desert gives its message |
| GuestApi.MenuLookup | wedding/guest.py:18-20 | an item is found exactly when one with that id belongs to that course, and the item found is such an item |
| GuestApi.CheckChoices | wedding/guest.py:17-40 | the course checks, in order, give exactly the first rejection; when none is rejected, the guest carries exactly the chosen courses |
| GuestApi.AcceptedChoicesOnMenu | wedding/guest.py:17-40 | when no course is rejected, every course the update stores is on the menu for that course |
| GuestApi.WithChoices | wedding/guest.py:17-40 | each positive id is stored in its course field; an absent or non-positive id leaves it; nothing else changes |
| GuestApi.UpdateMenuOptions | wedding/guest.py:7-43 | non-admins refused; unknown guest 404; the first rejected course gives 401 with no change; otherwise the choices are stored and 201; every stored choice is on the menu for its course |
| MenuApi.GetItem | wedding/menu.py:11-15 | unknown id 404; otherwise the item with that id |
| MenuApi.ApplyItemPatch | wedding/menu.py:24-28 | every field takes the body's value when present and keeps the old value otherwise; the id never changes |
| MenuApi.UpdateItem | wedding/menu.py:18-32 | non-admins refused; unknown id 404 with no change; otherwise the patched item |
| MenuApi.DeleteItem | wedding/menu.py:35-43 | open to any caller; unknown id 404 with no change; otherwise exactly that item is removed |
| MenuApi.MissingField | wedding/menu.py:53-60 | the first missing of course, description, gluten_free, vegetarian gives its message; none exactly when all four are present |
| MenuApi.CreateItem | wedding/menu.py:46-72 | open to any caller; the first missing required field gives 400 with nothing created; otherwise one new item with the next id holding exactly the given values |

## Left out

- The cryptographic libraries (PyJWT HS512, bcrypt, itsdangerous) are not modelled. They are
  function parameters, and no property of what they compute is assumed. They are total,
  however, so their own exceptions are not modelled.
- Models.Database.SetPassword: flask-bcrypt's `generate_password_hash` raises `ValueError`
  for an empty password. The model's `hash` is total, so setting `""` stores a hash instead
  of raising.
- AuthDto.Login: the `password_hash` column is nullable, but the model's `passwordHash` is a
  string. A user with no stored hash makes `check_password_hash` raise in the source; in the
  model `check` always gives a verdict.
- Utils.MakeMessage: a keyword named `status` or `message` makes `_message` raise
  `TypeError` in Python. No handler passes one. The model has no such error: in that case
  the given `status` and `message` replace the keyword entries.
- `datetime.now`/`utcnow` are a `now` parameter. The source mixes local time
  (`verified_on`, `revoked_on`, recovery date) with UTC (token payload). It also compares
  `exp` with `utcnow().timestamp()`, which reads a naive UTC time as local time. The model
  uses one clock, so these offsets are not modelled.
- The serialisation to JSON (`User.dump`, and the `dump` of groups, guests and menu items)
  is not modelled; a handler returning a dump returns the row itself.
  - Only `User.dump` is part of this model's source. `GroupApi.GuestDump` lists just a
    guest's id and name.
  - Because dumps are not modelled, `User.dump` reading the group of a user without one
    is not modelled either.
- `all_users`, `get_me`, `get_invitation`, `all_groups` and `get_all` only list or dump rows.
  They are left out.
- `Guest`, `MenuItem`, `MenuCourse`, `User.associated_guest` and the relationship
  `InvitationGroup.guests` are used by the handlers but not defined in `wedding/models.py`.
  - Their fields are inferred from use.
  - The associated guest is the first guest related to the user.
  - A group's guests are the guests whose group is that group.
  - Deleting a user or a group sets the references to it to NULL. This is SQLAlchemy's
    default for a relationship without a delete cascade.
- `InvitationName` rows are not modelled.
- UserApi.ProcessInvitation: the assignment of `staying_in_house` is left out. It branches
  on the class attribute `Invitation.invitation_type` rather than on the instance's type,
  and `Invitation` defines no such column, so nothing is persisted.
- Request bodies are records whose absent keys are `None`, so a JSON `null` is not told
  apart from an absent key. Left out with it:
  - a `KeyError` on a missing required key read with `[]` (`submit_invitation`'s
    `body["invitation"]["requirements"]` and the guests' course keys, `create`'s payload);
  - the `TypeError` of comparing a `null` course id with 0 in `update_menu_options`.
- UserApi.FindUser: models SQL `LIKE '%q%'` as an exact substring test. SQLite's ASCII
  case-insensitivity and the `%`/`_` wildcards inside `q` are not modelled.
- Ids of new groups, guests and menu items come from per-table counters that are never
  reused. SQLite may reuse the largest id after a deletion; that is not modelled.
- `print` calls, the Flask-RESTPlus blueprints, the DTO schema declarations, CORS, the
  CLI, packaging and the Alembic migrations are declarations or I/O. They are not modelled.
- Models.Database.ValidateRecoveryCode and Models.Database.UntrustEmail change the
  session's rows without a commit, as the source does. Whether a later commit in the same
  request persists them is outside the model.
- Models.ValidateToken: the PyJWT decoder also checks `exp` itself. That check is part of
  the abstract `decode` (reported as `SignatureExpired`), so the model keeps both checks.
- Concurrency between requests, and the session's identity map (two handles on one row),
  are not modelled. Each request is one sequence of operations on `Database`.
